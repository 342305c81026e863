/** A pandas DataFrame as a value: an ordered list of distinct column names, the
    cells of each column, and the number of rows. Row filters, column projections
    and column assignment are defined here once and shared by the three stages. */
module Tables {
  import opened Cells

  /** Why a stage stops without producing its output. */
  datatype Error =
    | NoIdColumn                // no column name contains "npi"
    | MissingColumn(name: string)
    | NonNumeric(name: string)  // arithmetic on a column holding text
    | NoFeatures                // the scaler is given zero columns
    | NoSamples                 // the scaler is given zero rows

  datatype Table = Table(names: seq<string>, cols: map<string, seq<Cell>>, height: nat)

  predicate Distinct<T(==)>(s: seq<T>)
  {
    forall i, j :: 0 <= i < j < |s| ==> s[i] != s[j]
  }

  lemma DistinctConcat<T>(a: seq<T>, b: seq<T>)
    requires Distinct(a) && Distinct(b)
    requires forall i, j :: 0 <= i < |a| && 0 <= j < |b| ==> a[i] != b[j]
    ensures Distinct(a + b)
  {
  }

  /** What every DataFrame satisfies: distinct column names, one column per
      name, every column as long as the frame. */
  predicate WellFormed(t: Table)
  {
    && Distinct(t.names)
    && (forall c :: c in t.cols ==> c in t.names)
    && (forall c :: c in t.names ==> c in t.cols)
    && (forall c :: c in t.cols ==> |t.cols[c]| == t.height)
  }

  // ---------------------------------------------------------------------
  // Boolean masks and the rows they keep

  /** The positions at or after `from` where the mask is true, in increasing
      order: exactly the rows a boolean-mask filter keeps. */
  function Kept(keep: seq<bool>, from: nat): (r: seq<nat>)
    requires from <= |keep|
    ensures |r| <= |keep| - from
    ensures forall k :: 0 <= k < |r| ==> from <= r[k] < |keep| && keep[r[k]]
    ensures forall k, l :: 0 <= k < l < |r| ==> r[k] < r[l]
    ensures forall j :: from <= j < |keep| && keep[j] ==> j in r
    decreases |keep| - from
  {
    if from == |keep| then []
    else if keep[from] then [from] + Kept(keep, from + 1)
    else Kept(keep, from + 1)
  }

  /** A position is kept exactly when the mask is true there. */
  lemma KeptMembers(keep: seq<bool>)
    ensures forall i :: 0 <= i < |keep| ==> (i in Kept(keep, 0) <==> keep[i])
  {
    var K := Kept(keep, 0);
    forall i | 0 <= i < |keep| && i in K ensures keep[i] {
      var k :| 0 <= k < |K| && K[k] == i;
    }
  }

  /** The elements of `s` at the positions the mask keeps, in order. */
  function Select<T>(s: seq<T>, keep: seq<bool>): (r: seq<T>)
    requires |keep| == |s|
    ensures |r| == |Kept(keep, 0)|
    ensures forall k :: 0 <= k < |r| ==> r[k] == s[Kept(keep, 0)[k]]
  {
    var K := Kept(keep, 0);
    seq(|K|, k requires 0 <= k < |K| => s[K[k]])
  }

  // ---------------------------------------------------------------------
  // Column lists

  /** The first element of `s` that satisfies `p`, scanning in order; None
      exactly when no element does. */
  function First<T>(s: seq<T>, p: T -> bool): (r: Option<T>)
    ensures r.None? <==> forall x :: x in s ==> !p(x)
    ensures r.Some? ==> exists i :: 0 <= i < |s| && s[i] == r.value && p(r.value)
                                    && forall j :: 0 <= j < i ==> !p(s[j])
  {
    if s == [] then None
    else if p(s[0]) then Some(s[0])
    else
      var r := First(s[1..], p);
      assert r.Some? ==> exists i :: 1 <= i < |s| && s[i] == r.value
                                     && forall j :: 0 <= j < i ==> !p(s[j]) by {
        if r.Some? {
          var i :| 0 <= i < |s[1..]| && s[1..][i] == r.value
                   && forall j :: 0 <= j < i ==> !p(s[1..][j]);
          forall j | 0 <= j < i + 1 ensures !p(s[j]) {
            if j > 0 {
              assert s[j] == s[1..][j - 1];
            }
          }
        }
      }
      r
  }

  /** `[c for c in cs if c in names]`. */
  function PresentIn(cs: seq<string>, names: seq<string>): (r: seq<string>)
    ensures forall c :: c in r <==> c in cs && c in names
    ensures Distinct(cs) ==> Distinct(r)
  {
    var keep := seq(|cs|, i requires 0 <= i < |cs| => cs[i] in names);
    var r := Select(cs, keep);
    var K := Kept(keep, 0);
    assert forall c :: c in cs && c in names ==> c in r by {
      forall c | c in cs && c in names ensures c in r {
        var j :| 0 <= j < |cs| && cs[j] == c;
        assert keep[j] && j in K;
        var k :| 0 <= k < |K| && K[k] == j;
        assert r[k] == c;
      }
    }
    r
  }

  /** The filtered list is the original list with the absent names struck out:
      its k-th name is the name at the k-th kept index, and those indices increase. */
  lemma PresentInOrder(cs: seq<string>, names: seq<string>)
    ensures var keep := seq(|cs|, i requires 0 <= i < |cs| => cs[i] in names);
      && |PresentIn(cs, names)| == |Kept(keep, 0)|
      && forall k :: 0 <= k < |PresentIn(cs, names)| ==> PresentIn(cs, names)[k] == cs[Kept(keep, 0)[k]]
  {
  }

  // ---------------------------------------------------------------------
  // Tables

  /** A column pandas arithmetic accepts: it holds no text. */
  predicate NumericColumn(col: seq<Cell>)
  {
    forall i :: 0 <= i < |col| ==> IsNumeric(col[i])
  }

  /** The first listed column that holds text, where pandas arithmetic raises. */
  function NonNumericIn(t: Table, cs: seq<string>): (r: Option<string>)
    ensures r.None? <==> forall c :: c in cs && c in t.cols ==> NumericColumn(t.cols[c])
    ensures r.Some? ==> r.value in cs && r.value in t.cols && !NumericColumn(t.cols[r.value])
    ensures r.Some? ==> exists i :: 0 <= i < |cs| && cs[i] == r.value
                                    && forall j :: 0 <= j < i ==> cs[j] !in t.cols || NumericColumn(t.cols[cs[j]])
  {
    First(cs, (c: string) => c in t.cols && !NumericColumn(t.cols[c]))
  }

  /** `df[cs]`: the listed columns, in the listed order, rows untouched. */
  function Project(t: Table, cs: seq<string>): (r: Table)
    requires WellFormed(t) && Distinct(cs)
    requires forall c :: c in cs ==> c in t.cols
    ensures WellFormed(r) && r.names == cs && r.height == t.height
    ensures forall c :: c in r.cols ==> r.cols[c] == t.cols[c]
  {
    Table(cs, map c | c in cs :: t.cols[c], t.height)
  }

  /** `df[mask]`: the rows the mask keeps, in their original order, in every column. */
  function FilterRows(t: Table, keep: seq<bool>): (r: Table)
    requires WellFormed(t) && |keep| == t.height
    ensures WellFormed(r) && r.names == t.names && r.height == |Kept(keep, 0)|
    ensures forall c, k :: c in r.cols && 0 <= k < r.height ==> r.cols[c][k] == t.cols[c][Kept(keep, 0)[k]]
  {
    Table(t.names, map c | c in t.cols :: Select(t.cols[c], keep), |Kept(keep, 0)|)
  }

  /** Filtering rows keeps a column free of text. */
  lemma FilterNumeric(t: Table, keep: seq<bool>, c: string)
    requires WellFormed(t) && |keep| == t.height && c in t.cols && NumericColumn(t.cols[c])
    ensures c in FilterRows(t, keep).cols && NumericColumn(FilterRows(t, keep).cols[c])
  {
    var r := FilterRows(t, keep);
    forall k | 0 <= k < |r.cols[c]| ensures IsNumeric(r.cols[c][k]) {
      assert r.cols[c][k] == t.cols[c][Kept(keep, 0)[k]];
    }
  }

  /** `df[name] = col`: replaces an existing column where it stands, or appends
      a new column at the end; every other column is unchanged. */
  function Assigned(t: Table, name: string, col: seq<Cell>): (r: Table)
    requires WellFormed(t) && |col| == t.height
    ensures WellFormed(r) && r.height == t.height
    ensures r.names == if name in t.names then t.names else t.names + [name]
    ensures name in r.cols && r.cols[name] == col
    ensures forall c :: c in t.cols && c != name ==> c in r.cols && r.cols[c] == t.cols[c]
  {
    Table(if name in t.names then t.names else t.names + [name], t.cols[name := col], t.height)
  }

  /** A column holding one value in every row: `df[name] = value`. */
  function Constant(n: nat, value: Cell): (r: seq<Cell>)
    ensures |r| == n && forall i :: 0 <= i < n ==> r[i] == value
  {
    seq(n, _ => value)
  }

  /** The DataFrame a script updates in place. */
  class Frame {
    var names: seq<string>
    var cols: map<string, seq<Cell>>
    var height: nat

    /** The frame's current contents. */
    function Value(): Table
      reads this
    {
      Table(names, cols, height)
    }

    constructor (t: Table)
      requires WellFormed(t)
      ensures Value() == t
    {
      names, cols, height := t.names, t.cols, t.height;
    }

    /** `df[name] = col`. */
    method Assign(name: string, col: seq<Cell>)
      requires WellFormed(Value()) && |col| == height
      modifies this
      ensures Value() == Assigned(old(Value()), name, col)
    {
      if name !in names {
        names := names + [name];
      }
      cols := cols[name := col];
    }
  }
}
