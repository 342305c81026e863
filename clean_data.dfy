/** Stage 1, the loader/cleaner (clean_data.py): find the identifier column,
    keep it with the known context and billing columns, coerce the billing
    columns to numbers and drop the rows without an identifier. */
module CleanData {
  import opened Cells
  import opened Tables

  const CONTEXT_COLS: seq<string> := ["Rndrng_Prvdr_Type", "Rndrng_Prvdr_State_Abrvtn"]

  const BILLING_COLS: seq<string> := [
    "Tot_HCPCS_Cds", "Tot_Benes", "Tot_Srvcs", "Tot_Sbmtd_Chrg",
    "Tot_Mdcr_Alowd_Amt", "Tot_Mdcr_Pymt_Amt", "Tot_Mdcr_Stdzd_Amt"
  ]

  // ---------------------------------------------------------------------
  // Choosing the identifier column

  function LowerChar(c: char): char
  {
    if 'A' <= c <= 'Z' then (c as int + 32) as char else c
  }

  /** `str.lower()` on ASCII letters. */
  function Lower(s: string): string
  {
    seq(|s|, i requires 0 <= i < |s| => LowerChar(s[i]))
  }

  /** Python's substring test `p in s`. */
  predicate Contains(s: string, p: string)
  {
    exists i :: 0 <= i <= |s| - |p| && OccursAt(s, p, i)
  }

  predicate OccursAt(s: string, p: string, i: nat)
  {
    i + |p| <= |s| && s[i..i + |p|] == p
  }

  /** The test applied to every column name: `"npi" in c.lower()`. */
  predicate IdLike(name: string)
  {
    Contains(Lower(name), "npi")
  }

  /** A name in which no "n" (either case) is followed by a "p" is not id-like. */
  lemma NotIdLike(name: string)
    requires forall j :: 0 <= j < |name| - 1 ==> LowerChar(name[j]) != 'n' || LowerChar(name[j + 1]) != 'p'
    ensures !IdLike(name)
  {
    forall i | 0 <= i <= |name| - 3 ensures !OccursAt(Lower(name), "npi", i) {
      assert Lower(name)[i..i + 3][0] == LowerChar(name[i]);
      assert Lower(name)[i..i + 3][1] == LowerChar(name[i + 1]);
    }
  }

  /** None of the fixed context and billing names is id-like, so the identifier
      column is never one of them. */
  lemma FixedColumnsNotIdLike()
    ensures forall c :: c in CONTEXT_COLS + BILLING_COLS ==> !IdLike(c)
  {
    ContextNotIdLike();
    CountsNotIdLike();
    AmountsNotIdLike();
    assert forall c :: c in CONTEXT_COLS + BILLING_COLS <==> c in CONTEXT_COLS || c in BILLING_COLS;
  }

  lemma ContextNotIdLike()
    ensures forall c :: c in CONTEXT_COLS ==> !IdLike(c)
  {
    NotIdLike("Rndrng_Prvdr_Type");
    NotIdLike("Rndrng_Prvdr_State_Abrvtn");
  }

  lemma CountsNotIdLike()
    ensures forall i :: 0 <= i < 3 ==> !IdLike(BILLING_COLS[i])
  {
    NotIdLike("Tot_HCPCS_Cds");
    NotIdLike("Tot_Benes");
    NotIdLike("Tot_Srvcs");
  }

  lemma AmountsNotIdLike()
    ensures forall i :: 3 <= i < 7 ==> !IdLike(BILLING_COLS[i])
  {
    NotIdLike("Tot_Sbmtd_Chrg");
    NotIdLike("Tot_Mdcr_Alowd_Amt");
    NotIdLike("Tot_Mdcr_Pymt_Amt");
    NotIdLike("Tot_Mdcr_Stdzd_Amt");
  }

  /** `npi_candidates[0]`: the first column, in column order, whose lower-cased
      name contains "npi"; None exactly when there is no such column. */
  function IdColumn(names: seq<string>): (r: Option<string>)
    ensures r.None? <==> forall c :: c in names ==> !IdLike(c)
    ensures r.Some? ==> exists i :: 0 <= i < |names| && names[i] == r.value && IdLike(r.value)
                                    && forall j :: 0 <= j < i ==> !IdLike(names[j])
  {
    First(names, IdLike)
  }

  // ---------------------------------------------------------------------
  // Numeric coercion of the billing columns

  /** `pd.to_numeric(errors="coerce")` on one cell. The number grammar of
      pandas is the parameter `parse`; text it parses becomes that number, text
      it rejects becomes Missing, and a cell that is already numeric is kept. */
  function CoerceCell(c: Cell, parse: string -> Option<real>): (r: Cell)
    ensures IsNumeric(r)
    ensures IsNumeric(c) ==> r == c
    ensures c.Text? && parse(c.s).Some? ==> r == Fin(parse(c.s).value)
    ensures c.Text? && parse(c.s).None? ==> r == Missing
  {
    match c
    case Text(s) => if parse(s).Some? then Fin(parse(s).value) else Missing
    case _ => c
  }

  function CoerceColumn(col: seq<Cell>, parse: string -> Option<real>): (r: seq<Cell>)
    ensures |r| == |col| && forall i :: 0 <= i < |col| ==> r[i] == CoerceCell(col[i], parse)
  {
    seq(|col|, i requires 0 <= i < |col| => CoerceCell(col[i], parse))
  }

  /** Coercing twice is coercing once: a coerced column holds no text. */
  lemma CoerceColumnIdempotent(col: seq<Cell>, parse: string -> Option<real>)
    ensures CoerceColumn(CoerceColumn(col, parse), parse) == CoerceColumn(col, parse)
  {
  }

  /** The loop `for col in cs: if col in df.columns: df[col] = pd.to_numeric(...)`
      run on `t`: the listed columns that are present are coerced, every other
      column is unchanged, and names and row count stay as they were. */
  function CoerceFrom(t: Table, cs: seq<string>, parse: string -> Option<real>): (r: Table)
    requires WellFormed(t)
    ensures WellFormed(r) && r.names == t.names && r.height == t.height
    decreases |cs|
  {
    if cs == [] then t
    else
      var c := cs[0];
      var next := if c in t.names then Assigned(t, c, CoerceColumn(t.cols[c], parse)) else t;
      CoerceFrom(next, cs[1..], parse)
  }

  /** After the loop, a listed column holds its coerced cells and every other
      column is unchanged; a column listed twice is coerced once, to the same effect. */
  lemma {:induction false} CoerceFromColumns(t: Table, cs: seq<string>, parse: string -> Option<real>)
    requires WellFormed(t)
    ensures var r := CoerceFrom(t, cs, parse);
      forall c :: c in r.cols ==> r.cols[c] == if c in cs then CoerceColumn(t.cols[c], parse) else t.cols[c]
    decreases |cs|
  {
    if cs != [] {
      var c := cs[0];
      var next := if c in t.names then Assigned(t, c, CoerceColumn(t.cols[c], parse)) else t;
      CoerceFromColumns(next, cs[1..], parse);
      if c in t.names {
        CoerceColumnIdempotent(t.cols[c], parse);
      }
      assert forall d :: d in cs <==> d == c || d in cs[1..];
    }
  }

  /** One step of the coercion loop: `next` is the frame after column cs[i]. */
  lemma CoerceStep(t: Table, next: Table, cs: seq<string>, i: nat, parse: string -> Option<real>)
    requires WellFormed(t) && i < |cs|
    requires next == if cs[i] in t.names then Assigned(t, cs[i], CoerceColumn(t.cols[cs[i]], parse)) else t
    ensures WellFormed(next) && CoerceFrom(t, cs[i..], parse) == CoerceFrom(next, cs[i + 1..], parse)
  {
    assert cs[i..][0] == cs[i] && cs[i..][1..] == cs[i + 1..];
  }

  /** Lines 44-46: the listed columns are coerced one after the other, in place. */
  method CoerceColumns(df: Frame, cs: seq<string>, parse: string -> Option<real>)
    requires WellFormed(df.Value())
    modifies df
    ensures df.Value() == CoerceFrom(old(df.Value()), cs, parse)
  {
    var i := 0;
    while i < |cs|
      invariant 0 <= i <= |cs|
      invariant WellFormed(df.Value())
      invariant CoerceFrom(df.Value(), cs[i..], parse) == CoerceFrom(old(df.Value()), cs, parse)
    {
      var col := cs[i];
      ghost var before := df.Value();
      if col in df.names {
        df.Assign(col, CoerceColumn(df.cols[col], parse));
      }
      CoerceStep(before, df.Value(), cs, i, parse);
      i := i + 1;
    }
  }

  // ---------------------------------------------------------------------
  // The stage

  /** True in every row whose cell is not missing. */
  function PresentMask(col: seq<Cell>): (r: seq<bool>)
    ensures |r| == |col| && forall i :: 0 <= i < |col| ==> (r[i] <==> !col[i].Missing?)
  {
    seq(|col|, i requires 0 <= i < |col| => !col[i].Missing?)
  }

  /** `df.dropna(subset=[id])`. */
  function DropMissingId(t: Table, id: string): (r: Table)
    requires WellFormed(t) && id in t.cols
    ensures WellFormed(r) && r.names == t.names
  {
    FilterRows(t, PresentMask(t.cols[id]))
  }

  /** The columns kept by line 38: the identifier, then the context and billing
      columns that are present, in the fixed list order. */
  function KeptColumns(names: seq<string>, id: string): seq<string>
  {
    [id] + PresentIn(CONTEXT_COLS + BILLING_COLS, names)
  }

  lemma KeptColumnsValid(raw: Table, id: string)
    requires WellFormed(raw) && id in raw.names && IdLike(id)
    ensures Distinct(KeptColumns(raw.names, id))
    ensures forall c :: c in KeptColumns(raw.names, id) ==> c in raw.cols
  {
    FixedColumnsNotIdLike();
    assert Distinct(CONTEXT_COLS + BILLING_COLS);
  }

  /** The whole of clean_data.py on the loaded raw table. */
  function Clean(raw: Table, parse: string -> Option<real>): (r: Result<Table, Error>)
    requires WellFormed(raw)
    ensures r.Success? ==> WellFormed(r.value)
  {
    match IdColumn(raw.names)
    case None => Failure(NoIdColumn)
    case Some(id) =>
      KeptColumnsValid(raw, id);
      var projected := Project(raw, KeptColumns(raw.names, id));
      Success(DropMissingId(CoerceFrom(projected, BILLING_COLS, parse), id))
  }

  /** clean_data.py written as the script runs it: select, project, coerce the
      billing columns in place, then drop rows. */
  method Run(raw: Table, parse: string -> Option<real>) returns (r: Result<Table, Error>)
    requires WellFormed(raw)
    ensures r == Clean(raw, parse)
  {
    var candidate := IdColumn(raw.names);
    if candidate.None? {
      return Failure(NoIdColumn);
    }
    var id := candidate.value;
    KeptColumnsValid(raw, id);
    var df := new Frame(Project(raw, KeptColumns(raw.names, id)));
    CoerceColumns(df, BILLING_COLS, parse);
    r := Success(DropMissingId(df.Value(), id));
  }

  // ---------------------------------------------------------------------
  // What the stage promises

  /** The stage fails, with NoIdColumn, exactly when no column name contains "npi". */
  lemma CleanFailsIffNoId(raw: Table, parse: string -> Option<real>)
    requires WellFormed(raw)
    ensures Clean(raw, parse).Failure? <==> forall c :: c in raw.names ==> !IdLike(c)
    ensures Clean(raw, parse).Failure? ==> Clean(raw, parse).error == NoIdColumn
  {
  }

  /** The output columns are the identifier first, then the context and billing
      columns present in the input, in the fixed list order; no other column. */
  lemma CleanColumns(raw: Table, parse: string -> Option<real>)
    requires WellFormed(raw) && Clean(raw, parse).Success?
    ensures var t := Clean(raw, parse).value; var id := IdColumn(raw.names).value;
      && t.names == [id] + PresentIn(CONTEXT_COLS + BILLING_COLS, raw.names)
      && forall c :: c in t.names <==> c == id || (c in CONTEXT_COLS + BILLING_COLS && c in raw.names)
  {
  }

  /** What an Ok result is made of: the identifier column, which is not a
      billing column, and the coerced projection the rows are dropped from. */
  lemma CleanOk(raw: Table, parse: string -> Option<real>)
    requires WellFormed(raw) && Clean(raw, parse).Success?
    ensures var id := IdColumn(raw.names).value;
      && id in raw.cols && id !in BILLING_COLS
      && var c := CoerceFrom(Project(raw, KeptColumns(raw.names, id)), BILLING_COLS, parse);
      && id in c.cols && c.cols[id] == raw.cols[id] && c.height == raw.height
      && (forall d :: d in c.cols ==>
            && d in raw.cols
            && c.cols[d] == if d in BILLING_COLS then CoerceColumn(raw.cols[d], parse) else raw.cols[d])
      && Clean(raw, parse).value == DropMissingId(c, id)
  {
    FixedColumnsNotIdLike();
    var id := IdColumn(raw.names).value;
    KeptColumnsValid(raw, id);
    var p := Project(raw, KeptColumns(raw.names, id));
    CoerceFromColumns(p, BILLING_COLS, parse);
    assert id in p.cols;
  }

  /** The rows kept are the raw rows whose identifier is present, in their
      original order; every such row is kept; the row count can only shrink. */
  lemma CleanRows(raw: Table, parse: string -> Option<real>)
    requires WellFormed(raw) && Clean(raw, parse).Success?
    ensures var t := Clean(raw, parse).value; var id := IdColumn(raw.names).value;
      var K := Kept(PresentMask(raw.cols[id]), 0);
      && t.height == |K| <= raw.height
      && (forall i :: 0 <= i < raw.height ==> (i in K <==> !raw.cols[id][i].Missing?))
      && (forall k, l :: 0 <= k < l < |K| ==> K[k] < K[l])
  {
    CleanOk(raw, parse);
    var id := IdColumn(raw.names).value;
    KeptMembers(PresentMask(raw.cols[id]));
  }

  /** Every output cell comes from the kept raw row: billing cells through the
      coercion, every other cell unchanged. */
  lemma CleanCells(raw: Table, parse: string -> Option<real>)
    requires WellFormed(raw) && Clean(raw, parse).Success?
    ensures var t := Clean(raw, parse).value; var id := IdColumn(raw.names).value;
      var K := Kept(PresentMask(raw.cols[id]), 0);
      && t.height == |K|
      && forall c, k :: c in t.cols && 0 <= k < t.height ==>
           c in raw.cols && K[k] < raw.height &&
           t.cols[c][k] == if c in BILLING_COLS then CoerceCell(raw.cols[c][K[k]], parse) else raw.cols[c][K[k]]
  {
    CleanOk(raw, parse);
  }

  /** No output row has a missing identifier. */
  lemma CleanIdNeverMissing(raw: Table, parse: string -> Option<real>)
    requires WellFormed(raw) && Clean(raw, parse).Success?
    ensures var t := Clean(raw, parse).value; var id := IdColumn(raw.names).value;
      && id in t.cols
      && forall k :: 0 <= k < t.height ==> !t.cols[id][k].Missing?
  {
    CleanOk(raw, parse);
  }
}
