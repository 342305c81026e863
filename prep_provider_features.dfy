/** Stage 3, the provider feature preparation (prep_provider_features.py):
    replace infinities by missing values, impute the numeric feature columns,
    encode provider, specialty and state as integer codes, and produce the
    feature matrix keyed by provider code and the provider lookup table. */
module PrepProviderFeatures {
  import opened Cells
  import opened Tables
  import opened Medians
  import opened Categories

  const NPI_COL := "Rndrng_NPI"
  const TYPE_COL := "Rndrng_Prvdr_Type"
  const STATE_COL := "Rndrng_Prvdr_State_Abrvtn"
  const PROV_ID := "prov_id"
  const SPEC_ID := "spec_id"
  const STATE_ID := "state_id"

  /** The candidate feature columns, in the order of the feature matrix. */
  const NUMERIC_COLS: seq<string> := [
    "Tot_HCPCS_Cds", "Tot_Benes", "Tot_Srvcs", "Tot_Sbmtd_Chrg",
    "Tot_Mdcr_Alowd_Amt", "Tot_Mdcr_Pymt_Amt", "Tot_Mdcr_Stdzd_Amt",
    "allowed_per_bene", "payment_per_bene", "submitted_per_bene",
    "allowed_per_srv", "payment_per_srv", "submitted_per_srv",
    "submitted_allowed_ratio"
  ]

  const LOOKUP_COLS: seq<string> := [NPI_COL, PROV_ID, TYPE_COL, SPEC_ID, STATE_COL, STATE_ID]

  /** The two files the stage writes. */
  datatype Outputs = Outputs(features: Table, lookup: Table)

  /** The fixed names are distinct, and none of the identifier columns is a
      feature column. */
  lemma FixedNames()
    ensures Distinct(NUMERIC_COLS) && Distinct(LOOKUP_COLS)
    ensures PROV_ID !in NUMERIC_COLS && NPI_COL !in NUMERIC_COLS
    ensures TYPE_COL !in NUMERIC_COLS && STATE_COL !in NUMERIC_COLS
    ensures SPEC_ID !in NUMERIC_COLS && STATE_ID !in NUMERIC_COLS
  {
    NumericNamesDistinct();
    LookupNamesDistinct();
    IdsNotNumeric();
  }

  lemma NumericNamesDistinct()
    ensures Distinct(NUMERIC_COLS)
  {
    var a, b := NUMERIC_COLS[..7], NUMERIC_COLS[7..];
    assert Distinct(a);
    assert Distinct(b);
    assert forall i, j :: 0 <= i < 7 && 0 <= j < 7 ==> a[i][0] != b[j][0];
    DistinctConcat(a, b);
    assert a + b == NUMERIC_COLS;
  }

  lemma LookupNamesDistinct()
    ensures Distinct(LOOKUP_COLS)
  {
  }

  lemma IdsNotNumeric()
    ensures PROV_ID !in NUMERIC_COLS && NPI_COL !in NUMERIC_COLS
    ensures TYPE_COL !in NUMERIC_COLS && STATE_COL !in NUMERIC_COLS
    ensures SPEC_ID !in NUMERIC_COLS && STATE_ID !in NUMERIC_COLS
  {
    NotNumeric(PROV_ID);
    NotNumeric(NPI_COL);
    NotNumeric(TYPE_COL);
    NotNumeric(STATE_COL);
    NotNumeric(SPEC_ID);
    NotNumeric(STATE_ID);
  }

  /** A name that is not spelled like any feature column is not one. */
  lemma NotNumeric(name: string)
    requires forall i :: 0 <= i < |NUMERIC_COLS| ==> NUMERIC_COLS[i] != name
    ensures name !in NUMERIC_COLS
  {
  }

  /** Line 32: the feature columns the frame has, in the fixed order. */
  function NumericCols(names: seq<string>): (r: seq<string>)
    ensures forall c :: c in r <==> c in NUMERIC_COLS && c in names
    ensures Distinct(r) && PROV_ID !in r && NPI_COL !in r && TYPE_COL !in r && STATE_COL !in r
    ensures SPEC_ID !in r && STATE_ID !in r
  {
    FixedNames();
    PresentIn(NUMERIC_COLS, names)
  }

  // ---------------------------------------------------------------------
  // Step 2: infinities become missing

  predicate NoInf(col: seq<Cell>)
  {
    forall i :: 0 <= i < |col| ==> !IsInfinite(col[i])
  }

  predicate NoInfIn(t: Table)
  {
    forall c :: c in t.cols ==> NoInf(t.cols[c])
  }

  /** `col.replace([inf, -inf], nan)`. */
  function ReplaceInfColumn(col: seq<Cell>): (r: seq<Cell>)
    ensures |r| == |col| && NoInf(r)
    ensures forall i :: 0 <= i < |col| && IsInfinite(col[i]) ==> r[i] == Missing
    ensures forall i :: 0 <= i < |col| && !IsInfinite(col[i]) ==> r[i] == col[i]
  {
    seq(|col|, i requires 0 <= i < |col| => if IsInfinite(col[i]) then Missing else col[i])
  }

  /** Line 36: applied to every column of the frame, not only the feature columns. */
  function ReplaceInf(t: Table): (r: Table)
    requires WellFormed(t)
    ensures WellFormed(r) && r.names == t.names && r.height == t.height && NoInfIn(r)
    ensures forall c :: c in r.cols ==> r.cols[c] == ReplaceInfColumn(t.cols[c])
  {
    Table(t.names, map c | c in t.cols :: ReplaceInfColumn(t.cols[c]), t.height)
  }

  // ---------------------------------------------------------------------
  // Step 3: median imputation

  /** The finite values of a column, in row order: what `median()` looks at.
      Each value occurs as many times as the column holds it. */
  function Values(col: seq<Cell>): (r: seq<real>)
    ensures forall x {:trigger multiset(r)[x]} :: multiset(r)[x] == multiset(col)[Fin(x)]
    ensures forall x :: x in r <==> Fin(x) in col
    ensures (forall i :: 0 <= i < |col| ==> !col[i].Fin?) ==> r == []
  {
    if col == [] then []
    else
      assert col == [col[0]] + col[1..];
      assert multiset(col) == multiset{col[0]} + multiset(col[1..]);
      (if col[0].Fin? then [col[0].v] else []) + Values(col[1..])
  }

  /** Replacing infinities does not change the finite values. */
  lemma {:induction false} ValuesReplaceInf(col: seq<Cell>)
    ensures Values(ReplaceInfColumn(col)) == Values(col)
  {
    if col != [] {
      assert ReplaceInfColumn(col)[1..] == ReplaceInfColumn(col[1..]);
      ValuesReplaceInf(col[1..]);
    }
  }

  /** `col.fillna(m)`. */
  function Fill(col: seq<Cell>, m: real): (r: seq<Cell>)
    ensures |r| == |col|
    ensures forall i :: 0 <= i < |col| ==> r[i] == if col[i].Missing? then Fin(m) else col[i]
  {
    seq(|col|, i requires 0 <= i < |col| => if col[i].Missing? then Fin(m) else col[i])
  }

  /** The value a missing cell of the column receives: the median of the finite
      values, or 0 when the column has none. */
  function FillValue(col: seq<Cell>): real
  {
    var vs := Values(col);
    if vs == [] then 0.0 else Median(vs)
  }

  /** The fill value is the median of the column's finite values, each
      counted as often as it occurs, in any order; 0 when there is none. */
  lemma FillValueIsMedian(col: seq<Cell>, vs: seq<real>)
    requires forall x :: multiset(vs)[x] == multiset(col)[Fin(x)]
    ensures FillValue(col) == if vs == [] then 0.0 else Median(vs)
  {
    var w := Values(col);
    assert forall x :: multiset(vs)[x] == multiset(w)[x];
    assert multiset(vs) == multiset(w);
    assert |vs| == |multiset(vs)| == |multiset(w)| == |w|;
    if vs != [] {
      MedianPermutation(vs, w);
    }
  }

  /** Lines 41-46 for one column: a column with no value at all becomes all
      zeros; otherwise the median of its values fills the gaps, and text makes
      `median()` raise, which is None here. */
  function ImputeColumn(col: seq<Cell>): (r: Option<seq<Cell>>)
    requires NoInf(col)
    ensures r.None? <==> !NumericColumn(col)
    ensures r.Some? ==> |r.value| == |col| && forall i :: 0 <= i < |col| ==> r.value[i].Fin?
    ensures r.Some? ==> forall i :: 0 <= i < |col| ==>
              r.value[i] == if col[i].Missing? then Fin(FillValue(col)) else col[i]
  {
    if forall i :: 0 <= i < |col| ==> col[i].Missing? then
      Some(Constant(|col|, Fin(0.0)))
    else if exists i :: 0 <= i < |col| && col[i].Text? then
      None
    else
      var j :| 0 <= j < |col| && !col[j].Missing?;
      assert col[j] == Fin(col[j].v) && col[j].v in Values(col);
      Some(Fill(col, Median(Values(col))))
  }

  /** The three ways a column goes through lines 41-46, in the order the
      script tests them. */
  lemma ImputeColumnCases(col: seq<Cell>)
    requires NoInf(col)
    ensures (forall i :: 0 <= i < |col| ==> col[i].Missing?) ==>
              ImputeColumn(col) == Some(Constant(|col|, Fin(0.0)))
    ensures (exists i :: 0 <= i < |col| && !col[i].Missing?) && (exists i :: 0 <= i < |col| && col[i].Text?) ==>
              ImputeColumn(col) == None
    ensures (exists i :: 0 <= i < |col| && !col[i].Missing?) && !(exists i :: 0 <= i < |col| && col[i].Text?) ==>
              |Values(col)| > 0 && ImputeColumn(col) == Some(Fill(col, Median(Values(col))))
  {
    if (exists i :: 0 <= i < |col| && !col[i].Missing?) && !(exists i :: 0 <= i < |col| && col[i].Text?) {
      var j :| 0 <= j < |col| && !col[j].Missing?;
      assert col[j] == Fin(col[j].v) && col[j].v in Values(col);
    }
  }

  /** The gap in [1, -, 3] is filled with the median 2. */
  lemma ImputeExampleMedian()
    ensures ImputeColumn([Fin(1.0), Missing, Fin(3.0)]) == Some([Fin(1.0), Fin(2.0), Fin(3.0)])
  {
    ExampleFillValue();
    ExampleNumeric();
    ImputeColumnFill([Fin(1.0), Missing, Fin(3.0)]);
    ExampleFill();
  }

  lemma ExampleFill()
    ensures Fill([Fin(1.0), Missing, Fin(3.0)], 2.0) == [Fin(1.0), Fin(2.0), Fin(3.0)]
  {
    var col := [Fin(1.0), Missing, Fin(3.0)];
    var r := Fill(col, 2.0);
    var expected := [Fin(1.0), Fin(2.0), Fin(3.0)];
    assert col[0] == Fin(1.0) && col[1] == Missing && col[2] == Fin(3.0);
    assert r[0] == Fin(1.0) && r[1] == Fin(2.0) && r[2] == Fin(3.0);
    assert forall i :: 0 <= i < 3 ==> r[i] == expected[i];
    SameCells(r, expected);
  }

  /** A numeric column without infinities is imputed by filling its gaps with its fill value. */
  lemma ImputeColumnFill(col: seq<Cell>)
    requires NoInf(col) && NumericColumn(col)
    ensures ImputeColumn(col) == Some(Fill(col, FillValue(col)))
  {
    SameCells(ImputeColumn(col).value, Fill(col, FillValue(col)));
  }

  lemma ExampleFillValue()
    ensures FillValue([Fin(1.0), Missing, Fin(3.0)]) == 2.0
  {
    var col := [Fin(1.0), Missing, Fin(3.0)];
    var vs := [1.0, 3.0];
    assert multiset(col) == multiset{Fin(1.0), Missing, Fin(3.0)};
    assert multiset(vs) == multiset{1.0, 3.0};
    FillValueIsMedian(col, vs);
    MedianExample();
  }

  lemma ExampleNumeric()
    ensures NumericColumn([Fin(1.0), Missing, Fin(3.0)]) && NoInf([Fin(1.0), Missing, Fin(3.0)])
  {
    var col := [Fin(1.0), Missing, Fin(3.0)];
    forall i | 0 <= i < 3 ensures IsNumeric(col[i]) && !IsInfinite(col[i]) {
      assert i == 0 || i == 1 || i == 2;
    }
  }

  lemma SameCells(a: seq<Cell>, b: seq<Cell>)
    requires |a| == |b| && forall i :: 0 <= i < |a| ==> a[i] == b[i]
    ensures a == b
  {
  }

  /** A column of gaps becomes zeros. */
  lemma ImputeExampleEmpty()
    ensures ImputeColumn([Missing, Missing]) == Some([Fin(0.0), Fin(0.0)])
  {
    ImputeColumnCases([Missing, Missing]);
    assert Constant(2, Fin(0.0)) == [Fin(0.0), Fin(0.0)];
  }

  /** A column holding text cannot be imputed. */
  lemma ImputeExampleText()
    ensures ImputeColumn([Fin(1.0), Text("x")]) == None
  {
    assert !IsNumeric([Fin(1.0), Text("x")][1]);
  }

  /** Lines 40-46: the columns are imputed one after the other; the first one
      holding text stops the stage. */
  function ImputeFrom(t: Table, cs: seq<string>): (r: Result<Table, Error>)
    requires WellFormed(t) && NoInfIn(t)
    requires forall c :: c in cs ==> c in t.cols
    ensures r.Success? ==> WellFormed(r.value) && r.value.names == t.names
                           && r.value.height == t.height && NoInfIn(r.value)
    decreases |cs|
  {
    if cs == [] then Success(t)
    else
      match ImputeColumn(t.cols[cs[0]])
      case None => Failure(NonNumeric(cs[0]))
      case Some(col) => ImputeFrom(Assigned(t, cs[0], col), cs[1..])
  }

  /** Whether a list of columns can be imputed: it fails exactly when one of
      them holds text, and names the first such column. */
  lemma {:induction false} ImputeFromFails(t: Table, cs: seq<string>)
    requires WellFormed(t) && NoInfIn(t)
    requires forall c :: c in cs ==> c in t.cols
    ensures ImputeFrom(t, cs).Success? <==> NonNumericIn(t, cs).None?
    ensures ImputeFrom(t, cs).Failure? ==> ImputeFrom(t, cs).error == NonNumeric(NonNumericIn(t, cs).value)
    decreases |cs|
  {
    if cs != [] {
      var c0 := cs[0];
      NonNumericInStep(t, cs);
      if ImputeColumn(t.cols[c0]).Some? {
        var t1 := Assigned(t, c0, ImputeColumn(t.cols[c0]).value);
        ImputedFrame(t, c0);
        assert forall c :: c in cs[1..] ==> c in cs;
        ImputeFromFails(t1, cs[1..]);
        FirstSameOn(cs[1..], t1, t);
      }
    }
  }

  /** The frame after imputing one column: still well formed and free of
      infinities, with the same columns, each as numeric as it was (the imputed
      one was numeric and stays so). */
  lemma ImputedFrame(t: Table, c0: string)
    requires WellFormed(t) && NoInfIn(t) && c0 in t.cols && ImputeColumn(t.cols[c0]).Some?
    ensures var t1 := Assigned(t, c0, ImputeColumn(t.cols[c0]).value);
      && WellFormed(t1) && NoInfIn(t1) && t1.names == t.names
      && forall c :: c in t.cols ==> c in t1.cols && (NumericColumn(t1.cols[c]) <==> NumericColumn(t.cols[c]))
  {
    var col := ImputeColumn(t.cols[c0]).value;
    assert NumericColumn(col) && NoInf(col);
  }

  /** After imputing a list of distinct columns, every listed column is imputed
      from its own values and every other column is untouched. */
  lemma {:induction false} ImputeFromColumns(t: Table, cs: seq<string>)
    requires WellFormed(t) && NoInfIn(t) && Distinct(cs)
    requires forall c :: c in cs ==> c in t.cols
    requires ImputeFrom(t, cs).Success?
    ensures forall c :: c in cs ==> ImputeColumn(t.cols[c]).Some?
    ensures forall c :: c in t.cols ==>
              ImputeFrom(t, cs).value.cols[c] == if c in cs then ImputeColumn(t.cols[c]).value else t.cols[c]
    decreases |cs|
  {
    ImputeFromFails(t, cs);
    if cs != [] {
      var c0 := cs[0];
      var col := ImputeColumn(t.cols[c0]).value;
      var t1 := Assigned(t, c0, col);
      ImputedFrame(t, c0);
      DistinctTail(cs);
      ImputeFromColumns(t1, cs[1..]);
      var r := ImputeFrom(t, cs).value;
      assert r == ImputeFrom(t1, cs[1..]).value;
      forall c | c in t.cols
        ensures r.cols[c] == if c in cs then ImputeColumn(t.cols[c]).value else t.cols[c]
      {
        if c == c0 {
          assert r.cols[c] == col;
        } else {
          assert t1.cols[c] == t.cols[c];
          assert c in cs <==> c in cs[1..];
        }
      }
    }
  }

  /** One step of the imputation loop: `next` is the frame after imputing cs[i]. */
  lemma ImputeStep(t: Table, next: Table, cs: seq<string>, i: nat)
    requires WellFormed(t) && NoInfIn(t) && i < |cs|
    requires forall d :: d in cs[i..] ==> d in t.cols
    requires ImputeColumn(t.cols[cs[i]]).Some?
    requires next == Assigned(t, cs[i], ImputeColumn(t.cols[cs[i]]).value)
    ensures WellFormed(next) && NoInfIn(next)
    ensures forall d :: d in cs[i + 1..] ==> d in next.cols
    ensures ImputeFrom(t, cs[i..]) == ImputeFrom(next, cs[i + 1..])
  {
    assert cs[i..][0] == cs[i] && cs[i..][1..] == cs[i + 1..];
    ImputedFrame(t, cs[i]);
  }

  /** The step of the imputation loop that stops on a column holding text. */
  lemma ImputeStop(t: Table, cs: seq<string>, i: nat)
    requires WellFormed(t) && NoInfIn(t) && i < |cs|
    requires forall d :: d in cs[i..] ==> d in t.cols
    requires ImputeColumn(t.cols[cs[i]]).None?
    ensures ImputeFrom(t, cs[i..]) == Failure(NonNumeric(cs[i]))
  {
    assert cs[i..][0] == cs[i];
  }

  lemma DistinctTail(cs: seq<string>)
    requires cs != [] && Distinct(cs)
    ensures Distinct(cs[1..]) && cs[0] !in cs[1..]
  {
    assert forall i :: 0 <= i < |cs[1..]| ==> cs[1..][i] == cs[i + 1];
  }

  /** The first text column is the head of the list when it holds text, and
      the first text column of the rest otherwise. */
  lemma NonNumericInStep(t: Table, cs: seq<string>)
    requires cs != []
    ensures NonNumericIn(t, cs) ==
      if cs[0] in t.cols && !NumericColumn(t.cols[cs[0]]) then Some(cs[0]) else NonNumericIn(t, cs[1..])
  {
  }

  /** Two frames whose listed columns hold text alike report the same first text column. */
  lemma {:induction false} FirstSameOn(cs: seq<string>, a: Table, b: Table)
    requires forall c :: c in cs ==> c in a.cols && c in b.cols && (NumericColumn(a.cols[c]) <==> NumericColumn(b.cols[c]))
    ensures NonNumericIn(a, cs) == NonNumericIn(b, cs)
  {
    if cs != [] {
      assert forall c :: c in cs[1..] ==> c in cs;
      FirstSameOn(cs[1..], a, b);
    }
  }

  /** Lines 41-46 for one column as the script tests it: `notna().any()`
      first, then `median()`, which raises on text. */
  method ImputeOne(col: seq<Cell>) returns (r: Option<seq<Cell>>)
    requires NoInf(col)
    ensures r == ImputeColumn(col)
  {
    ImputeColumnCases(col);
    if exists j :: 0 <= j < |col| && !col[j].Missing? {
      if exists j :: 0 <= j < |col| && col[j].Text? {
        return None;
      }
      return Some(Fill(col, Median(Values(col))));
    }
    return Some(Constant(|col|, Fin(0.0)));
  }

  /** Lines 40-46 as the script runs them, updating the frame column by column. */
  method ImputeNumeric(df: Frame, cs: seq<string>) returns (err: Option<Error>)
    requires WellFormed(df.Value()) && NoInfIn(df.Value())
    requires forall c :: c in cs ==> c in df.cols
    modifies df
    ensures err.None? ==> ImputeFrom(old(df.Value()), cs) == Success(df.Value())
    ensures err.Some? ==> ImputeFrom(old(df.Value()), cs) == Failure(err.value)
  {
    var i := 0;
    while i < |cs|
      invariant 0 <= i <= |cs|
      invariant WellFormed(df.Value()) && NoInfIn(df.Value())
      invariant forall c :: c in cs[i..] ==> c in df.cols
      invariant ImputeFrom(df.Value(), cs[i..]) == ImputeFrom(old(df.Value()), cs)
    {
      var c := cs[i];
      assert c in cs[i..];
      ghost var before := df.Value();
      var imputed := ImputeOne(df.cols[c]);
      if imputed.None? {
        ImputeStop(before, cs, i);
        return Some(NonNumeric(c));
      }
      df.Assign(c, imputed.value);
      ImputeStep(before, df.Value(), cs, i);
      i := i + 1;
    }
    return None;
  }

  // ---------------------------------------------------------------------
  // Step 4: integer codes

  /** `col.astype("category").cat.codes`, stored as a numeric column. */
  function CodeColumn(col: seq<Cell>): (r: seq<Cell>)
    ensures |r| == |col| && forall i :: 0 <= i < |col| ==> r[i] == Fin(Codes(col)[i] as real)
  {
    seq(|col|, i requires 0 <= i < |col| => Fin(Codes(col)[i] as real))
  }

  /** A code column for a column the frame has, -1 in every row otherwise. */
  function CodesOrSentinel(t: Table, name: string): (r: seq<Cell>)
    requires WellFormed(t)
    ensures |r| == t.height
    ensures name in t.names ==> r == CodeColumn(t.cols[name])
    ensures name !in t.names ==> forall i :: 0 <= i < t.height ==> r[i] == Fin(-1.0)
  {
    if name in t.names then CodeColumn(t.cols[name]) else Constant(t.height, Fin(-1.0))
  }

  /** Lines 55-65: the three code columns, each assignment reading the current frame. */
  function Encode(t: Table): (r: Table)
    requires WellFormed(t) && NPI_COL in t.cols
    ensures WellFormed(r) && r.height == t.height
  {
    var t1 := Assigned(t, PROV_ID, CodeColumn(t.cols[NPI_COL]));
    var t2 := Assigned(t1, SPEC_ID, CodesOrSentinel(t1, TYPE_COL));
    Assigned(t2, STATE_ID, CodesOrSentinel(t2, STATE_COL))
  }

  /** The encoded frame has the three code columns, computed from the frame
      before encoding, and every other column unchanged. */
  lemma EncodeColumns(t: Table)
    requires WellFormed(t) && NPI_COL in t.cols
    ensures var r := Encode(t);
      && (forall c :: c in r.names <==> c in t.names || c in [PROV_ID, SPEC_ID, STATE_ID])
      && r.cols[PROV_ID] == CodeColumn(t.cols[NPI_COL])
      && r.cols[SPEC_ID] == CodesOrSentinel(t, TYPE_COL)
      && r.cols[STATE_ID] == CodesOrSentinel(t, STATE_COL)
      && forall c :: c in t.cols && c !in [PROV_ID, SPEC_ID, STATE_ID] ==> r.cols[c] == t.cols[c]
  {
    var t1 := Assigned(t, PROV_ID, CodeColumn(t.cols[NPI_COL]));
    assert TYPE_COL in t1.names <==> TYPE_COL in t.names;
    assert TYPE_COL in t.names ==> t1.cols[TYPE_COL] == t.cols[TYPE_COL];
    assert CodesOrSentinel(t1, TYPE_COL) == CodesOrSentinel(t, TYPE_COL);
    var t2 := Assigned(t1, SPEC_ID, CodesOrSentinel(t1, TYPE_COL));
    assert STATE_COL in t2.names <==> STATE_COL in t.names;
    assert STATE_COL in t.names ==> t2.cols[STATE_COL] == t.cols[STATE_COL];
    assert CodesOrSentinel(t2, STATE_COL) == CodesOrSentinel(t, STATE_COL);
  }

  // ---------------------------------------------------------------------
  // Steps 5 and 6: the outputs

  /** Lines 76-77: the provider code, then the feature columns. */
  function Features(t: Table, numeric: seq<string>): (r: Table)
    requires WellFormed(t) && PROV_ID in t.cols && Distinct(numeric) && PROV_ID !in numeric
    requires forall c :: c in numeric ==> c in t.cols
    ensures WellFormed(r) && r.names == [PROV_ID] + numeric && r.height == t.height
    ensures forall c :: c in r.cols ==> r.cols[c] == t.cols[c]
  {
    assert Distinct([PROV_ID] + numeric) by {
      forall i, j | 0 <= i < j < |[PROV_ID] + numeric| ensures ([PROV_ID] + numeric)[i] != ([PROV_ID] + numeric)[j] {
        if i == 0 {
          assert ([PROV_ID] + numeric)[j] == numeric[j - 1];
        }
      }
    }
    Project(t, [PROV_ID] + numeric)
  }

  /** `drop_duplicates`: true at the first row holding each value. */
  function FirstOccurrence(col: seq<Cell>): (r: seq<bool>)
    ensures |r| == |col| && forall i :: 0 <= i < |col| ==> (r[i] <==> col[i] !in col[..i])
  {
    seq(|col|, i requires 0 <= i < |col| => col[i] !in col[..i])
  }

  /** Lines 82-91: the lookup columns the frame has, one row per distinct provider code. */
  function Lookup(t: Table): (r: Table)
    requires WellFormed(t) && PROV_ID in t.cols
    ensures WellFormed(r) && r.names == PresentIn(LOOKUP_COLS, t.names)
  {
    FixedNames();
    var p := Project(t, PresentIn(LOOKUP_COLS, t.names));
    FilterRows(p, FirstOccurrence(p.cols[PROV_ID]))
  }

  /** The whole stage on the frame read from the stage-2 file. */
  function Prepare(t: Table): (r: Result<Outputs, Error>)
    requires WellFormed(t)
  {
    var numeric := NumericCols(t.names);
    var t1 := ReplaceInf(t);
    match ImputeFrom(t1, numeric)
    case Failure(e) => Failure(e)
    case Success(t2) =>
      if NPI_COL !in t2.names then Failure(MissingColumn(NPI_COL))
      else
        var t3 := Encode(t2);
        EncodeColumns(t2);
        if t3.height == 0 then Failure(NoSamples)
        else if numeric == [] then Failure(NoFeatures)
        else Success(Outputs(Features(t3, numeric), Lookup(t3)))
  }

  /** prep_provider_features.py as the script runs it, on one frame updated in place. */
  method Run(t: Table) returns (r: Result<Outputs, Error>)
    requires WellFormed(t)
    ensures r == Prepare(t)
  {
    var numeric := NumericCols(t.names);
    var df := new Frame(ReplaceInf(t));
    var err := ImputeNumeric(df, numeric);
    if err.Some? {
      return Failure(err.value);
    }
    if NPI_COL !in df.names {
      return Failure(MissingColumn(NPI_COL));
    }
    ghost var t2 := df.Value();
    df.Assign(PROV_ID, CodeColumn(df.cols[NPI_COL]));
    df.Assign(SPEC_ID, CodesOrSentinel(df.Value(), TYPE_COL));
    df.Assign(STATE_ID, CodesOrSentinel(df.Value(), STATE_COL));
    assert df.Value() == Encode(t2);
    EncodeColumns(t2);
    if df.height == 0 {
      return Failure(NoSamples);
    }
    if numeric == [] {
      return Failure(NoFeatures);
    }
    r := Success(Outputs(Features(df.Value(), numeric), Lookup(df.Value())));
  }

  // ---------------------------------------------------------------------
  // What the stage promises

  /** Replacing infinities neither adds nor removes text. */
  lemma ReplaceInfKeepsText(t: Table, cs: seq<string>)
    requires WellFormed(t) && forall c :: c in cs ==> c in t.cols
    ensures NonNumericIn(ReplaceInf(t), cs) == NonNumericIn(t, cs)
  {
    var t1 := ReplaceInf(t);
    forall c | c in cs ensures NumericColumn(t1.cols[c]) <==> NumericColumn(t.cols[c]) {
      var col := t.cols[c];
      assert forall i :: 0 <= i < |col| ==> (t1.cols[c][i].Text? <==> col[i].Text?);
    }
    FirstSameOn(cs, t1, t);
  }

  /** The frame the outputs are taken from: inf replaced, imputed and encoded. */
  function Encoded(t: Table): (r: Table)
    requires WellFormed(t)
    requires ImputeFrom(ReplaceInf(t), NumericCols(t.names)).Success?
    requires NPI_COL in t.names
  {
    Encode(ImputeFrom(ReplaceInf(t), NumericCols(t.names)).value)
  }

  /** When the stage succeeds, its two outputs come from the encoded frame. */
  lemma PrepareOk(t: Table)
    requires WellFormed(t) && Prepare(t).Success?
    ensures ImputeFrom(ReplaceInf(t), NumericCols(t.names)).Success? && NPI_COL in t.names
    ensures t.height > 0 && NumericCols(t.names) != []
    ensures Prepare(t).value == Outputs(Features(Encoded(t), NumericCols(t.names)), Lookup(Encoded(t)))
  {
    EncodeColumns(ImputeFrom(ReplaceInf(t), NumericCols(t.names)).value);
  }

  /** The stage fails exactly in these cases, checked in this order: a present
      feature column holds text (the median raises), the provider column is
      absent (line 55), there are no rows, or no feature column is present (the
      scaler rejects an empty matrix). */
  lemma PrepareErrors(t: Table)
    requires WellFormed(t)
    ensures var numeric := NumericCols(t.names);
      && (Prepare(t).Success? <==>
            NonNumericIn(t, numeric).None? && NPI_COL in t.names && t.height > 0 && numeric != [])
      && (NonNumericIn(t, numeric).Some? ==> Prepare(t) == Failure(NonNumeric(NonNumericIn(t, numeric).value)))
      && (NonNumericIn(t, numeric).None? && NPI_COL !in t.names ==> Prepare(t) == Failure(MissingColumn(NPI_COL)))
      && (NonNumericIn(t, numeric).None? && NPI_COL in t.names && t.height == 0 ==> Prepare(t) == Failure(NoSamples))
      && (NonNumericIn(t, numeric).None? && NPI_COL in t.names && t.height > 0 && numeric == [] ==>
            Prepare(t) == Failure(NoFeatures))
  {
    var numeric := NumericCols(t.names);
    ReplaceInfKeepsText(t, numeric);
    ImputeFromFails(ReplaceInf(t), numeric);
    if ImputeFrom(ReplaceInf(t), numeric).Success? && NPI_COL in t.names {
      EncodeColumns(ImputeFrom(ReplaceInf(t), numeric).value);
    }
  }

  /** Every feature cell is a finite number: a finite input value is kept, and a
      missing or infinite one is replaced by the column's fill value (the median
      of its finite values, or 0 when it has none). */
  lemma PrepareFeatureCells(t: Table)
    requires WellFormed(t) && Prepare(t).Success?
    ensures var f := Prepare(t).value.features; var numeric := NumericCols(t.names);
      && f.names == [PROV_ID] + numeric && f.height == t.height
      && forall c, i :: c in numeric && 0 <= i < t.height ==>
           f.cols[c][i].Fin? &&
           f.cols[c][i] == if t.cols[c][i].Fin? then t.cols[c][i] else Fin(FillValue(t.cols[c]))
  {
    PrepareOk(t);
    var numeric := NumericCols(t.names);
    var e := Encoded(t);
    var f := Features(e, numeric);
    assert Prepare(t).value.features == f;
    forall c, i | c in numeric && 0 <= i < t.height
      ensures f.cols[c][i].Fin? && f.cols[c][i] == if t.cols[c][i].Fin? then t.cols[c][i] else Fin(FillValue(t.cols[c]))
    {
      EncodedFeatureColumn(t, c);
      assert f.cols[c] == e.cols[c];
    }
  }

  /** Column c of the encoded frame holds the imputed input column, cell by cell. */
  predicate EncodedColumnImputed(t: Table, c: string)
    requires WellFormed(t) && ImputeFrom(ReplaceInf(t), NumericCols(t.names)).Success?
    requires NPI_COL in t.names && c in NumericCols(t.names)
  {
    EncodeColumns(ImputeFrom(ReplaceInf(t), NumericCols(t.names)).value);
    var e := Encoded(t);
    forall i :: 0 <= i < t.height ==>
      e.cols[c][i].Fin? &&
      e.cols[c][i] == if t.cols[c][i].Fin? then t.cols[c][i] else Fin(FillValue(t.cols[c]))
  }

  lemma EncodedFeatureColumn(t: Table, c: string)
    requires WellFormed(t) && ImputeFrom(ReplaceInf(t), NumericCols(t.names)).Success?
    requires NPI_COL in t.names && c in NumericCols(t.names)
    ensures EncodedColumnImputed(t, c)
  {
    var numeric := NumericCols(t.names);
    var t1 := ReplaceInf(t);
    var t2 := ImputeFrom(t1, numeric).value;
    ImputeFromColumns(t1, numeric);
    EncodeColumns(t2);
    assert t1.cols[c] == ReplaceInfColumn(t.cols[c]);
    assert Encoded(t).cols[c] == t2.cols[c] == ImputeColumn(ReplaceInfColumn(t.cols[c])).value;
    ImputeAfterReplace(t.cols[c]);
  }

  /** A column after lines 36-46: finite values kept, every other cell filled. */
  lemma ImputeAfterReplace(col: seq<Cell>)
    requires ImputeColumn(ReplaceInfColumn(col)).Some?
    ensures var r := ImputeColumn(ReplaceInfColumn(col)).value;
      && |r| == |col|
      && forall i :: 0 <= i < |col| ==> r[i].Fin? && r[i] == if col[i].Fin? then col[i] else Fin(FillValue(col))
  {
    ValuesReplaceInf(col);
    var col1 := ReplaceInfColumn(col);
    assert FillValue(col1) == FillValue(col);
    assert NumericColumn(col1);
  }

  /** The first column of the feature matrix is the provider code of each row. */
  lemma PrepareProviderColumn(t: Table)
    requires WellFormed(t) && Prepare(t).Success?
    ensures var f := Prepare(t).value.features;
      f.cols[PROV_ID] == CodeColumn(ReplaceInfColumn(t.cols[NPI_COL]))
  {
    PrepareOk(t);
    var numeric := NumericCols(t.names);
    var t1 := ReplaceInf(t);
    ImputeFromColumns(t1, numeric);
    EncodeColumns(ImputeFrom(t1, numeric).value);
  }

  /** Provider codes: rows with the same provider get the same code, different
      providers get different codes ordered as the providers sort, and the
      codes of the present providers are exactly 0 .. k - 1 for k providers. */
  lemma PrepareProviderCodes(t: Table, i: nat, j: nat)
    requires WellFormed(t) && Prepare(t).Success?
    requires i < t.height && j < t.height
    requires !ReplaceInfColumn(t.cols[NPI_COL])[i].Missing? && !ReplaceInfColumn(t.cols[NPI_COL])[j].Missing?
    ensures var ids := Prepare(t).value.features.cols[PROV_ID]; var npi := ReplaceInfColumn(t.cols[NPI_COL]);
      && (npi[i] == npi[j] <==> ids[i] == ids[j])
      && (Less(npi[i], npi[j]) <==> ids[i].v < ids[j].v)
      && 0.0 <= ids[i].v < |CategorySet(npi)| as real
  {
    PrepareProviderColumn(t);
    var npi := ReplaceInfColumn(t.cols[NPI_COL]);
    CodesOrder(npi, i, j);
    CodesRange(npi);
  }

  /** The codes of the rows with a provider are exactly 0 .. k - 1. */
  lemma PrepareProviderCodesDense(t: Table)
    requires WellFormed(t) && Prepare(t).Success?
    ensures var npi := ReplaceInfColumn(t.cols[NPI_COL]);
      (set i | 0 <= i < |npi| && !npi[i].Missing? :: Codes(npi)[i]) == Range(|CategorySet(npi)|)
  {
    CodesDense(ReplaceInfColumn(t.cols[NPI_COL]));
  }

  /** The index of the first row holding the same value as row i. */
  lemma {:induction false} FirstIndexOf(s: seq<Cell>, i: nat)
    requires i < |s|
    ensures exists j :: 0 <= j <= i && s[j] == s[i] && s[i] !in s[..j]
  {
    if s[i] in s[..i] {
      var j0 :| 0 <= j0 < i && s[..i][j0] == s[i];
      FirstIndexOf(s, j0);
    } else {
      assert s[i] !in s[..i];
    }
  }

  /** The lookup table: the lookup columns the frame has, and the rows at the
      first occurrence of each provider code, so that every provider code
      appears exactly once and every row of the table is such a first row. */
  lemma LookupRows(t: Table)
    requires WellFormed(t) && PROV_ID in t.cols
    ensures var l := Lookup(t); var ids := t.cols[PROV_ID]; var K := Kept(FirstOccurrence(ids), 0);
      && l.names == PresentIn(LOOKUP_COLS, t.names)
      && l.height == |K|
      && PROV_ID in l.cols && Distinct(l.cols[PROV_ID])
      && (forall i :: 0 <= i < t.height ==> ids[i] in l.cols[PROV_ID])
      && (forall k :: 0 <= k < |K| ==> ids[K[k]] !in ids[..K[k]])
      && forall c, k :: c in l.cols && 0 <= k < |K| ==> l.cols[c][k] == t.cols[c][K[k]]
  {
    FixedNames();
    var ids := t.cols[PROV_ID];
    var p := Project(t, PresentIn(LOOKUP_COLS, t.names));
    assert p.cols[PROV_ID] == ids;
    var keep := FirstOccurrence(ids);
    var K := Kept(keep, 0);
    var l := Lookup(t);
    assert l == FilterRows(p, keep);
    forall k, m | 0 <= k < m < |K| ensures l.cols[PROV_ID][k] != l.cols[PROV_ID][m] {
      assert K[k] < K[m] && ids[K[k]] in ids[..K[m]];
    }
    forall i | 0 <= i < t.height ensures ids[i] in l.cols[PROV_ID] {
      FirstIndexOf(ids, i);
      var j :| 0 <= j <= i && ids[j] == ids[i] && ids[i] !in ids[..j];
      assert keep[j] && j in K;
      var k :| 0 <= k < |K| && K[k] == j;
      assert l.cols[PROV_ID][k] == ids[i];
    }
  }

  /** The stage's lookup table has the provider, its code, and the specialty
      and state codes, and also the specialty and state columns when the input
      has them; nothing else. */
  lemma PrepareLookupColumns(t: Table)
    requires WellFormed(t) && Prepare(t).Success?
    ensures var l := Prepare(t).value.lookup;
      forall c :: c in l.names <==> c in [NPI_COL, PROV_ID, SPEC_ID, STATE_ID] || (c in [TYPE_COL, STATE_COL] && c in t.names)
  {
    PrepareOk(t);
    var t2 := ImputeFrom(ReplaceInf(t), NumericCols(t.names)).value;
    EncodeColumns(t2);
    var e := Encoded(t);
    assert Prepare(t).value.lookup == Lookup(e);
    LookupNames(e.names, t.names);
  }

  lemma LookupNames(encoded: seq<string>, input: seq<string>)
    requires NPI_COL in input
    requires forall c :: c in encoded <==> c in input || c in [PROV_ID, SPEC_ID, STATE_ID]
    ensures forall c :: c in PresentIn(LOOKUP_COLS, encoded) <==>
              c in [NPI_COL, PROV_ID, SPEC_ID, STATE_ID] || (c in [TYPE_COL, STATE_COL] && c in input)
  {
  }

  /** The stage's lookup table has one row per provider code, and exactly the
      provider codes of the feature matrix. */
  lemma PrepareLookup(t: Table)
    requires WellFormed(t) && Prepare(t).Success?
    ensures var l := Prepare(t).value.lookup; var f := Prepare(t).value.features;
      && PROV_ID in l.cols && Distinct(l.cols[PROV_ID])
      && (forall i :: 0 <= i < f.height ==> f.cols[PROV_ID][i] in l.cols[PROV_ID])
      && (forall k :: 0 <= k < l.height ==> l.cols[PROV_ID][k] in f.cols[PROV_ID])
  {
    PrepareOk(t);
    var numeric := NumericCols(t.names);
    var t2 := ImputeFrom(ReplaceInf(t), numeric).value;
    EncodeColumns(t2);
    var e := Encoded(t);
    assert Prepare(t).value.lookup == Lookup(e);
    assert Prepare(t).value.features == Features(e, numeric);
    assert Features(e, numeric).cols[PROV_ID] == e.cols[PROV_ID];
    LookupCodes(e);
  }

  /** The provider codes of the lookup table are those of the frame, without repeats. */
  lemma LookupCodes(e: Table)
    requires WellFormed(e) && PROV_ID in e.cols
    ensures var l := Lookup(e);
      && PROV_ID in l.cols && Distinct(l.cols[PROV_ID])
      && (forall i :: 0 <= i < e.height ==> e.cols[PROV_ID][i] in l.cols[PROV_ID])
      && (forall k :: 0 <= k < l.height ==> l.cols[PROV_ID][k] in e.cols[PROV_ID])
  {
    LookupRows(e);
    var l := Lookup(e);
    var K := Kept(FirstOccurrence(e.cols[PROV_ID]), 0);
    forall k | 0 <= k < l.height ensures l.cols[PROV_ID][k] in e.cols[PROV_ID] {
      assert l.cols[PROV_ID][k] == e.cols[PROV_ID][K[k]];
    }
  }

  /** A code column whose source column is absent holds -1 in every lookup row. */
  lemma PrepareLookupSentinels(t: Table)
    requires WellFormed(t) && Prepare(t).Success?
    ensures var l := Prepare(t).value.lookup;
      && SPEC_ID in l.cols && STATE_ID in l.cols
      && (TYPE_COL !in t.names ==> forall k :: 0 <= k < l.height ==> l.cols[SPEC_ID][k] == Fin(-1.0))
      && (STATE_COL !in t.names ==> forall k :: 0 <= k < l.height ==> l.cols[STATE_ID][k] == Fin(-1.0))
  {
    PrepareOk(t);
    var t2 := ImputeFrom(ReplaceInf(t), NumericCols(t.names)).value;
    EncodeColumns(t2);
    var e := Encoded(t);
    assert Prepare(t).value.lookup == Lookup(e);
    LookupConstant(e, SPEC_ID);
    LookupConstant(e, STATE_ID);
  }

  /** A lookup column that is -1 in every row of the frame is -1 in every row of the table. */
  lemma LookupConstant(e: Table, name: string)
    requires WellFormed(e) && PROV_ID in e.cols && name in e.cols && name in LOOKUP_COLS
    ensures name in Lookup(e).cols
    ensures (forall i :: 0 <= i < e.height ==> e.cols[name][i] == Fin(-1.0)) ==>
              forall k :: 0 <= k < Lookup(e).height ==> Lookup(e).cols[name][k] == Fin(-1.0)
  {
    LookupRows(e);
  }
}
