/** Stage 2, the feature builder (build_features.py): check the required
    columns, keep the providers with positive beneficiary and service counts,
    derive the seven ratio features and project onto the output columns. */
module BuildFeatures {
  import opened Cells
  import opened Tables

  const NPI_COL := "Rndrng_NPI"
  const BENES := "Tot_Benes"
  const SRVCS := "Tot_Srvcs"
  const SBMTD := "Tot_Sbmtd_Chrg"
  const ALOWD := "Tot_Mdcr_Alowd_Amt"
  const PYMT := "Tot_Mdcr_Pymt_Amt"

  const REQUIRED_COLS: seq<string> := [NPI_COL, BENES, SRVCS, SBMTD, ALOWD, PYMT]

  /** One assignment of lines 34-42: `df[name] = df[num] / df[den]`. */
  datatype Ratio = Ratio(name: string, num: string, den: string)

  /** The seven assignments of lines 34-42, in the order the script runs them. */
  const RATIOS: seq<Ratio> := [
    Ratio("allowed_per_bene", ALOWD, BENES),
    Ratio("payment_per_bene", PYMT, BENES),
    Ratio("submitted_per_bene", SBMTD, BENES),
    Ratio("allowed_per_srv", ALOWD, SRVCS),
    Ratio("payment_per_srv", PYMT, SRVCS),
    Ratio("submitted_per_srv", SBMTD, SRVCS),
    Ratio("submitted_allowed_ratio", SBMTD, ALOWD)
  ]

  const RATIO_COLS: seq<string> := [
    "allowed_per_bene", "payment_per_bene", "submitted_per_bene",
    "allowed_per_srv", "payment_per_srv", "submitted_per_srv",
    "submitted_allowed_ratio"
  ]

  const KEEP_COLS: seq<string> := [
    NPI_COL, "Rndrng_Prvdr_Type", "Rndrng_Prvdr_State_Abrvtn",
    "Tot_HCPCS_Cds", BENES, SRVCS, SBMTD, ALOWD, PYMT, "Tot_Mdcr_Stdzd_Amt"
  ] + RATIO_COLS

  /** The five billing columns the ratios are computed from. */
  predicate IsInput(c: string)
  {
    c == BENES || c == SRVCS || c == SBMTD || c == ALOWD || c == PYMT
  }

  /** A ratio reads two input columns and writes a column that is not an input. */
  predicate ValidRatio(r: Ratio)
  {
    IsInput(r.num) && IsInput(r.den) && !IsInput(r.name)
  }

  predicate AllValid(rs: seq<Ratio>)
  {
    forall j :: 0 <= j < |rs| ==> ValidRatio(rs[j])
  }

  /** The names the ratios write, in order. */
  function Names(rs: seq<Ratio>): (r: seq<string>)
    ensures |r| == |rs| && forall j :: 0 <= j < |rs| ==> r[j] == rs[j].name
  {
    if rs == [] then [] else Names(rs[..|rs| - 1]) + [rs[|rs| - 1].name]
  }

  /** The seven assignments read input columns and write non-input columns;
      each divides by a count or, for the last, by the allowed amount. */
  lemma RatiosValid()
    ensures |RATIOS| == 7 && AllValid(RATIOS)
    ensures forall j :: 0 <= j < |RATIOS| ==> RATIOS[j].den == BENES || RATIOS[j].den == SRVCS || RATIOS[j].den == ALOWD
  {
  }

  /** The seven assignments are valid and write the seven distinct ratio names. */
  lemma RatioTable()
    ensures |RATIOS| == 7 && AllValid(RATIOS) && Names(RATIOS) == RATIO_COLS && Distinct(RATIO_COLS)
    ensures forall j :: 0 <= j < |RATIOS| ==> RATIOS[j].den == BENES || RATIOS[j].den == SRVCS || RATIOS[j].den == ALOWD
    ensures forall i, j :: 0 <= i < j < |RATIOS| ==> RATIOS[i].name != RATIOS[j].name
  {
    RatiosValid();
    RatioColsDistinct();
    assert Names(RATIOS) == RATIO_COLS;
  }

  lemma RatioColsDistinct()
    ensures Distinct(RATIO_COLS)
  {
  }

  // ---------------------------------------------------------------------
  // Required columns

  /** The first listed column that the frame does not have. */
  function FirstAbsent(cs: seq<string>, names: seq<string>): (r: Option<string>)
    ensures r.None? <==> forall c :: c in cs ==> c in names
    ensures r.Some? ==> exists i :: 0 <= i < |cs| && cs[i] == r.value && r.value !in names
                                    && forall j :: 0 <= j < i ==> cs[j] in names
  {
    First(cs, (c: string) => c !in names)
  }

  /** One step of the loop of lines 23-25: a present column is skipped, an
      absent one is the answer. */
  lemma FirstAbsentAt(cs: seq<string>, i: nat, names: seq<string>)
    requires i < |cs|
    ensures FirstAbsent(cs[i..], names) ==
      if cs[i] in names then FirstAbsent(cs[i + 1..], names) else Some(cs[i])
  {
    assert cs[i..][0] == cs[i] && cs[i..][1..] == cs[i + 1..];
  }

  /** Lines 23-25: the loop that raises on the first required column absent. */
  method CheckRequired(names: seq<string>) returns (missing: Option<string>)
    ensures missing == FirstAbsent(REQUIRED_COLS, names)
    ensures missing.None? <==> forall c :: c in REQUIRED_COLS ==> c in names
  {
    var i := 0;
    while i < |REQUIRED_COLS|
      invariant 0 <= i <= |REQUIRED_COLS|
      invariant FirstAbsent(REQUIRED_COLS[i..], names) == FirstAbsent(REQUIRED_COLS, names)
    {
      var col := REQUIRED_COLS[i];
      FirstAbsentAt(REQUIRED_COLS, i, names);
      if col !in names {
        return Some(col);
      }
      i := i + 1;
    }
    assert REQUIRED_COLS[i..] == [];
    return None;
  }

  // ---------------------------------------------------------------------
  // Row filter and ratios

  /** Line 29: `(df["Tot_Benes"] > 0) & (df["Tot_Srvcs"] > 0)`. */
  function ExposureMask(t: Table): (r: seq<bool>)
    requires WellFormed(t) && BENES in t.cols && SRVCS in t.cols
    ensures |r| == t.height
    ensures forall i :: 0 <= i < t.height ==> (r[i] <==> IsPositive(t.cols[BENES][i]) && IsPositive(t.cols[SRVCS][i]))
  {
    seq(t.height, i requires 0 <= i < t.height => IsPositive(t.cols[BENES][i]) && IsPositive(t.cols[SRVCS][i]))
  }

  /** Element-wise division of two numeric columns. */
  function RatioColumn(num: seq<Cell>, den: seq<Cell>): (r: seq<Cell>)
    requires |num| == |den| && NumericColumn(num) && NumericColumn(den)
    ensures |r| == |num| && NumericColumn(r)
    ensures forall i :: 0 <= i < |r| ==> r[i] == Div(num[i], den[i])
  {
    seq(|num|, i requires 0 <= i < |num| => Div(num[i], den[i]))
  }

  /** The frames on which lines 34-42 can run: the five inputs are there and
      hold no text. */
  ghost predicate RatioInputs(t: Table)
  {
    && WellFormed(t)
    && forall c {:trigger IsInput(c)} :: IsInput(c) ==> c in t.cols && NumericColumn(t.cols[c])
  }

  /** One of lines 34-42, reading the current frame. */
  function AddRatio(t: Table, r: Ratio): (res: Table)
    requires RatioInputs(t) && ValidRatio(r)
    ensures RatioInputs(res) && res.height == t.height
  {
    Assigned(t, r.name, RatioColumn(t.cols[r.num], t.cols[r.den]))
  }

  /** The assignments `rs`, one after the other. */
  function AddRatios(t: Table, rs: seq<Ratio>): (res: Table)
    requires RatioInputs(t) && AllValid(rs)
    ensures RatioInputs(res) && res.height == t.height
    decreases |rs|
  {
    if rs == [] then t
    else
      var n := |rs| - 1;
      assert AllValid(rs[..n]);
      AddRatio(AddRatios(t, rs[..n]), rs[n])
  }

  /** Lines 34-42. */
  function WithRatios(t: Table): (r: Table)
    requires RatioInputs(t)
    ensures RatioInputs(r) && r.height == t.height
  {
    RatiosValid();
    AddRatios(t, RATIOS)
  }

  /** The first k + 1 assignments are the first k followed by assignment k. */
  lemma AddRatiosPrefix(t: Table, rs: seq<Ratio>, k: nat)
    requires RatioInputs(t) && AllValid(rs) && k < |rs|
    ensures AllValid(rs[..k]) && AllValid(rs[..k + 1]) && ValidRatio(rs[k])
    ensures AddRatios(t, rs[..k + 1]) == AddRatio(AddRatios(t, rs[..k]), rs[k])
  {
    assert rs[..k + 1][..k] == rs[..k];
  }

  /** `states` lists the frames the assignments `rs` pass through, one after
      the other. */
  ghost predicate IsTrace(states: seq<Table>, rs: seq<Ratio>)
  {
    && |states| == |rs| + 1 && AllValid(rs)
    && forall k :: 0 <= k < |rs| ==> RatioInputs(states[k]) && states[k + 1] == AddRatio(states[k], rs[k])
  }

  /** The frames the assignments `rs` pass through: entry k is the frame
      after the first k of them. */
  function Trace(t0: Table, rs: seq<Ratio>): (r: seq<Table>)
    requires RatioInputs(t0) && AllValid(rs)
    ensures IsTrace(r, rs) && r[0] == t0 && r[|rs|] == AddRatios(t0, rs)
  {
    assert forall k :: 0 <= k <= |rs| ==> AllValid(rs[..k]);
    var r := seq(|rs| + 1, k requires 0 <= k <= |rs| => AddRatios(t0, rs[..k]));
    assert rs[..0] == [] && rs[..|rs|] == rs;
    TraceSteps(t0, rs, r);
    r
  }

  lemma TraceSteps(t0: Table, rs: seq<Ratio>, r: seq<Table>)
    requires RatioInputs(t0) && AllValid(rs) && |r| == |rs| + 1
    requires forall k :: 0 <= k <= |rs| ==> AllValid(rs[..k]) && r[k] == AddRatios(t0, rs[..k])
    ensures IsTrace(r, rs)
  {
    forall k | 0 <= k < |rs| ensures RatioInputs(r[k]) && r[k + 1] == AddRatio(r[k], rs[k]) {
      AddRatiosPrefix(t0, rs, k);
    }
  }

  /** Assignment k of `rs` on the frame in place: it takes the frame from
      entry k of the trace to entry k + 1. */
  method AssignRatio(df: Frame, ghost states: seq<Table>, rs: seq<Ratio>, k: nat)
    requires IsTrace(states, rs) && k < |rs| && df.Value() == states[k]
    modifies df
    ensures df.Value() == states[k + 1]
  {
    var r := rs[k];
    df.Assign(r.name, RatioColumn(df.cols[r.num], df.cols[r.den]));
  }

  /** Lines 34-42 as the script runs them, on the frame in place: the seven
      assignments of RATIOS, one after the other in the script's order. */
  method DeriveRatios(df: Frame)
    requires RatioInputs(df.Value())
    modifies df
    ensures df.Value() == WithRatios(old(df.Value()))
  {
    RatiosValid();
    ghost var states := Trace(df.Value(), RATIOS);
    for k := 0 to |RATIOS|
      invariant df.Value() == states[k]
    {
      AssignRatio(df, states, RATIOS, k);
    }
  }

  /** Lines 65-66: the keep list restricted to the columns present. */
  function Output(d: Table): (r: Table)
    requires WellFormed(d)
    ensures WellFormed(r) && r.height == d.height && r.names == PresentIn(KEEP_COLS, d.names)
    ensures forall c :: c in r.cols ==> c in d.cols && r.cols[c] == d.cols[c]
  {
    assert Distinct(KEEP_COLS);
    Project(d, PresentIn(KEEP_COLS, d.names))
  }

  // ---------------------------------------------------------------------
  // The stage

  /** The whole of build_features.py on the loaded stage-1 table. */
  function Build(t: Table): (r: Result<Table, Error>)
    requires WellFormed(t)
    ensures r.Success? ==> WellFormed(r.value)
  {
    match FirstAbsent(REQUIRED_COLS, t.names)
    case Some(c) => Failure(MissingColumn(c))
    case None =>
      match NonNumericIn(t, [BENES, SRVCS])
      case Some(c) => Failure(NonNumeric(c))
      case None =>
        var f := FilterRows(t, ExposureMask(t));
        match NonNumericIn(f, [ALOWD, PYMT, SBMTD])
        case Some(c) => Failure(NonNumeric(c))
        case None =>
          FilteredInputs(t, f);
          Success(Output(WithRatios(f)))
  }

  /** The required columns, spelled out. */
  predicate HasRequired(t: Table)
  {
    && NPI_COL in t.cols && BENES in t.cols && SRVCS in t.cols
    && SBMTD in t.cols && ALOWD in t.cols && PYMT in t.cols
  }

  /** After the checks of lines 23-25 and the filter of line 29, the frame
      has the five columns the ratios are computed from, none holding text. */
  lemma FilteredInputs(t: Table, f: Table)
    requires WellFormed(t) && HasRequired(t) && f == FilterRows(t, ExposureMask(t))
    requires NonNumericIn(t, [BENES, SRVCS]).None? && NonNumericIn(f, [ALOWD, PYMT, SBMTD]).None?
    ensures RatioInputs(f)
  {
    assert NumericColumn(t.cols[BENES]) && NumericColumn(t.cols[SRVCS]);
    FilterNumeric(t, ExposureMask(t), BENES);
    FilterNumeric(t, ExposureMask(t), SRVCS);
    assert NumericColumn(f.cols[ALOWD]) && NumericColumn(f.cols[PYMT]) && NumericColumn(f.cols[SBMTD]);
  }

  /** build_features.py written as the script runs it. */
  method Run(t: Table) returns (r: Result<Table, Error>)
    requires WellFormed(t)
    ensures r == Build(t)
  {
    var missing := CheckRequired(t.names);
    if missing.Some? {
      return Failure(MissingColumn(missing.value));
    }
    var bad := NonNumericIn(t, [BENES, SRVCS]);
    if bad.Some? {
      return Failure(NonNumeric(bad.value));
    }
    var df := new Frame(FilterRows(t, ExposureMask(t)));
    bad := NonNumericIn(df.Value(), [ALOWD, PYMT, SBMTD]);
    if bad.Some? {
      return Failure(NonNumeric(bad.value));
    }
    FilteredInputs(t, df.Value());
    DeriveRatios(df);
    r := Success(Output(df.Value()));
  }

  // ---------------------------------------------------------------------
  // What lines 34-42 promise

  /** The assignments never touch an input column. */
  lemma {:induction false} AddRatiosInputs(t: Table, rs: seq<Ratio>)
    requires RatioInputs(t) && AllValid(rs)
    ensures forall c :: IsInput(c) ==> AddRatios(t, rs).cols[c] == t.cols[c]
    decreases |rs|
  {
    if rs != [] {
      var n := |rs| - 1;
      assert AllValid(rs[..n]);
      AddRatiosInputs(t, rs[..n]);
    }
  }

  /** After the assignments the names are the old ones and the written ones. */
  lemma {:induction false} AddRatiosName(t: Table, rs: seq<Ratio>, c: string)
    requires RatioInputs(t) && AllValid(rs)
    ensures c in AddRatios(t, rs).names <==> c in t.names || c in Names(rs)
    decreases |rs|
  {
    if rs != [] {
      var n := |rs| - 1;
      assert AllValid(rs[..n]);
      AddRatiosName(t, rs[..n], c);
    }
  }

  /** The assignments leave every column they do not write unchanged. */
  lemma {:induction false} AddRatiosUntouched(t: Table, rs: seq<Ratio>)
    requires RatioInputs(t) && AllValid(rs)
    ensures forall c :: c in t.cols && c !in Names(rs) ==> c in AddRatios(t, rs).cols && AddRatios(t, rs).cols[c] == t.cols[c]
    decreases |rs|
  {
    if rs != [] {
      var n := |rs| - 1;
      var p := rs[..n];
      assert AllValid(p);
      AddRatiosUntouched(t, p);
      assert Names(rs) == Names(p) + [rs[n].name];
      forall c | c in t.cols && c !in Names(rs) ensures c in AddRatios(t, rs).cols && AddRatios(t, rs).cols[c] == t.cols[c] {
        assert c != rs[n].name && c !in Names(p);
      }
    }
  }

  /** After assignments to distinct names, the column assignment j wrote holds
      the quotient of the original input columns. */
  lemma {:induction false} AddRatiosWritten(t: Table, rs: seq<Ratio>, j: nat)
    requires RatioInputs(t) && AllValid(rs) && j < |rs|
    requires forall i, l :: 0 <= i < l < |rs| ==> rs[i].name != rs[l].name
    ensures rs[j].name in AddRatios(t, rs).cols
    ensures AddRatios(t, rs).cols[rs[j].name] == RatioColumn(t.cols[rs[j].num], t.cols[rs[j].den])
    decreases |rs|
  {
    var n := |rs| - 1;
    if j < n {
      var p := rs[..n];
      assert AllValid(p);
      assert p[j] == rs[j] && rs[j].name != rs[n].name;
      AddRatiosWritten(t, p, j);
      assert AddRatios(t, rs) == AddRatio(AddRatios(t, p), rs[n]);
    } else {
      LastRatioWritten(t, rs);
    }
  }

  /** The last assignment writes the quotient of the original input columns,
      since no assignment touches an input. */
  lemma LastRatioWritten(t: Table, rs: seq<Ratio>)
    requires RatioInputs(t) && AllValid(rs) && rs != []
    ensures var r := rs[|rs| - 1];
      && r.name in AddRatios(t, rs).cols
      && AddRatios(t, rs).cols[r.name] == RatioColumn(t.cols[r.num], t.cols[r.den])
  {
    var n := |rs| - 1;
    var p := rs[..n];
    assert AllValid(p);
    var prev := AddRatios(t, p);
    AddRatiosInputs(t, p);
    assert ValidRatio(rs[n]);
    assert prev.cols[rs[n].num] == t.cols[rs[n].num] && prev.cols[rs[n].den] == t.cols[rs[n].den];
    assert AddRatios(t, rs) == AddRatio(prev, rs[n]);
  }

  /** The seven derived columns are the quotients of the original columns,
      and every other column is left alone. */
  lemma WithRatiosColumns(t: Table)
    requires RatioInputs(t)
    ensures AllValid(RATIOS)
    ensures var d := WithRatios(t);
      && d.height == t.height
      && (forall j :: 0 <= j < |RATIOS| ==>
            && RATIOS[j].name in d.cols
            && d.cols[RATIOS[j].name] == RatioColumn(t.cols[RATIOS[j].num], t.cols[RATIOS[j].den]))
      && (forall c :: c in t.cols && c !in RATIO_COLS ==> c in d.cols && d.cols[c] == t.cols[c])
  {
    RatioTable();
    forall j | 0 <= j < |RATIOS|
      ensures RATIOS[j].name in WithRatios(t).cols
      ensures WithRatios(t).cols[RATIOS[j].name] == RatioColumn(t.cols[RATIOS[j].num], t.cols[RATIOS[j].den])
    {
      AddRatiosWritten(t, RATIOS, j);
    }
    AddRatiosUntouched(t, RATIOS);
  }

  /** Lines 34-42 add the seven ratio columns and no other. */
  lemma WithRatiosNames(t: Table)
    requires RatioInputs(t)
    ensures forall c :: c in WithRatios(t).names <==> c in t.names || c in RATIO_COLS
  {
    RatioTable();
    forall c ensures c in WithRatios(t).names <==> c in t.names || c in RATIO_COLS {
      AddRatiosName(t, RATIOS, c);
    }
  }

  // ---------------------------------------------------------------------
  // What the stage promises

  /** The stage fails with MissingColumn exactly when a required column is
      absent, and then it names the first absent one in the required list. */
  lemma BuildFailsIffMissingRequired(t: Table)
    requires WellFormed(t)
    ensures (Build(t).Failure? && Build(t).error.MissingColumn?) <==> exists c :: c in REQUIRED_COLS && c !in t.names
    ensures Build(t).Failure? && Build(t).error.MissingColumn? ==>
      exists i :: 0 <= i < |REQUIRED_COLS| && REQUIRED_COLS[i] == Build(t).error.name && REQUIRED_COLS[i] !in t.names
                  && forall j :: 0 <= j < i ==> REQUIRED_COLS[j] in t.names
  {
  }

  /** The stage fails exactly in these cases, checked in this order: a
      required column is absent (lines 23-25); Tot_Benes or Tot_Srvcs holds
      text, where the comparison of line 29 raises; an amount column holds
      text in a kept row, where the first division reading it (lines 34-36)
      raises. Each failure names the first offending column. */
  lemma BuildErrors(t: Table)
    requires WellFormed(t)
    ensures FirstAbsent(REQUIRED_COLS, t.names).None? <==> HasRequired(t)
    ensures FirstAbsent(REQUIRED_COLS, t.names).Some? ==>
              Build(t) == Failure(MissingColumn(FirstAbsent(REQUIRED_COLS, t.names).value))
    ensures HasRequired(t) && NonNumericIn(t, [BENES, SRVCS]).Some? ==>
              Build(t) == Failure(NonNumeric(NonNumericIn(t, [BENES, SRVCS]).value))
    ensures HasRequired(t) && NonNumericIn(t, [BENES, SRVCS]).None? ==>
              var f := FilterRows(t, ExposureMask(t));
              && (NonNumericIn(f, [ALOWD, PYMT, SBMTD]).Some? ==>
                    Build(t) == Failure(NonNumeric(NonNumericIn(f, [ALOWD, PYMT, SBMTD]).value)))
              && (NonNumericIn(f, [ALOWD, PYMT, SBMTD]).None? ==> Build(t).Success?)
    ensures Build(t).Success? <==>
              && HasRequired(t) && NonNumericIn(t, [BENES, SRVCS]).None?
              && NonNumericIn(FilterRows(t, ExposureMask(t)), [ALOWD, PYMT, SBMTD]).None?
  {
    assert FirstAbsent(REQUIRED_COLS, t.names).None? <==> forall c :: c in REQUIRED_COLS ==> c in t.names;
  }

  /** What an Ok result is made of: the required columns were present and
      numeric, and the output is the projection of the filtered, extended frame. */
  lemma BuildOk(t: Table)
    requires WellFormed(t) && Build(t).Success?
    ensures HasRequired(t)
    ensures var f := FilterRows(t, ExposureMask(t));
      && RatioInputs(f)
      && Build(t).value == Output(WithRatios(f))
  {
    assert forall c :: c in REQUIRED_COLS ==> c in t.names;
    FilteredInputs(t, FilterRows(t, ExposureMask(t)));
  }

  lemma BuildHeight(t: Table)
    requires WellFormed(t) && Build(t).Success?
    ensures HasRequired(t) && Build(t).value.height == |Kept(ExposureMask(t), 0)|
  {
    BuildOk(t);
  }

  /** The rows of an Ok result are exactly the input rows with a positive
      beneficiary count and a positive service count, in their input order. */
  lemma BuildRows(t: Table)
    requires WellFormed(t) && Build(t).Success?
    ensures HasRequired(t)
    ensures var K := Kept(ExposureMask(t), 0);
      && Build(t).value.height == |K| <= t.height
      && (forall i :: 0 <= i < t.height ==> (i in K <==> IsPositive(t.cols[BENES][i]) && IsPositive(t.cols[SRVCS][i])))
      && (forall k, l :: 0 <= k < l < |K| ==> K[k] < K[l])
  {
    BuildHeight(t);
    var mask := ExposureMask(t);
    KeptMembers(mask);
    var K := Kept(mask, 0);
    forall i | 0 <= i < t.height
      ensures i in K <==> IsPositive(t.cols[BENES][i]) && IsPositive(t.cols[SRVCS][i])
    {
      assert i in K <==> mask[i];
    }
  }

  /** What an Ok result holds in row k: the input row K[k] it came from, with
      its raw cells unchanged and each ratio cell the quotient of its own inputs. */
  predicate RowDerived(t: Table, out: Table, k: nat)
    requires WellFormed(t) && WellFormed(out) && k < out.height && HasRequired(t)
  {
    var K := Kept(ExposureMask(t), 0);
    && k < |K| && K[k] < t.height
    && var i := K[k];
    && IsPositive(t.cols[BENES][i]) && IsPositive(t.cols[SRVCS][i])
    && (forall c :: c in out.cols && c !in RATIO_COLS ==> c in t.cols && out.cols[c][k] == t.cols[c][i])
    && forall j :: 0 <= j < |RATIOS| ==>
         && RATIOS[j].name in out.cols && RATIOS[j].num in t.cols && RATIOS[j].den in t.cols
         && IsNumeric(t.cols[RATIOS[j].num][i]) && IsNumeric(t.cols[RATIOS[j].den][i])
         && out.cols[RATIOS[j].name][k] == Div(t.cols[RATIOS[j].num][i], t.cols[RATIOS[j].den][i])
  }

  /** Every output row is derived from its input row: raw cells are copied,
      and each ratio cell divides the row's own billing cells. */
  lemma BuildCells(t: Table, k: nat)
    requires WellFormed(t) && Build(t).Success? && k < Build(t).value.height
    ensures HasRequired(t) && RowDerived(t, Build(t).value, k)
  {
    BuildOk(t);
    RatioTable();
    var mask := ExposureMask(t);
    var f := FilterRows(t, mask);
    var d := WithRatios(f);
    var out := Build(t).value;
    var K := Kept(mask, 0);
    var i := K[k];
    assert out == Output(d) && out.height == f.height == |K|;
    WithRatiosColumns(f);
    WithRatiosNames(f);
    assert mask[i];
    forall c | c in out.cols && c !in RATIO_COLS ensures c in t.cols && out.cols[c][k] == t.cols[c][i] {
      assert c in d.names && c in f.names;
      assert out.cols[c] == d.cols[c] == f.cols[c];
    }
    forall j | 0 <= j < |RATIOS|
      ensures && RATIOS[j].name in out.cols && RATIOS[j].num in t.cols && RATIOS[j].den in t.cols
              && IsNumeric(t.cols[RATIOS[j].num][i]) && IsNumeric(t.cols[RATIOS[j].den][i])
              && out.cols[RATIOS[j].name][k] == Div(t.cols[RATIOS[j].num][i], t.cols[RATIOS[j].den][i])
    {
      RatioCell(t, f, d, out, k, RATIOS[j]);
    }
  }

  /** One ratio cell of an Ok result, traced back through the projection, the
      assignment and the row filter. */
  lemma RatioCell(t: Table, f: Table, d: Table, out: Table, k: nat, r: Ratio)
    requires WellFormed(t) && HasRequired(t) && f == FilterRows(t, ExposureMask(t))
    requires RatioInputs(f) && WellFormed(d) && d.height == f.height && out == Output(d) && k < out.height
    requires ValidRatio(r) && r.name in KEEP_COLS && r.name in d.cols
    requires d.cols[r.name] == RatioColumn(f.cols[r.num], f.cols[r.den])
    ensures var i := Kept(ExposureMask(t), 0)[k];
      && r.name in out.cols && r.num in t.cols && r.den in t.cols
      && IsNumeric(t.cols[r.num][i]) && IsNumeric(t.cols[r.den][i])
      && out.cols[r.name][k] == Div(t.cols[r.num][i], t.cols[r.den][i])
  {
    var i := Kept(ExposureMask(t), 0)[k];
    assert r.name in out.names;
    assert out.cols[r.name] == d.cols[r.name];
    assert f.cols[r.num][k] == t.cols[r.num][i] && f.cols[r.den][k] == t.cols[r.den][i];
    assert IsNumeric(f.cols[r.num][k]) && IsNumeric(f.cols[r.den][k]);
  }

  /** The seven ratio columns of an Ok result are present and hold no text. */
  lemma BuildRatiosNumeric(t: Table)
    requires WellFormed(t) && Build(t).Success?
    ensures forall c :: c in RATIO_COLS ==> c in Build(t).value.cols && NumericColumn(Build(t).value.cols[c])
  {
    BuildOk(t);
    var f := FilterRows(t, ExposureMask(t));
    var d := WithRatios(f);
    var out := Build(t).value;
    WithRatiosColumns(f);
    forall c | c in RATIO_COLS ensures c in out.cols && NumericColumn(out.cols[c]) {
      RatioNamed(c);
      var j :| 0 <= j < |RATIOS| && RATIOS[j].name == c;
      assert c in d.cols && NumericColumn(d.cols[c]);
      assert c in KEEP_COLS && c in out.names;
      assert out.cols[c] == d.cols[c];
    }
  }

  /** Every ratio column is written by one of the seven assignments. */
  lemma RatioNamed(c: string)
    requires c in RATIO_COLS
    ensures exists j :: 0 <= j < |RATIOS| && RATIOS[j].name == c
  {
    RatioTable();
    var j :| 0 <= j < |RATIO_COLS| && RATIO_COLS[j] == c;
    assert Names(RATIOS)[j] == RATIOS[j].name;
  }

  /** With finite cells a ratio is the ordinary quotient. The six per-unit
      ratios divide by a count the filter made positive, so they never divide
      by zero; the submitted/allowed ratio is unguarded, and a zero allowed
      amount makes it non-finite. */
  lemma BuildFiniteRatio(t: Table, k: nat, j: nat)
    requires WellFormed(t) && Build(t).Success? && k < Build(t).value.height && j < |RATIOS|
    ensures HasRequired(t) && RowDerived(t, Build(t).value, k)
    ensures var K := Kept(ExposureMask(t), 0);
      var x, y := t.cols[RATIOS[j].num][K[k]], t.cols[RATIOS[j].den][K[k]];
      var q := Build(t).value.cols[RATIOS[j].name][k];
      && (RATIOS[j].den != ALOWD ==> IsPositive(y))
      && (x.Fin? && y.Fin? && y.v != 0.0 ==> q == Fin(x.v / y.v))
      && (x.Fin? && y == Fin(0.0) ==> !q.Fin?)
  {
    BuildCells(t, k);
    RatioTable();
    var i := Kept(ExposureMask(t), 0)[k];
    var r := RATIOS[j];
    var x, y := t.cols[r.num][i], t.cols[r.den][i];
    assert Build(t).value.cols[r.name][k] == Div(x, y);
    assert r.den == BENES || r.den == SRVCS || r.den == ALOWD;
    if x.Fin? && y == Fin(0.0) {
      DivByZeroNotFinite(x.v);
    }
  }

  /** Filtering a list by membership depends only on which names are members. */
  lemma PresentInSameMembers(cs: seq<string>, a: seq<string>, b: seq<string>)
    requires forall c :: c in a <==> c in b
    ensures PresentIn(cs, a) == PresentIn(cs, b)
  {
    var ka := seq(|cs|, i requires 0 <= i < |cs| => cs[i] in a);
    var kb := seq(|cs|, i requires 0 <= i < |cs| => cs[i] in b);
    assert ka == kb;
  }

  /** The output columns are the keep list restricted to the input's columns
      plus the seven ratios, in keep-list order. */
  lemma BuildColumns(t: Table)
    requires WellFormed(t) && Build(t).Success?
    ensures Build(t).value.names == PresentIn(KEEP_COLS, t.names + RATIO_COLS)
    ensures forall c :: c in Build(t).value.names <==> c in KEEP_COLS && (c in t.names || c in RATIO_COLS)
  {
    BuildOk(t);
    var f := FilterRows(t, ExposureMask(t));
    WithRatiosNames(f);
    PresentInSameMembers(KEEP_COLS, WithRatios(f).names, t.names + RATIO_COLS);
  }
}
