/** The three stages run one after the other, each reading the file the
    previous one wrote. */
module Pipeline {
  import opened Cells
  import opened Tables
  import CleanData
  import BuildFeatures
  import PrepProviderFeatures

  /** A feature column of stage 3 is a billing column of stage 1 or a ratio
      column of stage 2. */
  lemma FeatureColumnsOrigin()
    ensures forall c :: c in PrepProviderFeatures.NUMERIC_COLS ==>
              c in CleanData.BILLING_COLS || c in BuildFeatures.RATIO_COLS
    ensures PrepProviderFeatures.NPI_COL == BuildFeatures.NPI_COL
    ensures BuildFeatures.BENES in PrepProviderFeatures.NUMERIC_COLS
  {
  }

  /** Every cell of a feature column of the stage-2 output is numeric: a
      billing cell was coerced by stage 1, a ratio cell is a quotient. */
  lemma Stage2CellNumeric(raw: Table, parse: string -> Option<real>, c: string, k: nat)
    requires WellFormed(raw) && CleanData.Clean(raw, parse).Success?
    requires BuildFeatures.Build(CleanData.Clean(raw, parse).value).Success?
    requires var out := BuildFeatures.Build(CleanData.Clean(raw, parse).value).value;
      c in out.cols && k < out.height && c in PrepProviderFeatures.NUMERIC_COLS
    ensures IsNumeric(BuildFeatures.Build(CleanData.Clean(raw, parse).value).value.cols[c][k])
  {
    var s1 := CleanData.Clean(raw, parse).value;
    FeatureColumnsOrigin();
    if c in BuildFeatures.RATIO_COLS {
      RatioCellNumeric(s1, c, k);
    } else {
      var out := BuildFeatures.Build(s1).value;
      BuildFeatures.BuildCells(s1, k);
      var i := Kept(BuildFeatures.ExposureMask(s1), 0)[k];
      assert out.cols[c][k] == s1.cols[c][i];
      BillingCellNumeric(raw, parse, c, i);
    }
  }

  /** A ratio cell of the stage-2 output is a quotient, hence numeric. */
  lemma RatioCellNumeric(t: Table, c: string, k: nat)
    requires WellFormed(t) && BuildFeatures.Build(t).Success?
    requires c in BuildFeatures.RATIO_COLS && k < BuildFeatures.Build(t).value.height
    ensures c in BuildFeatures.Build(t).value.cols && IsNumeric(BuildFeatures.Build(t).value.cols[c][k])
  {
    BuildFeatures.BuildRatiosNumeric(t);
  }

  /** A billing cell of the stage-1 output went through the numeric coercion. */
  lemma BillingCellNumeric(raw: Table, parse: string -> Option<real>, c: string, i: nat)
    requires WellFormed(raw) && CleanData.Clean(raw, parse).Success?
    requires c in CleanData.BILLING_COLS && c in CleanData.Clean(raw, parse).value.cols
    requires i < CleanData.Clean(raw, parse).value.height
    ensures IsNumeric(CleanData.Clean(raw, parse).value.cols[c][i])
  {
    var t := CleanData.Clean(raw, parse).value;
    var id := CleanData.IdColumn(raw.names).value;
    var K := Kept(CleanData.PresentMask(raw.cols[id]), 0);
    CleanData.CleanCells(raw, parse);
    assert t.cols[c][i] == CleanData.CoerceCell(raw.cols[c][K[i]], parse);
  }

  /** A billing column of the stage-1 output holds no text. */
  lemma BillingColumnNumeric(raw: Table, parse: string -> Option<real>, c: string)
    requires WellFormed(raw) && CleanData.Clean(raw, parse).Success?
    requires c in CleanData.BILLING_COLS && c in CleanData.Clean(raw, parse).value.cols
    ensures NumericColumn(CleanData.Clean(raw, parse).value.cols[c])
  {
    var t := CleanData.Clean(raw, parse).value;
    forall k | 0 <= k < |t.cols[c]| ensures IsNumeric(t.cols[c][k]) {
      BillingCellNumeric(raw, parse, c, k);
    }
  }

  /** On the file the first stage writes, the second stage fails only for a
      missing required column: the five amounts it reads were coerced to
      numbers by the first stage. */
  lemma CleanThenBuild(raw: Table, parse: string -> Option<real>)
    requires WellFormed(raw) && CleanData.Clean(raw, parse).Success?
    ensures var s1 := CleanData.Clean(raw, parse).value;
      && (BuildFeatures.Build(s1).Success? <==> BuildFeatures.HasRequired(s1))
      && (BuildFeatures.Build(s1).Failure? ==> BuildFeatures.Build(s1).error.MissingColumn?)
  {
    var s1 := CleanData.Clean(raw, parse).value;
    BuildFeatures.BuildErrors(s1);
    if BuildFeatures.HasRequired(s1) {
      BuildInputsNumeric(raw, parse);
    }
  }

  /** The five amounts stage 2 reads hold no text in the stage-1 output, nor
      in the rows its filter keeps. */
  lemma BuildInputsNumeric(raw: Table, parse: string -> Option<real>)
    requires WellFormed(raw) && CleanData.Clean(raw, parse).Success?
    requires BuildFeatures.HasRequired(CleanData.Clean(raw, parse).value)
    ensures var s1 := CleanData.Clean(raw, parse).value;
      && NonNumericIn(s1, [BuildFeatures.BENES, BuildFeatures.SRVCS]).None?
      && NonNumericIn(FilterRows(s1, BuildFeatures.ExposureMask(s1)),
                      [BuildFeatures.ALOWD, BuildFeatures.PYMT, BuildFeatures.SBMTD]).None?
  {
    BillingColumnNumeric(raw, parse, BuildFeatures.BENES);
    BillingColumnNumeric(raw, parse, BuildFeatures.SRVCS);
    BillingColumnNumeric(raw, parse, BuildFeatures.ALOWD);
    BillingColumnNumeric(raw, parse, BuildFeatures.PYMT);
    BillingColumnNumeric(raw, parse, BuildFeatures.SBMTD);
    InputsNumeric(CleanData.Clean(raw, parse).value);
  }

  lemma InputsNumeric(t: Table)
    requires WellFormed(t) && BuildFeatures.HasRequired(t)
    requires NumericColumn(t.cols[BuildFeatures.BENES]) && NumericColumn(t.cols[BuildFeatures.SRVCS])
    requires NumericColumn(t.cols[BuildFeatures.ALOWD]) && NumericColumn(t.cols[BuildFeatures.PYMT])
    requires NumericColumn(t.cols[BuildFeatures.SBMTD])
    ensures NonNumericIn(t, [BuildFeatures.BENES, BuildFeatures.SRVCS]).None?
    ensures NonNumericIn(FilterRows(t, BuildFeatures.ExposureMask(t)),
                         [BuildFeatures.ALOWD, BuildFeatures.PYMT, BuildFeatures.SBMTD]).None?
  {
    var mask := BuildFeatures.ExposureMask(t);
    FilterNumeric(t, mask, BuildFeatures.ALOWD);
    FilterNumeric(t, mask, BuildFeatures.PYMT);
    FilterNumeric(t, mask, BuildFeatures.SBMTD);
  }

  /** The required columns are in the stage-1 output exactly when the
      identifier stage 1 chose is Rndrng_NPI and the raw file has the five
      billing inputs. */
  lemma RequiredAfterClean(raw: Table, parse: string -> Option<real>)
    requires WellFormed(raw) && CleanData.Clean(raw, parse).Success?
    ensures BuildFeatures.HasRequired(CleanData.Clean(raw, parse).value) <==>
        && CleanData.IdColumn(raw.names).value == BuildFeatures.NPI_COL
        && forall c :: c in BuildFeatures.REQUIRED_COLS && c != BuildFeatures.NPI_COL ==> c in raw.names
  {
    CleanData.CleanColumns(raw, parse);
    RequiredNames(CleanData.Clean(raw, parse).value, raw.names, CleanData.IdColumn(raw.names).value);
  }

  lemma RequiredNames(t: Table, names: seq<string>, id: string)
    requires WellFormed(t) && id in names
    requires forall c :: c in t.names <==> c == id || (c in CleanData.CONTEXT_COLS + CleanData.BILLING_COLS && c in names)
    ensures BuildFeatures.HasRequired(t) <==>
        && id == BuildFeatures.NPI_COL
        && forall c :: c in BuildFeatures.REQUIRED_COLS && c != BuildFeatures.NPI_COL ==> c in names
  {
    var fixed := CleanData.CONTEXT_COLS + CleanData.BILLING_COLS;
    assert BuildFeatures.NPI_COL !in fixed;
    assert && BuildFeatures.BENES in fixed && BuildFeatures.SRVCS in fixed && BuildFeatures.SBMTD in fixed
           && BuildFeatures.ALOWD in fixed && BuildFeatures.PYMT in fixed;
    assert (forall c :: c in BuildFeatures.REQUIRED_COLS && c != BuildFeatures.NPI_COL ==> c in names) <==>
           && BuildFeatures.BENES in names && BuildFeatures.SRVCS in names && BuildFeatures.SBMTD in names
           && BuildFeatures.ALOWD in names && BuildFeatures.PYMT in names;
  }

  /** On the file the first stage writes, the second stage fails only for a
      missing required column; on the file the second stage writes, the third
      stage can only fail for lack of rows: its feature columns hold no text,
      and the provider column and at least one feature column are always there. */
  lemma StagesCompose(raw: Table, parse: string -> Option<real>)
    requires WellFormed(raw) && CleanData.Clean(raw, parse).Success?
    ensures BuildFeatures.Build(CleanData.Clean(raw, parse).value).Success? <==>
        && CleanData.IdColumn(raw.names).value == BuildFeatures.NPI_COL
        && forall c :: c in BuildFeatures.REQUIRED_COLS && c != BuildFeatures.NPI_COL ==> c in raw.names
    ensures var s1 := CleanData.Clean(raw, parse).value;
      BuildFeatures.Build(s1).Success? ==>
        var out := BuildFeatures.Build(s1).value;
        && WellFormed(out)
        && (PrepProviderFeatures.Prepare(out).Success? <==> out.height > 0)
        && (out.height == 0 ==> PrepProviderFeatures.Prepare(out) == Failure(NoSamples))
  {
    CleanThenBuild(raw, parse);
    RequiredAfterClean(raw, parse);
    var s1 := CleanData.Clean(raw, parse).value;
    if BuildFeatures.Build(s1).Success? {
      BuiltThenPrepare(raw, parse);
    }
  }

  /** On the files the first two stages write, the third stage can only fail
      for lack of rows. */
  lemma BuiltThenPrepare(raw: Table, parse: string -> Option<real>)
    requires WellFormed(raw) && CleanData.Clean(raw, parse).Success?
    requires BuildFeatures.Build(CleanData.Clean(raw, parse).value).Success?
    ensures var out := BuildFeatures.Build(CleanData.Clean(raw, parse).value).value;
      && WellFormed(out)
      && (PrepProviderFeatures.Prepare(out).Success? <==> out.height > 0)
      && (out.height == 0 ==> PrepProviderFeatures.Prepare(out) == Failure(NoSamples))
  {
    var s1 := CleanData.Clean(raw, parse).value;
    var out := BuildFeatures.Build(s1).value;
    BuildFeatures.BuildOk(s1);
    var f := FilterRows(s1, BuildFeatures.ExposureMask(s1));
    BuildFeatures.WithRatiosNames(f);
    FeatureColumnsOrigin();
    assert BuildFeatures.NPI_COL in out.names && BuildFeatures.BENES in out.names by {
      assert BuildFeatures.NPI_COL in BuildFeatures.KEEP_COLS && BuildFeatures.BENES in BuildFeatures.KEEP_COLS;
    }
    var numeric := PrepProviderFeatures.NumericCols(out.names);
    assert BuildFeatures.BENES in numeric;
    forall c | c in numeric ensures NumericColumn(out.cols[c]) {
      forall k | 0 <= k < |out.cols[c]| ensures IsNumeric(out.cols[c][k]) {
        Stage2CellNumeric(raw, parse, c, k);
      }
    }
    PrepProviderFeatures.PrepareErrors(out);
  }
}
