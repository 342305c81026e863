/** `series.astype("category").cat.codes`: the categories of a column are its
    distinct non-missing values in sorted order, and each cell's code is the
    position of its value among them; a missing cell gets -1. */
module Categories {
  import opened Cells

  /** The distinct non-missing values of a column. */
  function CategorySet(col: seq<Cell>): set<Cell>
  {
    set i | 0 <= i < |col| && !col[i].Missing? :: col[i]
  }

  /** How many categories sort before `x`. */
  function Rank(x: Cell, cats: set<Cell>): nat
  {
    |set y | y in cats && Less(y, x)|
  }

  /** The code of every cell of the column. */
  function Codes(col: seq<Cell>): (r: seq<int>)
    ensures |r| == |col|
  {
    var cats := CategorySet(col);
    seq(|col|, i requires 0 <= i < |col| => if col[i].Missing? then -1 else Rank(col[i], cats) as int)
  }

  // ---------------------------------------------------------------------
  // Facts about ranks in a finite set under a strict total order

  lemma SubsetCard<T>(a: set<T>, b: set<T>)
    requires a <= b
    ensures |a| <= |b|
  {
    assert b == a + (b - a);
  }

  /** A member's rank is below the number of members. */
  lemma RankBelowSize(x: Cell, cats: set<Cell>)
    requires x in cats
    ensures Rank(x, cats) < |cats|
  {
    LessStrictTotal(x, x, x);
    var below := set y | y in cats && Less(y, x);
    assert below <= cats - {x};
    SubsetCard(below, cats - {x});
  }

  /** Ranks follow the order: a smaller member has a smaller rank. */
  lemma RankMonotone(x: Cell, y: Cell, cats: set<Cell>)
    requires x in cats && Less(x, y)
    ensures Rank(x, cats) < Rank(y, cats)
  {
    var belowX := set z | z in cats && Less(z, x);
    var belowY := set z | z in cats && Less(z, y);
    forall z | z in belowX ensures z in belowY {
      LessStrictTotal(z, x, y);
    }
    LessStrictTotal(x, x, x);
    assert x in belowY && x !in belowX;
    assert belowY == belowX + (belowY - belowX);
    assert x in belowY - belowX;
  }

  /** Distinct members have distinct ranks, and the order of the ranks is the
      order of the members. */
  lemma RankOrder(x: Cell, y: Cell, cats: set<Cell>)
    requires x in cats && y in cats
    ensures Less(x, y) <==> Rank(x, cats) < Rank(y, cats)
    ensures x == y <==> Rank(x, cats) == Rank(y, cats)
  {
    LessStrictTotal(x, y, y);
    if Less(x, y) {
      RankMonotone(x, y, cats);
    } else if Less(y, x) {
      RankMonotone(y, x, cats);
    }
  }

  /** The integers 0, 1, ..., n - 1. */
  function Range(n: nat): (r: set<int>)
    ensures forall k :: k in r <==> 0 <= k < n
  {
    if n == 0 then {} else Range(n - 1) + {n - 1}
  }

  /** The ranks of the members are exactly 0, 1, ..., |cats| - 1. */
  lemma RanksDense(cats: set<Cell>)
    ensures (set x | x in cats :: Rank(x, cats) as int) == Range(|cats|)
  {
    var ranks := set x | x in cats :: Rank(x, cats) as int;
    forall x | x in cats ensures Rank(x, cats) < |cats| {
      RankBelowSize(x, cats);
    }
    forall x, y | x in cats && y in cats && Rank(x, cats) == Rank(y, cats) ensures x == y {
      RankOrder(x, y, cats);
    }
    ImageCard(cats, cats, ranks);
    RangeCard(|cats|);
    SubsetOfSameSize(ranks, Range(|cats|));
  }

  lemma SubsetOfSameSize<T>(a: set<T>, b: set<T>)
    requires a <= b && |a| == |b|
    ensures a == b
  {
    assert b == a + (b - a);
    assert b - a == {};
  }

  /** Ranks are one-to-one on the members, so a subset of the members has as
      many ranks as members. */
  lemma {:induction false} ImageCard(part: set<Cell>, cats: set<Cell>, img: set<int>)
    requires part <= cats
    requires forall x, y :: x in cats && y in cats && Rank(x, cats) == Rank(y, cats) ==> x == y
    requires img == set x | x in part :: Rank(x, cats) as int
    ensures |img| == |part|
    decreases |part|
  {
    if part != {} {
      var x :| x in part;
      var rest := part - {x};
      var restImg := set y | y in rest :: Rank(y, cats) as int;
      ImageCard(rest, cats, restImg);
      assert img == restImg + {Rank(x, cats) as int};
      assert Rank(x, cats) as int !in restImg;
    } else {
      assert img == {};
    }
  }

  lemma {:induction false} RangeCard(n: nat)
    ensures |Range(n)| == n
  {
    if n > 0 {
      RangeCard(n - 1);
    }
  }

  // ---------------------------------------------------------------------
  // What the codes of a column satisfy

  /** Every code is -1 for a missing cell and in [0, k) otherwise, where k is
      the number of distinct non-missing values. */
  lemma CodesRange(col: seq<Cell>)
    ensures forall i :: 0 <= i < |col| ==> (Codes(col)[i] == -1 <==> col[i].Missing?)
    ensures forall i :: 0 <= i < |col| && !col[i].Missing? ==> 0 <= Codes(col)[i] < |CategorySet(col)|
  {
    forall i | 0 <= i < |col| && !col[i].Missing? ensures Codes(col)[i] < |CategorySet(col)| {
      assert col[i] in CategorySet(col);
      RankBelowSize(col[i], CategorySet(col));
    }
  }

  /** Equal values get equal codes, different values different codes, and the
      codes are ordered as the values are. */
  lemma CodesOrder(col: seq<Cell>, i: nat, j: nat)
    requires i < |col| && j < |col| && !col[i].Missing? && !col[j].Missing?
    ensures col[i] == col[j] <==> Codes(col)[i] == Codes(col)[j]
    ensures Less(col[i], col[j]) <==> Codes(col)[i] < Codes(col)[j]
  {
    assert col[i] in CategorySet(col) && col[j] in CategorySet(col);
    RankOrder(col[i], col[j], CategorySet(col));
  }

  /** The codes are dense: the codes of the non-missing rows are exactly
      0, 1, ..., k - 1, where k is the number of distinct non-missing values. */
  lemma CodesDense(col: seq<Cell>)
    ensures (set i | 0 <= i < |col| && !col[i].Missing? :: Codes(col)[i]) == Range(|CategorySet(col)|)
  {
    var cats := CategorySet(col);
    RanksDense(cats);
    var codes := set i | 0 <= i < |col| && !col[i].Missing? :: Codes(col)[i];
    forall k | k in Range(|cats|) ensures k in codes {
      var x :| x in cats && Rank(x, cats) == k;
      var i :| 0 <= i < |col| && !col[i].Missing? && col[i] == x;
      assert Codes(col)[i] == k;
    }
    forall k | k in codes ensures k in Range(|cats|) {
      var i :| 0 <= i < |col| && !col[i].Missing? && Codes(col)[i] == k;
      assert col[i] in cats;
    }
  }
}
