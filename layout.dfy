/**
  Responsive column selection of the table component: which declared columns
  are shown for each viewport tier reported by the breakpoint observer.
 */
module Layout {
  import opened ArrayOps

  /** The five breakpoints the component observes, from narrowest to widest. */
  datatype Tier = XSmall | Small | Medium | Large | XLarge

  datatype Option<T> = None | Some(value: T)

  /** Position of a tier in the narrow-to-wide order. */
  function Rank(t: Tier): nat {
    match t
    case XSmall => 0
    case Small => 1
    case Medium => 2
    case Large => 3
    case XLarge => 4
  }

  /** The index test each tier passes to `filter`, for a list of `n` columns. */
  predicate Keeps(t: Tier, i: int, n: int) {
    match t
    case XSmall => i <= 0 || i == n - 1
    case Small => i <= 2 || i == n - 1
    case Medium => i <= 3 || i == n - 1
    case Large => i <= 4 || i == n - 1
    case XLarge => i >= 0
  }

  /** The filter callback `(item, index) => Keeps(t, index, n)`. */
  function TierTest(t: Tier, n: nat): (string, nat) -> bool {
    (item: string, index: nat) => Keeps(t, index, n)
  }

  /** The columns shown at tier `t`. */
  function Visible(cols: seq<string>, t: Tier): seq<string> {
    Filter(cols, TierTest(t, |cols|))
  }

  /** The last leading index a narrow tier keeps; the last column is kept too. */
  function Cutoff(t: Tier): nat
    requires t != XLarge
  {
    match t
    case XSmall => 0
    case Small => 2
    case Medium => 3
    case Large => 4
  }

  function Min(a: int, b: int): int {
    if a <= b then a else b
  }

  /** The if/else-if chain of the subscription callback: the first matched
      tier in the order XSmall, Small, Medium, Large, XLarge. */
  function Select(matched: set<Tier>): (r: Option<Tier>)
    ensures r == None <==> matched == {}
    ensures r.Some? ==> r.value in matched
    ensures r.Some? ==> forall u :: u in matched ==> Rank(r.value) <= Rank(u)
  {
    if XSmall in matched then Some(XSmall)
    else if Small in matched then Some(Small)
    else if Medium in matched then Some(Medium)
    else if Large in matched then Some(Large)
    else if XLarge in matched then Some(XLarge)
    else
      assert forall u :: u in matched ==> u.XSmall? || u.Small? || u.Medium? || u.Large? || u.XLarge?;
      None
  }

  /** A narrower tier's test implies a wider tier's test. */
  lemma KeepsMonotone(t1: Tier, t2: Tier, i: nat, n: nat)
    requires Rank(t1) <= Rank(t2)
    ensures Keeps(t1, i, n) ==> Keeps(t2, i, n)
  {
  }

  /** XLarge shows every declared column, in declared order. */
  lemma VisibleXLarge(cols: seq<string>)
    ensures Visible(cols, XLarge) == cols
  {
    FilterKeepsAll(cols, TierTest(XLarge, |cols|));
  }

  /** A narrow tier with cutoff k shows columns 0..k and the last column:
      the whole list when it has at most k + 2 columns, and otherwise the
      first k + 1 columns followed by the last one. */
  lemma VisibleNarrow(cols: seq<string>, t: Tier)
    requires t != XLarge
    ensures Visible(cols, t)
         == if |cols| <= Cutoff(t) + 2 then cols
            else cols[..Cutoff(t) + 1] + [cols[|cols| - 1]]
  {
    var n, k, test := |cols|, Cutoff(t), TierTest(t, |cols|);
    assert forall i :: 0 <= i < n ==> (test(cols[i], i) <==> i <= k || i == n - 1);
    if n <= k + 2 {
      FilterKeepsAll(cols, test);
    } else {
      assert cols[..n] == cols;
      FilterPrefixStep(cols, test, n - 1);
      FilterSkips(cols, test, k + 1, n - 1);
      assert forall i :: 0 <= i < k + 1 ==> cols[..k + 1][i] == cols[i];
      FilterKeepsAll(cols[..k + 1], test);
    }
  }

  /** A narrow tier shows min(n, k + 2) columns. */
  lemma VisibleLength(cols: seq<string>, t: Tier)
    ensures |Visible(cols, t)| == if t == XLarge then |cols| else Min(|cols|, Cutoff(t) + 2)
  {
    if t == XLarge {
      VisibleXLarge(cols);
    } else {
      VisibleNarrow(cols, t);
    }
  }

  /** XSmall shows exactly the first and the last column. */
  lemma VisibleXSmall(cols: seq<string>)
    ensures Visible(cols, XSmall)
         == if |cols| == 0 then []
            else if |cols| == 1 then [cols[0]]
            else [cols[0], cols[|cols| - 1]]
  {
    VisibleNarrow(cols, XSmall);
    if |cols| == 2 {
      assert cols == [cols[0], cols[1]];
    }
  }

  /** The first and the last declared column are shown at every tier, as the
      first and the last visible column. */
  lemma VisibleKeepsEnds(cols: seq<string>, t: Tier)
    requires |cols| >= 1
    ensures var v := Visible(cols, t);
      |v| >= 1 && v[0] == cols[0] && v[|v| - 1] == cols[|cols| - 1]
  {
    if t == XLarge {
      VisibleXLarge(cols);
    } else {
      VisibleNarrow(cols, t);
    }
  }

  /** Every tier shows an order-preserving subsequence of the declared columns. */
  lemma VisibleIsSubsequence(cols: seq<string>, t: Tier)
    ensures IsSubsequence(Visible(cols, t), cols)
  {
    FilterIsSubsequence(cols, TierTest(t, |cols|));
  }

  /** Widening the viewport never hides a column: what a narrower tier shows is
      a subsequence of what a wider tier shows. */
  lemma VisibleMonotone(cols: seq<string>, t1: Tier, t2: Tier)
    requires Rank(t1) <= Rank(t2)
    ensures IsSubsequence(Visible(cols, t1), Visible(cols, t2))
  {
    var n := |cols|;
    forall i | 0 <= i < n
      ensures TierTest(t1, n)(cols[i], i) ==> TierTest(t2, n)(cols[i], i)
    {
      KeepsMonotone(t1, t2, i, n);
    }
    FilterWeaker(cols, TierTest(t1, n), TierTest(t2, n));
  }

  /** Six columns A..F at each tier, and a single column at every tier. */
  lemma Examples()
    ensures Visible(["A", "B", "C", "D", "E", "F"], XSmall) == ["A", "F"]
    ensures Visible(["A", "B", "C", "D", "E", "F"], Small) == ["A", "B", "C", "F"]
    ensures Visible(["A", "B", "C", "D", "E", "F"], Medium) == ["A", "B", "C", "D", "F"]
    ensures Visible(["A", "B", "C", "D", "E", "F"], Large) == ["A", "B", "C", "D", "E", "F"]
    ensures forall t :: Visible(["A"], t) == ["A"]
  {
    var cols := ["A", "B", "C", "D", "E", "F"];
    VisibleNarrow(cols, XSmall);
    VisibleNarrow(cols, Small);
    VisibleNarrow(cols, Medium);
    VisibleNarrow(cols, Large);
    forall t ensures Visible(["A"], t) == ["A"] {
      VisibleKeepsEnds(["A"], t);
      VisibleLength(["A"], t);
    }
  }
}
