/**
  The table component's own state across its lifecycle: the declared column
  names, the columns currently shown, the breakpoint subscription and the
  teardown signal.
 */
module Table {
  import opened ArrayOps
  import opened Layout
  import opened Duplicates

  class TableComponent {
    /** The working list of declared names (`doubleColumnToDisplay`). */
    var declared: seq<string>
    /** The columns the table renders (`columnsToDispaly`). */
    var visible: seq<string>
    /** A breakpoint subscription is live and delivers notifications. It is
        set by subscribing and cleared by the teardown subject. */
    var subscribed: bool

    /** The tier whose filter produced `visible`; XLarge until a narrower
        tier has been applied. */
    ghost var shown: Tier

    ghost predicate Valid()
      reads this
    {
      visible == Visible(declared, shown)
    }

    /** Both lists start empty and nothing is subscribed. */
    constructor ()
      ensures Valid()
      ensures declared == [] && visible == []
      ensures !subscribed
    {
      declared, visible := [], [];
      subscribed := false;
      shown := XLarge;
      VisibleXLarge([]);
    }

    /** `ngAfterViewInit`: collect the names in declaration order, keep them
        as the working list, subscribe to breakpoint changes, then run the
        duplicate check. `first` is the notification the observer delivers
        while the subscription is made (the empty set for none); it already
        narrows `visible` before the check runs. The check compares the
        first-occurrence filter of the names with `visible`, not with the
        names. A failing check raises an error that is caught at once and
        logged; `reported` says whether that happened. Nothing is undone:
        the working list keeps its duplicates and the subscription stays. */
    method AfterViewInit(names: seq<string>, first: set<Tier>) returns (reported: bool)
      modifies this
      ensures Valid()
      ensures declared == names && subscribed
      ensures visible == ShownAtSubscribe(names, first)
      ensures reported <==> |FirstOccurrences(names)| < |visible|
    {
      visible := names;
      var unique := FirstOccurrences(visible);
      declared := visible;
      shown := XLarge;
      VisibleXLarge(declared);
      subscribed := true;
      OnBreakpoint(first);
      reported := |unique| < |visible|;
    }

    /** One notification from the breakpoint observer, given as the set of
        tiers that currently match. Without a live subscription nothing
        happens; otherwise the narrowest matched tier decides what is shown,
        and an empty set leaves the shown columns as they were. */
    method OnBreakpoint(matched: set<Tier>)
      requires Valid()
      modifies this
      ensures Valid()
      ensures declared == old(declared) && subscribed == old(subscribed)
      ensures visible
           == if old(subscribed) && Select(matched).Some?
              then Visible(declared, Select(matched).value)
              else old(visible)
    {
      if subscribed {
        match Select(matched)
        case Some(t) =>
          visible := Visible(declared, t);
          shown := t;
        case None =>
      }
    }

    /** `ngOnDestroy`: fire the teardown subject, which ends the live
        subscription; the lists are left as they are, and by the contract of
        `OnBreakpoint` no later notification changes them until a new
        subscription is made. */
    method Destroy()
      requires Valid()
      modifies this
      ensures Valid()
      ensures !subscribed
      ensures declared == old(declared) && visible == old(visible)
    {
      subscribed := false;
    }
  }

  /** The columns shown once the subscription has delivered `first`. */
  function ShownAtSubscribe(names: seq<string>, first: set<Tier>): seq<string> {
    match Select(first)
    case Some(t) => Visible(names, t)
    case None => names
  }

  /** The duplicate check as written: the first-occurrence filter of the
      names against the columns shown at the time of the check. */
  predicate ReportsAsWritten(names: seq<string>, first: set<Tier>) {
    |FirstOccurrences(names)| < |ShownAtSubscribe(names, first)|
  }

  /** The check as written never reports a list without duplicates, and it
      reports exactly the lists with duplicates when the first notification
      leaves every column shown (none delivered, or XLarge the narrowest
      match). */
  lemma ReportsAsWrittenSound(names: seq<string>, first: set<Tier>)
    ensures ReportsAsWritten(names, first) ==> HasDuplicates(names)
    ensures Select(first) == None || Select(first) == Some(XLarge)
         ==> (ReportsAsWritten(names, first) <==> HasDuplicates(names))
  {
    DuplicateErrorIff(names);
    if Select(first) == Some(XLarge) {
      VisibleXLarge(names);
    }
  }

  /** The check as written misses a duplicate: `[A, B, A]` with XSmall
      matched at subscription shows `[A, A]`, as long as its two distinct
      first occurrences `[A, B]`, so nothing is logged. */
  lemma MissedDuplicate()
    ensures HasDuplicates(["A", "B", "A"])
    ensures !ReportsAsWritten(["A", "B", "A"], {XSmall})
  {
    var names := ["A", "B", "A"];
    assert names[0] == names[2];
    VisibleXSmall(names);
    var test := FirstOccurrenceTest(names);
    FilterPrefixStep(names, test, 0);
    FilterPrefixStep(names, test, 1);
    FilterPrefixStep(names, test, 2);
    assert names[..3] == names;
    assert FirstOccurrences(names) == ["A", "B"];
  }

  /** The shown columns of a valid component are an order-preserving
      subsequence of the declared ones and keep the first and last column. */
  lemma ShownColumns(c: TableComponent)
    requires c.Valid()
    ensures IsSubsequence(c.visible, c.declared)
    ensures |c.declared| >= 1 ==>
      |c.visible| >= 1 && c.visible[0] == c.declared[0]
      && c.visible[|c.visible| - 1] == c.declared[|c.declared| - 1]
  {
    VisibleIsSubsequence(c.declared, c.shown);
    if |c.declared| >= 1 {
      VisibleKeepsEnds(c.declared, c.shown);
    }
  }

  /** Six columns: the narrowest matched tier decides, and a notification
      that matches no tier changes nothing. */
  method ResponsiveScenario()
  {
    var c := new TableComponent();
    var cols := ["A", "B", "C", "D", "E", "F"];
    var _ := c.AfterViewInit(cols, {});
    assert c.visible == cols;
    c.OnBreakpoint({XSmall, Medium});
    VisibleXSmall(cols);
    assert c.visible == ["A", "F"];
    c.OnBreakpoint({});
    assert c.visible == ["A", "F"];
  }

  /** After teardown a notification no longer changes the shown columns. */
  method TeardownScenario()
  {
    var c := new TableComponent();
    var cols := ["A", "B", "C"];
    var _ := c.AfterViewInit(cols, {XSmall});
    VisibleXSmall(cols);
    assert c.visible == ["A", "C"];
    c.Destroy();
    c.OnBreakpoint({XLarge});
    assert c.visible == ["A", "C"];
  }

  /** A repeated name is reported when the first notification shows every
      column, and the working list keeps it. */
  method DuplicateScenario()
  {
    var c := new TableComponent();
    var cols := ["A", "B", "A"];
    var reported := c.AfterViewInit(cols, {XLarge});
    ReportsAsWrittenSound(cols, {XLarge});
    assert reported by {
      assert cols[0] == cols[2];
    }
    assert c.declared == cols && c.subscribed;
  }
}
