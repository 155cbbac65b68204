/** What becomes of each extent of a run, and that the accounts balance whatever it is. */
module Events {
  import opened Wrappers
  import opened Extents
  import opened Accounts

  /** What became of one thing the walk came upon. `first` is the extent as the
      walk read it, `again` as it was resolved for acting on. */
  datatype Event =
    | Unread(reason: LeftAlone)                                // the walk could not resolve it
    | Idle(first: Extent)                                      // nothing to reclaim
    | Left(first: Extent, again: Extent, reason: LeftAlone)    // left alone
    | FailedOn(first: Extent, again: Extent, modified: bool)   // left alone: rewriting it failed
    | IdleAgain(first: Extent, again: Extent)                  // nothing to reclaim any more
    | Rewritten(first: Extent, again: Extent)
    | Lost(first: Extent)                                      // the run stopped resolving it again
    | Stopped(first: Extent, again: Extent)                    // the run stopped rewriting it
  {
    predicate Resolved() { !Unread? }
    predicate Twice() { Left? || FailedOn? || IdleAgain? || Rewritten? || Stopped? }
  }

  /** An account of what was rewritten and what failed. */
  datatype Report = Report(rewritten: seq<nat>, copiedBytes: nat, freedBytes: nat, skipped: nat, modified: nat)

  const EMPTY := Report([], 0, 0, 0, 0)

  /** The extents counted into the totals. */
  function CountedIn(events: seq<Event>): seq<Extent> {
    if events == [] then []
    else
      var e := events[|events| - 1];
      CountedIn(events[..|events| - 1]) + if e.Resolved() then [e.first] else []
  }

  function LeftBy(e: Event): seq<Entry> {
    match e
    case Unread(reason) => [LeftEntry(reason, None)]
    case Left(_, again, reason) => [LeftEntry(reason, Some(again))]
    case FailedOn(_, again, _) => [LeftEntry(Failed, Some(again))]
    case Stopped(_, again) => [LeftEntry(Failed, Some(again))]
    case _ => []
  }

  /** What was left alone. */
  function LeftIn(events: seq<Event>): seq<Entry> {
    if events == [] then [] else LeftIn(events[..|events| - 1]) + LeftBy(events[|events| - 1])
  }

  function ReportNext(r: Report, e: Event): Report {
    match e
    case Rewritten(_, again) =>
      Report(r.rewritten + [again.diskAddress], r.copiedBytes + again.LiveUncompressedBytes(),
             r.freedBytes + again.DiskFreeBytes(), r.skipped, r.modified)
    case FailedOn(_, _, modified) =>
      if modified then r.(modified := r.modified + 1) else r.(skipped := r.skipped + 1)
    case _ => r
  }

  function ReportIn(events: seq<Event>): Report {
    if events == [] then EMPTY else ReportNext(ReportIn(events[..|events| - 1]), events[|events| - 1])
  }

  /** What the branches of the loop check. */
  predicate Proper(e: Event) {
    && (e.Twice() ==> e.again.diskAddress == e.first.diskAddress)
    && (e.Idle? ==> e.first.DiskFreeBytes() == 0)
    && (e.IdleAgain? ==> e.again.DiskFreeBytes() == 0)
    && (e.Rewritten? ==> e.again.NotWorthRewriting() == None)
    && (e.Left? ==> e.reason != Failed)
    && (e.Unread? ==> e.reason != Failed)
  }

  predicate AllProper(events: seq<Event>) {
    forall i :: 0 <= i < |events| ==> Proper(events[i])
  }

  /** How much less there was to free by the second look at an extent. */
  function DriftBy(e: Event): int {
    if e.Twice() then e.first.DiskFreeBytes() - e.again.DiskFreeBytes() else 0
  }

  function Drift(events: seq<Event>): int {
    if events == [] then 0 else Drift(events[..|events| - 1]) + DriftBy(events[|events| - 1])
  }

  /** What an extent the run stopped at before acting on it had to free. */
  function LostBy(e: Event): nat {
    if e.Lost? then e.first.DiskFreeBytes() else 0
  }

  function LostBytes(events: seq<Event>): nat {
    if events == [] then 0 else LostBytes(events[..|events| - 1]) + LostBy(events[|events| - 1])
  }

  /** Taking one more event into account. */
  lemma EventNext(events: seq<Event>, e: Event)
    ensures CountedIn(events + [e]) == CountedIn(events) + if e.Resolved() then [e.first] else []
    ensures LeftIn(events + [e]) == LeftIn(events) + LeftBy(e)
    ensures ReportIn(events + [e]) == ReportNext(ReportIn(events), e)
  {
    assert (events + [e])[..|events|] == events;
  }

  lemma OneLeft(e: Event)
    ensures LeftBy(e) == [] ==> LeftBytes(e) == 0 && FailedBy(e) == 0
    ensures LeftBy(e) != [] ==> LeftBy(e) == [LeftBy(e)[0]] && LeftBy(e)[0].amount.count == 1
    ensures LeftBy(e) != [] ==> LeftBy(e)[0].amount.unreachableBytes == LeftBytes(e)
    ensures LeftBy(e) != [] ==> FailedBy(e) == if LeftBy(e)[0].slot == Index(Failed) then 1 else 0
  {
    FailedOnly();
  }

  lemma LeftSum(log: seq<Entry>, e: Event)
    ensures Sum(log + LeftBy(e)).unreachableBytes == Sum(log).unreachableBytes + LeftBytes(e)
    ensures Sum(log + LeftBy(e)).count == Sum(log).count + |LeftBy(e)|
    ensures SumIn(log + LeftBy(e), Index(Failed)).count == SumIn(log, Index(Failed)).count + FailedBy(e)
  {
    OneLeft(e);
    if LeftBy(e) == [] {
      assert log + LeftBy(e) == log;
    } else {
      SumNext(log, LeftBy(e)[0], Index(Failed));
    }
  }

  lemma FailedOnly()
    ensures forall reason :: Index(reason) == Index(Failed) <==> reason == Failed
  {
  }

  lemma CountedSum(counted: seq<Extent>, e: Event)
    ensures OfAll(counted + if e.Resolved() then [e.first] else []).unreachableBytes ==
      OfAll(counted).unreachableBytes + FoundBy(e)
  {
    if e.Resolved() {
      CountedNext(counted, e.first);
    } else {
      assert counted + [] == counted;
    }
  }

  /** What there was to free in an extent, what of it was freed, and what was left alone. */
  function FoundBy(e: Event): nat {
    if e.Resolved() then e.first.DiskFreeBytes() else 0
  }

  function FreedBy(e: Event): nat {
    if e.Rewritten? then e.again.DiskFreeBytes() else 0
  }

  function LeftBytes(e: Event): nat {
    if e.Left? || e.FailedOn? || e.Stopped? then e.again.DiskFreeBytes() else 0
  }

  lemma OneBalances(e: Event)
    requires Proper(e)
    ensures FoundBy(e) == FreedBy(e) + LeftBytes(e) + DriftBy(e) + LostBy(e)
  {
  }

  lemma FreedNext(r: Report, e: Event)
    ensures ReportNext(r, e).freedBytes == r.freedBytes + FreedBy(e)
    ensures |ReportNext(r, e).rewritten| == |r.rewritten| + if e.Rewritten? then 1 else 0
  {
  }

  /** Whatever became of each extent, what was unreachable is what was freed, what
      was left alone, what went in between, and what the run never got to. */
  lemma {:induction false} AccountsBalance(events: seq<Event>)
    requires AllProper(events)
    ensures OfAll(CountedIn(events)).unreachableBytes ==
            ReportIn(events).freedBytes + Sum(LeftIn(events)).unreachableBytes + Drift(events) + LostBytes(events)
    decreases |events|
  {
    if events != [] {
      var init, e := events[..|events| - 1], events[|events| - 1];
      AccountsBalance(init);
      CountedSum(CountedIn(init), e);
      LeftSum(LeftIn(init), e);
      FreedNext(ReportIn(init), e);
      OneBalances(e);
    } else {
      assert SizeEntries([]) == [];
    }
  }

  /** A second look that finds as much to free as the first. */
  predicate Steady(events: seq<Event>) {
    forall i :: 0 <= i < |events| && events[i].Twice() ==>
      events[i].first.DiskFreeBytes() == events[i].again.DiskFreeBytes()
  }

  lemma {:induction false} SteadyDrift(events: seq<Event>)
    requires Steady(events)
    ensures Drift(events) == 0
    decreases |events|
  {
    if events == [] {
    } else {
      SteadyDrift(events[..|events| - 1]);
    }
  }

  /** A run that stopped at no extent. */
  predicate Finished(events: seq<Event>) {
    forall i :: 0 <= i < |events| ==> !events[i].Lost? && !events[i].Stopped?
  }

  lemma {:induction false} FinishedLosesNothing(events: seq<Event>)
    requires Finished(events)
    ensures LostBytes(events) == 0
    decreases |events|
  {
    if events == [] {
    } else {
      FinishedLosesNothing(events[..|events| - 1]);
    }
  }

  /** A run that finishes, finding each extent as the walk did, frees or leaves
      alone every unreachable byte it counted, and never the same one twice. */
  lemma FinishedRunBalances(events: seq<Event>)
    requires AllProper(events) && Finished(events) && Steady(events)
    ensures OfAll(CountedIn(events)).unreachableBytes ==
            ReportIn(events).freedBytes + Sum(LeftIn(events)).unreachableBytes
  {
    AccountsBalance(events);
    SteadyDrift(events);
    FinishedLosesNothing(events);
  }

  /** How often the event counts as failed, and enters the report's two lists. */
  function FailedBy(e: Event): nat {
    if e.FailedOn? || e.Stopped? || ((e.Left? || e.Unread?) && e.reason == Failed) then 1 else 0
  }

  function StoppedBy(e: Event): nat {
    if e.Stopped? then 1 else 0
  }

  function Stops(events: seq<Event>): nat {
    if events == [] then 0 else Stops(events[..|events| - 1]) + StoppedBy(events[|events| - 1])
  }

  lemma OneFailure(r: Report, e: Event)
    requires Proper(e)
    ensures ReportNext(r, e).skipped + ReportNext(r, e).modified + StoppedBy(e) == r.skipped + r.modified + FailedBy(e)
  {
  }

  /** An extent counts as failed for every entry in the report's two lists, and for
      the one the run stopped at. */
  lemma {:induction false} FailuresCounted(events: seq<Event>)
    requires AllProper(events)
    ensures SumIn(LeftIn(events), Index(Failed)).count ==
      ReportIn(events).skipped + ReportIn(events).modified + Stops(events)
    decreases |events|
  {
    if events == [] {
    } else {
      var init, e := events[..|events| - 1], events[|events| - 1];
      FailuresCounted(init);
      LeftSum(LeftIn(init), e);
      OneFailure(ReportIn(init), e);
    }
  }

  function Passed(events: seq<Event>): nat {
    if events == [] then 0 else Passed(events[..|events| - 1]) + PassedBy(events[|events| - 1])
  }

  function PassedBy(e: Event): nat {
    if e.Idle? || e.IdleAgain? || e.Lost? then 1 else 0
  }

  lemma OneFate(e: Event)
    ensures (if e.Rewritten? then 1 else 0) + |LeftBy(e)| + PassedBy(e) == 1
  {
  }

  /** Everything the walk came upon is rewritten, left alone, or passed over, and
      only one of them. */
  lemma {:induction false} EachOnce(events: seq<Event>)
    ensures |ReportIn(events).rewritten| + Sum(LeftIn(events)).count + Passed(events) == |events|
    decreases |events|
  {
    if events == [] {
    } else {
      var init, e := events[..|events| - 1], events[|events| - 1];
      EachOnce(init);
      LeftSum(LeftIn(init), e);
      FreedNext(ReportIn(init), e);
      OneFate(e);
    }
  }

  /** Rewriting is worth it over a whole run as it is for every extent. */
  lemma {:induction false} RunWorthIt(events: seq<Event>)
    requires AllProper(events)
    ensures ReportIn(events).copiedBytes <= MAX_COPY_RATIO * ReportIn(events).freedBytes
    ensures MIN_RECLAIM_BYTES * |ReportIn(events).rewritten| <= ReportIn(events).freedBytes
    decreases |events|
  {
    if events == [] {
    } else {
      RunWorthIt(events[..|events| - 1]);
      assert Proper(events[|events| - 1]);
    }
  }

  predicate Ascends(addresses: seq<nat>) {
    forall i, j :: 0 <= i < j < |addresses| ==> addresses[i] < addresses[j]
  }

  lemma {:induction false} RewrittenCounted(events: seq<Event>, address: nat)
    requires AllProper(events) && address in ReportIn(events).rewritten
    ensures exists i :: 0 <= i < |CountedIn(events)| && CountedIn(events)[i].diskAddress == address
    decreases |events|
  {
    var init, e := events[..|events| - 1], events[|events| - 1];
    assert Proper(e);
    var counted := CountedIn(events);
    if address in ReportIn(init).rewritten {
      RewrittenCounted(init, address);
      var i :| 0 <= i < |CountedIn(init)| && CountedIn(init)[i].diskAddress == address;
      assert counted[i].diskAddress == address;
    } else {
      assert counted[|counted| - 1].diskAddress == address;
    }
  }

  lemma AscendsOn(addresses: seq<nat>, next: nat)
    requires Ascends(addresses) && forall address :: address in addresses ==> address < next
    ensures Ascends(addresses + [next])
  {
    assert forall i :: 0 <= i < |addresses| ==> addresses[i] in addresses;
  }

  /** What is rewritten last is past everything rewritten before it. */
  lemma LastHighest(init: seq<Event>, e: Event)
    requires AllProper(init) && Proper(e) && e.Rewritten? && AddressesAscend(CountedIn(init) + [e.first])
    ensures forall address :: address in ReportIn(init).rewritten ==> address < e.again.diskAddress
  {
    var counted := CountedIn(init) + [e.first];
    forall address | address in ReportIn(init).rewritten
      ensures address < e.again.diskAddress
    {
      RewrittenCounted(init, address);
      var i :| 0 <= i < |CountedIn(init)| && CountedIn(init)[i].diskAddress == address;
      assert counted[i].diskAddress == address && counted[|counted| - 1] == e.first;
    }
  }

  /** Extents are rewritten in the order the walk meets them, none of them twice. */
  lemma {:induction false} RewrittenAscends(events: seq<Event>)
    requires AllProper(events) && AddressesAscend(CountedIn(events))
    ensures Ascends(ReportIn(events).rewritten)
    decreases |events|
  {
    if events == [] {
    } else {
      var init, e := events[..|events| - 1], events[|events| - 1];
      var counted := CountedIn(events);
      assert Proper(e);
      assert forall i :: 0 <= i < |CountedIn(init)| ==> CountedIn(init)[i] == counted[i];
      RewrittenAscends(init);
      if e.Rewritten? {
        LastHighest(init, e);
        AscendsOn(ReportIn(init).rewritten, e.again.diskAddress);
      }
    }
  }

  // ----- What the accounts hold, entry by entry -----

  /** The extents rewritten, as they were acted on. */
  function RewrittenIn(events: seq<Event>): seq<Extent> {
    if events == [] then []
    else
      var e := events[|events| - 1];
      RewrittenIn(events[..|events| - 1]) + if e.Rewritten? then [e.again] else []
  }

  function Total(figures: seq<nat>): nat {
    if figures == [] then 0 else Total(figures[..|figures| - 1]) + figures[|figures| - 1]
  }

  lemma TotalNext(figures: seq<nat>, n: nat)
    ensures Total(figures + [n]) == Total(figures) + n
  {
    assert (figures + [n])[..|figures|] == figures;
  }

  /** How many of the events are failures, of one kind or the other. */
  ghost function Failures(events: seq<Event>, modified: bool): set<nat> {
    set k: nat | k < |events| && events[k].FailedOn? && events[k].modified == modified
  }

  lemma FailuresNext(events: seq<Event>, modified: bool)
    requires events != []
    ensures var init, e := events[..|events| - 1], events[|events| - 1];
      |Failures(events, modified)| ==
        |Failures(init, modified)| + if e.FailedOn? && e.modified == modified then 1 else 0
  {
    var init, e := events[..|events| - 1], events[|events| - 1];
    var last := if e.FailedOn? && e.modified == modified then {|init|} else {};
    assert Failures(events, modified) == Failures(init, modified) + last;
  }

  lemma FiguresNext(extents: seq<Extent>, e: Extent)
    ensures Addresses(extents + [e]) == Addresses(extents) + [e.diskAddress]
    ensures LiveFigures(extents + [e]) == LiveFigures(extents) + [e.LiveUncompressedBytes()]
    ensures FreeFigures(extents + [e]) == FreeFigures(extents) + [e.DiskFreeBytes()]
  {
  }

  function Addresses(extents: seq<Extent>): seq<nat> {
    seq(|extents|, i requires 0 <= i < |extents| => extents[i].diskAddress)
  }

  function LiveFigures(extents: seq<Extent>): seq<nat> {
    seq(|extents|, i requires 0 <= i < |extents| => extents[i].LiveUncompressedBytes())
  }

  function FreeFigures(extents: seq<Extent>): seq<nat> {
    seq(|extents|, i requires 0 <= i < |extents| => extents[i].DiskFreeBytes())
  }

  /** The report lists the extents rewritten, in order, has the bytes live in them as
      copied and those free in them as freed, and counts the failures of each kind. */
  lemma {:induction false} ReportExactly(events: seq<Event>)
    ensures var report, rewritten := ReportIn(events), RewrittenIn(events);
      && report.rewritten == Addresses(rewritten)
      && report.copiedBytes == Total(LiveFigures(rewritten)) && report.freedBytes == Total(FreeFigures(rewritten))
      && report.skipped == |Failures(events, false)| && report.modified == |Failures(events, true)|
    decreases |events|
  {
    if events == [] {
      assert Addresses([]) == [] && LiveFigures([]) == [] && FreeFigures([]) == [];
    } else {
      var init, e := events[..|events| - 1], events[|events| - 1];
      var rewritten := RewrittenIn(init);
      ReportExactly(init);
      FailuresNext(events, false);
      FailuresNext(events, true);
      if e.Rewritten? {
        FiguresNext(rewritten, e.again);
        TotalNext(LiveFigures(rewritten), e.again.LiveUncompressedBytes());
        TotalNext(FreeFigures(rewritten), e.again.DiskFreeBytes());
      } else {
        assert rewritten + [] == rewritten;
      }
    }
  }

  /** The extents left alone for a reason, those never resolved among them. */
  function LeftFrom(events: seq<Event>, reason: LeftAlone): seq<Option<Extent>> {
    if events == [] then []
    else
      var e := events[|events| - 1];
      LeftFrom(events[..|events| - 1], reason)
      + match e
        case Unread(why) => if why == reason then [None] else []
        case Left(_, again, why) => if why == reason then [Some(again)] else []
        case FailedOn(_, again, _) => if reason == Failed then [Some(again)] else []
        case Stopped(_, again) => if reason == Failed then [Some(again)] else []
        case _ => []
  }

  /** A figure of each of them, none for one never resolved. */
  function Figures(left: seq<Option<Extent>>, figure: Extent -> nat): seq<nat> {
    seq(|left|, i requires 0 <= i < |left| => match left[i] case None => 0 case Some(e) => figure(e))
  }

  lemma FigureNext(left: seq<Option<Extent>>, last: Option<Extent>, figure: Extent -> nat)
    ensures Total(Figures(left + [last], figure)) ==
      Total(Figures(left, figure)) + match last case None => 0 case Some(e) => figure(e)
  {
    var n := match last case None => 0 case Some(e) => figure(e);
    assert Figures(left + [last], figure) == Figures(left, figure) + [n];
    TotalNext(Figures(left, figure), n);
  }

  /** What those left alone for a reason come to: how many, and their bytes on disk, used
      and free. */
  ghost predicate Comes(b: Bucket, left: seq<Option<Extent>>) {
    && b.count == |left|
    && b.allocatedBytes == Total(Figures(left, (e: Extent) => e.diskBytes))
    && b.usedBytes == Total(Figures(left, (e: Extent) => e.DiskUsedBytes()))
    && b.unreachableBytes == Total(Figures(left, (e: Extent) => e.DiskFreeBytes()))
  }

  lemma ComesNext(b: Bucket, left: seq<Option<Extent>>, last: Option<Extent>, now: Bucket, reason: LeftAlone)
    requires Comes(b, left) && now == Plus(b, LeftEntry(reason, last).amount)
    ensures Comes(now, left + [last])
  {
    FigureNext(left, last, (e: Extent) => e.diskBytes);
    FigureNext(left, last, (e: Extent) => e.DiskUsedBytes());
    FigureNext(left, last, (e: Extent) => e.DiskFreeBytes());
  }

  /** A reason's row in the table is of the extents left alone for that reason and of no
      others. */
  lemma {:induction false} RowExactly(events: seq<Event>, reason: LeftAlone)
    ensures Comes(SumIn(LeftIn(events), Index(reason)), LeftFrom(events, reason))
    decreases |events|
  {
    if events == [] {
      assert forall figure: Extent -> nat :: Figures([], figure) == [];
    } else {
      var init, e := events[..|events| - 1], events[|events| - 1];
      RowExactly(init, reason);
      assert init + [e] == events;
      LeftFromNext(init, e, reason);
      RowNextEvent(LeftIn(init), LeftFrom(init, reason), e, reason);
    }
  }

  function LeftFromBy(e: Event, reason: LeftAlone): seq<Option<Extent>> {
    if LeftBy(e) != [] && LeftReason(e) == reason then [LeftExtent(e)] else []
  }

  lemma LeftFromNext(init: seq<Event>, e: Event, reason: LeftAlone)
    ensures LeftFrom(init + [e], reason) == LeftFrom(init, reason) + LeftFromBy(e, reason)
  {
    assert (init + [e])[..|init|] == init;
  }

  lemma RowNextEvent(log: seq<Entry>, left: seq<Option<Extent>>, e: Event, reason: LeftAlone)
    requires Comes(SumIn(log, Index(reason)), left)
    ensures Comes(SumIn(log + LeftBy(e), Index(reason)), left + LeftFromBy(e, reason))
  {
    if LeftBy(e) == [] {
      assert log + [] == log && left + [] == left;
    } else {
      assert (log + LeftBy(e))[..|log|] == log;
      SlotsDiffer(LeftReason(e), reason);
      if LeftReason(e) == reason {
        ComesNext(SumIn(log, Index(reason)), left, LeftExtent(e), SumIn(log + LeftBy(e), Index(reason)), reason);
      } else {
        assert left + [] == left;
      }
    }
  }

  function LeftReason(e: Event): LeftAlone {
    if e.Unread? || e.Left? then e.reason else Failed
  }

  function LeftExtent(e: Event): Option<Extent> {
    if e.Left? || e.FailedOn? || e.Stopped? then Some(e.again) else None
  }

  /** Every reason has a row of its own. */
  lemma SlotsDiffer(a: LeftAlone, b: LeftAlone)
    ensures Index(a) == Index(b) <==> a == b
  {
  }
}
