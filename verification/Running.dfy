/** The run: every extent the walk hands over goes one way, and is accounted for. */
module Running {
  import opened Wrappers
  import opened Words
  import opened Extents
  import opened Accounts
  import opened Events
  import opened Fates
  import opened Walk
  import opened Mounts
  import Batches
  import Disks
  import Kernel
  import Processing
  import Resolve
  import Search

  predicate Sized(met: seq<Discovery>) {
    forall i :: 0 <= i < |met| && met[i].Found? ==> met[i].extent.diskBytes < TWO64
  }

  /** What was met is counted. */
  ghost predicate Progress(met: seq<Discovery>, counted: seq<Extent>, extents: nat) {
    Sized(met) && counted == Met(met) && extents == |counted|
  }

  lemma ProgressNext(met: seq<Discovery>, counted: seq<Extent>, extents: nat, d: Discovery)
    requires Progress(met, counted, extents)
    ensures d.Found? && d.extent.diskBytes < TWO64 ==> Progress(met + [d], counted + [d.extent], extents + 1)
    ensures !d.Found? ==> Progress(met + [d], counted, extents)
  {
    assert (met + [d])[..|met|] == met;
  }

  /** What became of everything so far explains what was counted and left alone,
      save the extent in hand, and while nothing stopped the run it is everything. */
  ghost predicate Books(events: seq<Event>, inHand: seq<Extent>, counted: seq<Extent>, log: seq<Entry>, at: nat,
      stopped: bool) {
    && AllProper(events)
    && counted == CountedIn(events) + inHand && log == LeftIn(events)
    && (!stopped ==> |events| + |inHand| == at && Finished(events))
  }

  lemma BooksMeet(events: seq<Event>, counted: seq<Extent>, log: seq<Entry>, at: nat, x: Extent)
    requires Books(events, [], counted, log, at, false)
    ensures Books(events, [x], counted + [x], log, at + 1, false)
  {
    assert CountedIn(events) + [] == CountedIn(events);
  }

  lemma BooksSettle(events: seq<Event>, counted: seq<Extent>, log: seq<Entry>, at: nat, e: Event, stopped: bool)
    requires e.Resolved() && Proper(e) && Books(events, [e.first], counted, log, at, false)
    requires e.Lost? || e.Stopped? ==> stopped
    ensures Books(events + [e], [], counted, log + LeftBy(e), at, stopped)
  {
    EventNext(events, e);
    assert CountedIn(events + [e]) + [] == CountedIn(events + [e]);
  }

  lemma BooksLeave(events: seq<Event>, counted: seq<Extent>, log: seq<Entry>, at: nat, e: Event, stopped: bool)
    requires e.Resolved() && Proper(e) && Books(events, [e.first], counted, log, at, false)
    requires e.Lost? || e.Stopped? ==> stopped
    requires LeftBy(e) == []
    ensures Books(events + [e], [], counted, log, at, stopped)
  {
    BooksSettle(events, counted, log, at, e, stopped);
    assert log + [] == log;
  }

  lemma BooksPass(events: seq<Event>, counted: seq<Extent>, log: seq<Entry>, at: nat, e: Event)
    requires e.Unread? && Proper(e) && Books(events, [], counted, log, at, false)
    ensures Books(events + [e], [], counted, log + LeftBy(e), at + 1, false)
  {
    EventNext(events, e);
    assert CountedIn(events) + [] == CountedIn(events + [e]) + [];
  }

  lemma BooksStop(events: seq<Event>, inHand: seq<Extent>, counted: seq<Extent>, log: seq<Entry>, at: nat,
      stopped: bool, later: nat)
    requires Books(events, inHand, counted, log, at, stopped)
    ensures Books(events, inHand, counted, log, later, true)
  {
  }

  function InHand(d: Discovery): seq<Extent> {
    if d.Found? then [d.extent] else []
  }

  class Scanner {
    const walk: ExtentWalk
    const mount: Mount
    /** What the run goes by. */
    ghost const terms: Terms
    /** What the walk has come upon. */
    ghost var met: seq<Discovery>
    var extents: nat
    const totals: Totals
    const leftAlone: LeftAloneStats
    /** Set once something stops the run; nothing is met after that. */
    var error: Option<Fault>

    ghost predicate Valid()
      reads this, totals, totals.buckets, leftAlone, leftAlone.reasons
    {
      && totals.buckets != leftAlone.reasons && totals.Valid() && leftAlone.Valid()
      && Progress(met, totals.counted, extents)
    }

    ghost predicate Booked(events: seq<Event>, inHand: seq<Extent>)
      reads this, totals, leftAlone
    {
      Books(events, inHand, totals.counted, leftAlone.log, |met|, error != None)
    }

    constructor (walk: ExtentWalk, mount: Mount, ghost terms: Terms)
      requires walk.Valid() && walk.handed == []
      ensures Valid() && Walking(walk, met, PlaceOf(walk)) && Booked([], []) && this.walk == walk && this.mount == mount
      ensures this.terms == terms
      ensures error == None && met == []
      ensures fresh(totals) && fresh(totals.buckets) && fresh(leftAlone) && fresh(leftAlone.reasons)
    {
      this.walk, this.mount, this.terms, met, extents, error := walk, mount, terms, [], 0, None;
      totals := new Totals();
      leftAlone := new LeftAloneStats();
    }

    /** Enters an unresolved extent under its reason, or, for a `Fatal` fault, sets
        `error` and enters nothing. */
    method LeaveUnresolved(fault: Fault, extent: Option<Extent>)
      requires Valid()
      modifies this`error, leftAlone, leftAlone.reasons
      ensures Valid()
      ensures fault == Fatal ==> error == Some(fault) && leftAlone.log == old(leftAlone.log)
      ensures fault != Fatal ==>
                error == old(error) && leftAlone.log == old(leftAlone.log) + [LeftEntry(ReasonOf(fault), extent)]
    {
      if fault == Fatal {
        error := Some(fault);
        return;
      }
      var reason := if fault == ChangedSince then Changed else LeftAlone.Unresolved;
      leftAlone.Add(reason, extent);
    }

    /** Counts an extent left alone. */
    method LeaveAlone(reason: LeftAlone, extent: Extent, ghost events: seq<Event>, ghost e: Event)
      requires e.Resolved() && Proper(e) && Valid() && Booked(events, [e.first]) && error == None
      requires !Stopping(e) && LeftBy(e) == [LeftEntry(reason, Some(extent))]
      modifies leftAlone, leftAlone.reasons
      ensures Valid() && Booked(events + [e], [])
    {
      BooksSettle(events, totals.counted, leftAlone.log, |met|, e, false);
      leftAlone.Add(reason, Some(extent));
    }

    /** Passes over an extent there is nothing to do for. */
    ghost method Pass(events: seq<Event>, e: Event)
      requires e.Resolved() && Proper(e) && Valid() && Booked(events, [e.first]) && error == None
      requires !Stopping(e) && LeftBy(e) == []
      ensures Booked(events + [e], [])
    {
      BooksLeave(events, totals.counted, leftAlone.log, |met|, e, false);
    }

    /** Counts an extent left alone, and ends the run. */
    method Stop(fault: Fault, extent: Extent, ghost events: seq<Event>, ghost e: Event)
      requires fault == Fatal && e.Stopped? && e.again == extent && Proper(e)
      requires Valid() && Booked(events, [e.first]) && error == None
      modifies this`error, leftAlone, leftAlone.reasons
      ensures Valid() && Booked(events + [e], []) && error == Some(fault)
    {
      BooksSettle(events, totals.counted, leftAlone.log, |met|, e, true);
      leftAlone.Add(Failed, Some(extent));
      error := Some(fault);
    }

    /** Counts an extent the walk hands over. */
    method Count(extent: Extent, ghost events: seq<Event>)
      requires Valid() && Booked(events, []) && error == None && extent.diskBytes < TWO64
      modifies this`met, this`extents, totals, totals.buckets
      ensures Valid() && Booked(events, [extent]) && met == old(met) + [Found(extent)]
    {
      ProgressNext(met, totals.counted, extents, Found(extent));
      BooksMeet(events, totals.counted, leftAlone.log, |met|, extent);
      met, extents := met + [Found(extent)], extents + 1;
      totals.Add(extent);
    }

    /** Meets an address without an extent: an `Unread` event, unless the fault is `Fatal`. */
    method PassOver(address: nat, fault: Fault, ghost events: seq<Event>) returns (ghost now: seq<Event>)
      requires Valid() && Booked(events, []) && error == None
      modifies this`met, this`error, leftAlone, leftAlone.reasons
      ensures Valid() && Booked(now, []) && met == old(met) + [Unclear(address, fault)]
      ensures now == if fault == Fatal then events else events + [Unread(ReasonOf(fault))]
      ensures error == if fault == Fatal then Some(fault) else None
    {
      ghost var counted, log, d := totals.counted, leftAlone.log, Unclear(address, fault);
      ProgressNext(met, counted, extents, d);
      met := met + [d];
      LeaveUnresolved(fault, None);
      if fault == Fatal {
        BooksStop(events, [], counted, log, |met| - 1, false, |met|);
        return events;
      }
      ghost var e := Unread(ReasonOf(fault));
      BooksPass(events, counted, log, |met| - 1, e);
      now := events + [e];
    }

    /** Stops where the walk does. */
    method Break(fault: Fault, ghost events: seq<Event>)
      requires Valid() && Booked(events, []) && error == None
      modifies this`met, this`error
      ensures Valid() && Booked(events, []) && met == old(met) + [Broken(fault)] && error == Some(fault)
    {
      ProgressNext(met, totals.counted, extents, Broken(fault));
      BooksStop(events, [], totals.counted, leftAlone.log, |met|, false, |met| + 1);
      met, error := met + [Broken(fault)], Some(fault);
    }

    /** Takes what the walk hands over. */
    method Meet(d: Discovery, ghost events: seq<Event>) returns (ghost now: seq<Event>)
      requires Valid() && Booked(events, []) && error == None && (d.Found? ==> d.extent.diskBytes < TWO64)
      modifies this`met, this`extents, this`error, totals, totals.buckets, leftAlone, leftAlone.reasons
      ensures Valid() && Booked(now, InHand(d)) && met == old(met) + [d]
      ensures now == if d.Unclear? && d.fault != Fatal then events + [Unread(ReasonOf(d.fault))] else events
      ensures error == if Halting(d) then Some(d.fault) else None
    {
      now := events;
      match d {
        case Found(extent) =>
          Count(extent, events);
        case Unclear(address, fault) =>
          now := PassOver(address, fault, events);
        case Broken(fault) =>
          Break(fault, events);
      }
    }

    /** What holds from one thing met to the next, `d` being the last. */
    ghost predicate Taken(base: Base, d: Option<Discovery>, now: seq<Event>, learnt: seq<Answers>)
      reads this, totals, totals.buckets, leftAlone, leftAlone.reasons
    {
      && Valid() && Booked(now, HandOf(d)) && Follows(terms, met, base, now, learnt, error)
      && Stepped(d, met, error)
    }

    /** Takes what the walk hands over, and follows on from what was met before. */
    method TakeOn(d: Discovery, ghost base: Base, ghost last: Option<Discovery>, ghost now: seq<Event>,
                  ghost learnt: seq<Answers>)
      returns (ghost later: seq<Event>, ghost more: seq<Answers>)
      requires Taken(base, last, now, learnt) && HandOf(last) == [] && error == None
      requires d.Found? ==> d.extent.diskBytes < TWO64
      modifies this`met, this`extents, this`error, totals, totals.buckets, leftAlone, leftAlone.reasons
      ensures Taken(base, Some(d), later, more) && met == old(met) + [d]
    {
      ghost var before := met;
      later := Meet(d, now);
      more := if later == now then learnt else learnt + [Unasked(base.disk)];
      FollowsMet(terms, before, met, base, now, later, learnt, more, d, error);
    }

    /** That leaves the walk where it is. */
    method Take(d: Discovery, ghost base: Base, ghost last: Option<Discovery>, ghost now: seq<Event>,
                ghost learnt: seq<Answers>)
      returns (ghost later: seq<Event>, ghost more: seq<Answers>)
      requires Taken(base, last, now, learnt) && HandOf(last) == [] && error == None
      requires d.Found? ==> d.extent.diskBytes < TWO64
      modifies this`met, this`extents, this`error, totals, totals.buckets, leftAlone, leftAlone.reasons
      ensures Taken(base, Some(d), later, more) && met == old(met) + [d]
      ensures walk.Now() == old(walk.Now())
    {
      later, more := TakeOn(d, base, last, now, learnt);
    }

    /** The walk is none of the objects the scanner keeps its accounts in. */
    lemma Apart()
      ensures var walking: set<object> := {walk, walk.tree, walk.trees};
        walking !! {this, totals, totals.buckets, leftAlone, leftAlone.reasons}
    {
    }

    lemma GoingOn(start: Place, base: Base, last: Option<Discovery>, now: seq<Event>, learnt: seq<Answers>)
      requires Taken(base, last, now, learnt) && error == None && Walking(walk, met, start)
      ensures !walk.failed
    {
    }

    /** Has the walk hand over the next thing, which is still to be taken. */
    method Draw(ghost start: Place, ghost base: Base, ghost last: Option<Discovery>, ghost now: seq<Event>,
                ghost learnt: seq<Answers>)
      returns (d: Option<Discovery>)
      requires Taken(base, last, now, learnt) && error == None && Walking(walk, met, start)
      modifies walk, walk.tree, walk.trees
      ensures Taken(base, last, now, learnt)
      ensures Walking(walk, if d.Some? then met + [d.value] else met, start)
      ensures d.Some? && d.value.Found? ==> d.value.extent.diskBytes < TWO64
      ensures if d.Some? then PlaceOf(walk).After(old(PlaceOf(walk))) else walk.Ended()
    {
      Apart();
      GoingOn(start, base, last, now, learnt);
      d := HandOn(walk, met, start);
    }

    /** Takes the next thing the walk hands over, if it has not ended. */
    method Step(ghost start: Place, ghost base: Base, ghost last: Option<Discovery>, ghost now: seq<Event>,
                ghost learnt: seq<Answers>)
      returns (d: Option<Discovery>, ghost later: seq<Event>, ghost more: seq<Answers>)
      requires Taken(base, last, now, learnt) && HandOf(last) == [] && error == None && Walking(walk, met, start)
      modifies this`met, this`extents, this`error, totals, totals.buckets, leftAlone, leftAlone.reasons
      modifies walk, walk.tree, walk.trees
      ensures Taken(base, d, later, more) && Walking(walk, met, start)
      ensures if d.Some? then PlaceOf(walk).After(old(PlaceOf(walk))) else error == None && walk.Ended()
    {
      d := Draw(start, base, last, now, learnt);
      later, more := now, learnt;
      if d.Some? {
        later, more := Take(d.value, base, last, now, learnt);
      }
    }

    /** Steps until something is in hand or nothing is left to step to. */
    method Next(ghost start: Place, ghost base: Base, ghost events: seq<Event>, ghost answers: seq<Answers>)
      returns (r: Option<Extent>, ghost last: Option<Discovery>, ghost now: seq<Event>, ghost learnt: seq<Answers>)
      requires Taken(base, None, events, answers) && error == None && Walking(walk, met, start)
      modifies this`met, this`extents, this`error, totals, totals.buckets, leftAlone, leftAlone.reasons
      modifies walk, walk.tree, walk.trees
      ensures Taken(base, last, now, learnt) && HandOf(last) == OneOf(r) && Walking(walk, met, start)
      ensures r.Some? ==> PlaceOf(walk).After(old(PlaceOf(walk)))
      ensures r.None? && error == None ==> walk.Ended()
    {
      now, learnt := events, answers;
      var d: Option<Discovery> := None;
      while error == None && HandOf(d) == []
        invariant Taken(base, d, now, learnt) && Walking(walk, met, start)
        invariant if d.Some? then PlaceOf(walk).After(old(PlaceOf(walk))) else PlaceOf(walk) == old(PlaceOf(walk))
        decreases error == None, PlaceOf(walk).ToGo(), PlaceOf(walk).held
      {
        ghost var before := d;
        d, now, learnt := Step(start, base, before, now, learnt);
        if d.None? {
          return None, d, now, learnt;
        }
      }
      r, last := if d.Some? && d.value.Found? then Some(d.value.extent) else None, d;
    }

    /** Settles an extent whose second resolution failed. */
    method LeaveAgain(extent: Extent, fault: Fault, ghost events: seq<Event>)
      requires Valid() && Booked(events, [extent]) && error == None
      modifies this`error, leftAlone, leftAlone.reasons
      ensures Valid() && Booked(events + [Unresolvable(extent, fault)], [])
      ensures error == if fault == Fatal then Some(fault) else None
    {
      ghost var counted, log, e := totals.counted, leftAlone.log, Unresolvable(extent, fault);
      LeaveUnresolved(fault, Some(extent));
      BooksSettle(events, counted, log, |met|, e, error != None);
      assert fault == Fatal ==> log + LeftBy(e) == log;
    }

    /** The mount's answer for an extent in hand. A failure settles the extent at once;
        an answer leaves it in hand. */
    method ResolveAgain(extent: Extent, ghost events: seq<Event>)
      returns (r: Option<Extent>, ghost answer: Result<Extent, Fault>, ghost failed: Option<Fault>)
      requires Valid() && Booked(events, [extent]) && error == None && mount.Valid()
      modifies this`error, leftAlone, leftAlone.reasons
      ensures Valid()
      ensures answer.Ok? ==> r == Some(answer.value) && Booked(events, [extent]) && error == None
      ensures Suits(terms, mount) ==> LookedAgain(terms, extent, answer, failed, mount.fs.disk)
      ensures answer.Err? ==> r == None && Booked(events + [Unresolvable(extent, answer.error)], [])
      ensures answer.Err? ==> error == if answer.error == Fatal then Some(Fatal) else None
      ensures !Disks.Referenced(mount.fs.disk, extent.diskAddress) ==> answer.Err?
    {
      var found;
      found, failed := mount.ResolveAgain(extent);
      answer := found;
      if found.Err? {
        LeaveAgain(extent, found.error, events);
        return None, answer, failed;
      }
      r := Some(found.value);
    }
  }

  /** What was met last. */
  predicate Stepped(d: Option<Discovery>, met: seq<Discovery>, error: Option<Fault>) {
    d.Some? ==>
      met != [] && met[|met| - 1] == d.value && error == if Halting(d.value) then Some(d.value.fault) else None
  }

  function HandOf(d: Option<Discovery>): seq<Extent> {
    if d.Some? then InHand(d.value) else []
  }

  function OneOf(r: Option<Extent>): seq<Extent> {
    if r.Some? then [r.value] else []
  }

  /** What passing over things leaves as it is: the report and the files. */
  datatype Base = Base(report: Report, disk: Disks.Disk)

  /** The terms are those of a run on this mount. */
  ghost predicate Suits(t: Terms, mount: Mount) {
    t.conduct == mount.fs.conduct && t.attributes == mount.fs.attributes && t.layout == mount.layout
    && t.reliable == mount.reliable
  }

  /** The terms of a run about to start. */
  ghost function TermsOf(mount: Mount, apply: bool): Terms
    reads mount.fs
  {
    Terms(mount.fs.conduct, mount.fs.attributes, mount.layout, mount.reliable, apply, mount.fs.disk)
  }

  /** From `base` on, what was met was passed over, but for what is in hand or stopped the run. */
  ghost predicate Follows(t: Terms, met: seq<Discovery>, base: Base, now: seq<Event>, learnt: seq<Answers>,
                          error: Option<Fault>)
  {
    && Right(t, now, met, learnt) && ReportIn(now) == base.report && FilesNow(t, learnt) == base.disk
    && (error.Some? ==> StoppedWith(met, now, error.value))
  }

  lemma FollowsMet(t: Terms, met: seq<Discovery>, later: seq<Discovery>, base: Base, now: seq<Event>,
                   events: seq<Event>, learnt: seq<Answers>, more: seq<Answers>, d: Discovery, error: Option<Fault>)
    requires Follows(t, met, base, now, learnt, None) && |now| == |met| && later == met + [d]
    requires events == if d.Unclear? && d.fault != Fatal then now + [Unread(ReasonOf(d.fault))] else now
    requires more == if events == now then learnt else learnt + [Unasked(base.disk)]
    requires error == if Halting(d) then Some(d.fault) else None
    ensures Follows(t, later, base, events, more, error)
  {
    assert d in later;
    if d.Unclear? && d.fault != Fatal {
      EventNext(now, Unread(ReasonOf(d.fault)));
      assert events[|now|] == Unread(ReasonOf(d.fault)) && events != now;
      LearntNext(t, met, later, learnt, Unasked(base.disk));
    } else {
      LearntMore(t, met, later, learnt);
    }
  }

  /** Where a walk is: what its searches saw, where it goes on, and how much it holds. */
  datatype Place = Place(first: nat, seen: seq<seq<Search.TreeItem>>, frontier: nat, held: nat)
  {
    ghost predicate Since(start: Place) {
      first == start.first && start.seen <= seen
    }

    function ToGo(): nat {
      if frontier <= MAX64 + 1 then MAX64 + 1 - frontier else 0
    }

    /** Nearer the end of the tree, or of what is held. */
    ghost predicate After(from: Place) {
      from.ToGo() > ToGo() || (ToGo() == from.ToGo() && held < from.held)
    }
  }

  ghost function PlaceOf(walk: ExtentWalk): Place
    reads walk, walk.tree, walk.trees
  {
    PlaceAt(walk.Now())
  }

  ghost predicate Stands(walk: ExtentWalk, w: Stand, met: seq<Discovery>, start: Place) {
    walk.Sound(w) && w.handed == met && PlaceAt(w).Since(start)
  }

  ghost function PlaceAt(w: Stand): Place {
    Place(w.start, w.seen, Batches.Frontier(w.next), |w.batch|)
  }

  /** The walk has handed over what was met, since it was at `start`. */
  ghost predicate Walking(walk: ExtentWalk, met: seq<Discovery>, start: Place)
    reads walk, walk.tree, walk.trees
  {
    Stands(walk, walk.Now(), met, start)
  }

  /** The walk hands over the next thing, if it has not ended. */
  method HandOn(walk: ExtentWalk, ghost met: seq<Discovery>, ghost start: Place) returns (d: Option<Discovery>)
    requires Walking(walk, met, start)
    modifies walk, walk.tree, walk.trees
    ensures Walking(walk, if d.Some? then met + [d.value] else met, start)
    ensures d.Some? && d.value.Found? ==> d.value.extent.diskBytes < TWO64
    ensures if d.Some? then PlaceOf(walk).After(old(PlaceOf(walk))) else old(walk.failed) || walk.Ended()
  {
    d := walk.Next();
  }

  /** The report, and the mount it reports on: everything in `report.rewritten` is
      `Released` there. */
  class Runner {
    const mount: Mount
    const apply: bool
    /** What the run goes by. */
    ghost const terms: Terms
    var report: Report

    /** Nothing was lost, and everything rewritten in earnest is released. */
    ghost predicate Valid()
      reads this, mount, mount.fs
    {
      && mount.Valid() && (apply ==> Released(mount.fs.disk, report.rewritten))
      && Suits(terms, mount) && terms.apply == apply
    }

    constructor (mount: Mount, apply: bool)
      requires mount.Valid()
      ensures Valid() && report == EMPTY && this.mount == mount && this.apply == apply
      ensures terms == TermsOf(mount, apply)
    {
      this.mount, this.apply, report := mount, apply, EMPTY;
      terms := TermsOf(mount, apply);
    }

    /** One entry more in one of the report's two lists, or, for a `Fatal` fault, none. */
    method Failed(fault: Fault) returns (r: Result<Option<LeftAlone>, Fault>)
      modifies this
      ensures r == if fault == Fatal then Err(fault) else Ok(Some(LeftAlone.Failed))
      ensures report == if fault == Fatal then old(report)
                        else if fault == InvalidData then old(report).(modified := old(report).modified + 1)
                        else old(report).(skipped := old(report).skipped + 1)
    {
      if fault == Fatal {
        return Err(fault);
      }
      if fault == InvalidData {
        report := report.(modified := report.modified + 1);
      } else {
        report := report.(skipped := report.skipped + 1);
      }
      r := Ok(Some(LeftAlone.Failed));
    }

    /** Processes the extent on the mount and enters what came of it, `Processed` of the
        ghost answer `a`, in the report. */
    method Process(extent: Extent, ghost first: Extent, ghost again: Result<Extent, Fault>)
      returns (r: Result<Option<LeftAlone>, Fault>, ghost a: Answers)
      requires Valid() && Whole(mount.fs.disk, first, extent)
      modifies this, mount.fs`disk, mount.fs`calls
      ensures Valid() && Preserves(old(mount.fs.disk), mount.fs.disk)
      ensures !apply ==> mount.fs.disk == old(mount.fs.disk)
      ensures a.again == again && a.failed == None && Expected(a.processed) && Processes(terms, extent, a)
      ensures a.was == old(mount.fs.disk) && a.now == mount.fs.disk
      ensures report == ReportNext(old(report), Processed(first, extent, a))
      ensures (r.Err? <==> Processed(first, extent, a).Stopped?) && (r.Err? ==> r.error == Fatal)
      ensures r.Ok? ==> LeftBy(Processed(first, extent, a)) == LeftFor(r.value, extent)
    {
      ghost var was := mount.fs.disk;
      var result := Processing.Process(mount.fs, extent, apply);
      ghost var calls := mount.fs.calls[|old(mount.fs.calls)|..];
      Kernel.CallsSince(mount.fs.calls, |old(mount.fs.calls)|, calls);
      ProcessedKeeps(mount.start, was, mount.fs.disk, extent.diskAddress, apply, report.rewritten, result == Ok(None),
                     result.Ok? && result.value.Some?);
      match result {
        case Err(error) =>
          var fault := Kernel.FaultOf(error);
          a := Answers(again, None, Err(error), calls, was, mount.fs.disk);
          r := Failed(fault);
        case Ok(Some(reason)) =>
          a := Answers(again, None, Ok(Some(reason)), calls, was, mount.fs.disk);
          r := Ok(Some(reason));
        case Ok(None) =>
          a := Answers(again, None, Ok(None), calls, was, mount.fs.disk);
          report := report.(copiedBytes := report.copiedBytes + extent.LiveUncompressedBytes(),
                            freedBytes := report.freedBytes + extent.DiskFreeBytes(),
                            rewritten := report.rewritten + [extent.diskAddress]);
          r := Ok(None);
      }
    }
  }

  function LeftFor(reason: Option<LeftAlone>, extent: Extent): seq<Entry> {
    if reason.Some? then [LeftEntry(reason.value, Some(extent))] else []
  }

  /** A reason processing can give, or none, or a failure. */
  predicate Expected(processed: Kernel.Outcome<Option<LeftAlone>>) {
    processed.Ok? ==> processed.value in {None, Some(NoDataCow), Some(PastEnd), Some(Deleted)}
  }

  lemma ProcessedKeeps(start: Disks.Disk, was: Disks.Disk, now: Disks.Disk, x: nat, apply: bool, rewritten: seq<nat>,
                       rewrote: bool, left: bool)
    requires Preserves(start, was) && x in was.extents && Processing.Settled(was, now, x, apply, rewrote, left)
    requires apply ==> Released(was, rewritten)
    ensures Preserves(start, now) && Preserves(was, now)
    ensures apply ==> Released(now, rewritten)
    ensures apply && rewrote ==> Released(now, rewritten + [x])
  {
    StepPreserves(start, was, now, x);
    PreservesRefl(was);
    StepPreserves(was, was, now, x);
    if apply {
      ReleasedStays(was, now, x, rewritten);
    }
  }

  ghost predicate Reported(events: seq<Event>, report: Report) {
    report == ReportIn(events)
  }

  lemma ReportedNext(events: seq<Event>, report: Report, e: Event)
    requires Reported(events, report)
    ensures Reported(events + [e], ReportNext(report, e))
  {
    EventNext(events, e);
  }

  lemma ProcessedProper(first: Extent, again: Extent, a: Answers)
    requires Expected(a.processed) && again.diskAddress == first.diskAddress && again.NotWorthRewriting() == None
    ensures var e := Processed(first, again, a);
      Proper(e) && e.Twice() && e.first == first && e.again == again
  {
  }

  /** What one extent's turn leaves: it went the way `e` says, and is accounted for. */
  ghost predicate TurnDone(scanner: Scanner, runner: Runner, events: seq<Event>, e: Event)
    reads scanner, scanner.totals, scanner.totals.buckets, scanner.leftAlone, scanner.leftAlone.reasons
    reads runner, runner.mount, runner.mount.fs
  {
    && scanner.Valid() && scanner.Booked(events + [e], []) && runner.Valid() && Reported(events + [e], runner.report)
    && scanner.error == if Stopping(e) then Some(Fatal) else None
  }

  /** What an extent's turn needs. */
  ghost predicate TurnStarts(scanner: Scanner, runner: Runner, events: seq<Event>, first: Extent)
    reads scanner, scanner.totals, scanner.totals.buckets, scanner.leftAlone, scanner.leftAlone.reasons
    reads runner, runner.mount, runner.mount.fs
  {
    && scanner.Valid() && scanner.Booked(events, [first]) && scanner.error == None && scanner.mount == runner.mount
    && scanner.terms == runner.terms && runner.Valid() && Reported(events, runner.report)
  }

  /** What a turn does to the files. */
  ghost predicate FilesKept(was: Disks.Disk, now: Disks.Disk, apply: bool) {
    Preserves(was, now) && (!apply ==> now == was)
  }

  lemma FilesUntouched(start: Disks.Disk, d: Disks.Disk, apply: bool)
    requires Preserves(start, d)
    ensures FilesKept(d, d, apply)
  {
    PreservesRefl(d);
  }

  /** Passes over an extent, which leaves the report as it is. */
  ghost method PassOn(scanner: Scanner, runner: Runner, events: seq<Event>, e: Event)
    requires e.Resolved() && Proper(e) && TurnStarts(scanner, runner, events, e.first)
    requires !Stopping(e) && LeftBy(e) == [] && ReportNext(runner.report, e) == runner.report
    ensures TurnDone(scanner, runner, events, e)
  {
    scanner.Pass(events, e);
    ReportedNext(events, runner.report, e);
  }

  /** Counts an extent left alone, which leaves the report as it is. */
  method LeaveOn(scanner: Scanner, runner: Runner, reason: LeftAlone, extent: Extent, ghost events: seq<Event>,
                 ghost e: Event)
    requires e.Resolved() && Proper(e) && TurnStarts(scanner, runner, events, e.first)
    requires !Stopping(e) && LeftBy(e) == [LeftEntry(reason, Some(extent))]
    requires ReportNext(runner.report, e) == runner.report
    modifies scanner.leftAlone, scanner.leftAlone.reasons
    ensures TurnDone(scanner, runner, events, e)
  {
    scanner.LeaveAlone(reason, extent, events, e);
    ReportedNext(events, runner.report, e);
  }

  /** Whether processing an extent came back with what it came to. */
  predicate CameTo(result: Result<Option<LeftAlone>, Fault>, extent: Extent, e: Event) {
    && Proper(e) && e.Twice() && e.again == extent
    && (result.Err? <==> e.Stopped?) && (result.Err? ==> result.error == Fatal)
    && (result.Ok? ==> LeftBy(e) == LeftFor(result.value, extent))
  }

  /** Counts a processed extent as left alone if that is what came of it. */
  method Settle(scanner: Scanner, result: Result<Option<LeftAlone>, Fault>, extent: Extent, ghost events: seq<Event>,
                ghost e: Event)
    requires CameTo(result, extent, e) && scanner.Valid() && scanner.Booked(events, [e.first])
    requires scanner.error == None
    modifies scanner`error, scanner.leftAlone, scanner.leftAlone.reasons
    ensures scanner.Valid() && scanner.Booked(events + [e], [])
    ensures scanner.error == if Stopping(e) then Some(Fatal) else None
  {
    match result {
      case Ok(None) =>
        scanner.Pass(events, e);
      case Ok(Some(reason)) =>
        scanner.LeaveAlone(reason, extent, events, e);
      case Err(fault) =>
        scanner.Stop(fault, extent, events, e);
    }
  }

  /** Rewrites an extent, and counts it as left alone if that is what comes of it. */
  method Rewrite(scanner: Scanner, runner: Runner, first: Extent, extent: Extent, ghost events: seq<Event>)
    returns (ghost a: Answers)
    requires TurnStarts(scanner, runner, events, first) && Whole(runner.mount.fs.disk, first, extent)
    requires extent.NotWorthRewriting() == None
    modifies runner, runner.mount.fs`disk, runner.mount.fs`calls
    modifies scanner`error, scanner.leftAlone, scanner.leftAlone.reasons
    ensures a.again == Ok(extent) && a.failed == None && Processes(runner.terms, extent, a)
    ensures a.was == old(runner.mount.fs.disk) && a.now == runner.mount.fs.disk
    ensures TurnDone(scanner, runner, events, Processed(first, extent, a))
    ensures FilesKept(old(runner.mount.fs.disk), runner.mount.fs.disk, runner.apply)
  {
    ghost var report := runner.report;
    var result;
    result, a := runner.Process(extent, first, Ok(extent));
    ghost var e := Processed(first, extent, a);
    ProcessedProper(first, extent, a);
    ReportedNext(events, report, e);
    Settle(scanner, result, extent, events, e);
  }

  /** Acts on an extent found worth rewriting, as it is now. */
  method Act(scanner: Scanner, runner: Runner, first: Extent, extent: Extent, ghost events: seq<Event>)
    returns (ghost a: Answers)
    requires TurnStarts(scanner, runner, events, first) && Whole(runner.mount.fs.disk, first, extent)
    modifies runner, runner.mount.fs`disk, runner.mount.fs`calls
    modifies scanner`error, scanner.leftAlone, scanner.leftAlone.reasons
    ensures a.again == Ok(extent) && a.failed == None
    ensures if Worthwhile(extent) then Processes(runner.terms, extent, a) else a.now == a.was
    ensures a.was == old(runner.mount.fs.disk) && a.now == runner.mount.fs.disk
    ensures TurnDone(scanner, runner, events, Acted(first, extent, a))
    ensures FilesKept(old(runner.mount.fs.disk), runner.mount.fs.disk, runner.apply)
  {
    FilesUntouched(runner.mount.start, runner.mount.fs.disk, runner.apply);
    a := Unasked(runner.mount.fs.disk).(again := Ok(extent));
    if extent.DiskFreeBytes() == 0 {
      PassOn(scanner, runner, events, IdleAgain(first, extent));
      return;
    }
    var reason := extent.NotWorthRewriting();
    if reason.Some? {
      LeaveOn(scanner, runner, reason.value, extent, events, Left(first, extent, reason.value));
      return;
    }
    a := Rewrite(scanner, runner, first, extent, events);
  }

  /** Resolves again an extent that looked worth rewriting, and acts on what comes of it. */
  method Retry(scanner: Scanner, runner: Runner, extent: Extent, ghost events: seq<Event>) returns (ghost a: Answers)
    requires TurnStarts(scanner, runner, events, extent)
    modifies runner, runner.mount.fs`disk, runner.mount.fs`calls
    modifies scanner`error, scanner.leftAlone, scanner.leftAlone.reasons
    requires Worthwhile(extent)
    ensures Answered(runner.terms, extent, a)
    ensures a.was == old(runner.mount.fs.disk) && a.now == runner.mount.fs.disk
    ensures TurnDone(scanner, runner, events, Retried(extent, a))
    ensures FilesKept(old(runner.mount.fs.disk), runner.mount.fs.disk, runner.apply)
  {
    FilesUntouched(runner.mount.start, runner.mount.fs.disk, runner.apply);
    var again;
    ghost var answer, failed;
    again, answer, failed := scanner.ResolveAgain(extent, events);
    if again.None? {
      a := Unasked(runner.mount.fs.disk).(again := answer, failed := failed);
      ReportedNext(events, runner.report, Unresolvable(extent, answer.error));
      return;
    }
    a := Act(scanner, runner, extent, again.value, events);
  }

  /** One turn of the run: the extent goes the one way it should, whichever that
      is, and is accounted for. */
  method Handle(scanner: Scanner, runner: Runner, extent: Extent, ghost events: seq<Event>) returns (ghost a: Answers)
    requires TurnStarts(scanner, runner, events, extent)
    modifies runner, runner.mount.fs`disk, runner.mount.fs`calls
    modifies scanner`error, scanner.leftAlone, scanner.leftAlone.reasons
    ensures Answered(runner.terms, extent, a)
    ensures a.was == old(runner.mount.fs.disk) && a.now == runner.mount.fs.disk
    ensures TurnDone(scanner, runner, events, FateOf(extent, a))
    ensures FilesKept(old(runner.mount.fs.disk), runner.mount.fs.disk, runner.apply)
  {
    FilesUntouched(runner.mount.start, runner.mount.fs.disk, runner.apply);
    a := Unasked(runner.mount.fs.disk);
    if extent.DiskFreeBytes() == 0 {
      PassOn(scanner, runner, events, Idle(extent));
      return;
    }
    var reason := extent.NotWorthRewriting();
    if reason.Some? {
      LeaveOn(scanner, runner, reason.value, extent, events, Left(extent, extent, reason.value));
      return;
    }
    a := Retry(scanner, runner, extent, events);
  }

  /** What holds before and after every turn of the run. */
  ghost predicate Looping(scanner: Scanner, runner: Runner, events: seq<Event>, answers: seq<Answers>)
    reads scanner, scanner.totals, scanner.totals.buckets, scanner.leftAlone, scanner.leftAlone.reasons
    reads runner, runner.mount, runner.mount.fs
  {
    && scanner.Valid() && scanner.Booked(events, []) && scanner.mount == runner.mount
    && scanner.terms == runner.terms && runner.Valid() && Reported(events, runner.report)
    && RightNow(runner.terms, runner.mount.fs.disk, events, scanner.met, answers)
    && (scanner.error.Some? ==> StoppedWith(scanner.met, events, scanner.error.value))
  }

  /** An extent was come upon, and its turn is next. */
  ghost predicate Ready(scanner: Scanner, runner: Runner, extent: Extent, events: seq<Event>, answers: seq<Answers>)
    reads scanner, scanner.totals, scanner.totals.buckets, scanner.leftAlone, scanner.leftAlone.reasons
    reads runner, runner.mount, runner.mount.fs
  {
    && TurnStarts(scanner, runner, events, extent)
    && RightNow(runner.terms, runner.mount.fs.disk, events, scanner.met, answers)
    && scanner.met != [] && scanner.met[|scanner.met| - 1] == Found(extent)
  }

  /** A run at rest can look for its next extent. */
  lemma Seeks(scanner: Scanner, runner: Runner, events: seq<Event>, answers: seq<Answers>)
    requires Looping(scanner, runner, events, answers) && scanner.error == None
    ensures scanner.Taken(Base(runner.report, runner.mount.fs.disk), None, events, answers)
  {
  }

  lemma Finds(scanner: Scanner, runner: Runner, base: Base, last: Option<Discovery>, now: seq<Event>,
              learnt: seq<Answers>, extent: Extent)
    requires scanner.Taken(base, last, now, learnt) && HandOf(last) == [extent]
    requires scanner.mount == runner.mount && scanner.terms == runner.terms && runner.Valid()
    requires base == Base(runner.report, runner.mount.fs.disk)
    ensures Ready(scanner, runner, extent, now, learnt)
  {
  }

  lemma FindsNone(scanner: Scanner, runner: Runner, base: Base, last: Option<Discovery>, now: seq<Event>,
                  learnt: seq<Answers>)
    requires scanner.Taken(base, last, now, learnt) && HandOf(last) == []
    requires scanner.mount == runner.mount && scanner.terms == runner.terms && runner.Valid()
    requires base == Base(runner.report, runner.mount.fs.disk)
    ensures Looping(scanner, runner, now, learnt)
  {
  }

  /** The walk is none of the objects the run keeps its accounts in. */
  lemma Apart(scanner: Scanner, runner: Runner)
    ensures var walking: set<object> := {scanner.walk, scanner.walk.tree, scanner.walk.trees};
      walking !! {runner, runner.mount.fs, scanner, scanner.totals, scanner.totals.buckets, scanner.leftAlone,
                  scanner.leftAlone.reasons}
  {
  }

  /** An extent's turn done, the run is at rest. */
  lemma Rests(scanner: Scanner, runner: Runner, events: seq<Event>, e: Event, now: seq<Event>, learnt: seq<Answers>)
    requires TurnDone(scanner, runner, events, e) && scanner.mount == runner.mount && scanner.terms == runner.terms
    requires now == events + [e] && RightNow(runner.terms, runner.mount.fs.disk, now, scanner.met, learnt)
    requires Stopping(e) ==> StoppedWith(scanner.met, now, Fatal)
    ensures Looping(scanner, runner, now, learnt)
  {
  }

  /** Deals with an extent in its place among all that the walk comes upon. */
  method HandleNext(scanner: Scanner, runner: Runner, extent: Extent, ghost events: seq<Event>,
                    ghost answers: seq<Answers>)
    returns (ghost now: seq<Event>, ghost learnt: seq<Answers>)
    requires Ready(scanner, runner, extent, events, answers)
    modifies runner, runner.mount.fs`disk, runner.mount.fs`calls
    modifies scanner`error, scanner.leftAlone, scanner.leftAlone.reasons
    ensures Looping(scanner, runner, now, learnt)
    ensures FilesKept(old(runner.mount.fs.disk), runner.mount.fs.disk, runner.apply)
  {
    ghost var a := Handle(scanner, runner, extent, events);
    ghost var e := FateOf(extent, a);
    RightNext(runner.terms, events, scanner.met, answers, extent, a, e);
    now, learnt := events + [e], answers + [a];
    Rests(scanner, runner, events, e, now, learnt);
  }

  /** That leaves the walk where it is. */
  method HandleOff(scanner: Scanner, runner: Runner, extent: Extent, ghost start: Place,
                   ghost events: seq<Event>,
                   ghost answers: seq<Answers>)
    returns (ghost now: seq<Event>, ghost learnt: seq<Answers>)
    requires Ready(scanner, runner, extent, events, answers) && Walking(scanner.walk, scanner.met, start)
    modifies runner, runner.mount.fs`disk, runner.mount.fs`calls
    modifies scanner`error, scanner.leftAlone, scanner.leftAlone.reasons
    ensures Looping(scanner, runner, now, learnt)
    ensures FilesKept(old(runner.mount.fs.disk), runner.mount.fs.disk, runner.apply)
    ensures Walking(scanner.walk, scanner.met, start) && PlaceOf(scanner.walk) == old(PlaceOf(scanner.walk))
  {
    Apart(scanner, runner);
    now, learnt := HandleNext(scanner, runner, extent, events, answers);
  }

  /** The next extent, if there is one, made ready. */
  method Seek(scanner: Scanner, runner: Runner, ghost start: Place, ghost events: seq<Event>,
              ghost answers: seq<Answers>)
    returns (extent: Option<Extent>, ghost now: seq<Event>, ghost learnt: seq<Answers>)
    requires Looping(scanner, runner, events, answers) && scanner.error == None
    requires Walking(scanner.walk, scanner.met, start)
    modifies scanner`met, scanner`extents, scanner`error
    modifies scanner.totals, scanner.totals.buckets, scanner.leftAlone, scanner.leftAlone.reasons
    modifies scanner.walk, scanner.walk.tree, scanner.walk.trees
    ensures if extent.Some? then Ready(scanner, runner, extent.value, now, learnt)
            else Looping(scanner, runner, now, learnt)
    ensures Walking(scanner.walk, scanner.met, start)
    ensures extent.Some? ==> PlaceOf(scanner.walk).After(old(PlaceOf(scanner.walk)))
    ensures extent.None? && scanner.error == None ==> scanner.walk.Ended()
  {
    Seeks(scanner, runner, events, answers);
    ghost var last;
    ghost var base := Base(runner.report, runner.mount.fs.disk);
    extent, last, now, learnt := scanner.Next(start, base, events, answers);
    if extent.None? {
      FindsNone(scanner, runner, base, last, now, learnt);
    } else {
      Finds(scanner, runner, base, last, now, learnt, extent.value);
    }
  }

  /** The next extent, dealt with; whether there was one. */
  method Turn(scanner: Scanner, runner: Runner, ghost start: Place, ghost events: seq<Event>,
      ghost answers: seq<Answers>)
    returns (more: bool, ghost now: seq<Event>, ghost learnt: seq<Answers>)
    requires Looping(scanner, runner, events, answers) && scanner.error == None
    requires Walking(scanner.walk, scanner.met, start)
    modifies runner, runner.mount.fs`disk, runner.mount.fs`calls, scanner`met, scanner`extents, scanner`error
    modifies scanner.totals, scanner.totals.buckets, scanner.leftAlone, scanner.leftAlone.reasons
    modifies scanner.walk, scanner.walk.tree, scanner.walk.trees
    ensures Looping(scanner, runner, now, learnt) && Walking(scanner.walk, scanner.met, start)
    ensures FilesKept(old(runner.mount.fs.disk), runner.mount.fs.disk, runner.apply)
    ensures more ==> PlaceOf(scanner.walk).After(old(PlaceOf(scanner.walk)))
    ensures !more && scanner.error == None ==> scanner.walk.Ended()
  {
    var extent;
    extent, now, learnt := Seek(scanner, runner, start, events, answers);
    if extent.None? {
      FilesUntouched(runner.mount.start, runner.mount.fs.disk, runner.apply);
      return false, now, learnt;
    }
    now, learnt := HandleOff(scanner, runner, extent.value, start, now, learnt);
    more := true;
  }

  lemma FilesKeptOn(was: Disks.Disk, mid: Disks.Disk, now: Disks.Disk, apply: bool)
    requires FilesKept(was, mid, apply) && FilesKept(mid, now, apply)
    ensures FilesKept(was, now, apply)
  {
    forall id | id in was.files
      ensures ReadsSame(was, now, id)
    {
      assert ReadsSame(was, mid, id) && ReadsSame(mid, now, id);
    }
  }

  /** Deals with each extent the walk comes upon, until the walk ends or the run stops. */
  method HandleAll(scanner: Scanner, runner: Runner, ghost start: Place)
    returns (ghost events: seq<Event>, ghost answers: seq<Answers>)
    requires Looping(scanner, runner, [], []) && Walking(scanner.walk, scanner.met, start) && scanner.error == None
    modifies runner, runner.mount.fs`disk, runner.mount.fs`calls, scanner`met, scanner`extents, scanner`error
    modifies scanner.totals, scanner.totals.buckets, scanner.leftAlone, scanner.leftAlone.reasons
    modifies scanner.walk, scanner.walk.tree, scanner.walk.trees
    ensures Looping(scanner, runner, events, answers) && Walking(scanner.walk, scanner.met, start)
    ensures FilesKept(old(runner.mount.fs.disk), runner.mount.fs.disk, runner.apply)
    ensures scanner.error == None ==> scanner.walk.Ended()
  {
    events, answers := [], [];
    ghost var was := runner.mount.fs.disk;
    FilesUntouched(runner.mount.start, was, runner.apply);
    while scanner.error == None
      invariant Looping(scanner, runner, events, answers) && Walking(scanner.walk, scanner.met, start)
      invariant FilesKept(was, runner.mount.fs.disk, runner.apply)
      decreases scanner.error == None, PlaceOf(scanner.walk).ToGo(), PlaceOf(scanner.walk).held
    {
      ghost var mid := runner.mount.fs.disk;
      var more;
      more, events, answers := Turn(scanner, runner, start, events, answers);
      FilesKeptOn(was, mid, runner.mount.fs.disk, runner.apply);
      if !more {
        return;
      }
    }
  }

  /** Whether the accounts say exactly what became of everything the walk came upon. */
  ghost predicate Accounted(events: seq<Event>, met: seq<Discovery>, counted: seq<Extent>, log: seq<Entry>,
                            report: Report)
  {
    && AllProper(events) && Finished(events) && |events| == |met|
    && counted == Met(met) && counted == CountedIn(events) && log == LeftIn(events) && Reported(events, report)
  }

  lemma RunEnds(events: seq<Event>, met: seq<Discovery>, counted: seq<Extent>, extents: nat, log: seq<Entry>,
                report: Report)
    requires Progress(met, counted, extents) && Books(events, [], counted, log, |met|, false)
    requires Reported(events, report)
    ensures Accounted(events, met, counted, log, report)
  {
    assert CountedIn(events) + [] == CountedIn(events);
  }

  /** What the accounts of a run that came through add up to. */
  lemma RunBalances(events: seq<Event>, met: seq<Discovery>, counted: seq<Extent>, log: seq<Entry>, report: Report)
    requires Accounted(events, met, counted, log, report)
    ensures OfAll(counted).unreachableBytes == report.freedBytes + Sum(log).unreachableBytes + Drift(events)
    ensures Steady(events) ==> Drift(events) == 0
    ensures SumIn(log, Index(Failed)).count == report.skipped + report.modified
    ensures |report.rewritten| + Sum(log).count + Passed(events) == |met|
    ensures report.copiedBytes <= MAX_COPY_RATIO * report.freedBytes
    ensures MIN_RECLAIM_BYTES * |report.rewritten| <= report.freedBytes
  {
    RunWorthIt(events);
    AccountsBalance(events);
    FinishedLosesNothing(events);
    FinishedStopsNowhere(events);
    FailuresCounted(events);
    EachOnce(events);
    if Steady(events) {
      SteadyDrift(events);
    }
  }

  lemma {:induction false} FinishedStopsNowhere(events: seq<Event>)
    requires Finished(events)
    ensures Stops(events) == 0
    decreases |events|
  {
    if events == [] {
      assert Stops(events) == 0;
    } else {
      FinishedStopsNowhere(events[..|events| - 1]);
    }
  }

  /** Extents are met, and so rewritten, in the order of their addresses: the walk
      reads them so. */
  lemma RunAscends(walk: ExtentWalk, events: seq<Event>, met: seq<Discovery>, counted: seq<Extent>, log: seq<Entry>,
                   report: Report)
    requires walk.Valid() && walk.handed == met && Accounted(events, met, counted, log, report)
    ensures AddressesAscend(counted) && Ascends(report.rewritten)
  {
    HandedAscends(walk.handed, walk.batch, walk.failed, walk.read, walk.moments);
    RewrittenAscends(events);
  }

  /** What comes of a run. */
  datatype Summary = Summary(totals: Totals, leftAlone: LeftAloneStats, report: Report)

  /** The accounts are those of everything met, in order. */
  ghost predicate CameThrough(met: seq<Discovery>, events: seq<Event>, o: Summary)
    reads o.totals, o.totals.buckets, o.leftAlone, o.leftAlone.reasons
  {
    && o.totals.Valid() && o.leftAlone.Valid()
    && Accounted(events, met, o.totals.counted, o.leftAlone.log, o.report)
    && AddressesAscend(o.totals.counted) && Ascends(o.report.rewritten)
  }

  /** Everything a whole walk comes upon is met: what its searches agree on, no newer
      than its generation. */
  ghost predicate WholeWalk(walk: ExtentWalk, tree: Search.Tree, seen: seq<seq<Search.TreeItem>>, generation: nat,
                            met: seq<Discovery>)
    reads walk, tree
  {
    && seen <= tree.seen
    && Walked(met, walk.read, walk.moments, tree.seen[|seen|..], generation, walk.origin)
  }

  /** No search failed, and the kernel did what it was asked in every turn, so that nothing
      can fail but what the files themselves stand in the way of. */
  ghost predicate Smooth(t: Terms, answers: seq<Answers>, tree: Search.Tree, trees: Resolve.Trees) {
    && t.reliable && tree.reliable && trees.reliable
    && forall k :: 0 <= k < |answers| ==> Dutiful(t, answers[k])
  }

  lemma SmoothNeverStops(t: Terms, walk: ExtentWalk, events: seq<Event>, met: seq<Discovery>, answers: seq<Answers>)
    requires Right(t, events, met, answers) && walk.Valid() && walk.handed == met
    requires Smooth(t, answers, walk.tree, walk.trees)
    ensures !StopsSomewhere(met, events)
  {
    walk.HandsOverSteadily();
    DutifulNeverStops(t, events, met, answers);
  }

  /** With nothing more to come, what came of the run is as it should be. */
  lemma RunCloses(scanner: Scanner, runner: Runner, start: Place, events: seq<Event>, answers: seq<Answers>)
    requires Looping(scanner, runner, events, answers) && Walking(scanner.walk, scanner.met, start)
    requires scanner.error == None && scanner.walk.Ended()
    ensures Accounted(events, scanner.met, scanner.totals.counted, scanner.leftAlone.log, runner.report)
    ensures AddressesAscend(scanner.totals.counted) && Ascends(runner.report.rewritten)
    ensures !StopsSomewhere(scanner.met, events)
    ensures Walked(scanner.met, scanner.walk.read, scanner.walk.moments, scanner.walk.tree.seen[scanner.walk.start..],
              scanner.walk.generation, scanner.walk.origin)
  {
    var met, counted, log, report := scanner.met, scanner.totals.counted, scanner.leftAlone.log, runner.report;
    scanner.walk.EndedWalked();
    RunEnds(events, met, counted, scanner.extents, log, report);
    FinishedRight(events, met, answers);
    RunAscends(scanner.walk, events, met, counted, log, report);
  }

  /** The run once it has started: every extent the walk comes upon, dealt with. */
  method RunWalk(walk: ExtentWalk, mount: Mount, apply: bool)
    returns (r: Result<Summary, Fault>, ghost met: seq<Discovery>, ghost events: seq<Event>,
        ghost answers: seq<Answers>)
    requires walk.Valid() && walk.handed == [] && walk.start == |walk.tree.seen| && mount.Valid()
    modifies walk, walk.tree, walk.trees, mount.fs`disk, mount.fs`calls
    ensures FilesKept(old(mount.fs.disk), mount.fs.disk, apply)
    ensures r.Ok? <==> !StopsSomewhere(met, events)
    ensures r.Err? ==> StoppedWith(met, events, r.error)
    ensures Smooth(old(TermsOf(mount, apply)), answers, walk.tree, walk.trees) ==> r.Ok?
    ensures Right(old(TermsOf(mount, apply)), events, met, answers)
    ensures FilesNow(old(TermsOf(mount, apply)), answers) == mount.fs.disk
    ensures r.Ok? ==> CameThrough(met, events, r.value)
    ensures r.Ok? ==> fresh(r.value.totals) && fresh(r.value.totals.buckets)
    ensures r.Ok? ==> fresh(r.value.leftAlone) && fresh(r.value.leftAlone.reasons)
    ensures walk.Valid() && walk.handed == met
    ensures r.Ok? ==> WholeWalk(walk, walk.tree, old(walk.tree.seen), walk.generation, met)
    ensures r.Ok? && apply ==> Released(mount.fs.disk, r.value.report.rewritten)
  {
    ghost var start := PlaceOf(walk);
    ghost var terms := TermsOf(mount, apply);
    var scanner := new Scanner(walk, mount, terms);
    var runner := new Runner(mount, apply);
    events, answers := HandleAll(scanner, runner, start);
    met := scanner.met;
    if Smooth(terms, answers, walk.tree, walk.trees) {
      SmoothNeverStops(terms, walk, events, met, answers);
    }
    if scanner.error.Some? {
      StoppedSomewhere(met, events, scanner.error.value);
      return Err(scanner.error.value), met, events, answers;
    }
    RunCloses(scanner, runner, start, events, answers);
    r := Ok(Summary(scanner.totals, scanner.leftAlone, runner.report));
  }

  /** A run. Whatever happens no file reads differently. It comes through exactly if
      opening the filesystem, starting the walk and the sync that closes the run
      succeed and nothing met stops it; then the walk was whole, each extent went the
      one way it should, in the order of addresses, everything rewritten is released,
      and the accounts say exactly what became of it all. */
  method Run(tree: Search.Tree, trees: Resolve.Trees, mount: Mount, apply: bool, opening: Result<bool, Fault>,
             starting: Result<nat, Fault>, closing: Result<(), Fault>)
    returns (r: Result<Summary, Fault>, ghost met: seq<Discovery>, ghost events: seq<Event>,
        ghost answers: seq<Answers>, ghost walked: Option<ExtentWalk>)
    requires tree.Valid() && mount.Valid()
    modifies tree, trees, mount.fs`disk, mount.fs`calls
    ensures FilesKept(old(mount.fs.disk), mount.fs.disk, apply)
    ensures r.Ok? <==> opening.Ok? && !(apply && opening.value) && starting.Ok?
                       && !StoppedShort(met, answers) && (apply ==> closing.Ok?)
    ensures Right(old(TermsOf(mount, apply)), events, met, answers)
    ensures FilesNow(old(TermsOf(mount, apply)), answers) == mount.fs.disk
    ensures r.Ok? ==> CameThrough(met, events, r.value)
    ensures walked.Some? <==> opening.Ok? && !(apply && opening.value) && starting.Ok?
    ensures if walked.Some? then walked.value.Valid() && walked.value.handed == met else met == []
    ensures opening.Err? ==> r == Err(opening.error)
    ensures opening == Ok(true) && apply ==> r == Err(Other)
    ensures opening.Ok? && !(apply && opening.value) && starting.Err? ==> r == Err(starting.error)
    ensures walked.Some? && !StoppedShort(met, answers) && r.Err? ==> closing == Err(r.error)
    ensures walked.Some? && StoppedShort(met, answers) ==> r.Err? && StoppedWith(met, events, r.error)
    ensures Smooth(old(TermsOf(mount, apply)), answers, tree, trees) ==>
      (r.Ok? <==> opening.Ok? && !(apply && opening.value) && starting.Ok? && (apply ==> closing.Ok?))
    ensures walked.Some? ==> walked.value.tree == tree && walked.value.trees == trees
    ensures walked.Some? ==> walked.value.origin == old(OriginOf(trees))
    ensures r.Ok? ==> walked.Some? && WholeWalk(walked.value, tree, old(tree.seen), starting.value, met)
    ensures r.Ok? && apply ==> Released(mount.fs.disk, r.value.report.rewritten)
  {
    met, events, answers, walked := [], [], [], None;
    FilesUntouched(mount.start, mount.fs.disk, apply);
    match opening {
      case Err(fault) => return Err(fault), met, events, answers, walked;
      case Ok(readOnly) =>
        if apply && readOnly {
          return Err(Other), met, events, answers, walked;
        }
    }
    match starting {
      case Err(fault) => return Err(fault), met, events, answers, walked;
      case Ok(generation) =>
        var walk := new ExtentWalk(tree, trees, generation);
        r, met, events, answers := RunWalk(walk, mount, apply);
        walked := Some(walk);
        StopsExactly(old(TermsOf(mount, apply)), events, met, answers);
        // What was rewritten is committed before the accounts are handed back.
        if r.Ok? && apply && closing.Err? {
          r := Err(closing.error);
        }
    }
  }

  // ----- A second look that differs -----

  /** One sector live of 64 at the first look, and all of them at the second: a run
      that comes through, and 63 sectors neither freed nor left alone. */
  lemma SecondLookDiffers() returns (first: Extent, a: Answers)
    ensures first.Valid() && a.again.Ok? && a.again.value.Valid()
    ensures a.again.value.diskAddress == first.diskAddress && a.again.value.diskBytes == first.diskBytes
    ensures FateOf(first, a) == IdleAgain(first, a.again.value)
    ensures Finished([FateOf(first, a)]) && Drift([FateOf(first, a)]) == 63 * 4096
  {
    var sector := ExtentRef(5, 257, 0, 64 * 4096, 64 * 4096, 0, 0, 4096, 1);
    var whole := ExtentRef(5, 258, 0, 64 * 4096, 64 * 4096, 0, 0, 64 * 4096, 1);
    first := Extent(0, 64 * 4096, 64 * 4096, [sector], [Range(0, 4096)]);
    var again := Extent(0, 64 * 4096, 64 * 4096, [whole], [Range(0, 64 * 4096)]);
    var empty := Disks.Disk(map[], map[]);
    a := Unasked(empty).(again := Ok(again));
    assert LiveRangesOf(first.liveRanges, first.refs) by {
      assert first.liveRanges[0].Covers(0) && sector in first.refs;
      assert forall b: nat :: first.liveRanges[0].Covers(b) <==> sector.Covers(b);
    }
    assert LiveRangesOf(again.liveRanges, again.refs) by {
      assert forall b: nat :: again.liveRanges[0].Covers(b) <==> whole.Covers(b);
    }
    OneRange(first, 4096);
    OneRange(again, 64 * 4096);
    var events := [FateOf(first, a)];
    assert events[..0] == [] && Drift([]) == 0;
  }

  lemma OneRange(e: Extent, live: nat)
    requires e.liveRanges == [Range(0, live)] && live <= 64 * 4096
    requires e.diskBytes == 64 * 4096 && e.uncompressedBytes == 64 * 4096
    ensures e.LiveUncompressedBytes() == live && e.DiskFreeBytes() == 64 * 4096 - live
  {
    assert e.liveRanges[1..] == [] && LiveBytes([]) == 0;
  }
}
