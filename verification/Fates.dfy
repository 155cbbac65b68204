/** What becomes of each thing a walk comes upon, and what that has to do with the
    files as they were when its turn came. */
module Fates {
  import opened Wrappers
  import opened Extents
  import opened Accounts
  import opened Events
  import opened Walk
  import opened Mounts
  import Cow
  import Disks
  import Kernel
  import Processing
  import Resolve
  import R = References

  /** What was learnt in an extent's turn: the extent as it was by then, and what the last
      search for it failed with, if it did; what processing it came to, and the calls made
      of the kernel for that; and the files before and after. */
  datatype Answers = Answers(again: Result<Extent, Fault>, failed: Option<Fault>,
                             processed: Kernel.Outcome<Option<LeftAlone>>, calls: seq<Kernel.Call>,
                             was: Disks.Disk, now: Disks.Disk)

  /** Nothing was asked. */
  function Unasked(d: Disks.Disk): Answers {
    Answers(Err(Other), None, Err(Kernel.StillHolds), [], d, d)
  }

  function ReasonOf(fault: Fault): LeftAlone {
    if fault == ChangedSince then Changed else LeftAlone.Unresolved
  }

  function Unresolvable(first: Extent, fault: Fault): Event {
    if fault == Fatal then Lost(first) else Left(first, first, ReasonOf(fault))
  }

  /** What becomes of an extent worth rewriting. */
  function Processed(first: Extent, again: Extent, a: Answers): Event {
    match a.processed
    case Err(e) =>
      var fault := Kernel.FaultOf(e);
      if fault == Fatal then Stopped(first, again) else FailedOn(first, again, fault == InvalidData)
    case Ok(Some(reason)) => Left(first, again, reason)
    case Ok(None) => Rewritten(first, again)
  }

  /** What becomes of an extent resolved again. */
  function Acted(first: Extent, again: Extent, a: Answers): Event {
    if again.DiskFreeBytes() == 0 then IdleAgain(first, again)
    else
      match again.NotWorthRewriting()
      case Some(reason) => Left(first, again, reason)
      case None => Processed(first, again, a)
  }

  /** What becomes of an extent to be resolved again. */
  function Retried(first: Extent, a: Answers): Event {
    match a.again
    case Err(fault) => Unresolvable(first, fault)
    case Ok(again) => Acted(first, again, a)
  }

  /** What becomes of an extent the walk hands over. */
  function FateOf(first: Extent, a: Answers): Event {
    if first.DiskFreeBytes() == 0 then Idle(first)
    else
      match first.NotWorthRewriting()
      case Some(reason) => Left(first, first, reason)
      case None => Retried(first, a)
  }

  /** What becomes of anything the walk comes upon; nothing, if the run stops there. */
  function EventOf(d: Discovery, a: Answers): Option<Event> {
    match d
    case Found(extent) => Some(FateOf(extent, a))
    case Unclear(_, fault) => if fault == Fatal then None else Some(Unread(ReasonOf(fault)))
    case Broken(_) => None
  }

  predicate Worthwhile(e: Extent) {
    e.DiskFreeBytes() != 0 && e.NotWorthRewriting() == None
  }

  /** What a run goes by, and the files it starts from. */
  datatype Terms = Terms(conduct: Kernel.Conduct, attributes: Kernel.Attributes, layout: Disks.Disk -> Cow.State,
                         reliable: bool, apply: bool, from: Disks.Disk)

  /** Processing came to what the files its references are of called for. Nothing is
      touched unless it is rewritten, or trying to failed, in earnest; the calls made of the
      kernel account for a failure that no file does; and unless the kernel lies it is
      rewritten if nothing stands in the way and no call of it failed. */
  ghost predicate Processes(t: Terms, again: Extent, a: Answers) {
    && Processing.Settled(a.was, a.now, again.diskAddress, t.apply, a.processed == Ok(None), LeavesBe(a.processed))
    && (a.processed == Ok(None) ==> Processing.Clear(t.attributes, a.was, again.refs))
    && (LeavesBe(a.processed) ==>
          Processing.Obstructed(t.attributes, a.was, again.refs, Ok(a.processed.value.value)))
    && (a.processed.Err? ==> Explained(t, again, a))
    && (Dutiful(t, a) ==> Exactly(t, again, a))
  }

  /** A failure is the last call's, or for want of a name, or a holder still holds the extent. */
  ghost predicate Explained(t: Terms, again: Extent, a: Answers)
    requires a.processed.Err?
  {
    || Kernel.Explains(a.calls, 0, a.processed.error, t.conduct)
    || (a.processed.error == Kernel.Nameless
        && Processing.Obstructed(t.attributes, a.was, again.refs, Err(Kernel.Nameless)))
    || (a.processed.error == Kernel.StillHolds && t.conduct != Kernel.Exact)
  }

  /** The kernel did what it was asked in this turn. */
  ghost predicate Dutiful(t: Terms, a: Answers) {
    t.conduct == Kernel.Exact || (t.conduct == Kernel.Honest && Kernel.AllFine(a.calls, 0))
  }

  predicate LeavesBe(processed: Kernel.Outcome<Option<LeftAlone>>) {
    processed.Ok? && processed.value.Some?
  }

  ghost predicate Exactly(t: Terms, again: Extent, a: Answers) {
    && (a.processed == Ok(None) <==> Processing.Clear(t.attributes, a.was, again.refs))
    && (a.processed.Err? ==>
          && a.processed.error == Kernel.Nameless
          && Processing.Obstructed(t.attributes, a.was, again.refs, Err(Kernel.Nameless)))
  }

  /** The second look was at the files as they were, and could fail only where searches
      could or there was nothing to find; it is `Fatal` exactly if the last search was. */
  ghost predicate LookedAgain(t: Terms, first: Extent, again: Result<Extent, Fault>, failed: Option<Fault>,
                              d: Disks.Disk) {
    Resolve.Blames(failed, again)
    && match again
    case Ok(extent) => Whole(d, first, extent) && Measures(extent, R.EveryRef(t.layout(d), first.diskAddress))
    case Err(fault) =>
      && (t.reliable ==> fault != Fatal && !Resolvable(t.layout(d), d, first))
      && (t.reliable && !Disks.Referenced(d, first.diskAddress) ==> fault == ChangedSince)
      && (fault == ChangedSince && R.Agree(t.layout(d), first.diskAddress, first.diskBytes) ==>
            !Disks.Referenced(d, first.diskAddress))
  }

  /** What was learnt of an extent is what it should be. */
  ghost predicate Answered(t: Terms, first: Extent, a: Answers) {
    if !Worthwhile(first) then a.now == a.was
    else
      && LookedAgain(t, first, a.again, a.failed, a.was)
      && if a.again.Ok? && Worthwhile(a.again.value) then Processes(t, a.again.value, a) else a.now == a.was
  }

  ghost predicate AnsweredFor(t: Terms, d: Discovery, a: Answers) {
    match d
    case Found(first) => Answered(t, first, a)
    case _ => a.now == a.was
  }

  /** The files when turn `k` comes. */
  function FilesAt(t: Terms, answers: seq<Answers>, k: nat): Disks.Disk
    requires k <= |answers|
  {
    if k == 0 then t.from else answers[k - 1].now
  }

  function FilesNow(t: Terms, answers: seq<Answers>): Disks.Disk {
    FilesAt(t, answers, |answers|)
  }

  /** Each thing met became what it should have, going by what was learnt of it. */
  ghost predicate Fated(events: seq<Event>, met: seq<Discovery>, answers: seq<Answers>) {
    && |events| == |answers| <= |met|
    && forall k :: 0 <= k < |events| ==> EventOf(met[k], answers[k]) == Some(events[k])
  }

  /** What was learnt of each is true of the files when its turn came. */
  ghost predicate Learnt(t: Terms, met: seq<Discovery>, answers: seq<Answers>) {
    && |answers| <= |met|
    && forall k :: 0 <= k < |answers| ==> answers[k].was == FilesAt(t, answers, k) && AnsweredFor(t, met[k], answers[k])
  }

  ghost predicate Right(t: Terms, events: seq<Event>, met: seq<Discovery>, answers: seq<Answers>) {
    Fated(events, met, answers) && Learnt(t, met, answers)
  }

  /** The same, with the files as the last turn left them. */
  ghost predicate RightNow(t: Terms, d: Disks.Disk, events: seq<Event>, met: seq<Discovery>, answers: seq<Answers>) {
    Right(t, events, met, answers) && FilesNow(t, answers) == d
  }

  lemma LearntNext(t: Terms, met: seq<Discovery>, later: seq<Discovery>, answers: seq<Answers>, a: Answers)
    requires Learnt(t, met, answers) && met <= later && |answers| < |later|
    requires a.was == FilesNow(t, answers) && AnsweredFor(t, later[|answers|], a)
    ensures Learnt(t, later, answers + [a]) && FilesNow(t, answers + [a]) == a.now
  {
    var all := answers + [a];
    forall k | 0 <= k < |all|
      ensures all[k].was == FilesAt(t, all, k) && AnsweredFor(t, later[k], all[k])
    {
      assert FilesAt(t, all, k) == FilesAt(t, answers, k);
      if k < |answers| {
        assert all[k] == answers[k] && later[k] == met[k];
      }
    }
  }

  lemma LearntMore(t: Terms, met: seq<Discovery>, later: seq<Discovery>, answers: seq<Answers>)
    requires Learnt(t, met, answers) && met <= later
    ensures Learnt(t, later, answers)
  {
    forall k | 0 <= k < |answers|
      ensures AnsweredFor(t, later[k], answers[k])
    {
      assert later[k] == met[k];
    }
  }

  predicate Stopping(e: Event) {
    e.Lost? || e.Stopped?
  }

  predicate Halting(d: Discovery) {
    d.Broken? || (d.Unclear? && d.fault == Fatal)
  }

  /** Something met stops the run: the walk broke off, or an error says that nothing
      more can be rewritten. */
  ghost predicate StopsSomewhere(met: seq<Discovery>, events: seq<Event>) {
    (exists d :: d in met && Halting(d)) || exists e :: e in events && Stopping(e)
  }

  /** The run stopped with this error: that of the last thing met, or, if it was the last
      extent dealt with that stopped it, `Fatal`. */
  ghost predicate StoppedWith(met: seq<Discovery>, events: seq<Event>, fault: Fault) {
    || (met != [] && Halting(met[|met| - 1]) && met[|met| - 1].fault == fault)
    || (events != [] && Stopping(events[|events| - 1]) && fault == Fatal)
  }

  lemma StoppedSomewhere(met: seq<Discovery>, events: seq<Event>, fault: Fault)
    requires StoppedWith(met, events, fault)
    ensures StopsSomewhere(met, events)
  {
  }

  // ----- What decides, written out -----

  /** At least 65536 bytes to free, and no more than four times as many to copy. */
  predicate Worth(e: Extent) {
    65536 <= e.DiskFreeBytes() && e.LiveUncompressedBytes() <= 4 * e.DiskFreeBytes()
  }

  predicate Meagre(e: Extent) {
    0 < e.DiskFreeBytes() < 65536
  }

  predicate Costly(e: Extent) {
    65536 <= e.DiskFreeBytes() && 4 * e.DiskFreeBytes() < e.LiveUncompressedBytes()
  }

  lemma WorthIsWorthwhile(e: Extent)
    ensures Worth(e) <==> Worthwhile(e)
  {
  }

  /** What becomes of an extent at its first look. */
  lemma FirstLook(first: Extent, a: Answers)
    ensures var e := FateOf(first, a);
      && (e == Idle(first) <==> first.DiskFreeBytes() == 0)
      && (Meagre(first) ==> e == Left(first, first, TooLittleToFree))
      && (Costly(first) ==> e == Left(first, first, TooMuchToCopy))
      && (Worth(first) && a.again.Err? ==>
            && (e == Lost(first) <==> a.again.error == Fatal)
            && (e == Left(first, first, Changed) <==> a.again.error == ChangedSince)
            && (e == Left(first, first, LeftAlone.Unresolved) <==> a.again.error in {Other, InvalidData}))
  {
  }

  /** What becomes of one worth rewriting at its second. Of the ways processing can fail,
      only a foreign call that failed fatally stops the run, and only a file found
      modified counts as that. */
  lemma SecondLook(first: Extent, a: Answers)
    requires Worth(first) && a.again.Ok?
    ensures var e, again, p := FateOf(first, a), a.again.value, a.processed;
      && (e == IdleAgain(first, again) <==> again.DiskFreeBytes() == 0)
      && (Meagre(again) ==> e == Left(first, again, TooLittleToFree))
      && (Costly(again) ==> e == Left(first, again, TooMuchToCopy))
      && (e == Rewritten(first, again) <==> Worth(again) && p == Ok(None))
      && (Worth(again) ==> forall reason :: e == Left(first, again, reason) <==> p == Ok(Some(reason)))
      && (e == Stopped(first, again) <==> Worth(again) && p == Err(Kernel.Io(true)))
      && (e == FailedOn(first, again, true) <==> Worth(again) && p == Err(Kernel.Modified))
      && (e == FailedOn(first, again, false) <==>
            Worth(again) && p.Err? && p.error != Kernel.Io(true) && p.error != Kernel.Modified)
  {
  }

  /** What is counted of an address without an extent. */
  lemma UnclearCounts(d: Discovery, a: Answers)
    requires d.Unclear?
    ensures EventOf(d, a) == None <==> d.fault == Fatal
    ensures EventOf(d, a) == Some(Unread(Changed)) <==> d.fault == ChangedSince
    ensures EventOf(d, a) == Some(Unread(LeftAlone.Unresolved)) <==> d.fault in {Other, InvalidData}
  {
  }

  /** The turn of an extent worth rewriting that stops the run: it could not be resolved
      again, or was worth it still and a foreign call failed rewriting it, in either case
      fatally. */
  predicate EndsRun(d: Discovery, a: Answers) {
    d.Found? && Worth(d.extent)
    && match a.again
       case Err(fault) => fault == Fatal
       case Ok(again) => Worth(again) && a.processed == Err(Kernel.Io(true))
  }

  /** What stops a run, by what was met and learnt alone: the walk broke off, resolving an
      address or an extent failed for good, or rewriting one did. */
  ghost predicate StoppedShort(met: seq<Discovery>, answers: seq<Answers>) {
    || (exists d :: d in met && (d.Broken? || (d.Unclear? && d.fault == Fatal)))
    || exists k :: 0 <= k < |answers| && k < |met| && EndsRun(met[k], answers[k])
  }

  lemma StopsExactly(t: Terms, events: seq<Event>, met: seq<Discovery>, answers: seq<Answers>)
    requires Right(t, events, met, answers)
    ensures StopsSomewhere(met, events) <==> StoppedShort(met, answers)
  {
    forall k | 0 <= k < |answers|
      ensures Stopping(events[k]) <==> EndsRun(met[k], answers[k])
    {
      StopsHere(met[k], answers[k], events[k]);
    }
    if e :| e in events && Stopping(e) {
      var k :| 0 <= k < |events| && events[k] == e;
      assert EndsRun(met[k], answers[k]);
    }
    if k :| 0 <= k < |answers| && k < |met| && EndsRun(met[k], answers[k]) {
      assert events[k] in events && Stopping(events[k]);
    }
  }

  lemma StopsHere(d: Discovery, a: Answers, e: Event)
    requires EventOf(d, a) == Some(e)
    ensures Stopping(e) <==> EndsRun(d, a)
  {
    if d.Found? {
      FirstLook(d.extent, a);
      if Worth(d.extent) && a.again.Ok? {
        SecondLook(d.extent, a);
      }
    }
  }

  lemma FatedNext(events: seq<Event>, met: seq<Discovery>, answers: seq<Answers>, extent: Extent, a: Answers, e: Event)
    requires Fated(events, met, answers) && |events| < |met| && met[|events|] == Found(extent)
    requires e == FateOf(extent, a)
    ensures Fated(events + [e], met, answers + [a])
    ensures Stopping(e) ==> StoppedWith(met, events + [e], Fatal)
  {
    assert EventOf(met[|events|], a) == Some(e);
  }

  lemma RightNext(t: Terms, events: seq<Event>, met: seq<Discovery>, answers: seq<Answers>, extent: Extent, a: Answers,
                  e: Event)
    requires Right(t, events, met, answers) && |events| < |met| && met[|events|] == Found(extent)
    requires a.was == FilesNow(t, answers) && Answered(t, extent, a) && e == FateOf(extent, a)
    ensures Right(t, events + [e], met, answers + [a]) && FilesNow(t, answers + [a]) == a.now
    ensures Stopping(e) ==> StoppedWith(met, events + [e], Fatal)
  {
    FatedNext(events, met, answers, extent, a, e);
    LearntNext(t, met, met, answers, a);
  }

  /** A run that came through was stopped by nothing. */
  lemma FinishedRight(events: seq<Event>, met: seq<Discovery>, answers: seq<Answers>)
    requires Fated(events, met, answers) && |events| == |met| && Finished(events)
    ensures !StopsSomewhere(met, events)
  {
    forall d | d in met
      ensures !Halting(d)
    {
      var k :| 0 <= k < |met| && met[k] == d;
      assert EventOf(met[k], answers[k]) == Some(events[k]);
    }
  }

  // ----- Progress -----

  lemma {:induction false} RewrittenReported(events: seq<Event>, k: nat)
    requires k < |events| && events[k].Rewritten?
    ensures events[k].again.diskAddress in ReportIn(events).rewritten
    decreases |events|
  {
    var init := events[..|events| - 1];
    if k < |init| {
      RewrittenReported(init, k);
    }
  }

  /** With trees whose searches succeed, an extent that looked worth rewriting and is still
      there is looked at again as it is; and if it is worth it still, nothing stands in the
      way and the kernel does what it is asked in this turn, it is among those rewritten. */
  lemma RunProgresses(t: Terms, events: seq<Event>, met: seq<Discovery>, answers: seq<Answers>, k: nat)
    requires Right(t, events, met, answers) && k < |events| && met[k].Found? && Worth(met[k].extent) && t.reliable
    requires Resolvable(t.layout(answers[k].was), answers[k].was, met[k].extent)
    ensures var first, a := met[k].extent, answers[k];
      && a.again.Ok? && Whole(a.was, first, a.again.value)
      && Measures(a.again.value, R.EveryRef(t.layout(a.was), first.diskAddress))
      && (Worth(a.again.value) && Dutiful(t, a) && Processing.Clear(t.attributes, a.was, a.again.value.refs) ==>
            events[k] == Rewritten(first, a.again.value) && first.diskAddress in ReportIn(events).rewritten)
  {
    var first, a := met[k].extent, answers[k];
    assert AnsweredFor(t, met[k], a) && EventOf(met[k], a) == Some(events[k]);
    WorthIsWorthwhile(first);
    SecondLook(first, a);
    WorthIsWorthwhile(a.again.value);
    if events[k].Rewritten? {
      RewrittenReported(events, k);
    }
  }

  lemma DutifulGoesOn(t: Terms, d: Discovery, a: Answers, e: Event)
    requires AnsweredFor(t, d, a) && EventOf(d, a) == Some(e) && Dutiful(t, a) && t.reliable
    ensures !Stopping(e)
  {
    StopsHere(d, a, e);
    if d.Found? {
      WorthIsWorthwhile(d.extent);
      if a.again.Ok? {
        WorthIsWorthwhile(a.again.value);
      }
    }
  }

  /** Nor does such a run stop at any extent. */
  lemma DutifulNeverStops(t: Terms, events: seq<Event>, met: seq<Discovery>, answers: seq<Answers>)
    requires Right(t, events, met, answers) && t.reliable
    requires forall k :: 0 <= k < |answers| ==> Dutiful(t, answers[k])
    ensures forall e :: e in events ==> !Stopping(e)
  {
    forall k | 0 <= k < |events|
      ensures !Stopping(events[k])
    {
      DutifulGoesOn(t, met[k], answers[k], events[k]);
    }
  }
}
