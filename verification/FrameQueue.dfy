/** The bounded frame queue of `LiveRTSPServer` between any number of producers and one push
    thread, as a state machine: a section under the mutex is one step, the delivery outside it
    another. The fields from `accepted` on are history. */
module FrameQueue {
  import opened Wrappers
  import opened Bytes

  /** One `h264_buff_t`; `id` tells allocations apart. */
  datatype Frame = Frame(id: nat, data: bytes)

  /** `Serving(None)` is a started server whose subsession does not exist yet; `Serving(Some(w))`
      one into whose pipe the bytes `w` have been written. */
  datatype Rtsp = NotStarted | Serving(pipe: Option<bytes>)

  /** Where the push thread is: testing the run flag, about to take the mutex, holding a popped
      frame, about to delete it, past its loop, or finished. */
  datatype Pc = Testing | Locking | Holding(frame: Frame) | Deleting(frame: Frame) | Leaving | Ended

  datatype State = State(queue: seq<Frame>, running: bool, rtsp: Rtsp, connected: bool, pc: Pc,
                         accepted: seq<Frame>, freed: seq<Frame>, trace: Trace)

  /** What became of the frames the thread took: all of them (`handled`), those it took while there was
      no server (`skipped`), those handed to a server (`delivered`), and of these the ones before the
      present pipe existed (`unpiped`) and the ones after, with the number of bytes written (`sent`). */
  datatype Trace = Trace(handled: seq<Frame>, skipped: seq<Frame>, delivered: seq<Frame>,
                         unpiped: seq<Frame>, sent: seq<(Frame, nat)>)

  /** `Deliver(k)` hands the frame to the server; `k` of its bytes get into the pipe, if there is one. */
  datatype Event =
    | Push(data: bytes)
    | StartSelf
    | CreateSubsession
    | Stop
    | Test
    | Take
    | Deliver(k: nat)
    | Delete
    | Drain

  const CAPACITY := 10

  const INITIAL := State([], true, NotStarted, false, Testing, [], [], Trace([], [], [], [], []))

  predicate Enabled(s: State, e: Event) {
    match e
    case Push(_) => true
    case StartSelf => true
    case CreateSubsession => s.rtsp == Serving(None)
    case Stop => true
    case Test => s.pc.Testing?
    case Take => s.pc.Locking?
    case Deliver(k) => s.pc.Holding? && k <= |s.pc.frame.data|
    case Delete => s.pc.Deleting?
    case Drain => s.pc.Leaving?
  }

  /** The unlocked section: `if(mRtspServer) mRtspServer->pushData(...)`. */
  function Handled(s: State, k: nat): State
    requires s.pc.Holding? && k <= |s.pc.frame.data|
  {
    var f := s.pc.frame;
    var t := s.trace.(handled := s.trace.handled + [f]);
    if s.rtsp.NotStarted? then
      s.(pc := Deleting(f), trace := t.(skipped := t.skipped + [f]))
    else if s.rtsp.pipe.None? then
      s.(pc := Deleting(f), trace := t.(delivered := t.delivered + [f], unpiped := t.unpiped + [f]))
    else
      s.(pc := Deleting(f), rtsp := Serving(Some(s.rtsp.pipe.value + f.data[..k])),
         trace := t.(delivered := t.delivered + [f], sent := t.sent + [(f, k)]))
  }

  function Next(s: State, e: Event): State
    requires Enabled(s, e)
  {
    match e
    case Push(data) =>
      if |s.queue| < CAPACITY then
        var f := Frame(|s.accepted|, data);
        s.(queue := s.queue + [f], accepted := s.accepted + [f], connected := true)
      else s.(connected := false)
    case StartSelf => s.(rtsp := Serving(None), trace := s.trace.(unpiped := s.trace.delivered, sent := []))
    case CreateSubsession => s.(rtsp := Serving(Some([])))
    case Stop => s.(running := false)
    case Test => s.(pc := if s.running then Locking else Leaving)
    case Take =>
      if s.queue != [] then s.(queue := s.queue[1..], pc := Holding(s.queue[0])) else s.(pc := Testing)
    case Deliver(k) => Handled(s, k)
    case Delete => s.(pc := Testing, freed := s.freed + [s.pc.frame])
    case Drain => s.(queue := [], freed := s.freed + s.queue, pc := Ended)
  }

  predicate Legal(s: State, events: seq<Event>)
    decreases |events|
  {
    events == [] || (Enabled(s, events[0]) && Legal(Next(s, events[0]), events[1..]))
  }

  function Run(s: State, events: seq<Event>): State
    requires Legal(s, events)
    decreases |events|
  {
    if events == [] then s else Run(Next(s, events[0]), events[1..])
  }

  /** The popped frame that is not yet deleted. */
  function InFlight(pc: Pc): seq<Frame> {
    if pc.Holding? || pc.Deleting? then [pc.frame] else []
  }

  /** What is in the pipe: of each frame the prefix that was written. */
  function Concat(sent: seq<(Frame, nat)>): bytes {
    if sent == [] then []
    else
      var (f, k) := sent[|sent| - 1];
      Concat(sent[..|sent| - 1]) + if k <= |f.data| then f.data[..k] else f.data
  }

  function Frames(sent: seq<(Frame, nat)>): seq<Frame> {
    if sent == [] then [] else Frames(sent[..|sent| - 1]) + [sent[|sent| - 1].0]
  }

  // ----- The invariant

  ghost predicate QueueInv(s: State) {
    && |s.queue| <= CAPACITY
    && s.accepted == s.freed + InFlight(s.pc) + s.queue
    && forall i :: 0 <= i < |s.accepted| ==> s.accepted[i].id == i
  }

  /** While the thread runs, the frames handled are those freed and the one about to be. */
  ghost predicate HandledInv(s: State) {
    if s.pc.Ended? then s.trace.handled <= s.freed
    else s.trace.handled == if s.pc.Deleting? then s.freed + [s.pc.frame] else s.freed
  }

  ghost predicate TraceInv(t: Trace, rtsp: Rtsp) {
    && t.handled == t.skipped + t.delivered
    && t.delivered == t.unpiped + Frames(t.sent)
    && (rtsp.NotStarted? ==> t.delivered == [])
    && (rtsp.NotStarted? || rtsp.pipe.None? ==> t.sent == [])
    && (forall i :: 0 <= i < |t.sent| ==> t.sent[i].1 <= |t.sent[i].0.data|)
    && (rtsp.Serving? && rtsp.pipe.Some? ==> rtsp.pipe.value == Concat(t.sent))
  }

  ghost predicate Inv(s: State) {
    QueueInv(s) && HandledInv(s) && TraceInv(s.trace, s.rtsp)
  }

  lemma PushKeepsInv(s: State, data: bytes)
    requires Inv(s)
    ensures Inv(Next(s, Push(data)))
  {
    if |s.queue| < CAPACITY {
      var f := Frame(|s.accepted|, data);
      assert s.freed + InFlight(s.pc) + (s.queue + [f]) == s.freed + InFlight(s.pc) + s.queue + [f];
    }
  }

  lemma TakeKeepsInv(s: State)
    requires Inv(s) && Enabled(s, Take)
    ensures Inv(Next(s, Take))
  {
    if s.queue != [] {
      assert s.freed + [] + s.queue == s.freed + [s.queue[0]] + s.queue[1..];
    }
  }

  lemma SentAppend(sent: seq<(Frame, nat)>, f: Frame, k: nat)
    requires k <= |f.data|
    ensures Frames(sent + [(f, k)]) == Frames(sent) + [f]
    ensures Concat(sent + [(f, k)]) == Concat(sent) + f.data[..k]
  {
    assert (sent + [(f, k)])[..|sent|] == sent;
  }

  lemma AppendLast(a: seq<Frame>, b: seq<Frame>, c: seq<Frame>, f: Frame)
    requires c == a + b
    ensures c + [f] == a + (b + [f])
  {
  }

  lemma SkipKeepsTrace(t: Trace, f: Frame)
    requires TraceInv(t, NotStarted)
    ensures TraceInv(t.(handled := t.handled + [f], skipped := t.skipped + [f]), NotStarted)
  {
    assert t.skipped + [f] == t.skipped + [f] + [];
    assert t.handled == t.skipped;
  }

  lemma LoseKeepsTrace(t: Trace, f: Frame)
    requires TraceInv(t, Serving(None))
    ensures TraceInv(t.(handled := t.handled + [f], delivered := t.delivered + [f], unpiped := t.unpiped + [f]),
                     Serving(None))
  {
    AppendLast(t.skipped, t.delivered, t.handled, f);
    assert Frames(t.sent) == [] && t.delivered == t.unpiped;
  }

  lemma SendKeepsTrace(t: Trace, w: bytes, f: Frame, k: nat)
    requires TraceInv(t, Serving(Some(w))) && k <= |f.data|
    ensures TraceInv(t.(handled := t.handled + [f], delivered := t.delivered + [f], sent := t.sent + [(f, k)]),
                     Serving(Some(w + f.data[..k])))
  {
    AppendLast(t.skipped, t.delivered, t.handled, f);
    SentAppend(t.sent, f, k);
    AppendLast(t.unpiped, Frames(t.sent), t.delivered, f);
  }

  lemma DeliverKeepsTrace(s: State, k: nat)
    requires TraceInv(s.trace, s.rtsp) && Enabled(s, Deliver(k))
    ensures TraceInv(Handled(s, k).trace, Handled(s, k).rtsp)
  {
    if s.rtsp.NotStarted? {
      SkipKeepsTrace(s.trace, s.pc.frame);
    } else if s.rtsp.pipe.None? {
      LoseKeepsTrace(s.trace, s.pc.frame);
    } else {
      SendKeepsTrace(s.trace, s.rtsp.pipe.value, s.pc.frame, k);
    }
  }

  lemma DeliverKeepsInv(s: State, k: nat)
    requires Inv(s) && Enabled(s, Deliver(k))
    ensures Inv(Next(s, Deliver(k)))
  {
    DeliverKeepsTrace(s, k);
  }

  lemma DeleteKeepsInv(s: State)
    requires Inv(s) && Enabled(s, Delete)
    ensures Inv(Next(s, Delete))
  {
    assert s.freed + [s.pc.frame] + s.queue == s.freed + [s.pc.frame] + [] + s.queue;
  }

  lemma DrainKeepsInv(s: State)
    requires Inv(s) && Enabled(s, Drain)
    ensures Inv(Next(s, Drain)) && Next(s, Drain).freed == s.accepted
  {
    assert s.freed + [] + s.queue == s.freed + s.queue;
  }

  lemma NextKeepsInv(s: State, e: Event)
    requires Inv(s) && Enabled(s, e)
    ensures Inv(Next(s, e))
  {
    match e {
      case Push(data) => PushKeepsInv(s, data);
      case Take => TakeKeepsInv(s);
      case Deliver(k) => DeliverKeepsInv(s, k);
      case Delete => DeleteKeepsInv(s);
      case Drain => DrainKeepsInv(s);
      case StartSelf =>
      case CreateSubsession =>
      case Stop =>
      case Test =>
    }
  }

  lemma {:induction false} RunKeepsInv(s: State, events: seq<Event>)
    requires Inv(s) && Legal(s, events)
    ensures Inv(Run(s, events))
    decreases |events|
  {
    if events != [] {
      NextKeepsInv(s, events[0]);
      RunKeepsInv(Next(s, events[0]), events[1..]);
    }
  }

  // ----- Results over all runs

  /** Conservation: what was accepted is what was freed, then the frame in flight, then the queue, in
      that order; and the queue holds at most ten. */
  lemma FramesAreConserved(events: seq<Event>)
    requires Legal(INITIAL, events)
    ensures var s := Run(INITIAL, events);
            && s.accepted == s.freed + InFlight(s.pc) + s.queue
            && |s.queue| <= CAPACITY
  {
    RunKeepsInv(INITIAL, events);
  }

  /** A push is refused exactly when ten frames wait, and then changes nothing but the flag that
      reports it. */
  lemma PushDropsNewestWhenFull(events: seq<Event>, data: bytes)
    requires Legal(INITIAL, events)
    ensures var s := Run(INITIAL, events);
            var t := Next(s, Push(data));
            && (t.connected <==> |s.queue| < 10)
            && (t.connected ==> t.queue == s.queue + [Frame(|s.accepted|, data)] && |t.accepted| == |s.accepted| + 1)
            && (!t.connected ==> |s.queue| == 10 && t == s.(connected := false))
  {
    RunKeepsInv(INITIAL, events);
  }

  lemma IdsArePositions(s: State)
    requires QueueInv(s)
    ensures forall i :: 0 <= i < |s.freed| ==> s.freed[i].id == i
    ensures s.pc.Holding? || s.pc.Deleting? ==> s.pc.frame.id == |s.freed|
    ensures forall i :: 0 <= i < |s.queue| ==> s.queue[i].id == |s.freed| + |InFlight(s.pc)| + i
  {
    assert forall i :: 0 <= i < |s.freed| ==> s.accepted[i] == s.freed[i];
    assert s.pc.Holding? || s.pc.Deleting? ==> s.accepted[|s.freed|] == s.pc.frame;
    assert forall i :: 0 <= i < |s.queue| ==> s.accepted[|s.freed| + |InFlight(s.pc)| + i] == s.queue[i];
  }

  /** Ownership: no frame is freed twice, and the frame the thread is about to read or to delete has
      not been freed. */
  lemma FreedOnceNeverReadAfter(events: seq<Event>)
    requires Legal(INITIAL, events)
    ensures var s := Run(INITIAL, events);
            && (forall i, j :: 0 <= i < j < |s.freed| ==> s.freed[i] != s.freed[j])
            && (s.pc.Holding? || s.pc.Deleting? ==> s.pc.frame !in s.freed)
            && (forall f :: f in s.queue ==> f !in s.freed)
  {
    RunKeepsInv(INITIAL, events);
    IdsArePositions(Run(INITIAL, events));
  }

  /** The shutdown drain leaves the queue empty and every frame accepted so far freed, once. */
  lemma DrainFreesAll(events: seq<Event>)
    requires Legal(INITIAL, events) && Enabled(Run(INITIAL, events), Drain)
    ensures var s := Run(INITIAL, events);
            var t := Next(s, Drain);
            t.queue == [] && t.freed == s.accepted == t.accepted && InFlight(t.pc) == []
            && forall i, j :: 0 <= i < j < |t.freed| ==> t.freed[i] != t.freed[j]
  {
    RunKeepsInv(INITIAL, events);
    var s := Run(INITIAL, events);
    DrainKeepsInv(s);
    assert forall i :: 0 <= i < |s.accepted| ==> s.accepted[i].id == i;
  }

  /** After the drain nothing is freed any more: whatever is accepted from then on stays in the queue,
      which still takes up to ten frames. */
  lemma {:induction false} NothingFreedAfterDrain(s: State, events: seq<Event>)
    requires Inv(s) && s.pc.Ended? && Legal(s, events)
    ensures var t := Run(s, events);
            && t.pc.Ended? && t.freed == s.freed && s.queue <= t.queue && |t.queue| <= CAPACITY
            && t.accepted == s.freed + t.queue
    decreases |events|
  {
    if events == [] {
      assert s.freed + InFlight(s.pc) == s.freed;
    } else {
      NextKeepsInv(s, events[0]);
      NothingFreedAfterDrain(Next(s, events[0]), events[1..]);
    }
  }

  /** So a frame accepted after the drain is never freed, in any run. */
  lemma LateFramesAreNeverFreed(before: seq<Event>, after: seq<Event>)
    requires Legal(INITIAL, before) && Enabled(Run(INITIAL, before), Drain)
    requires Legal(Next(Run(INITIAL, before), Drain), after)
    ensures var s := Run(INITIAL, before);
            var t := Run(Next(s, Drain), after);
            && t.freed == s.accepted && t.accepted == s.accepted + t.queue
            && forall f :: f in t.queue ==> f !in t.freed
  {
    RunKeepsInv(INITIAL, before);
    var s := Run(INITIAL, before);
    DrainKeepsInv(s);
    NothingFreedAfterDrain(Next(s, Drain), after);
    RunKeepsInv(Next(s, Drain), after);
    IdsArePositions(Run(Next(s, Drain), after));
  }

  lemma HandledIsPrefix(s: State)
    requires QueueInv(s) && HandledInv(s)
    ensures s.trace.handled <= s.accepted
  {
    if s.pc.Deleting? {
      assert s.freed + [s.pc.frame] <= s.accepted;
    }
  }

  /** No frame is skipped after the server was started. */
  lemma {:induction false} StartFixesSkipped(s: State, events: seq<Event>)
    requires Legal(s, events) && s.rtsp.Serving?
    ensures Run(s, events).rtsp.Serving? && Run(s, events).trace.skipped == s.trace.skipped
    decreases |events|
  {
    if events != [] {
      StartFixesSkipped(Next(s, events[0]), events[1..]);
    }
  }

  lemma {:induction false} NothingDeliveredBefore(s: State, events: seq<Event>)
    requires Legal(s, events) && s.rtsp.NotStarted? && StartSelf !in events
    ensures Run(s, events).rtsp.NotStarted?
    decreases |events|
  {
    if events != [] {
      NothingDeliveredBefore(Next(s, events[0]), events[1..]);
    }
  }

  lemma {:induction false} RunSplit(s: State, before: seq<Event>, after: seq<Event>)
    requires Legal(s, before + after)
    ensures Legal(s, before) && Legal(Run(s, before), after)
    ensures Run(s, before + after) == Run(Run(s, before), after)
    decreases |before|
  {
    if before == [] {
      assert before + after == after;
    } else {
      assert (before + after)[1..] == before[1..] + after;
      RunSplit(Next(s, before[0]), before[1..], after);
    }
  }

  lemma {:induction false} FlagIsStop(s: State, events: seq<Event>)
    requires Legal(s, events) && (s.pc.Leaving? || s.pc.Ended? ==> !s.running)
    ensures var t := Run(s, events);
            && (t.running <==> s.running && Stop !in events)
            && (t.pc.Leaving? || t.pc.Ended? ==> !t.running)
    decreases |events|
  {
    if events != [] {
      FlagIsStop(Next(s, events[0]), events[1..]);
    }
  }

  /** The run flag: until `Stop` the thread goes from every test on to lock and never leaves its loop; from
      then on its next test leaves the loop. */
  lemma LoopRunsUntilStop(events: seq<Event>)
    requires Legal(INITIAL, events)
    ensures var s := Run(INITIAL, events);
            && (Stop !in events ==> !s.pc.Leaving? && !s.pc.Ended?)
            && (s.pc.Testing? ==> Next(s, Test) == s.(pc := if Stop in events then Leaving else Locking))
  {
    FlagIsStop(INITIAL, events);
  }

  /** The steps of the push thread before it leaves its loop. */
  predicate InLoop(e: Event) {
    e.Test? || e.Take? || e.Deliver? || e.Delete?
  }

  ghost predicate EndsWith<T>(s: seq<T>, end: seq<T>) {
    |end| <= |s| && s[|s| - |end|..] == end
  }

  /** `f` is the latest frame handled; if there is a server it was handed over, and if there is a pipe its
      bytes were the last to get there. */
  ghost predicate JustServed(s: State, f: Frame) {
    && EndsWith(s.trace.handled, [f])
    && (s.rtsp.Serving? ==> EndsWith(s.trace.delivered, [f]))
    && (s.rtsp.Serving? && s.rtsp.pipe.Some? ==> EndsWith(s.rtsp.pipe.value, f.data))
  }

  lemma DeliverServes(s: State)
    requires s.pc.Holding?
    ensures var f := s.pc.frame;
            var t := Next(s, Deliver(|f.data|));
            && JustServed(t, f) && t.pc == Deleting(f) && t == s.(pc := t.pc, rtsp := t.rtsp, trace := t.trace)
            && (t.rtsp.Serving? <==> s.rtsp.Serving?)
            && (s.rtsp.Serving? ==> (t.rtsp.pipe.Some? <==> s.rtsp.pipe.Some?))
  {
    var f := s.pc.frame;
    assert f.data[..|f.data|] == f.data;
    if s.rtsp.Serving? && s.rtsp.pipe.Some? {
      assert (s.rtsp.pipe.value + f.data)[|s.rtsp.pipe.value|..] == f.data;
    }
  }

  lemma FirstThen(s: State, e: Event, rest: seq<Event>)
    requires Enabled(s, e) && Legal(Next(s, e), rest)
    ensures Legal(s, [e] + rest) && Run(s, [e] + rest) == Run(Next(s, e), rest)
  {
    assert ([e] + rest)[1..] == rest;
  }

  /** The next step of a thread that is in its loop, when its writes succeed. */
  function Step(s: State): (e: Event)
    requires s.pc.Testing? || s.pc.Locking? || s.pc.Holding? || s.pc.Deleting?
    ensures InLoop(e) && Enabled(s, e)
  {
    match s.pc
    case Testing => Test
    case Locking => Take
    case Holding(f) => Deliver(|f.data|)
    case Deleting(_) => Delete
  }

  function Rank(pc: Pc): nat {
    match pc
    case Holding(_) => 3
    case Deleting(_) => 2
    case Testing => 1
    case _ => 0
  }

  lemma {:induction false} ThreadReaches(s: State, i: nat) returns (more: seq<Event>)
    requires s.running && i < |s.queue| && !s.pc.Leaving? && !s.pc.Ended?
    ensures Legal(s, more) && forall e :: e in more ==> InLoop(e)
    ensures var t := Run(s, more);
            && t.queue == s.queue[i + 1..] && t.accepted == s.accepted && JustServed(t, s.queue[i])
            && (t.rtsp.Serving? <==> s.rtsp.Serving?)
            && (s.rtsp.Serving? ==> (t.rtsp.pipe.Some? <==> s.rtsp.pipe.Some?))
    decreases i, Rank(s.pc)
  {
    var e := Step(s);
    var t := Next(s, e);
    if s.pc.Locking? && i == 0 {
      DeliverServes(t);
      var u := Next(t, Step(t));
      FirstThen(t, Step(t), []);
      FirstThen(s, e, [Step(t)]);
      more := [e] + ([Step(t)] + []);
    } else {
      if s.pc.Holding? {
        DeliverServes(s);
      }
      var rest := ThreadReaches(t, if s.pc.Locking? then i - 1 else i);
      FirstThen(s, e, rest);
      more := [e] + rest;
    }
  }

  /** Progress: until `Stop`, in every reachable state, the thread by its own steps gets to any waiting frame:
      it is then the latest one handled, behind all that waited before it, and was handed to the server and
      written whole to the pipe if they exist. */
  lemma QueuedFrameIsServed(before: seq<Event>, i: nat) returns (more: seq<Event>)
    requires Legal(INITIAL, before) && Stop !in before && i < |Run(INITIAL, before).queue|
    ensures var s := Run(INITIAL, before);
            && Legal(s, more) && (forall e :: e in more ==> InLoop(e))
            && var t := Run(s, more);
               && t.queue == s.queue[i + 1..] && t.accepted == s.accepted
               && EndsWith(t.trace.handled, [s.queue[i]])
               && (s.rtsp.Serving? ==> t.rtsp.Serving? && EndsWith(t.trace.delivered, [s.queue[i]]))
               && (s.rtsp.Serving? && s.rtsp.pipe.Some? ==>
                     t.rtsp.pipe.Some? && EndsWith(t.rtsp.pipe.value, s.queue[i].data))
  {
    FlagIsStop(INITIAL, before);
    more := ThreadReaches(Run(INITIAL, before), i);
  }

  lemma {:induction false} StoppedThreadEnds(s: State) returns (more: seq<Event>)
    requires Inv(s) && !s.running && !s.pc.Ended?
    ensures Legal(s, more) && |more| <= 5 && forall e :: e in more ==> InLoop(e) || e.Drain?
    ensures s.pc.Leaving? ==> |more| == 1
    ensures s.pc.Testing? ==> |more| == 2
    ensures s.pc.Deleting? ==> |more| == 3
    ensures s.pc.Holding? ==> |more| == 4
    ensures s.pc.Locking? ==> |more| <= 5
    ensures var t := Run(s, more);
            t.pc.Ended? && t.queue == [] && t.freed == t.accepted == s.accepted
    decreases if s.pc.Locking? then 4 else if s.pc.Leaving? then 0 else Rank(s.pc)
  {
    if s.pc.Leaving? {
      FirstThen(s, Drain, []);
      DrainKeepsInv(s);
      more := [Drain] + [];
    } else {
      NextKeepsInv(s, Step(s));
      var rest := StoppedThreadEnds(Next(s, Step(s)));
      FirstThen(s, Step(s), rest);
      more := [Step(s)] + rest;
    }
  }

  /** Shutdown: in every reachable state before the drain, `Stop` lets the thread reach the drain by at most
      five steps of its own, with every accepted frame freed. */
  lemma StopLeadsToDrain(before: seq<Event>) returns (more: seq<Event>)
    requires Legal(INITIAL, before) && !Run(INITIAL, before).pc.Ended?
    ensures var s := Next(Run(INITIAL, before), Stop);
            && Legal(s, more) && |more| <= 5 && (forall e :: e in more ==> InLoop(e) || e.Drain?)
            && var t := Run(s, more);
               t.pc.Ended? && t.queue == [] && t.freed == t.accepted == s.accepted
  {
    RunKeepsInv(INITIAL, before);
    more := StoppedThreadEnds(Next(Run(INITIAL, before), Stop));
  }

  /** Delivered frames: in every run in which the server is first started after `before`, exactly the
      frames handled since then, whole and in order; what is handled is a prefix of what was accepted,
      and nothing is delivered without a start. */
  lemma DeliveredIsHandledSinceStart(before: seq<Event>, after: seq<Event>)
    requires StartSelf !in before && Legal(INITIAL, before + [StartSelf] + after)
    ensures Legal(INITIAL, before) && Run(INITIAL, before).trace.delivered == []
    ensures var s, t := Run(INITIAL, before), Run(INITIAL, before + [StartSelf] + after);
            && s.trace.handled <= t.trace.handled <= t.accepted
            && t.trace.delivered == t.trace.handled[|s.trace.handled|..]
            && (!t.pc.Ended? ==> t.trace.handled == if t.pc.Deleting? then t.freed + [t.pc.frame] else t.freed)
  {
    RunSplit(INITIAL, before + [StartSelf], after);
    RunSplit(INITIAL, before, [StartSelf]);
    var s, t := Run(INITIAL, before), Run(INITIAL, before + [StartSelf] + after);
    RunKeepsInv(INITIAL, before);
    RunKeepsInv(INITIAL, before + [StartSelf] + after);
    NothingDeliveredBefore(INITIAL, before);
    var s1 := Next(s, StartSelf);
    assert [StartSelf][1..] == [] && Run(s1, []) == s1 && Run(s, [StartSelf]) == s1;
    StartFixesSkipped(s1, after);
    assert s.trace.skipped == s.trace.handled && t.trace.skipped == s.trace.handled;
    HandledIsPrefix(t);
  }

  ghost predicate AllWhole(sent: seq<(Frame, nat)>) {
    forall i :: 0 <= i < |sent| ==> sent[i].1 == |sent[i].0.data|
  }

  function ConcatFrames(frames: seq<Frame>): bytes {
    if frames == [] then [] else ConcatFrames(frames[..|frames| - 1]) + frames[|frames| - 1].data
  }

  lemma {:induction false} WholeConcat(sent: seq<(Frame, nat)>)
    requires AllWhole(sent)
    ensures Concat(sent) == ConcatFrames(Frames(sent))
  {
    if sent != [] {
      var front := sent[..|sent| - 1];
      WholeConcat(front);
      assert Frames(sent)[..|Frames(sent)| - 1] == Frames(front);
      assert sent[|sent| - 1].0.data[..sent[|sent| - 1].1] == sent[|sent| - 1].0.data;
    }
  }

  /** Byte stream: the pipe holds, in order, a prefix of each of the frames delivered since it exists;
      and when no write failed, exactly the bytes of those frames one after another. */
  lemma PipeIsFrameStream(events: seq<Event>)
    requires Legal(INITIAL, events)
    requires Run(INITIAL, events).rtsp.Serving? && Run(INITIAL, events).rtsp.pipe.Some?
    ensures var s := Run(INITIAL, events);
            && s.trace.delivered == s.trace.unpiped + Frames(s.trace.sent)
            && (forall i :: 0 <= i < |s.trace.sent| ==> s.trace.sent[i].1 <= |s.trace.sent[i].0.data|)
            && s.rtsp.pipe.value == Concat(s.trace.sent)
            && (AllWhole(s.trace.sent) ==> s.rtsp.pipe.value == ConcatFrames(Frames(s.trace.sent)))
  {
    RunKeepsInv(INITIAL, events);
    var s := Run(INITIAL, events);
    if AllWhole(s.trace.sent) {
      WholeConcat(s.trace.sent);
    }
  }
}
