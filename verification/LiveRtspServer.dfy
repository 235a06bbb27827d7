/** `LiveRTSPServer` itself: its fields, the sections under `mPushBuffListMutex`, and the delivery
    outside it, each a method proved against one step of `FrameQueue`. */
module LiveRtspServer {
  import opened Wrappers
  import opened Bytes
  import opened FrameQueue
  import opened PipeWriter

  /** The queued frames are distinct and none has been freed. */
  ghost predicate Unfreed(s: State) {
    && (forall f :: f in s.queue ==> f !in s.freed)
    && (forall i, j :: 0 <= i < j < |s.queue| ==> s.queue[i] != s.queue[j])
  }

  class LiveRTSPServer {
    var pushBuffList: seq<Frame>
    var pushThreadIsRun: bool
    var isConnected: bool
    /** `mRtspServer != NULL`, and the write end owned by its subsession, once that exists. */
    var started: bool
    var subsession: Pipe?
    /** Where the push thread is, with its local variable `h264_buff`. */
    var pc: Pc
    ghost var accepted: seq<Frame>
    ghost var freed: seq<Frame>
    ghost var trace: Trace
    var allocations: nat

    ghost function Pushed(): Rtsp
      reads this, subsession
    {
      if !started then NotStarted
      else Serving(if subsession == null then None else Some(subsession.written))
    }

    ghost function View(): State
      reads this, subsession
    {
      State(pushBuffList, pushThreadIsRun, Pushed(), isConnected, pc, accepted, freed, trace)
    }

    ghost predicate Valid()
      reads this, subsession
    {
      Inv(View()) && allocations == |accepted| && (subsession != null ==> started)
    }

    constructor ()
      ensures Valid() && View() == INITIAL
      ensures pushBuffList == [] && pushThreadIsRun && !isConnected && !started && subsession == null && pc == Testing
    {
      pushBuffList, pushThreadIsRun, isConnected, started, subsession, pc := [], true, false, false, null, Testing;
      accepted, freed, trace, allocations := [], [], Trace([], [], [], [], []), 0;
    }

    /** The frame in hand and the queued ones are not freed. */
    lemma InvGivesOwnership()
      requires Valid()
      ensures Unfreed(View()) && (pc.Holding? || pc.Deleting? ==> pc.frame !in freed)
    {
      IdsArePositions(View());
    }

    method PushData(data: bytes)
      requires Valid()
      modifies this
      ensures Valid() && subsession == old(subsession)
      ensures View() == Next(old(View()), Push(data))
      ensures isConnected == (|old(pushBuffList)| < 10)
      ensures pushBuffList == if |old(pushBuffList)| < 10 then old(pushBuffList) + [Frame(old(allocations), data)]
                              else old(pushBuffList)
    {
      NextKeepsInv(View(), Push(data));
      if |pushBuffList| < 10 {
        var f := Frame(allocations, data);
        allocations := allocations + 1;
        pushBuffList := pushBuffList + [f];
        accepted := accepted + [f];
        isConnected := true;
      } else {
        isConnected := false;
      }
    }

    method Start()
      requires Valid()
      modifies this
      ensures Valid() && View() == Next(old(View()), StartSelf)
      ensures started && subsession == null && pushBuffList == old(pushBuffList) && pc == old(pc)
    {
      NextKeepsInv(View(), StartSelf);
      started, subsession := true, null;
      trace := trace.(unpiped := trace.delivered, sent := []);
    }

    /** `establishAndRunServer`, on the thread of the RTSP server. */
    method AddSubsession()
      requires Valid() && Enabled(View(), CreateSubsession)
      modifies this
      ensures Valid() && View() == Next(old(View()), CreateSubsession) && fresh(subsession)
      ensures started && subsession.written == [] && pushBuffList == old(pushBuffList) && pc == old(pc)
    {
      NextKeepsInv(View(), CreateSubsession);
      subsession := new Pipe();
    }

    /** The destructor's part in the protocol. */
    method StopThread()
      requires Valid()
      modifies this`pushThreadIsRun
      ensures Valid() && View() == Next(old(View()), Stop)
      ensures !pushThreadIsRun
    {
      pushThreadIsRun := false;
    }

    method ThreadTest()
      requires Valid() && Enabled(View(), Test)
      modifies this`pc
      ensures Valid() && View() == Next(old(View()), Test)
      ensures pc == if pushThreadIsRun then Locking else Leaving
    {
      NextKeepsInv(View(), Test);
      pc := if pushThreadIsRun then Locking else Leaving;
    }

    method ThreadTake()
      requires Valid() && Enabled(View(), Take)
      modifies this`pc, this`pushBuffList
      ensures Valid() && View() == Next(old(View()), Take)
      ensures old(pushBuffList) != [] ==>
                pc == Holding(old(pushBuffList)[0]) && pushBuffList == old(pushBuffList)[1..]
      ensures old(pushBuffList) == [] ==> pc == Testing && pushBuffList == []
    {
      NextKeepsInv(View(), Take);
      if |pushBuffList| > 0 {
        pc := Holding(pushBuffList[0]);
        pushBuffList := pushBuffList[1..];
      } else {
        pc := Testing;
      }
    }

    /** The frame is read here, so it must not have been freed. */
    method ThreadDeliver() returns (k: nat)
      requires Valid() && pc.Holding?
      modifies this, subsession
      ensures Valid() && subsession == old(subsession) && old(pc.frame) !in old(freed)
      ensures Enabled(old(View()), Deliver(k)) && View() == Next(old(View()), Deliver(k))
      ensures pc == Deleting(old(pc.frame)) && pushBuffList == old(pushBuffList)
      ensures subsession != null ==>
                k <= |old(pc.frame.data)| && subsession.written == old(subsession.written) + old(pc.frame.data)[..k]
    {
      ghost var before := View();
      var f := pc.frame;
      k := 0;
      InvGivesOwnership();
      trace := trace.(handled := trace.handled + [f]);
      if started {
        trace := trace.(delivered := trace.delivered + [f]);
        if subsession != null {
          var failed;
          ghost var results;
          k, failed, results := subsession.PushPkg(f.data);
          trace := trace.(sent := trace.sent + [(f, k)]);
        } else {
          trace := trace.(unpiped := trace.unpiped + [f]);
        }
      } else {
        trace := trace.(skipped := trace.skipped + [f]);
      }
      pc := Deleting(f);
      NextKeepsInv(before, Deliver(k));
    }

    /** `delete`: the frame must not have been freed before. */
    method Free(f: Frame)
      requires f !in freed
      modifies this`freed
      ensures freed == old(freed) + [f]
    {
      freed := freed + [f];
    }

    method ThreadDelete()
      requires Valid() && Enabled(View(), Delete)
      modifies this`pc, this`freed
      ensures Valid() && View() == Next(old(View()), Delete)
      ensures pc == Testing && freed == old(freed) + [old(pc.frame)]
    {
      InvGivesOwnership();
      NextKeepsInv(View(), Delete);
      Free(pc.frame);
      pc := Testing;
    }

    /** The loop that empties the queue after the thread's own loop. */
    method FreeQueue()
      requires forall f :: f in pushBuffList ==> f !in freed
      requires forall i, j :: 0 <= i < j < |pushBuffList| ==> pushBuffList[i] != pushBuffList[j]
      modifies this`freed, this`pushBuffList
      ensures pushBuffList == [] && freed == old(freed) + old(pushBuffList)
    {
      ghost var k := 0;
      while |pushBuffList| > 0
        invariant 0 <= k <= |old(pushBuffList)| && pushBuffList == old(pushBuffList)[k..]
        invariant freed == old(freed) + old(pushBuffList)[..k]
        decreases |pushBuffList|
      {
        var f := pushBuffList[0];
        pushBuffList := pushBuffList[1..];
        Free(f);
        k := k + 1;
      }
    }

    /** The drain, under the mutex. */
    method ThreadDrain()
      requires Valid() && Enabled(View(), FrameQueue.Drain)
      modifies this`pc, this`freed, this`pushBuffList
      ensures Valid() && View() == Next(old(View()), FrameQueue.Drain)
      ensures pc == Ended && pushBuffList == [] && freed == old(freed) + old(pushBuffList)
    {
      InvGivesOwnership();
      NextKeepsInv(View(), FrameQueue.Drain);
      FreeQueue();
      pc := Ended;
    }
  }
}
