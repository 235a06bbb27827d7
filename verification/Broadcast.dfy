/** The one-message publish/subscribe protocol "lws-minimal", as a state machine over its callbacks.
    `live` is the list of sessions, newest first. `joined`, `got` and `published` are history. */
module Broadcast {
  import opened Wrappers
  import opened Bytes

  /** `last` is the number of the last message sent; `wants` says that a writable callback is
      outstanding; `closing` that a callback returned -1, so that only CLOSED may follow. */
  datatype Session = Session(wsi: nat, last: int, wants: bool, closing: bool, joined: int, got: seq<(int, bytes)>)

  /** `payload` is the cached message, `None` for the null pointer; message number k is `published[k - 1]`. */
  datatype Vhost = Vhost(payload: Option<bytes>, current: int, live: seq<Session>, published: seq<bytes>)

  /** The callbacks: `written` is what `lws_write` would return, `mallocOk` whether `malloc` succeeds. */
  datatype Event =
    | Established(wsi: nat)
    | Closed(wsi: nat)
    | Writeable(wsi: nat, written: int)
    | Receive(body: bytes, mallocOk: bool)

  const FRESH := Vhost(None, 0, [], [])

  predicate Has(live: seq<Session>, wsi: nat) {
    exists i :: 0 <= i < |live| && live[i].wsi == wsi
  }

  /** `live` without its first session for `wsi`; the others keep their order. */
  function Without(live: seq<Session>, wsi: nat): seq<Session> {
    if live == [] then []
    else if live[0].wsi == wsi then live[1..]
    else [live[0]] + Without(live[1..], wsi)
  }

  /** What a writable callback does to its session. */
  function Served(v: Vhost, s: Session, written: int): Session {
    if v.payload.None? || s.last == v.current then s.(wants := false)
    else if written < |v.payload.value| then s.(wants := false, closing := true)
    else s.(wants := false, last := v.current, got := s.got + [(v.current, v.payload.value)])
  }

  function ServedIn(v: Vhost, live: seq<Session>, wsi: nat, written: int): (r: seq<Session>)
    ensures |r| == |live|
    ensures forall i :: 0 <= i < |live| ==>
              r[i] == if live[i].wsi == wsi && !live[i].closing then Served(v, live[i], written) else live[i]
  {
    seq(|live|, i requires 0 <= i < |live| =>
          if live[i].wsi == wsi && !live[i].closing then Served(v, live[i], written) else live[i])
  }

  function AllWant(live: seq<Session>): (r: seq<Session>)
    ensures |r| == |live|
    ensures forall i :: 0 <= i < |live| ==> r[i] == live[i].(wants := true)
  {
    seq(|live|, i requires 0 <= i < |live| => live[i].(wants := true))
  }

  /** The library opens a connection once and serves only connections that are open and not closing. */
  predicate Enabled(v: Vhost, e: Event) {
    match e
    case Established(wsi) => !Has(v.live, wsi)
    case Writeable(wsi, _) => exists i :: 0 <= i < |v.live| && v.live[i].wsi == wsi && !v.live[i].closing
    case _ => true
  }

  function Next(v: Vhost, e: Event): Vhost {
    match e
    case Established(wsi) => v.(live := [Session(wsi, v.current, false, false, v.current, [])] + v.live)
    case Closed(wsi) => v.(live := Without(v.live, wsi))
    case Writeable(wsi, written) => v.(live := ServedIn(v, v.live, wsi, written))
    case Receive(body, mallocOk) =>
      if mallocOk then Vhost(Some(body), v.current + 1, AllWant(v.live), v.published + [body])
      else v.(payload := None)
  }

  predicate Legal(v: Vhost, events: seq<Event>)
    decreases |events|
  {
    events == [] || (Enabled(v, events[0]) && Legal(Next(v, events[0]), events[1..]))
  }

  function Run(v: Vhost, events: seq<Event>): Vhost
    decreases |events|
  {
    if events == [] then v else Run(Next(v, events[0]), events[1..])
  }

  // ----- The invariant

  ghost predicate SessionInv(v: Vhost, s: Session) {
    && 0 <= s.joined <= s.last <= v.current == |v.published|
    && s.last == (if s.got == [] then s.joined else s.got[|s.got| - 1].0)
    && (forall i :: 0 <= i < |s.got| ==>
          && s.joined < s.got[i].0 <= |v.published|
          && s.got[i].1 == v.published[s.got[i].0 - 1])
    && (forall i, j :: 0 <= i < j < |s.got| ==> s.got[i].0 < s.got[j].0)
    && (v.payload.Some? && !s.closing && s.last != v.current ==> s.wants)
  }

  ghost predicate Distinct(live: seq<Session>) {
    forall i, j :: 0 <= i < j < |live| ==> live[i].wsi != live[j].wsi
  }

  ghost predicate Inv(v: Vhost) {
    && v.current == |v.published|
    && (v.payload.Some? ==> v.current > 0 && v.payload.value == v.published[v.current - 1])
    && Distinct(v.live)
    && forall s :: s in v.live ==> SessionInv(v, s)
  }

  /** Removal takes out exactly the target and leaves the order of the others. */
  lemma {:induction false} WithoutTarget(live: seq<Session>, k: nat)
    requires Distinct(live) && k < |live|
    ensures Without(live, live[k].wsi) == live[..k] + live[k + 1..]
  {
    if k > 0 {
      WithoutTarget(live[1..], k - 1);
      assert live[1..][..k - 1] == live[1..k] && live[1..][k..] == live[k + 1..];
      assert live[..k] == [live[0]] + live[1..k];
    }
  }

  lemma {:induction false} WithoutAbsent(live: seq<Session>, wsi: nat)
    requires forall i :: 0 <= i < |live| ==> live[i].wsi != wsi
    ensures Without(live, wsi) == live
  {
    if live != [] {
      WithoutAbsent(live[1..], wsi);
    }
  }

  lemma {:induction false} WithoutIsPart(live: seq<Session>, wsi: nat)
    requires Distinct(live)
    ensures forall s :: s in Without(live, wsi) ==> s in live && s.wsi != wsi
    ensures Distinct(Without(live, wsi))
  {
    if live != [] {
      WithoutIsPart(live[1..], wsi);
      var rest := Without(live[1..], wsi);
      forall s | s in live[1..]
        ensures s.wsi != live[0].wsi
      {
      }
      if live[0].wsi != wsi {
        forall i, j | 0 <= i < j < |rest| + 1
          ensures ([live[0]] + rest)[i].wsi != ([live[0]] + rest)[j].wsi
        {
          assert rest[j - 1] in rest;
        }
      }
    }
  }

  lemma SameVhost(v: Vhost, w: Vhost, s: Session)
    requires SessionInv(v, s) && w == v.(live := w.live)
    ensures SessionInv(w, s)
  {
  }

  lemma ServedKeepsInv(v: Vhost, s: Session, written: int)
    requires Inv(v) && SessionInv(v, s) && !s.closing
    ensures SessionInv(v, Served(v, s, written))
  {
  }

  lemma WriteableKeepsInv(v: Vhost, wsi: nat, written: int)
    requires Inv(v)
    ensures Inv(Next(v, Writeable(wsi, written)))
  {
    var w := Next(v, Writeable(wsi, written));
    forall s | s in w.live
      ensures SessionInv(w, s)
    {
      var i :| 0 <= i < |w.live| && w.live[i] == s;
      assert SessionInv(v, v.live[i]);
      if v.live[i].wsi == wsi && !v.live[i].closing {
        ServedKeepsInv(v, v.live[i], written);
      }
      SameVhost(v, w, s);
    }
  }

  lemma ReceiveKeepsInv(v: Vhost, body: bytes, mallocOk: bool)
    requires Inv(v)
    ensures Inv(Next(v, Receive(body, mallocOk)))
  {
    var w := Next(v, Receive(body, mallocOk));
    forall s | s in w.live
      ensures SessionInv(w, s)
    {
      var i :| 0 <= i < |w.live| && w.live[i] == s;
      assert SessionInv(v, v.live[i]);
    }
  }

  lemma EstablishedKeepsInv(v: Vhost, wsi: nat)
    requires Inv(v) && !Has(v.live, wsi)
    ensures Inv(Next(v, Established(wsi)))
  {
    var w := Next(v, Established(wsi));
    forall s | s in w.live
      ensures SessionInv(w, s)
    {
      assert s in v.live ==> SessionInv(v, s);
    }
  }

  lemma ClosedKeepsInv(v: Vhost, wsi: nat)
    requires Inv(v)
    ensures Inv(Next(v, Closed(wsi)))
  {
    WithoutIsPart(v.live, wsi);
    var w := Next(v, Closed(wsi));
    forall s | s in w.live
      ensures SessionInv(w, s)
    {
      assert SessionInv(v, s);
    }
  }

  lemma NextKeepsInv(v: Vhost, e: Event)
    requires Inv(v) && Enabled(v, e)
    ensures Inv(Next(v, e))
  {
    match e {
      case Established(wsi) => EstablishedKeepsInv(v, wsi);
      case Closed(wsi) => ClosedKeepsInv(v, wsi);
      case Writeable(wsi, written) => WriteableKeepsInv(v, wsi, written);
      case Receive(body, mallocOk) => ReceiveKeepsInv(v, body, mallocOk);
    }
  }

  lemma {:induction false} RunKeepsInv(v: Vhost, events: seq<Event>)
    requires Inv(v) && Legal(v, events)
    ensures Inv(Run(v, events))
    decreases |events|
  {
    if events != [] {
      NextKeepsInv(v, events[0]);
      RunKeepsInv(Next(v, events[0]), events[1..]);
    }
  }

  // ----- Results over all runs

  /** Each session receives messages under strictly increasing numbers, all later than its join and
      each with exactly the body published under that number: skipped perhaps, never repeated or reordered. */
  lemma DeliveredInOrder(events: seq<Event>, k: nat)
    requires Legal(FRESH, events) && k < |Run(FRESH, events).live|
    ensures var v := Run(FRESH, events);
            var s := v.live[k];
            && (forall i :: 0 <= i < |s.got| ==>
                  && 0 <= s.joined
                  && s.joined < s.got[i].0 <= |v.published| == v.current
                  && s.got[i].1 == v.published[s.got[i].0 - 1])
            && (forall i, j :: 0 <= i < j < |s.got| ==> s.got[i].0 < s.got[j].0)
  {
    RunKeepsInv(FRESH, events);
    assert SessionInv(Run(FRESH, events), Run(FRESH, events).live[k]);
  }

  lemma OneEvent(v: Vhost, e: Event)
    requires Enabled(v, e)
    ensures Legal(v, [e]) && Run(v, [e]) == Next(v, e)
  {
    assert [e][1..] == [];
    assert Legal(Next(v, e), []) && Run(Next(v, e), []) == Next(v, e);
  }

  lemma {:induction false} RunSplit(v: Vhost, before: seq<Event>, after: seq<Event>)
    requires Legal(v, before + after)
    ensures Legal(v, before) && Legal(Run(v, before), after)
    ensures Run(v, before + after) == Run(Run(v, before), after)
    decreases |before|
  {
    if before == [] {
      assert before + after == after;
    } else {
      assert (before + after)[1..] == before[1..] + after;
      RunSplit(Next(v, before[0]), before[1..], after);
    }
  }

  /** Whatever `s` got or may still get has a number above `n`. */
  predicate GetsAbove(s: Session, n: nat) {
    s.last >= n && forall i :: 0 <= i < |s.got| ==> s.got[i].0 > n
  }

  /** Connection `wsi` has a session, which gets only numbers above `n`. */
  ghost predicate ServedSince(v: Vhost, wsi: nat, n: nat) {
    && n <= v.current
    && (exists s :: s in v.live && s.wsi == wsi)
    && forall s :: s in v.live && s.wsi == wsi ==> GetsAbove(s, n)
  }

  lemma {:induction false} WithoutKeepsOthers(live: seq<Session>, wsi: nat, s: Session)
    requires s in live && s.wsi != wsi
    ensures s in Without(live, wsi)
  {
    if live[0].wsi != wsi && s != live[0] {
      WithoutKeepsOthers(live[1..], wsi, s);
    }
  }

  lemma ServedGetsAbove(v: Vhost, s: Session, n: nat, written: int)
    requires GetsAbove(s, n) && s.last <= v.current
    ensures GetsAbove(Served(v, s, written), n)
  {
  }

  lemma WriteableServesSince(v: Vhost, e: Event, wsi: nat, n: nat)
    requires ServedSince(v, wsi, n) && e.Writeable? && forall s :: s in v.live ==> s.last <= v.current
    ensures ServedSince(Next(v, e), wsi, n)
  {
    var w := Next(v, e);
    var s :| s in v.live && s.wsi == wsi;
    var i :| 0 <= i < |v.live| && v.live[i] == s;
    assert w.live[i] in w.live && w.live[i].wsi == wsi;
    forall t | t in w.live && t.wsi == wsi
      ensures GetsAbove(t, n)
    {
      var j :| 0 <= j < |w.live| && w.live[j] == t;
      assert v.live[j] in v.live && GetsAbove(v.live[j], n);
      ServedGetsAbove(v, v.live[j], n, e.written);
    }
  }

  lemma ReceiveServesSince(v: Vhost, e: Event, wsi: nat, n: nat)
    requires ServedSince(v, wsi, n) && e.Receive?
    ensures ServedSince(Next(v, e), wsi, n)
  {
    var w := Next(v, e);
    var s :| s in v.live && s.wsi == wsi;
    var i :| 0 <= i < |v.live| && v.live[i] == s;
    assert w.live[i] in w.live && w.live[i].wsi == wsi;
    forall t | t in w.live && t.wsi == wsi
      ensures GetsAbove(t, n)
    {
      var j :| 0 <= j < |w.live| && w.live[j] == t;
      assert v.live[j] in v.live && GetsAbove(v.live[j], n);
    }
  }

  lemma StepServesSince(v: Vhost, e: Event, wsi: nat, n: nat)
    requires Inv(v) && Enabled(v, e) && ServedSince(v, wsi, n) && e != Closed(wsi)
    ensures ServedSince(Next(v, e), wsi, n)
  {
    match e {
      case Established(_) =>
        var s :| s in v.live && s.wsi == wsi;
        assert s in Next(v, e).live;
      case Closed(other) =>
        var s :| s in v.live && s.wsi == wsi;
        WithoutKeepsOthers(v.live, other, s);
        WithoutIsPart(v.live, other);
      case Writeable(_, _) =>
        assert forall s :: s in v.live ==> SessionInv(v, s);
        WriteableServesSince(v, e, wsi, n);
      case Receive(_, _) => ReceiveServesSince(v, e, wsi, n);
    }
  }

  lemma {:induction false} RunServesSince(v: Vhost, events: seq<Event>, wsi: nat, n: nat)
    requires Inv(v) && Legal(v, events) && ServedSince(v, wsi, n) && Closed(wsi) !in events
    ensures ServedSince(Run(v, events), wsi, n)
    decreases |events|
  {
    if events != [] {
      StepServesSince(v, events[0], wsi, n);
      NextKeepsInv(v, events[0]);
      RunServesSince(Next(v, events[0]), events[1..], wsi, n);
    }
  }

  lemma JoinServesSince(u: Vhost, wsi: nat)
    requires Inv(u) && Enabled(u, Established(wsi))
    ensures var v := Run(u, [Established(wsi)]);
            && Inv(v) && ServedSince(v, wsi, |u.published|)
            && v.published == u.published
            && v.live != [] && v.live[0].wsi == wsi && v.live[1..] == u.live
            && v.live[0].got == [] && !v.live[0].wants && !v.live[0].closing
  {
    OneEvent(u, Established(wsi));
    NextKeepsInv(u, Established(wsi));
    var v := Next(u, Established(wsi));
    assert v.live[0] in v.live;
  }

  lemma ServedSinceAt(v: Vhost, wsi: nat, n: nat)
    requires Inv(v) && ServedSince(v, wsi, n)
    ensures exists k :: 0 <= k < |v.live| && v.live[k].wsi == wsi
    ensures forall k, i :: 0 <= k < |v.live| && v.live[k].wsi == wsi && 0 <= i < |v.live[k].got| ==>
              n < v.live[k].got[i].0 <= |v.published|
  {
    forall k, i | 0 <= k < |v.live| && v.live[k].wsi == wsi && 0 <= i < |v.live[k].got|
      ensures n < v.live[k].got[i].0 <= |v.published|
    {
      assert GetsAbove(v.live[k], n) && SessionInv(v, v.live[k]);
    }
  }

  /** Joining: a client that connects is in the list until it disconnects; it starts with nothing sent and
      no callback outstanding, and all it ever gets was published after it connected. */
  lemma JoinersGetLaterMessages(before: seq<Event>, wsi: nat, after: seq<Event>)
    requires Legal(FRESH, before + [Established(wsi)] + after) && Closed(wsi) !in after
    ensures var v := Run(FRESH, before + [Established(wsi)]);
            && v.published == Run(FRESH, before).published
            && v.live != [] && v.live[0].wsi == wsi && v.live[1..] == Run(FRESH, before).live
            && v.live[0].got == [] && !v.live[0].wants && !v.live[0].closing
    ensures var v := Run(FRESH, before + [Established(wsi)] + after);
            && (exists k :: 0 <= k < |v.live| && v.live[k].wsi == wsi)
            && forall k, i :: 0 <= k < |v.live| && v.live[k].wsi == wsi && 0 <= i < |v.live[k].got| ==>
                 |Run(FRESH, before).published| < v.live[k].got[i].0 <= |v.published|
  {
    RunSplit(FRESH, before + [Established(wsi)], after);
    RunSplit(FRESH, before, [Established(wsi)]);
    var u := Run(FRESH, before);
    RunKeepsInv(FRESH, before);
    JoinServesSince(u, wsi);
    var v := Run(u, [Established(wsi)]);
    RunServesSince(v, after, wsi, |u.published|);
    RunKeepsInv(v, after);
    ServedSinceAt(Run(v, after), wsi, |u.published|);
  }

  /** Disconnecting: exactly that session leaves, and the order of the others stays. */
  lemma ClosedOutcome(v: Vhost, k: nat)
    requires Inv(v) && k < |v.live|
    ensures Next(v, Closed(v.live[k].wsi)) == v.(live := v.live[..k] + v.live[k + 1..])
  {
    WithoutTarget(v.live, k);
  }

  /** What one writable callback does, by what `lws_write` returns: without a message to send it only ends
      the wait; a short write closes the session without counting as sent; a full one sends the cached body
      under the current number. All other sessions stay as they are. */
  lemma WriteableOutcome(v: Vhost, k: nat, written: int)
    requires Inv(v) && k < |v.live| && !v.live[k].closing
    ensures var w := Next(v, Writeable(v.live[k].wsi, written));
            && w == v.(live := w.live) && |w.live| == |v.live|
            && (forall i :: 0 <= i < |v.live| && i != k ==> w.live[i] == v.live[i])
            && var s, t := v.live[k], w.live[k];
               && t.wsi == s.wsi && t.joined == s.joined && !t.wants
               && (v.payload.None? || s.last == v.current ==> t == s.(wants := false))
               && (v.payload.Some? && s.last != v.current && written < |v.payload.value| ==>
                     t.closing && t.last == s.last && t.got == s.got)
               && (v.payload.Some? && s.last != v.current && written >= |v.payload.value| ==>
                     !t.closing && t.last == v.current && t.got == s.got + [(v.current, v.payload.value)])
  {
  }

  ghost predicate UpToDate(v: Vhost, s: Session) {
    || s.joined == v.current
    || (&& s.got != [] && 0 < v.current == |v.published|
        && s.got[|s.got| - 1] == (v.current, v.published[v.current - 1]))
  }

  /** While a message is cached, every session that has yet to send it has a writable callback
      outstanding; one with none outstanding has sent it or joined after it. */
  lemma NoLostWakeup(events: seq<Event>, k: nat)
    requires Legal(FRESH, events) && k < |Run(FRESH, events).live|
    requires Run(FRESH, events).payload.Some? && !Run(FRESH, events).live[k].closing
    ensures var v, s := Run(FRESH, events), Run(FRESH, events).live[k];
            && (s.last != v.current ==> s.wants)
            && (!s.wants ==> UpToDate(v, s))
            && (s.last == v.current <==> UpToDate(v, s))
  {
    RunKeepsInv(FRESH, events);
    assert SessionInv(Run(FRESH, events), Run(FRESH, events).live[k]);
  }

  /** An open session that has yet to send the current message and will not be called back. */
  predicate Stranded(v: Vhost, s: Session) {
    !s.closing && s.last != v.current && !s.wants
  }

  /** No session of connection `wsi` is stranded. */
  predicate NobodyStranded(v: Vhost, wsi: nat) {
    forall i :: 0 <= i < |v.live| && v.live[i].wsi == wsi ==> !Stranded(v, v.live[i])
  }

  /** Every message received is stored. */
  predicate AllStored(events: seq<Event>) {
    forall i :: 0 <= i < |events| && events[i].Receive? ==> events[i].mallocOk
  }

  /** A message is cached, or connection `wsi` has nothing left to get. */
  ghost predicate Covered(v: Vhost, wsi: nat) {
    v.payload.Some? || forall s :: s in v.live && s.wsi == wsi ==> s.last == v.current
  }

  lemma StoredStepKeepsCovered(v: Vhost, e: Event, wsi: nat)
    requires Inv(v) && Enabled(v, e) && Covered(v, wsi) && (e.Receive? ==> e.mallocOk)
    ensures Covered(Next(v, e), wsi)
  {
    if v.payload.None? && e.Closed? {
      WithoutIsPart(v.live, e.wsi);
    }
  }

  lemma {:induction false} CoveredIsServed(v: Vhost, events: seq<Event>, wsi: nat)
    requires Inv(v) && Legal(v, events) && AllStored(events) && Covered(v, wsi)
    ensures NobodyStranded(Run(v, events), wsi)
    decreases |events|
  {
    if events == [] {
      forall i | 0 <= i < |v.live| && v.live[i].wsi == wsi
        ensures !Stranded(v, v.live[i])
      {
        assert v.live[i] in v.live && SessionInv(v, v.live[i]);
      }
    } else {
      NextKeepsInv(v, events[0]);
      StoredStepKeepsCovered(v, events[0], wsi);
      CoveredIsServed(Next(v, events[0]), events[1..], wsi);
    }
  }

  /** Exact condition: in every reachable state an open session stays out of trouble, for as long as
      received messages can be stored, if and only if a message is cached or the session has the
      current one. Otherwise its next writable callback strands it. */
  lemma WakeupsAreSafeIff(before: seq<Event>, k: nat)
    requires Legal(FRESH, before) && k < |Run(FRESH, before).live| && !Run(FRESH, before).live[k].closing
    ensures var v := Run(FRESH, before);
            var s := v.live[k];
            v.payload.Some? || s.last == v.current <==>
            forall events :: Legal(v, events) && AllStored(events) ==> NobodyStranded(Run(v, events), s.wsi)
  {
    RunKeepsInv(FRESH, before);
    var v := Run(FRESH, before);
    var s := v.live[k];
    if v.payload.Some? || s.last == v.current {
      forall t | t in v.live && t.wsi == s.wsi
        ensures t == s
      {
      }
      forall events | Legal(v, events) && AllStored(events)
        ensures NobodyStranded(Run(v, events), s.wsi)
      {
        CoveredIsServed(v, events, s.wsi);
      }
    } else {
      var e := Writeable(s.wsi, 0);
      OneEvent(v, e);
      assert Stranded(Next(v, e), Next(v, e).live[k]) && Next(v, e).live[k].wsi == s.wsi;
      assert AllStored([e]) && !NobodyStranded(Run(v, [e]), s.wsi);
    }
  }

  /** Over all runs: a system that never ran out of memory has cached its latest message, if there was
      one, and none of its sessions is stranded. */
  lemma StoredRunsStrandNobody(events: seq<Event>, wsi: nat)
    requires Legal(FRESH, events) && AllStored(events)
    ensures Run(FRESH, events).payload.Some? || Run(FRESH, events).current == 0
    ensures NobodyStranded(Run(FRESH, events), wsi)
  {
    StoredRunsCache(FRESH, events);
    CoveredIsServed(FRESH, events, wsi);
  }

  lemma {:induction false} StoredRunsCache(v: Vhost, events: seq<Event>)
    requires Legal(v, events) && AllStored(events) && (v.payload.Some? || v.current == 0)
    ensures Run(v, events).payload.Some? || Run(v, events).current == 0
    decreases |events|
  {
    if events != [] {
      StoredRunsCache(Next(v, events[0]), events[1..]);
    }
  }

  /** The failing half is reachable: this run drops a message for lack of memory, and a session that
      never got message 1 ends up stranded. */
  lemma OutOfMemoryLosesWakeup() returns (events: seq<Event>)
    ensures Legal(FRESH, events)
    ensures var v := Run(FRESH, events);
            |v.live| == 1 && Stranded(v, v.live[0]) && v.live[0].got == []
  {
    var e0, e1, e2, e3 := Established(1), Receive([7], true), Receive([8], false), Writeable(1, 0);
    events := [e0, e1, e2, e3];
    var v1 := Next(FRESH, e0);
    assert v1.live == [Session(1, 0, false, false, 0, [])];
    var v2 := Next(v1, e1);
    assert v2.live == [Session(1, 0, true, false, 0, [])];
    var v3 := Next(v2, e2);
    var v4 := Next(v3, e3);
    assert v4.live == [Session(1, 0, false, false, 0, [])];
    assert Legal(v4, []) && Run(v4, []) == v4;
    assert v3.live[0].wsi == 1;
    assert [e3][1..] == [] && Legal(v3, [e3]) && Run(v3, [e3]) == v4;
    assert [e2, e3][1..] == [e3] && Legal(v2, [e2, e3]) && Run(v2, [e2, e3]) == v4;
    assert [e1, e2, e3][1..] == [e2, e3] && Legal(v1, [e1, e2, e3]) && Run(v1, [e1, e2, e3]) == v4;
    assert events[1..] == [e1, e2, e3];
  }

  /** In any state, also after messages were dropped, the next message that can be stored wakes
      every session up, and one successful writable callback then delivers it. */
  lemma NextMessageRecovers(events: seq<Event>, body: bytes, k: nat, written: int)
    requires Legal(FRESH, events) && k < |Run(FRESH, events).live| && !Run(FRESH, events).live[k].closing
    requires written >= |body|
    ensures var v := Next(Run(FRESH, events), Receive(body, true));
            var s := v.live[k];
            && s.wants && s.last != v.current
            && var t := Next(v, Writeable(s.wsi, written)).live[k];
               t.got == s.got + [(v.current, body)] && t.last == v.current && !t.closing
  {
    RunKeepsInv(FRESH, events);
    assert SessionInv(Run(FRESH, events), Run(FRESH, events).live[k]);
  }

  /** One successful writable callback for each of the first `n` sessions that is not closing. */
  function ServeAll(live: seq<Session>, n: nat, written: int): (events: seq<Event>)
    requires n <= |live|
  {
    if n == 0 then []
    else (if live[n - 1].closing then [] else [Writeable(live[n - 1].wsi, written)]) + ServeAll(live, n - 1, written)
  }

  lemma ServingOne(w: Vhost, k: nat, written: int)
    requires Inv(w) && k < |w.live| && !w.live[k].closing
    requires w.payload.Some? && written >= |w.payload.value|
    ensures var x := Next(w, Writeable(w.live[k].wsi, written));
            && Inv(x) && x == w.(live := x.live) && |x.live| == |w.live|
            && x.live[k].wsi == w.live[k].wsi && !x.live[k].closing && UpToDate(w, x.live[k])
            && forall i :: 0 <= i < |w.live| && i != k ==> x.live[i] == w.live[i]
  {
    WriteableKeepsInv(w, w.live[k].wsi, written);
    assert SessionInv(w, w.live[k]);
    forall i | 0 <= i < |w.live| && i != k
      ensures w.live[i].wsi != w.live[k].wsi
    {
    }
  }

  lemma {:induction false} ServingAllFrom(v: Vhost, w: Vhost, n: nat, written: int)
    requires v.payload.Some? && written >= |v.payload.value|
    requires w == v.(live := w.live) && Inv(w) && |w.live| == |v.live| && n <= |v.live|
    requires forall i :: 0 <= i < |v.live| ==> w.live[i].wsi == v.live[i].wsi && w.live[i].closing == v.live[i].closing
    requires forall i :: n <= i < |v.live| && !v.live[i].closing ==> UpToDate(v, w.live[i])
    ensures Legal(w, ServeAll(v.live, n, written))
    ensures var u := Run(w, ServeAll(v.live, n, written));
            && |u.live| == |v.live| && u == v.(live := u.live)
            && forall i :: 0 <= i < |v.live| ==>
                 && u.live[i].wsi == v.live[i].wsi && u.live[i].closing == v.live[i].closing
                 && (!v.live[i].closing ==> UpToDate(v, u.live[i]))
    decreases n
  {
    if n == 0 {
    } else if v.live[n - 1].closing {
      ServingAllFrom(v, w, n - 1, written);
      assert ServeAll(v.live, n, written) == ServeAll(v.live, n - 1, written);
    } else {
      assert w.live[n - 1].wsi == v.live[n - 1].wsi;
      ServingOne(w, n - 1, written);
      var x := Next(w, Writeable(v.live[n - 1].wsi, written));
      ServingAllFrom(v, x, n - 1, written);
      assert ServeAll(v.live, n, written)[1..] == ServeAll(v.live, n - 1, written);
    }
  }

  /** Serving every open session once brings all of them up to date and marks none as closing. */
  lemma ServingAllDelivers(events: seq<Event>, written: int)
    requires Legal(FRESH, events) && Run(FRESH, events).payload.Some?
    requires written >= |Run(FRESH, events).payload.value|
    ensures var v := Run(FRESH, events);
            var serving := ServeAll(v.live, |v.live|, written);
            && Legal(v, serving)
            && var u := Run(v, serving);
               && u.current == v.current && |u.live| == |v.live|
               && forall i :: 0 <= i < |u.live| ==>
                    && u.live[i].wsi == v.live[i].wsi && u.live[i].closing == v.live[i].closing
                    && (!u.live[i].closing ==> UpToDate(u, u.live[i]))
  {
    RunKeepsInv(FRESH, events);
    var v := Run(FRESH, events);
    ServingAllFrom(v, v, |v.live|, written);
  }
}
