/** The web-socket fan-out and its feedback: `WebSocketServerImplcFWK`, and the loop it closes with the
    frame-rate controller. */
module Feedback {
  import opened CInt
  import RateControl

  /** One `video_cli`; `pending` is a `uint32_t`. */
  datatype Client = Client(id: nat, pending: int)

  /** `clients` in the order of `cli_list`, oldest first; `notified` is the history of the values passed
      to the callback. */
  datatype Hub = Hub(clients: seq<Client>, maxPending: int, callback: bool, notified: seq<int>)

  /** `Report` is a text with a pending count; `Join` finds an arbitrary count in the new client. */
  datatype Event = Join(id: nat, pending: int) | Leave(id: nat) | Report(id: nat, count: int) | Push | SetCallback

  predicate Has(clients: seq<Client>, id: nat) {
    exists i :: 0 <= i < |clients| && clients[i].id == id
  }

  function Without(clients: seq<Client>, id: nat): seq<Client> {
    if clients == [] then []
    else if clients[0].id == id then Without(clients[1..], id)
    else [clients[0]] + Without(clients[1..], id)
  }

  function WithCount(clients: seq<Client>, id: nat, count: int): (r: seq<Client>)
    ensures |r| == |clients|
    ensures forall i :: 0 <= i < |clients| ==>
              r[i] == if clients[i].id == id then clients[i].(pending := count) else clients[i]
  {
    seq(|clients|, i requires 0 <= i < |clients| =>
      if clients[i].id == id then clients[i].(pending := count) else clients[i])
  }

  /** The largest count. */
  function Max(clients: seq<Client>): (m: int)
    requires clients != []
    ensures exists i :: 0 <= i < |clients| && clients[i].pending == m
    ensures forall i :: 0 <= i < |clients| ==> clients[i].pending <= m
  {
    var last := |clients| - 1;
    if last == 0 then clients[0].pending
    else
      var m := Max(clients[..last]);
      if clients[last].pending > m then clients[last].pending else m
  }

  /** `pushData` with more than ten clients zeroes every count but those of the newest two. */
  function Quieted(clients: seq<Client>): (r: seq<Client>)
    ensures |r| == |clients|
    ensures forall i :: 0 <= i < |clients| ==>
              r[i] == if |clients| > 10 && i < |clients| - 2 then clients[i].(pending := 0) else clients[i]
  {
    seq(|clients|, i requires 0 <= i < |clients| =>
      if |clients| > 10 && i < |clients| - 2 then clients[i].(pending := 0) else clients[i])
  }

  predicate Enabled(h: Hub, e: Event) {
    match e
    case Join(id, pending) => !Has(h.clients, id) && 0 <= pending < UINT_RANGE
    case Report(id, count) => Has(h.clients, id) && IsInt(count)
    case _ => true
  }

  function Reported(h: Hub, id: nat, count: int): Hub
    requires Has(h.clients, id)
  {
    var clients := WithCount(h.clients, id, ToUint32(count));
    if !h.callback then h.(clients := clients)
    else
      var m := Max(clients);
      if m != h.maxPending || m == 0 then Hub(clients, m, h.callback, h.notified + [m])
      else h.(clients := clients)
  }

  function Next(h: Hub, e: Event): Hub
    requires Enabled(h, e)
  {
    match e
    case Join(id, pending) => h.(clients := h.clients + [Client(id, pending)])
    case Leave(id) => h.(clients := Without(h.clients, id))
    case Report(id, count) => Reported(h, id, count)
    case Push => h.(clients := Quieted(h.clients))
    case SetCallback => h.(callback := true)
  }

  predicate Legal(h: Hub, events: seq<Event>)
    decreases |events|
  {
    events == [] || (Enabled(h, events[0]) && Legal(Next(h, events[0]), events[1..]))
  }

  function Run(h: Hub, events: seq<Event>): Hub
    requires Legal(h, events)
    decreases |events|
  {
    if events == [] then h else Run(Next(h, events[0]), events[1..])
  }

  /** `garbage` is what the constructor leaves in `m_max_pending`. */
  function Start(garbage: int): Hub {
    Hub([], garbage, false, [])
  }

  ghost predicate Inv(h: Hub) {
    && (h.notified != [] ==> h.notified[|h.notified| - 1] == h.maxPending)
    && (forall i :: 0 < i < |h.notified| ==> h.notified[i] != h.notified[i - 1] || h.notified[i] == 0)
    && (forall i :: 0 <= i < |h.clients| ==> 0 <= h.clients[i].pending < UINT_RANGE)
  }

  lemma {:induction false} WithoutKeeps(clients: seq<Client>, id: nat)
    requires forall i :: 0 <= i < |clients| ==> 0 <= clients[i].pending < UINT_RANGE
    ensures forall i :: 0 <= i < |Without(clients, id)| ==> 0 <= Without(clients, id)[i].pending < UINT_RANGE
  {
    if clients != [] {
      WithoutKeeps(clients[1..], id);
    }
  }

  lemma NextKeepsInv(h: Hub, e: Event)
    requires Inv(h) && Enabled(h, e)
    ensures Inv(Next(h, e))
  {
    if e.Leave? {
      WithoutKeeps(h.clients, e.id);
    }
  }

  lemma {:induction false} RunKeepsInv(h: Hub, events: seq<Event>)
    requires Inv(h) && Legal(h, events)
    ensures Inv(Run(h, events))
    decreases |events|
  {
    if events != [] {
      NextKeepsInv(h, events[0]);
      RunKeepsInv(Next(h, events[0]), events[1..]);
    }
  }

  /** Over all runs: consecutive notifications differ or are zero, and the last one is the stored maximum. */
  lemma NotificationsDifferOrAreZero(garbage: int, events: seq<Event>)
    requires Legal(Start(garbage), events)
    ensures var h := Run(Start(garbage), events);
            && (forall i :: 0 < i < |h.notified| ==> h.notified[i] != h.notified[i - 1] || h.notified[i] == 0)
            && (h.notified != [] ==> h.notified[|h.notified| - 1] == h.maxPending)
  {
    RunKeepsInv(Start(garbage), events);
  }

  /** After a report with the callback set, `m_max_pending` is the maximum over all clients, however
      stale it was before. */
  lemma ReportTracksMaximum(h: Hub, id: nat, count: int)
    requires h.callback && Enabled(h, Report(id, count))
    ensures var t := Next(h, Report(id, count));
            && (exists i :: 0 <= i < |t.clients| && t.clients[i].pending == t.maxPending)
            && (forall i :: 0 <= i < |t.clients| ==> t.clients[i].pending <= t.maxPending)
            && (forall i :: 0 <= i < |t.clients| && t.clients[i].id == id ==> t.clients[i].pending == ToUint32(count))
  {
    var t := Next(h, Report(id, count));
    var i :| 0 <= i < |t.clients| && t.clients[i].pending == Max(t.clients);
  }

  // ----- Closing the loop with the controller

  /** `k` equal reports in a row. */
  function Repeat(id: nat, count: int, k: nat): (r: seq<Event>)
    ensures |r| == k && forall i :: 0 <= i < k ==> r[i] == Report(id, count)
  {
    seq(k, _ => Report(id, count))
  }

  function Zeros(k: nat): (r: seq<int>)
    ensures |r| == k && forall i :: 0 <= i < k ==> r[i] == 0
  {
    seq(k, _ => 0)
  }

  /** Nothing but a zero maximum is notified once the reported count is in place. */
  lemma {:induction false} RepeatedReports(h: Hub, id: nat, count: int, k: nat)
    requires h.callback && Enabled(h, Report(id, count))
    requires WithCount(h.clients, id, ToUint32(count)) == h.clients && h.maxPending == Max(h.clients)
    ensures Legal(h, Repeat(id, count, k))
    ensures Run(h, Repeat(id, count, k)) == if h.maxPending == 0 then h.(notified := h.notified + Zeros(k)) else h
    decreases k
  {
    if k == 0 {
      assert h.notified + Zeros(0) == h.notified;
    } else {
      var t := Next(h, Report(id, count));
      RepeatedReports(t, id, count, k - 1);
      assert Repeat(id, count, k)[1..] == Repeat(id, count, k - 1);
      assert h.notified + [0] + Zeros(k - 1) == h.notified + Zeros(k);
    }
  }

  lemma FirstReport(clients: seq<Client>, id: nat, count: int)
    requires Has(clients, id)
    ensures var r := WithCount(clients, id, count);
            Has(r, id) && WithCount(r, id, count) == r
  {
    var j :| 0 <= j < |clients| && clients[j].id == id;
    assert WithCount(clients, id, count)[j].id == id;
  }

  /** Equal reports notify every time when the maximum stays zero, and otherwise at most once. */
  lemma SteadyReports(h: Hub, id: nat, count: int, k: nat)
    requires h.callback && Enabled(h, Report(id, count)) && k > 0
    ensures Legal(h, Repeat(id, count, k))
    ensures var clients := WithCount(h.clients, id, ToUint32(count));
            var m := Max(clients);
            Run(h, Repeat(id, count, k)) ==
            Hub(clients, m, true, h.notified + if m == 0 then Zeros(k) else if m == h.maxPending then [] else [m])
  {
    var clients := WithCount(h.clients, id, ToUint32(count));
    var m := Max(clients);
    var first := if m != h.maxPending || m == 0 then [m] else [];
    var t := Hub(clients, m, true, h.notified + first);
    assert Next(h, Report(id, count)) == t;
    FirstReport(h.clients, id, ToUint32(count));
    RepeatedReports(t, id, count, k - 1);
    assert Repeat(id, count, k)[1..] == Repeat(id, count, k - 1);
    if m == 0 {
      assert h.notified + [0] + Zeros(k - 1) == h.notified + Zeros(k);
    }
  }

  /** The controller sees the notified value through a cast to `int`. */
  function Seen(notified: seq<int>): (r: seq<int>)
    ensures |r| == |notified|
    ensures forall i :: 0 <= i < |notified| ==> r[i] == ToInt32(notified[i])
  {
    seq(|notified|, i requires 0 <= i < |notified| => ToInt32(notified[i]))
  }

  function RateAfter(rate: int, before: Hub, after: Hub): int
    requires |before.notified| <= |after.notified|
  {
    RateControl.After(rate, Seen(after.notified[|before.notified|..]))
  }

  lemma RateOfNew(rate: int, before: Hub, after: Hub, latest: seq<int>)
    requires after.notified == before.notified + latest
    ensures RateAfter(rate, before, after) == RateControl.After(rate, Seen(latest))
  {
    assert after.notified[|before.notified|..] == latest;
  }

  /** Steady feedback on the rate: an idle system (maximum zero) reaches the top rate with 11 reports;
      any other maximum, however often it is reported, moves the rate by one step at most. */
  lemma SteadyFeedback(h: Hub, id: nat, count: int, k: nat, rate: int)
    requires h.callback && Enabled(h, Report(id, count)) && k > 0
    ensures Legal(h, Repeat(id, count, k))
    ensures var m := Max(WithCount(h.clients, id, ToUint32(count)));
            var t := Run(h, Repeat(id, count, k));
            && |h.notified| <= |t.notified|
            && (m == 0 && k >= 11 ==> RateAfter(rate, h, t) == RateControl.MAX_FRAME_RATE)
            && (m != 0 && m != h.maxPending ==> RateAfter(rate, h, t) == RateControl.Adjust(rate, ToInt32(m)))
            && (m != 0 && m == h.maxPending ==> RateAfter(rate, h, t) == rate)
  {
    SteadyReports(h, id, count, k);
    var m := Max(WithCount(h.clients, id, ToUint32(count)));
    var t := Run(h, Repeat(id, count, k));
    if m == 0 {
      RateOfNew(rate, h, t, Zeros(k));
      if k >= 11 {
        RateControl.ControllerConverges(rate, Seen(Zeros(k)));
      }
    } else if m != h.maxPending {
      RateOfNew(rate, h, t, [m]);
      assert Seen([m])[1..] == [] && Seen([m])[0] == ToInt32(m);
    } else {
      RateOfNew(rate, h, t, []);
    }
  }

  /** Steady reports take every start rate to the top if and only if the maximum with the reported count
      in place is zero. */
  lemma SteadyFeedbackReachesTopIff(h: Hub, id: nat, count: int, k: nat)
    requires h.callback && Enabled(h, Report(id, count)) && k >= 11
    ensures Legal(h, Repeat(id, count, k))
    ensures var t := Run(h, Repeat(id, count, k));
            && |h.notified| <= |t.notified|
            && (Max(WithCount(h.clients, id, ToUint32(count))) == 0 <==>
                forall rate :: RateAfter(rate, h, t) == RateControl.MAX_FRAME_RATE)
  {
    SteadyReports(h, id, count, k);
    var t := Run(h, Repeat(id, count, k));
    SteadyFeedback(h, id, count, k, RateControl.MIN_FRAME_RATE);
    if t.maxPending == 0 {
      forall rate
        ensures RateAfter(rate, h, t) == RateControl.MAX_FRAME_RATE
      {
        SteadyFeedback(h, id, count, k, rate);
      }
    } else {
      assert RateAfter(RateControl.MIN_FRAME_RATE, h, t) != RateControl.MAX_FRAME_RATE;
    }
  }
}
