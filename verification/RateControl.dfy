/** The frame-rate controller `ws_cli_max_pending_changed_handler`. */
module RateControl {
  import opened Wrappers
  import opened CInt

  const MAX_FRAME_RATE := 15
  const MIN_FRAME_RATE := 5

  function Clamp(rate: int): int {
    if rate > MAX_FRAME_RATE then MAX_FRAME_RATE
    else if rate < MIN_FRAME_RATE then MIN_FRAME_RATE
    else rate
  }

  /** The rate the handler computes from the present rate and the reported maximum. */
  function Adjust(rate: int, maxPending: int): (r: int)
  {
    if maxPending > 8 then
      var t := Div(rate * 9, 10);
      Clamp(if t == rate then t - 1 else t)
    else if maxPending < 2 then
      var t := Div(rate * 11, 10);
      Clamp(if t == rate then t + 1 else t)
    else Clamp(rate)
  }

  /** The attribute stored for an element: only an element other than the scaler gives way to a
      connected RTSP server. */
  function Stored(isVps: bool, rtspConnected: Option<bool>, rate: int): int {
    if isVps then rate
    else if rtspConnected == Some(true) then MIN_FRAME_RATE
    else rate
  }

  /** The element whose attribute VENC-FRAMERATE is controlled. */
  class Element {
    const isVps: bool
    var frameRate: Option<int>

    constructor (isVps: bool, frameRate: Option<int>)
      ensures this.isVps == isVps && this.frameRate == frameRate
    {
      this.isVps, this.frameRate := isVps, frameRate;
    }

    function Rate(): int
      reads this
    {
      if frameRate.Some? then frameRate.value else 15
    }

    /** `rtspConnected` is the attribute isConnected of the RTSP server, `None` without one. */
    method OnMaxPendingChanged(maxPending: int, rtspConnected: Option<bool>)
      modifies this
      ensures frameRate == Some(Stored(isVps, rtspConnected, Adjust(old(Rate()), maxPending)))
      ensures !isVps && rtspConnected == Some(true) ==> frameRate == Some(5)
      ensures isVps || rtspConnected != Some(true) ==>
                frameRate == Some(Adjust(if old(frameRate).Some? then old(frameRate).value else 15, maxPending))
    {
      var rate := Rate();
      if maxPending > 8 {
        var t := Div(rate * 9, 10);
        if rate == t {
          rate := t - 1;
        } else {
          rate := t;
        }
      } else if maxPending < 2 {
        var t := Div(rate * 11, 10);
        if rate == t {
          rate := t + 1;
        } else {
          rate := t;
        }
      }
      if rate > MAX_FRAME_RATE {
        rate := MAX_FRAME_RATE;
      } else if rate < MIN_FRAME_RATE {
        rate := MIN_FRAME_RATE;
      }
      if isVps {
        frameRate := Some(rate);
      } else if rtspConnected.Some? {
        if rtspConnected.value {
          frameRate := Some(MIN_FRAME_RATE);
        } else {
          frameRate := Some(rate);
        }
      } else {
        frameRate := Some(rate);
      }
    }
  }

  /** The rate after a sequence of reports that RTSP does not override. */
  function After(rate: int, reports: seq<int>): int
    decreases |reports|
  {
    if reports == [] then rate else After(Adjust(rate, reports[0]), reports[1..])
  }

  /** What one report brings: the pending count, and what the RTSP server's attribute says at that time. */
  datatype Report = Report(maxPending: int, rtspConnected: Option<bool>)

  /** The rate stored after a sequence of reports. */
  function StoredAfter(isVps: bool, rate: int, reports: seq<Report>): int
    decreases |reports|
  {
    if reports == [] then rate
    else
      var r := reports[0];
      StoredAfter(isVps, Stored(isVps, r.rtspConnected, Adjust(rate, r.maxPending)), reports[1..])
  }

  function Counts(reports: seq<Report>): (r: seq<int>)
    ensures |r| == |reports| && forall i :: 0 <= i < |reports| ==> r[i] == reports[i].maxPending
  {
    seq(|reports|, i requires 0 <= i < |reports| => reports[i].maxPending)
  }

  predicate Congested(reports: seq<int>) {
    forall i :: 0 <= i < |reports| ==> reports[i] > 8
  }

  predicate Idle(reports: seq<int>) {
    forall i :: 0 <= i < |reports| ==> reports[i] < 2
  }

  predicate InRange(rate: int) {
    MIN_FRAME_RATE <= rate <= MAX_FRAME_RATE
  }

  /** One report brings the rate into range; congestion never raises a rate that is in range, an idle
      report never lowers it, and anything between leaves it. */
  lemma OneStep(rate: int, maxPending: int)
    ensures InRange(Adjust(rate, maxPending))
    ensures InRange(rate) && maxPending > 8 ==>
              Adjust(rate, maxPending) == MIN_FRAME_RATE || Adjust(rate, maxPending) < rate
    ensures InRange(rate) && maxPending < 2 ==>
              Adjust(rate, maxPending) == MAX_FRAME_RATE || Adjust(rate, maxPending) > rate
    ensures InRange(rate) && 2 <= maxPending <= 8 ==> Adjust(rate, maxPending) == rate
  {
  }

  /** The new rate, value by value, for every rate and every report: a congested report takes a tenth off,
      rounding down, an idle one adds one, and the bounds are 5 and 15. */
  lemma OneStepExactly(rate: int, maxPending: int)
    ensures maxPending > 8 && rate <= 5 ==> Adjust(rate, maxPending) == 5
    ensures maxPending > 8 && 5 < rate < 17 ==>
              5 <= Adjust(rate, maxPending) <= 14 && 0 <= 9 * rate - 10 * Adjust(rate, maxPending) < 10
    ensures maxPending > 8 && rate >= 17 ==> Adjust(rate, maxPending) == 15
    ensures maxPending < 2 && rate < 5 ==> Adjust(rate, maxPending) == 5
    ensures maxPending < 2 && 5 <= rate < 15 ==> Adjust(rate, maxPending) == rate + 1
    ensures maxPending < 2 && rate >= 15 ==> Adjust(rate, maxPending) == 15
    ensures 2 <= maxPending <= 8 ==>
              Adjust(rate, maxPending) == if rate < 5 then 5 else if rate > 15 then 15 else rate
  {
  }

  /** How many congested reports bring a rate in range down to the minimum. */
  function StepsDown(rate: int): nat
    requires InRange(rate)
  {
    if rate <= 9 then rate - 5 else if rate <= 11 then 5 else if rate <= 13 then 6 else 7
  }

  lemma {:induction false} CongestedSteps(rate: int, reports: seq<int>)
    requires InRange(rate) && Congested(reports)
    ensures InRange(After(rate, reports))
    ensures After(rate, reports) == MIN_FRAME_RATE <==> |reports| >= StepsDown(rate)
    decreases |reports|
  {
    if reports != [] {
      var next := Adjust(rate, reports[0]);
      assert InRange(next) && StepsDown(next) == if StepsDown(rate) == 0 then 0 else StepsDown(rate) - 1;
      CongestedSteps(next, reports[1..]);
    }
  }

  lemma {:induction false} IdleSteps(rate: int, reports: seq<int>)
    requires InRange(rate) && Idle(reports)
    ensures InRange(After(rate, reports))
    ensures After(rate, reports) == MAX_FRAME_RATE <==> |reports| >= MAX_FRAME_RATE - rate
    decreases |reports|
  {
    if reports != [] {
      var next := Adjust(rate, reports[0]);
      assert InRange(next) && next == if rate == MAX_FRAME_RATE then rate else rate + 1;
      IdleSteps(next, reports[1..]);
    }
  }

  /** From any rate, 8 congested reports in a row reach the minimum and 11 idle ones the maximum, and
      more reports keep it there; fewer do not suffice from every rate. */
  lemma ControllerConverges(rate: int, reports: seq<int>)
    ensures Congested(reports) && |reports| >= 8 ==> After(rate, reports) == MIN_FRAME_RATE
    ensures Idle(reports) && |reports| >= 11 ==> After(rate, reports) == MAX_FRAME_RATE
    ensures Congested(reports) && |reports| == 7 ==> After(16, reports) != MIN_FRAME_RATE
    ensures Idle(reports) && |reports| == 10 ==> After(0, reports) != MAX_FRAME_RATE
  {
    if |reports| >= 1 {
      var first, rest := reports[0], reports[1..];
      OneStep(rate, first);
      if Congested(reports) {
        CongestedSteps(Adjust(rate, first), rest);
        CongestedSteps(Adjust(16, first), rest);
      } else if Idle(reports) {
        IdleSteps(Adjust(rate, first), rest);
        IdleSteps(Adjust(0, first), rest);
      }
    }
  }

  // ----- The override by RTSP

  lemma {:induction false} StoredAfterSplit(isVps: bool, rate: int, first: seq<Report>, rest: seq<Report>)
    ensures StoredAfter(isVps, rate, first + rest) == StoredAfter(isVps, StoredAfter(isVps, rate, first), rest)
    decreases |first|
  {
    if first == [] {
      assert first + rest == rest;
    } else {
      var next := Stored(isVps, first[0].rtspConnected, Adjust(rate, first[0].maxPending));
      assert (first + rest)[1..] == first[1..] + rest;
      StoredAfterSplit(isVps, next, first[1..], rest);
    }
  }

  /** Where nothing overrides them, the stored rates are those of the controller. */
  lemma {:induction false} UnoverriddenIsAfter(isVps: bool, rate: int, reports: seq<Report>)
    requires isVps || forall i :: 0 <= i < |reports| ==> reports[i].rtspConnected != Some(true)
    ensures StoredAfter(isVps, rate, reports) == After(rate, Counts(reports))
    decreases |reports|
  {
    if reports != [] {
      var next := Adjust(rate, reports[0].maxPending);
      assert Counts(reports)[1..] == Counts(reports[1..]);
      UnoverriddenIsAfter(isVps, next, reports[1..]);
    }
  }

  /** The override over runs, for an element that is not the scaler: whatever came before, a report under a
      connected RTSP server leaves 5; from there `idle` reports without one, all below 2, leave 15 exactly when
      there are 10 or more of them, and congested ones stay at 5. */
  lemma OverrideAndRecovery(rate: int, before: seq<Report>, connected: Report, after: seq<Report>)
    requires connected.rtspConnected == Some(true)
    requires forall i :: 0 <= i < |after| ==> after[i].rtspConnected != Some(true)
    ensures StoredAfter(false, rate, before + [connected]) == 5
    ensures (forall i :: 0 <= i < |after| ==> after[i].maxPending < 2) ==>
              (StoredAfter(false, rate, before + [connected] + after) == 15 <==> |after| >= 10)
    ensures (forall i :: 0 <= i < |after| ==> after[i].maxPending > 8) ==>
              StoredAfter(false, rate, before + [connected] + after) == 5
  {
    StoredAfterSplit(false, rate, before, [connected]);
    assert [connected][1..] == [];
    StoredAfterSplit(false, rate, before + [connected], after);
    UnoverriddenIsAfter(false, 5, after);
    if Idle(Counts(after)) {
      IdleSteps(5, Counts(after));
    }
    if Congested(Counts(after)) {
      CongestedSteps(5, Counts(after));
    }
  }

  /** The scaler takes no notice of RTSP. */
  lemma ScalerIgnoresRtsp(rate: int, a: seq<Report>, b: seq<Report>)
    requires |a| == |b| && forall i :: 0 <= i < |a| ==> a[i].maxPending == b[i].maxPending
    ensures StoredAfter(true, rate, a) == StoredAfter(true, rate, b)
  {
    UnoverriddenIsAfter(true, rate, a);
    UnoverriddenIsAfter(true, rate, b);
    assert Counts(a) == Counts(b);
  }
}
