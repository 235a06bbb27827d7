/** The pipe below the RTSP server and `pushPkg`, the loop that writes one frame to it. */
module PipeWriter {
  import opened Bytes

  // ----- When the loop ends, in terms of the results of its successive writes

  datatype Loop = Loop(off: int, len: int, failed: bool)

  predicate Over(l: Loop) {
    l.len <= 0 || l.failed
  }

  /** One turn, with what its write returned. */
  function Turn(l: Loop, n: int): Loop {
    if Over(l) then l
    else if n < 0 then l.(failed := true)
    else Loop(l.off + n, l.len - n, false)
  }

  /** The loop variables after the writes returned `results`, for a frame of `size` bytes. */
  function After(size: nat, results: seq<int>): Loop {
    if results == [] then Loop(0, size, false)
    else Turn(After(size, results[..|results| - 1]), results[|results| - 1])
  }

  /** Each result is a failure or between 1 and the number of bytes asked for. */
  predicate Lawful(size: nat, results: seq<int>) {
    results == [] ||
    var front, n := results[..|results| - 1], results[|results| - 1];
    var l := After(size, front);
    Lawful(size, front) && (Over(l) || n < 0 || 1 <= n <= l.len)
  }

  lemma AfterAppend(size: nat, results: seq<int>, n: int)
    ensures After(size, results + [n]) == Turn(After(size, results), n)
  {
    assert (results + [n])[..|results|] == results;
  }

  lemma {:induction false} LawfulProgress(size: nat, results: seq<int>)
    requires Lawful(size, results)
    ensures var l := After(size, results);
            && 0 <= l.len && 0 <= l.off && l.off + l.len == size
            && (Over(l) || l.off >= |results|)
  {
    if results != [] {
      var front := results[..|results| - 1];
      LawfulProgress(size, front);
    }
  }

  /** The number of bytes the writes report, failures aside. */
  function Sum(results: seq<int>): int {
    if results == [] then 0 else Sum(results[..|results| - 1]) + results[|results| - 1]
  }

  predicate Fails(results: seq<int>) {
    exists i :: 0 <= i < |results| && results[i] < 0
  }

  lemma {:induction false} ProgressIsSum(size: nat, results: seq<int>)
    requires !Fails(results)
    ensures var l := After(size, results);
            && !l.failed && Sum(results) >= 0
            && (l.len > 0 <==> Sum(results) < size)
            && (l.len > 0 ==> l.len == size - Sum(results))
  {
    if results != [] {
      var last := |results| - 1;
      assert !Fails(results[..last]) by {
        assert forall i :: 0 <= i < last ==> results[..last][i] == results[i];
      }
      ProgressIsSum(size, results[..last]);
    }
  }

  lemma {:induction false} FailureEnds(size: nat, results: seq<int>)
    requires Fails(results)
    ensures Over(After(size, results))
  {
    var last := |results| - 1;
    if results[last] >= 0 {
      var i :| 0 <= i < |results| && results[i] < 0;
      assert results[..last][i] < 0;
      FailureEnds(size, results[..last]);
    }
  }

  /** Exactly when the loop has ended, whatever the writes return: when one of them failed, or when
      together they reach the size of the frame. */
  lemma LoopIsOverIff(size: nat, results: seq<int>)
    ensures Over(After(size, results)) <==> Fails(results) || Sum(results) >= size
  {
    if Fails(results) {
      FailureEnds(size, results);
    } else {
      ProgressIsSum(size, results);
    }
  }

  /** Under the contract of `write` the loop ends within `size` turns. */
  lemma LawfulWritesEnd(size: nat, results: seq<int>)
    requires Lawful(size, results) && |results| >= size
    ensures Over(After(size, results))
  {
    LawfulProgress(size, results);
  }

  /** A write that returned 0 would repeat for ever. */
  lemma {:induction false} ZeroWritesNeverEnd(size: nat, results: seq<int>)
    requires size > 0 && forall i :: 0 <= i < |results| ==> results[i] == 0
    ensures After(size, results) == Loop(0, size, false) && !Over(After(size, results))
  {
    if results != [] {
      ZeroWritesNeverEnd(size, results[..|results| - 1]);
    }
  }

  class Pipe {
    /** Every byte ever written, in order. */
    var written: bytes

    constructor ()
      ensures written == []
    {
      written := [];
    }

    /** `write`: fails, or takes some non-empty prefix of what it is offered. */
    method Write(offered: bytes) returns (n: int)
      requires offered != []
      modifies this
      ensures n == -1 || 1 <= n <= |offered|
      ensures written == if n == -1 then old(written) else old(written) + offered[..n]
    {
      n :| -1 <= n <= |offered| && n != 0;
      if n > 0 {
        written := written + offered[..n];
      }
    }

    /** Whatever the sizes of the writes, a prefix of the frame reaches the pipe, and the whole frame
        unless a write failed. `sent` and `failed` are what the C++ function knows and drops; `results`
        are the results of its writes, at most one for each byte. */
    method PushPkg(buff: bytes) returns (sent: nat, failed: bool, ghost results: seq<int>)
      modifies this
      ensures sent <= |buff| && written == old(written) + buff[..sent]
      ensures failed <==> sent < |buff|
      ensures |results| <= |buff|
      ensures After(|buff|, results) == Loop(sent, |buff| - sent, failed)
    {
      var off, len := 0, |buff|;
      failed := false;
      results := [];
      while len > 0
        invariant 0 <= off && 0 <= len && off + len == |buff|
        invariant written == old(written) + buff[..off]
        invariant |results| <= off <= |buff|
        invariant After(|buff|, results) == Loop(off, len, false)
      {
        var n := Write(buff[off..off + len]);
        AfterAppend(|buff|, results, n);
        results := results + [n];
        if n < 0 {
          failed := true;
          break;
        }
        assert buff[..off + n] == buff[..off] + buff[off..off + len][..n];
        len := len - n;
        off := off + n;
      }
      sent := off;
    }
  }
}
