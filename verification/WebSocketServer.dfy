/** The objects behind `Feedback`: `WebSocketServerImplcFWK` and its `video_cli` records. */
module WebSocketServer {
  import opened CInt
  import opened Feedback

  class VideoCli {
    const id: nat
    var pending: int

    /** The allocator leaves an arbitrary count. */
    constructor (id: nat, garbage: int)
      ensures this.id == id && pending == garbage
    {
      this.id, pending := id, garbage;
    }

    ghost function View(): Client
      reads this
    {
      Client(id, pending)
    }
  }

  ghost function Views(list: seq<VideoCli>): (r: seq<Client>)
    reads list
    ensures |r| == |list|
  {
    if list == [] then [] else [list[0].View()] + Views(list[1..])
  }

  lemma {:induction false} ViewsAt(list: seq<VideoCli>, i: nat)
    requires i < |list|
    ensures Views(list)[i] == list[i].View()
  {
    if i > 0 {
      ViewsAt(list[1..], i - 1);
    }
  }

  lemma AllViewsAt(list: seq<VideoCli>)
    ensures forall i :: 0 <= i < |list| ==> Views(list)[i] == list[i].View()
  {
    forall i | 0 <= i < |list|
      ensures Views(list)[i] == list[i].View()
    {
      ViewsAt(list, i);
    }
  }

  lemma {:induction false} ViewsAppend(list: seq<VideoCli>, cli: VideoCli)
    ensures Views(list + [cli]) == Views(list) + [cli.View()]
  {
    if list == [] {
      assert [cli][1..] == [];
    } else {
      ViewsAppend(list[1..], cli);
      assert (list + [cli])[1..] == list[1..] + [cli];
    }
  }

  /** `list::remove`, which takes out every occurrence. */
  ghost function Removed(list: seq<VideoCli>, cli: VideoCli): seq<VideoCli> {
    if list == [] then []
    else if list[0] == cli then Removed(list[1..], cli)
    else [list[0]] + Removed(list[1..], cli)
  }

  ghost predicate NoDuplicates(list: seq<VideoCli>) {
    forall i, j :: 0 <= i < j < |list| ==> list[i] != list[j]
  }

  ghost predicate OwnIds(list: seq<VideoCli>) {
    forall a, b :: a in list && b in list && a.id == b.id ==> a == b
  }

  lemma {:induction false} ViewsRemoved(list: seq<VideoCli>, cli: VideoCli)
    requires forall a :: a in list && a.id == cli.id ==> a == cli
    ensures Views(Removed(list, cli)) == Without(Views(list), cli.id)
    ensures forall a :: a in Removed(list, cli) <==> a in list && a != cli
    ensures NoDuplicates(list) ==> NoDuplicates(Removed(list, cli))
  {
    if list != [] {
      ViewsRemoved(list[1..], cli);
      assert list[0] in list;
      if list[0] != cli {
        var rest := Removed(list[1..], cli);
        assert ([list[0]] + rest)[1..] == rest;
        if NoDuplicates(list) {
          assert list[0] !in list[1..];
          assert list[0] !in rest;
        }
      }
    }
  }

  lemma {:induction false} RemovedNone(list: seq<VideoCli>, cli: VideoCli)
    requires cli !in list
    ensures Removed(list, cli) == list
  {
    if list != [] {
      RemovedNone(list[1..], cli);
    }
  }

  lemma {:induction false} RemovedAt(list: seq<VideoCli>, k: nat)
    requires k < |list| && NoDuplicates(list)
    ensures Removed(list, list[k]) == list[..k] + list[k + 1..]
  {
    if k == 0 {
      RemovedNone(list[1..], list[0]);
    } else {
      RemovedAt(list[1..], k - 1);
      assert list[1..][..k - 1] == list[1..k] && list[1..][k..] == list[k + 1..];
      assert list[..k] == [list[0]] + list[1..k];
    }
  }

  lemma RemovedInOrder(list: seq<VideoCli>, cli: VideoCli)
    requires NoDuplicates(list)
    ensures forall k :: 0 <= k < |list| && list[k] == cli ==> Removed(list, cli) == list[..k] + list[k + 1..]
  {
    forall k | 0 <= k < |list| && list[k] == cli
      ensures Removed(list, cli) == list[..k] + list[k + 1..]
    {
      RemovedAt(list, k);
    }
  }

  lemma ReportedIs(h: Hub, id: nat, count: int, t: Hub, notify: bool)
    requires Has(h.clients, id) && t.clients == WithCount(h.clients, id, ToUint32(count)) && t.callback == h.callback
    requires h.callback ==>
               t.maxPending == Max(t.clients) && notify == (t.maxPending != h.maxPending || t.maxPending == 0)
    requires !h.callback ==> t.maxPending == h.maxPending && !notify
    requires t.notified == if notify then h.notified + [t.maxPending] else h.notified
    ensures t == Reported(h, id, count)
  {
  }

  class WebSocketServerImpl {
    var cliList: seq<VideoCli>
    var maxPending: int
    var callback: bool
    ghost var notified: seq<int>

    ghost predicate Valid()
      reads this`cliList
    {
      OwnIds(cliList) && NoDuplicates(cliList)
    }

    ghost function View(): Hub
      reads this, cliList
    {
      Hub(Views(cliList), maxPending, callback, notified)
    }

    constructor (garbage: int)
      ensures Valid() && View() == Start(garbage) && cliList == [] && maxPending == garbage && !callback
    {
      cliList, maxPending, callback, notified := [], garbage, false, [];
    }

    method SetMaxPendingChangedCallback()
      modifies this`callback
      ensures View() == Next(old(View()), SetCallback) && callback
    {
      callback := true;
    }

    method OnNewWebsocket(cli: VideoCli)
      requires Valid() && cli !in cliList && forall c :: c in cliList ==> c.id != cli.id
      requires 0 <= cli.pending < UINT_RANGE
      modifies this`cliList
      ensures Valid() && cliList == old(cliList) + [cli]
      ensures Enabled(old(View()), Join(cli.id, cli.pending)) && View() == Next(old(View()), Join(cli.id, cli.pending))
    {
      AllViewsAt(cliList);
      ViewsAppend(cliList, cli);
      cliList := cliList + [cli];
    }

    /** The loop inside `list::remove`. */
    method Remaining(cli: VideoCli) returns (kept: seq<VideoCli>)
      ensures kept == Removed(cliList, cli)
    {
      kept := [];
      for i := |cliList| downto 0
        invariant kept == Removed(cliList[i..], cli)
      {
        assert cliList[i..][0] == cliList[i] && cliList[i..][1..] == cliList[i + 1..];
        if cliList[i] != cli {
          kept := [cliList[i]] + kept;
        }
      }
      assert cliList[0..] == cliList;
    }

    method OnDisconnect(cli: VideoCli)
      requires Valid() && forall c :: c in cliList && c.id == cli.id ==> c == cli
      modifies this`cliList
      ensures Valid() && cliList == Removed(old(cliList), cli)
      ensures forall c :: c in cliList <==> c in old(cliList) && c != cli
      ensures forall i :: 0 <= i < |cliList| ==> cliList[i] in old(cliList)
      ensures forall k :: 0 <= k < |old(cliList)| && old(cliList)[k] == cli ==>
                cliList == old(cliList)[..k] + old(cliList)[k + 1..]
      ensures View() == Next(old(View()), Leave(cli.id))
    {
      var kept := Remaining(cli);
      assert Views(cliList) == old(Views(cliList));
      ViewsRemoved(cliList, cli);
      RemovedInOrder(cliList, cli);
      ghost var views := Views(kept);
      cliList := kept;
      assert Views(cliList) == views;
    }

    /** The largest count of all clients. */
    ghost predicate IsMaximum(max: int)
      reads this`cliList, cliList`pending
    {
      (exists c :: c in cliList && c.pending == max) && forall c :: c in cliList ==> c.pending <= max
    }

    /** `std::max_element`. */
    method MaxElement() returns (max: int)
      requires cliList != []
      ensures max == Max(Views(cliList)) && IsMaximum(max)
    {
      AllViewsAt(cliList);
      max := cliList[0].pending;
      for i := 1 to |cliList|
        invariant exists k :: 0 <= k < i && cliList[k].pending == max
        invariant forall k :: 0 <= k < i ==> cliList[k].pending <= max
      {
        if max < cliList[i].pending {
          max := cliList[i].pending;
        }
      }
      var k :| 0 <= k < |cliList| && cliList[k].pending == max;
      assert cliList[k] in cliList;
      assert Views(cliList)[k].pending == max;
    }

    /** `v_cli->pending_h264 = count`. */
    method SetPending(cli: VideoCli, count: int)
      requires Valid() && cli in cliList
      modifies cli`pending
      ensures Has(old(Views(cliList)), cli.id)
      ensures Views(cliList) == WithCount(old(Views(cliList)), cli.id, count)
      ensures cli.pending == count
    {
      ghost var before := Views(cliList);
      AllViewsAt(cliList);
      ghost var k :| 0 <= k < |cliList| && cliList[k] == cli;
      assert before[k].id == cli.id;
      cli.pending := count;
      forall i | 0 <= i < |cliList|
        ensures Views(cliList)[i] == WithCount(before, cli.id, count)[i]
      {
        ViewsAt(cliList, i);
        assert cliList[i] in cliList;
      }
    }

    method UpdateMax() returns (notify: bool, value: int)
      requires cliList != []
      modifies this`maxPending, this`notified
      ensures maxPending == value == Max(Views(cliList))
      ensures IsMaximum(value)
      ensures notify == (value != old(maxPending) || value == 0)
      ensures notified == if notify then old(notified) + [value] else old(notified)
    {
      var max := MaxElement();
      notify, value := false, max;
      if max != maxPending || max == 0 {
        maxPending := max;
        notified := notified + [max];
        notify := true;
      }
    }

    method TakeReport(cli: VideoCli, count: int) returns (notify: bool, value: int)
      requires Valid() && cli in cliList
      modifies this`maxPending, this`notified, cli`pending
      ensures Has(old(Views(cliList)), cli.id)
      ensures Views(cliList) == WithCount(old(Views(cliList)), cli.id, count)
      ensures notify == (callback && (value != old(maxPending) || value == 0))
      ensures if callback then maxPending == value == Max(Views(cliList)) else maxPending == old(maxPending)
      ensures cli.pending == count && (callback ==> IsMaximum(value))
      ensures notified == if notify then old(notified) + [value] else old(notified)
    {
      SetPending(cli, count);
      notify, value := false, 0;
      if callback {
        notify, value := UpdateMax();
      }
    }

    /** A text that carries a pending count. */
    method OnCliRead(cli: VideoCli, count: int) returns (notify: bool, value: int)
      requires Valid() && cli in cliList && IsInt(count)
      modifies this`maxPending, this`notified, cli`pending
      ensures Valid() && Has(old(View()).clients, cli.id)
      ensures View() == Reported(old(View()), cli.id, count)
      ensures cli.pending == if count >= 0 then count else count + 0x1_0000_0000
      ensures callback ==>
                && maxPending == value && IsMaximum(value)
                && (notify <==> value != old(maxPending) || value == 0)
      ensures !callback ==> !notify && maxPending == old(maxPending)
      ensures notified == if notify then old(notified) + [value] else old(notified)
    {
      ghost var before := View();
      notify, value := TakeReport(cli, ToUint32(count));
      ReportedIs(before, cli.id, count, View(), notify);
    }

    /** Zeroes the counts of all clients but the newest two when there are more than ten. */
    method Quiet()
      requires Valid()
      modifies cliList`pending
      ensures forall i :: 0 <= i < |cliList| ==>
                cliList[i].pending == if |cliList| > 10 && i < |cliList| - 2 then 0 else old(cliList[i].pending)
      ensures Views(cliList) == Quieted(old(Views(cliList)))
    {
      ghost var before := Views(cliList);
      AllViewsAt(cliList);
      var n := |cliList|;
      if n > 10 {
        for i := n - 2 downto 0
          invariant forall k :: 0 <= k < n ==>
                      cliList[k].pending == if i <= k < n - 2 then 0 else before[k].pending
        {
          cliList[i].pending := 0;
        }
      }
      forall i | 0 <= i < n
        ensures Views(cliList)[i] == Quieted(before)[i]
      {
        ViewsAt(cliList, i);
      }
    }

    /** Sends a frame: `sent` are the clients written to, in that order. */
    method PushData() returns (sent: seq<VideoCli>)
      requires Valid()
      modifies cliList`pending
      ensures View() == Next(old(View()), Push)
      ensures |sent| == if |cliList| < 2 then |cliList| else 2
      ensures forall i :: 0 <= i < |sent| ==> sent[i] == cliList[|cliList| - 1 - i]
      ensures forall i :: 0 <= i < |cliList| ==>
                cliList[i].pending == if |cliList| > 10 && i < |cliList| - 2 then 0 else old(cliList[i].pending)
    {
      Quiet();
      var n := |cliList|;
      var end := if n > 2 then n - 2 else 0;
      sent := [];
      for i := n downto end
        invariant unchanged(this) && forall k :: 0 <= k < n ==>
                    cliList[k].pending == if n > 10 && k < n - 2 then 0 else old(cliList[k].pending)
        invariant Views(cliList) == Quieted(old(Views(cliList)))
        invariant |sent| == n - i && forall k :: 0 <= k < |sent| ==> sent[k] == cliList[n - 1 - k]
      {
        sent := sent + [cliList[i]];
      }
    }
  }
}
