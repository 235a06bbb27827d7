/** The heap behind the broadcast protocol: sessions chained through `next`, and the list macros
    `lws_ll_fwd_insert`, `lws_ll_fwd_remove` and `lws_start_foreach_llp`. */
module SessionList {
  import opened Wrappers
  import opened Bytes
  import opened Broadcast

  /** `per_session_data__minimal`, with the library's view of its connection. */
  class Pss {
    const wsi: nat
    var next: Pss?
    var last: int
    var wants: bool
    var closing: bool
    ghost var joined: int
    ghost var got: seq<(int, bytes)>

    constructor (wsi: nat)
      ensures this.wsi == wsi
    {
      this.wsi := wsi;
      next := null;
      last, wants, closing := 0, false, false;
      joined, got := 0, [];
    }

    ghost function View(): Session
      reads this`last, this`wants, this`closing, this`joined, this`got
    {
      Session(wsi, last, wants, closing, joined, got)
    }
  }

  ghost function Views(live: seq<Pss>): (r: seq<Session>)
    reads live`last, live`wants, live`closing, live`joined, live`got
    ensures |r| == |live|
  {
    if live == [] then [] else [live[0].View()] + Views(live[1..])
  }

  /** The chain that starts at `head` is acyclic, has no duplicates and is exactly `live`. */
  ghost predicate Chain(head: Pss?, live: seq<Pss>)
    reads live`next
  {
    && head == (if live == [] then null else live[0])
    && (forall i {:trigger live[i].next} :: 0 <= i < |live| ==>
          live[i].next == if i + 1 < |live| then live[i + 1] else null)
    && (forall i, j :: 0 <= i < j < |live| ==> live[i] != live[j])
  }

  /** Each connection has one session. */
  ghost predicate OwnConnections(live: seq<Pss>) {
    forall p, q :: p in live && q in live && p.wsi == q.wsi ==> p == q
  }

  lemma {:induction false} ViewsAt(live: seq<Pss>, i: nat)
    requires i < |live|
    ensures Views(live)[i] == live[i].View()
  {
    if i > 0 {
      ViewsAt(live[1..], i - 1);
    }
  }

  lemma AllViewsAt(live: seq<Pss>)
    ensures forall i :: 0 <= i < |live| ==> Views(live)[i] == live[i].View()
  {
    forall i | 0 <= i < |live|
      ensures Views(live)[i] == live[i].View()
    {
      ViewsAt(live, i);
    }
  }

  lemma ViewsCons(pss: Pss, rest: seq<Pss>)
    ensures Views([pss] + rest) == [pss.View()] + Views(rest)
  {
    assert ([pss] + rest)[1..] == rest;
  }

  /** `live` without `target`. */
  ghost function Removed(live: seq<Pss>, target: Pss): seq<Pss> {
    if live == [] then []
    else if live[0] == target then live[1..]
    else [live[0]] + Removed(live[1..], target)
  }

  lemma {:induction false} RemovedAt(live: seq<Pss>, k: nat)
    requires k < |live| && forall i, j :: 0 <= i < j < |live| ==> live[i] != live[j]
    ensures Removed(live, live[k]) == live[..k] + live[k + 1..]
  {
    if k > 0 {
      RemovedAt(live[1..], k - 1);
      assert live[1..][..k - 1] == live[1..k] && live[1..][k..] == live[k + 1..];
      assert live[..k] == [live[0]] + live[1..k];
    }
  }

  lemma {:induction false} RemovedNone(live: seq<Pss>, target: Pss)
    requires target !in live
    ensures Removed(live, target) == live
  {
    if live != [] {
      RemovedNone(live[1..], target);
    }
  }

  /** On the chain removal is by session, on its abstract value by connection. */
  lemma {:induction false} RemovedViews(live: seq<Pss>, target: Pss)
    requires OwnConnections(live) && forall p :: p in live && p.wsi == target.wsi ==> p == target
    ensures Views(Removed(live, target)) == Without(Views(live), target.wsi)
    ensures OwnConnections(Removed(live, target))
    ensures forall p :: p in Removed(live, target) ==> p in live
  {
    if live != [] {
      assert live[0] in live;
      RemovedViews(live[1..], target);
      if live[0] != target {
        ViewsCons(live[0], Removed(live[1..], target));
      }
    }
  }

  lemma OneServed(v: Vhost, live: seq<Pss>, after: seq<Session>, wsi: nat, written: int)
    requires |live| == |v.live| == |after|
    requires forall i :: 0 <= i < |live| ==> v.live[i].wsi == live[i].wsi
    requires forall i :: 0 <= i < |live| && live[i].wsi == wsi ==>
               !v.live[i].closing && after[i] == Served(v, v.live[i], written)
    requires forall i :: 0 <= i < |live| && live[i].wsi != wsi ==> after[i] == v.live[i]
    ensures v.(live := after) == Next(v, Writeable(wsi, written))
  {
    assert after == ServedIn(v, v.live, wsi, written);
  }

  /** `per_vhost_data__minimal`. */
  class Vhd {
    var head: Pss?
    var payload: Option<bytes>
    var len: nat
    var current: int
    ghost var live: seq<Pss>
    ghost var published: seq<bytes>

    ghost predicate Valid()
      reads this, live
    {
      && Chain(head, live)
      && OwnConnections(live)
      && (payload.Some? ==> len == |payload.value|)
    }

    ghost function View(): Vhost
      reads this, live
    {
      Vhost(payload, current, Views(live), published)
    }

    constructor ()
      ensures Valid() && View() == FRESH && live == [] && payload == None && current == 0
    {
      head, payload, len, current := null, None, 0, 0;
      live, published := [], [];
    }

    /** What the pointer-to-pointer points to: `null` stands for the address of `head`,
        a session for the address of its `next`. */
    function Deref(slot: Pss?): Pss?
      reads this, slot
    {
      if slot == null then head else slot.next
    }

    /** `lws_ll_fwd_insert`. */
    method Insert(pss: Pss)
      requires Chain(head, live) && pss !in live
      modifies this`head, this`live, pss`next
      ensures live == [pss] + old(live) && Chain(head, live)
    {
      pss.next := head;
      head := pss;
      live := [pss] + live;
    }

    /** `lws_ll_fwd_remove`: takes `target`, and nothing else, out of the chain. */
    method Remove(target: Pss) returns (ghost k: nat)
      requires Chain(head, live)
      modifies this`head, this`live, live`next
      ensures Chain(head, live)
      ensures target !in old(live) ==> live == old(live)
      ensures target in old(live) ==>
                && k < |old(live)| && old(live)[k] == target
                && live == old(live)[..k] + old(live)[k + 1..]
    {
      k := 0;
      var slot: Pss? := null;
      while Deref(slot) != null
        invariant unchanged(this) && unchanged(live)
        invariant k <= |live| && slot == if k == 0 then null else live[k - 1]
        invariant Deref(slot) == if k < |live| then live[k] else null
        invariant target !in live[..k]
        decreases |live| - k
      {
        if Deref(slot) == target {
          ghost var chain := live;
          if slot == null {
            head := target.next;
          } else {
            slot.next := target.next;
          }
          live := live[..k] + live[k + 1..];
          assert forall j :: 0 <= j < |live| ==> live[j] == chain[if j < k then j else j + 1];
          return;
        }
        slot := Deref(slot);
        k := k + 1;
      }
      assert live[..k] == live;
    }

    method OnEstablished(pss: Pss)
      requires Valid() && pss !in live && forall p :: p in live ==> p.wsi != pss.wsi
      requires !pss.wants && !pss.closing && pss.got == []
      modifies this, pss
      ensures Valid() && live == [pss] + old(live)
      ensures View() == Next(old(View()), Established(pss.wsi))
      ensures pss.last == pss.joined == old(current) && !pss.wants && !pss.closing && pss.got == []
      ensures payload == old(payload) && current == old(current) && published == old(published)
    {
      ghost var rest := live;
      Insert(pss);
      pss.last := current;
      pss.joined := current;
      ViewsCons(pss, rest);
    }

    /** `Remove` in terms of `Removed`. */
    method Unchain(target: Pss)
      requires Chain(head, live)
      modifies this`head, this`live, live`next
      ensures Chain(head, live) && live == Removed(old(live), target)
    {
      ghost var chain := live;
      ghost var k := Remove(target);
      if target in chain {
        RemovedAt(chain, k);
      } else {
        RemovedNone(chain, target);
      }
    }

    method OnClosed(target: Pss)
      requires Valid() && forall p :: p in live && p.wsi == target.wsi ==> p == target
      modifies this`head, this`live, live`next
      ensures Valid() && View() == Next(old(View()), Closed(target.wsi))
    {
      RemovedViews(live, target);
      ghost var rest := Removed(live, target);
      Unchain(target);
      assert live == rest && Views(rest) == old(Views(rest));
    }

    method Serve(pss: Pss, written: int) returns (status: int)
      requires payload.Some? ==> len == |payload.value|
      requires !pss.closing
      modifies pss`wants, pss`last, pss`closing, pss`got
      ensures pss.View() == Served(Vhost(payload, current, [], []), old(pss.View()), written)
      ensures !pss.wants
      ensures payload.None? || old(pss.last) == current ==>
                status == 0 && !pss.closing && pss.last == old(pss.last) && pss.got == old(pss.got)
      ensures payload.Some? && old(pss.last) != current && written < |payload.value| ==>
                status == -1 && pss.closing && pss.last == old(pss.last) && pss.got == old(pss.got)
      ensures payload.Some? && old(pss.last) != current && written >= |payload.value| ==>
                && status == 0 && !pss.closing
                && pss.last == current && pss.got == old(pss.got) + [(current, payload.value)]
    {
      pss.wants := false;
      if payload.None? || pss.last == current {
        return 0;
      }
      if written < len {
        pss.closing := true;
        return -1;
      }
      pss.last := current;
      pss.got := pss.got + [(current, payload.value)];
      return 0;
    }

    /** The library has just cleared the outstanding request; `written` is what `lws_write` returns. */
    method OnWriteable(pss: Pss, written: int) returns (status: int)
      requires Valid() && pss in live && !pss.closing
      modifies pss`wants, pss`last, pss`closing, pss`got
      ensures Valid() && live == old(live)
      ensures View() == Next(old(View()), Writeable(pss.wsi, written))
      ensures !pss.wants
      ensures payload.None? || old(pss.last) == current ==>
                status == 0 && !pss.closing && pss.last == old(pss.last) && pss.got == old(pss.got)
      ensures payload.Some? && old(pss.last) != current && written < |payload.value| ==>
                status == -1 && pss.closing && pss.last == old(pss.last) && pss.got == old(pss.got)
      ensures payload.Some? && old(pss.last) != current && written >= |payload.value| ==>
                && status == 0 && !pss.closing
                && pss.last == current && pss.got == old(pss.got) + [(current, payload.value)]
    {
      ghost var before := View();
      AllViewsAt(live);
      status := Serve(pss, written);
      forall i | 0 <= i < |live|
        ensures Views(live)[i] == if live[i] == pss then pss.View() else before.live[i]
      {
        ViewsAt(live, i);
      }
      OneServed(before, live, Views(live), pss.wsi, written);
    }

    /** `lws_start_foreach_llp` around `lws_callback_on_writable`. */
    method WakeEach()
      requires Chain(head, live)
      modifies live`wants
      ensures forall p :: p in live ==> p.wants
    {
      var slot: Pss? := null;
      ghost var k: nat := 0;
      while Deref(slot) != null
        invariant k <= |live| && slot == if k == 0 then null else live[k - 1]
        invariant Deref(slot) == if k < |live| then live[k] else null
        invariant forall p :: p in live[..k] ==> p.wants
        decreases |live| - k
      {
        assert live[..k + 1] == live[..k] + [live[k]];
        Deref(slot).wants := true;
        slot := Deref(slot);
        k := k + 1;
      }
      assert live[..k] == live;
    }

    method WakeAll()
      requires Chain(head, live)
      modifies live`wants
      ensures Views(live) == AllWant(old(Views(live)))
      ensures forall p :: p in live ==> p.wants
    {
      ghost var before := Views(live);
      AllViewsAt(live);
      WakeEach();
      forall i | 0 <= i < |live|
        ensures Views(live)[i] == before[i].(wants := true)
      {
        ViewsAt(live, i);
        assert live[i] in live;
      }
    }

    /** Caches a copy of `body` under the next number and asks for a callback on every session. */
    method Store(body: bytes)
      requires Valid() && len == |body|
      modifies this`payload, this`current, this`published, live`wants
      ensures Valid() && payload == Some(body) && current == old(current) + 1 && published == old(published) + [body]
      ensures Views(live) == AllWant(old(Views(live)))
      ensures forall p :: p in live ==> p.wants
    {
      payload := Some(body);
      current := current + 1;
      published := published + [body];
      WakeAll();
    }

    /** A message of any size; `mallocOk` is whether its memory could be allocated. */
    method OnReceive(body: bytes, mallocOk: bool)
      requires Valid()
      modifies this`payload, this`len, this`current, this`published, live`wants
      ensures Valid()
      ensures View() == Next(old(View()), Receive(body, mallocOk))
      ensures live == old(live) && current == (if mallocOk then old(current) + 1 else old(current))
      ensures payload == if mallocOk then Some(body) else None
      ensures forall p :: p in live ==> p.wants == (mallocOk || old(p.wants))
    {
      if payload.Some? {
        payload, len := None, 0;
      }
      len := |body|;
      if mallocOk {
        Store(body);
      }
    }
  }
}
