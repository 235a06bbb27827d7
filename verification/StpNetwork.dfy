/** Whole runs of one STP server and any number of clients over a network that may drop,
    duplicate, delay and reorder datagrams and inject unparsable ones.

    A datagram that was ever handed to a successful `sendto` stays in `wire` for good, and a
    `recvfrom` may yield any datagram in `wire` addressed to the socket, again and again or never.
    An address may be opened again by a later client (`instance` counts them). `cause`, `instance`,
    `last`, `heard` and `accepted` are history: no node reads them. */
module StpNetwork {
  import opened Wrappers
  import opened Stp

  /** One call of `send` by a client; `client` and `instance` say which. */
  datatype Request = Request(client: Address, instance: nat, number: int, body: Body)

  /** `cause` is the request this datagram carries or answers. */
  datatype Packet = Packet(from: Address, to: Address, text: Json, cause: Request)

  datatype Client = Client(instance: nat, node: Endpoint, last: Option<Request>)

  /** The server loop: its manager, its variables `remote` and `request`, and whether it is
      between a successful `recv` and the `send` that follows. */
  datatype Server = Server(node: Endpoint, remote: Option<Address>, request: Option<Json>, replying: bool,
                           heard: Option<Packet>)

  /** A reply returned by the `recv` of the client at `client.node`. */
  datatype Acceptance = Acceptance(address: Address, client: Client, packet: Packet)

  datatype Net = Net(server: Server, clients: map<Address, Client>, wire: set<Packet>, accepted: seq<Acceptance>)

  /** What a `recvfrom` yields: a datagram of the wire, or anything that is no message. */
  datatype Input = FromWire(packet: Packet) | Noise(arrival: Arrival)

  datatype Action =
    | Open(a: Address)
    | ClientSends(a: Address, body: Body, sendtoResult: int)
    | ClientHears(a: Address, input: Input)
    | ServerHears(input: Input)
    | ServerSends(sendtoResult: int)

  const SERVER := Address(0, 8090)

  const START := Net(Server(Endpoint(true, 0, 0), None, None, false, None), map[], {}, [])

  function Seen(i: Input): Arrival {
    if i.FromWire? then Datagram(i.packet.from, Some(i.packet.text)) else i.arrival
  }

  predicate Deliverable(s: Net, i: Input, to: Address) {
    if i.FromWire? then i.packet in s.wire && i.packet.to == to
    else !Parses(i.arrival)
  }

  predicate Enabled(s: Net, act: Action) {
    match act
    case Open(a) => a != SERVER
    case ClientSends(a, _, _) => a in s.clients
    case ClientHears(a, input) => a in s.clients && Deliverable(s, input, a)
    case ServerHears(input) => !s.server.replying && Deliverable(s, input, SERVER)
    case ServerSends(_) => s.server.replying && s.server.remote.Some? && s.server.request.Some? && s.server.heard.Some?
  }

  /** Puts `packet` on the wire when `sendto` reports success. */
  function Transmit(wire: set<Packet>, packet: Packet, sendtoResult: int): set<Packet> {
    if sendtoResult <= 0 then wire else wire + {packet}
  }

  function Next(s: Net, act: Action, answer: Body -> Body): Net
    requires Enabled(s, act)
  {
    match act
    case Open(a) =>
      var instance := if a in s.clients then s.clients[a].instance + 1 else 0;
      s.(clients := s.clients[a := Client(instance, Endpoint(false, 0, 0), None)])
    case ClientSends(a, body, res) =>
      var c := s.clients[a];
      var node := Numbered(c.node);
      var request := Request(a, c.instance, node.requestSeq, body);
      s.(clients := s.clients[a := Client(c.instance, node, Some(request))],
         wire := Transmit(s.wire, Packet(a, SERVER, Stamped(c.node, body), request), res))
    case ClientHears(a, input) =>
      var c := s.clients[a];
      if Judge(c.node, Seen(input)).Accept? then
        s.(clients := s.clients[a := c.(node := Heard(c.node, Seen(input)))],
           accepted := s.accepted + [Acceptance(a, c, input.packet)])
      else s
    case ServerHears(input) =>
      if Judge(s.server.node, Seen(input)).Accept? then
        s.(server := Server(Heard(s.server.node, Seen(input)), Some(Seen(input).from), Seen(input).text, true,
                            Some(input.packet)))
      else s
    case ServerSends(res) =>
      var reply := Packet(SERVER, s.server.remote.value, Stamped(s.server.node, answer(s.server.request.value.body)),
                          s.server.heard.value.cause);
      s.(server := s.server.(replying := false), wire := Transmit(s.wire, reply, res))
  }

  predicate Legal(s: Net, acts: seq<Action>, answer: Body -> Body)
    decreases |acts|
  {
    acts == [] || (Enabled(s, acts[0]) && Legal(Next(s, acts[0], answer), acts[1..], answer))
  }

  function Run(s: Net, acts: seq<Action>, answer: Body -> Body): Net
    requires Legal(s, acts, answer)
    decreases |acts|
  {
    if acts == [] then s else Run(Next(s, acts[0], answer), acts[1..], answer)
  }

  // ----- The invariant

  /** A request datagram is exactly what its sender's `send` produced. */
  ghost predicate IsRequest(p: Packet) {
    && p.from == p.cause.client && p.to == SERVER && p.from != SERVER
    && p.text == Json(Some(p.cause.number), None, p.cause.body)
    && p.cause.number >= 1
  }

  /** A reply goes to the requester and carries the request's own number and answer. */
  ghost predicate IsReply(p: Packet, answer: Body -> Body) {
    && p.from == SERVER && p.to == p.cause.client && p.to != SERVER
    && p.text == Json(None, Some(p.cause.number), answer(p.cause.body))
  }

  ghost predicate OnWire(s: Net, r: Request) {
    Packet(r.client, SERVER, Json(Some(r.number), None, r.body), r) in s.wire
  }

  /** A request on the wire comes from this or an earlier client at its address; the current
      client has not sent a later one under the same number. */
  ghost predicate SentBy(s: Net, r: Request) {
    && r.client in s.clients && r.number >= 1
    && var c := s.clients[r.client];
       && r.instance <= c.instance
       && (r.instance == c.instance ==> r.number <= c.node.requestSeq)
       && (r.instance == c.instance && r.number == c.node.requestSeq ==> c.last == Some(r))
  }

  ghost predicate WireInv(s: Net, answer: Body -> Body) {
    forall p :: p in s.wire ==>
      && (IsRequest(p) || IsReply(p, answer))
      && OnWire(s, p.cause)
      && SentBy(s, p.cause)
  }

  ghost predicate Named(p: Packet, q: Packet) {
    p.cause.client == q.cause.client && p.cause.instance == q.cause.instance && p.cause.number == q.cause.number
  }

  /** (client, instance, number) names one request. */
  ghost predicate NumbersAreUnique(s: Net) {
    forall p, q :: p in s.wire && q in s.wire && Named(p, q) ==> p.cause == q.cause
  }

  ghost predicate ClientInv(a: Address, c: Client) {
    && a != SERVER
    && c.node == Endpoint(false, c.node.requestSeq, 0)
    && c.node.requestSeq >= 0
    && (c.last.None? <==> c.node.requestSeq == 0)
    && (c.last.Some? ==> c.last.value == Request(a, c.instance, c.node.requestSeq, c.last.value.body))
  }

  /** While it is replying, the destination, the response number and the request of the server
      all come from the one datagram `heard`. */
  ghost predicate ServerInv(s: Net) {
    && s.server.node.isServer
    && (s.server.replying ==>
          && s.server.heard.Some? && s.server.heard.value in s.wire && IsRequest(s.server.heard.value)
          && s.server.remote == Some(s.server.heard.value.from)
          && s.server.request == Some(s.server.heard.value.text)
          && Some(s.server.node.responseSeq) == s.server.heard.value.text.requestSeq)
  }

  ghost predicate AcceptanceInv(s: Net, x: Acceptance, answer: Body -> Body) {
    && IsReply(x.packet, answer) && x.packet.to == x.address
    && OnWire(s, x.packet.cause) && ClientInv(x.address, x.client)
    && x.packet.cause.number == x.client.node.requestSeq
    && x.packet.cause.instance <= x.client.instance
    && (x.packet.cause.instance == x.client.instance ==> x.client.last == Some(x.packet.cause))
    && x.address in s.clients && x.client.instance <= s.clients[x.address].instance
  }

  ghost predicate Inv(s: Net, answer: Body -> Body) {
    && WireInv(s, answer)
    && NumbersAreUnique(s)
    && (forall a :: a in s.clients ==> ClientInv(a, s.clients[a]))
    && ServerInv(s)
    && (forall x :: x in s.accepted ==> AcceptanceInv(s, x, answer))
  }

  lemma ClientSendsKeepsInv(s: Net, a: Address, body: Body, res: int, answer: Body -> Body)
    requires Inv(s, answer) && Enabled(s, ClientSends(a, body, res))
    ensures Inv(Next(s, ClientSends(a, body, res), answer), answer)
  {
    var t := Next(s, ClientSends(a, body, res), answer);
    assert ClientInv(a, s.clients[a]);
    var r := t.clients[a].last.value;
    forall p | p in t.wire
      ensures (IsRequest(p) || IsReply(p, answer)) && OnWire(t, p.cause) && SentBy(t, p.cause)
    {
      if p in s.wire {
        assert OnWire(s, p.cause) && SentBy(s, p.cause);
      }
    }
    forall p, q | p in t.wire && q in t.wire && Named(p, q)
      ensures p.cause == q.cause
    {
      assert forall o :: o in s.wire ==> SentBy(s, o.cause);
    }
    forall x | x in t.accepted
      ensures AcceptanceInv(t, x, answer)
    {
      assert AcceptanceInv(s, x, answer);
    }
  }

  lemma ServerSendsKeepsInv(s: Net, res: int, answer: Body -> Body)
    requires Inv(s, answer) && Enabled(s, ServerSends(res))
    ensures Inv(Next(s, ServerSends(res), answer), answer)
  {
    var t := Next(s, ServerSends(res), answer);
    var h := s.server.heard.value;
    assert OnWire(s, h.cause) && SentBy(s, h.cause);
    forall p | p in t.wire
      ensures (IsRequest(p) || IsReply(p, answer)) && OnWire(t, p.cause) && SentBy(t, p.cause)
    {
      if p in s.wire {
        assert OnWire(s, p.cause) && SentBy(s, p.cause);
      }
    }
    forall p, q | p in t.wire && q in t.wire && Named(p, q)
      ensures p.cause == q.cause
    {
      var p' := if p in s.wire then p else h;
      var q' := if q in s.wire then q else h;
      assert Named(p', q');
    }
    forall x | x in t.accepted
      ensures AcceptanceInv(t, x, answer)
    {
      assert AcceptanceInv(s, x, answer);
    }
  }

  lemma OpenKeepsInv(s: Net, a: Address, answer: Body -> Body)
    requires Inv(s, answer) && Enabled(s, Open(a))
    ensures Inv(Next(s, Open(a), answer), answer)
  {
    var t := Next(s, Open(a), answer);
    forall p | p in t.wire
      ensures (IsRequest(p) || IsReply(p, answer)) && OnWire(t, p.cause) && SentBy(t, p.cause)
    {
      assert OnWire(s, p.cause) && SentBy(s, p.cause);
    }
    forall x | x in t.accepted
      ensures AcceptanceInv(t, x, answer)
    {
      assert AcceptanceInv(s, x, answer);
    }
  }

  lemma ClientHearsKeepsInv(s: Net, a: Address, input: Input, answer: Body -> Body)
    requires Inv(s, answer) && Enabled(s, ClientHears(a, input))
    ensures Inv(Next(s, ClientHears(a, input), answer), answer)
  {
    var t := Next(s, ClientHears(a, input), answer);
    var c := s.clients[a];
    assert ClientInv(a, c);
    if Judge(c.node, Seen(input)).Accept? {
      assert t.clients == s.clients;
      var p := input.packet;
      assert OnWire(s, p.cause) && SentBy(s, p.cause);
      forall x | x in t.accepted
        ensures AcceptanceInv(t, x, answer)
      {
        assert x in s.accepted ==> AcceptanceInv(s, x, answer);
      }
      assert forall p :: p in t.wire ==> OnWire(s, p.cause) && SentBy(s, p.cause);
    }
  }

  lemma ServerHearsKeepsInv(s: Net, input: Input, answer: Body -> Body)
    requires Inv(s, answer) && Enabled(s, ServerHears(input))
    ensures Inv(Next(s, ServerHears(input), answer), answer)
  {
    var t := Next(s, ServerHears(input), answer);
    assert forall p :: p in t.wire ==> OnWire(s, p.cause) && SentBy(s, p.cause);
    assert forall x :: x in t.accepted ==> AcceptanceInv(s, x, answer);
  }

  lemma StepKeepsInv(s: Net, act: Action, answer: Body -> Body)
    requires Inv(s, answer) && Enabled(s, act)
    ensures Inv(Next(s, act, answer), answer)
  {
    match act {
      case Open(a) => OpenKeepsInv(s, a, answer);
      case ClientSends(a, body, res) => ClientSendsKeepsInv(s, a, body, res, answer);
      case ClientHears(a, input) => ClientHearsKeepsInv(s, a, input, answer);
      case ServerHears(input) => ServerHearsKeepsInv(s, input, answer);
      case ServerSends(res) => ServerSendsKeepsInv(s, res, answer);
    }
  }

  lemma {:induction false} RunKeepsInv(s: Net, acts: seq<Action>, answer: Body -> Body)
    requires Inv(s, answer) && Legal(s, acts, answer)
    ensures Inv(Run(s, acts, answer), answer)
    decreases |acts|
  {
    if acts != [] {
      StepKeepsInv(s, acts[0], answer);
      RunKeepsInv(Next(s, acts[0], answer), acts[1..], answer);
    }
  }

  // ----- Results over all runs

  /** The accepted reply answers the client's most recent request. */
  ghost predicate Own(x: Acceptance) {
    x.client.last == Some(x.packet.cause)
  }

  ghost predicate OpensOnce(acts: seq<Action>) {
    forall i, j :: 0 <= i < j < |acts| && acts[i].Open? ==> acts[i] != acts[j]
  }

  /** Whatever was dropped, duplicated or reordered, and whoever used the address before: a reply
      that a client accepts answers a request really sent from its address under its current number. */
  lemma AcceptedReplyMatches(acts: seq<Action>, answer: Body -> Body, x: Acceptance)
    requires Legal(START, acts, answer) && x in Run(START, acts, answer).accepted
    ensures x.packet.from == SERVER && x.packet.to == x.address == x.packet.cause.client
    ensures x.packet.cause.number == x.client.node.requestSeq >= 1
    ensures x.packet.text == Json(None, Some(x.client.node.requestSeq), answer(x.packet.cause.body))
    ensures OnWire(Run(START, acts, answer), x.packet.cause)
    ensures Own(x) <==> x.packet.cause.instance == x.client.instance
  {
    RunKeepsInv(START, acts, answer);
    assert AcceptanceInv(Run(START, acts, answer), x, answer);
    var s := Run(START, acts, answer);
    var r := x.packet.cause;
    assert IsRequest(Packet(r.client, SERVER, Json(Some(r.number), None, r.body), r));
  }

  lemma {:induction false} OpenedOnceIsFirstInstance(s: Net, acts: seq<Action>, answer: Body -> Body)
    requires Legal(s, acts, answer) && OpensOnce(acts)
    requires forall a :: a in s.clients ==> s.clients[a].instance == 0 && Open(a) !in acts
    ensures forall a :: a in Run(s, acts, answer).clients ==> Run(s, acts, answer).clients[a].instance == 0
    decreases |acts|
  {
    if acts != [] {
      var t := Next(s, acts[0], answer);
      forall a | a in t.clients
        ensures t.clients[a].instance == 0 && Open(a) !in acts[1..]
      {
        assert acts[0] != Open(a) ==> a in s.clients;
      }
      assert OpensOnce(acts[1..]);
      OpenedOnceIsFirstInstance(t, acts[1..], answer);
    }
  }

  /** When no address is used by two clients, every accepted reply is the answer to the accepting
      client's most recent request: never to an older one, never to another client's. */
  lemma AcceptedReplyIsOwn(acts: seq<Action>, answer: Body -> Body, x: Acceptance)
    requires Legal(START, acts, answer) && OpensOnce(acts)
    requires x in Run(START, acts, answer).accepted
    ensures Own(x) && x.packet.text.body == answer(x.client.last.value.body)
  {
    RunKeepsInv(START, acts, answer);
    OpenedOnceIsFirstInstance(START, acts, answer);
    assert AcceptanceInv(Run(START, acts, answer), x, answer);
  }

  /** Whatever failed before, what the server sends goes to the source of one received request,
      under that request's number, with the answer to that request's body. */
  lemma ServerRepliesAreCoherent(acts: seq<Action>, res: int, answer: Body -> Body)
    requires Legal(START, acts, answer) && Enabled(Run(START, acts, answer), ServerSends(res)) && res > 0
    ensures var s := Run(START, acts, answer);
            var h := s.server.heard.value;
            && h in s.wire && h.to == SERVER && h.text.requestSeq == Some(h.cause.number)
            && Next(s, ServerSends(res), answer).wire ==
               s.wire + {Packet(SERVER, h.from, Json(None, h.text.requestSeq, answer(h.text.body)), h.cause)}
  {
    RunKeepsInv(START, acts, answer);
  }

  /** A client's next request number is new: larger than every number this client ever put on the
      wire, also when earlier calls of `sendto` failed; so (client, number) names one request. */
  lemma RequestNumbersIncrease(acts: seq<Action>, a: Address, body: Body, res: int, answer: Body -> Body)
    requires Legal(START, acts, answer) && a in Run(START, acts, answer).clients
    ensures var s := Run(START, acts, answer);
            var c := Next(s, ClientSends(a, body, res), answer).clients[a];
            && c.node.requestSeq == s.clients[a].node.requestSeq + 1
            && c.last == Some(Request(a, c.instance, c.node.requestSeq, body))
            && forall p :: p in s.wire && p.cause.client == a && p.cause.instance == c.instance
                     ==> p.cause.number < c.node.requestSeq
    ensures NumbersAreUnique(Run(START, acts, answer))
  {
    RunKeepsInv(START, acts, answer);
    var s := Run(START, acts, answer);
    assert ClientInv(a, s.clients[a]);
    assert forall p :: p in s.wire ==> SentBy(s, p.cause);
  }

  // ----- Reused addresses: exactly when a client is safe

  /** A request of an earlier client at `a` is on the wire under a number this client has yet to leave. */
  ghost predicate Exposed(s: Net, a: Address)
    requires a in s.clients
  {
    exists p :: p in s.wire && StaleFor(s.clients[a], a, p)
  }

  ghost predicate StaleFor(c: Client, a: Address, p: Packet) {
    IsRequest(p) && p.cause.client == a && p.cause.instance < c.instance && p.cause.number >= c.node.requestSeq
  }

  /** Every acceptance at `a` from position `n` on is the accepting client's own. */
  ghost predicate OwnFrom(s: Net, n: nat, a: Address) {
    forall i :: n <= i < |s.accepted| && s.accepted[i].address == a ==> Own(s.accepted[i])
  }

  lemma StepStaysUnexposed(s: Net, act: Action, a: Address, answer: Body -> Body)
    requires Inv(s, answer) && Enabled(s, act) && act != Open(a)
    requires a in s.clients && !Exposed(s, a)
    ensures var t := Next(s, act, answer);
            && a in t.clients && !Exposed(t, a)
            && |s.accepted| <= |t.accepted| <= |s.accepted| + 1 && s.accepted == t.accepted[..|s.accepted|]
            && OwnFrom(t, |s.accepted|, a)
  {
    var t := Next(s, act, answer);
    forall p | p in t.wire
      ensures !StaleFor(t.clients[a], a, p)
    {
      assert p in s.wire ==> !StaleFor(s.clients[a], a, p);
    }
    if |t.accepted| > |s.accepted| && act.a == a {
      var p := act.input.packet;
      var r := p.cause;
      assert ClientInv(a, s.clients[a]) && OnWire(s, r) && SentBy(s, r);
      assert !StaleFor(s.clients[a], a, Packet(r.client, SERVER, Json(Some(r.number), None, r.body), r));
    }
  }

  lemma {:induction false} UnexposedIsSafe(s: Net, n: nat, acts: seq<Action>, a: Address, answer: Body -> Body)
    requires Inv(s, answer) && Legal(s, acts, answer) && Open(a) !in acts
    requires a in s.clients && !Exposed(s, a)
    requires n <= |s.accepted| && OwnFrom(s, n, a)
    ensures OwnFrom(Run(s, acts, answer), n, a)
    decreases |acts|
  {
    if acts != [] {
      StepStaysUnexposed(s, acts[0], a, answer);
      StepKeepsInv(s, acts[0], answer);
      var t := Next(s, acts[0], answer);
      forall i | n <= i < |t.accepted| && t.accepted[i].address == a
        ensures Own(t.accepted[i])
      {
        assert i < |s.accepted| ==> t.accepted[i] == s.accepted[i];
      }
      UnexposedIsSafe(t, n, acts[1..], a, answer);
    }
  }

  lemma {:induction false} RunAppend(s: Net, acts: seq<Action>, more: seq<Action>, answer: Body -> Body)
    requires Legal(s, acts, answer) && Legal(Run(s, acts, answer), more, answer)
    ensures Legal(s, acts + more, answer)
    ensures Run(s, acts + more, answer) == Run(Run(s, acts, answer), more, answer)
    decreases |acts|
  {
    if acts == [] {
      assert acts + more == more;
    } else {
      assert (acts + more)[1..] == acts[1..] + more;
      RunAppend(Next(s, acts[0], answer), acts[1..], more, answer);
    }
  }

  /** `k` requests whose `sendto` fails: only the number moves. */
  lemma {:induction false} FailingSends(s: Net, a: Address, k: nat, answer: Body -> Body) returns (acts: seq<Action>)
    requires a in s.clients && !s.clients[a].node.isServer
    ensures Legal(s, acts, answer) && Open(a) !in acts
    ensures var t := Run(s, acts, answer);
            && t.server == s.server && t.wire == s.wire && t.accepted == s.accepted && a in t.clients
            && t.clients[a].instance == s.clients[a].instance && !t.clients[a].node.isServer
            && t.clients[a].node.requestSeq == s.clients[a].node.requestSeq + k
    decreases k
  {
    if k == 0 {
      acts := [];
    } else {
      var first := ClientSends(a, Body("", []), 0);
      var rest := FailingSends(Next(s, first, answer), a, k - 1, answer);
      acts := [first] + rest;
      assert acts[1..] == rest;
    }
  }

  /** The three steps that make the client at `a`, waiting under the number of the request `p`, accept
      the answer to `p`, whoever sent it. */
  lemma ReplyGetsAccepted(s: Net, a: Address, p: Packet, answer: Body -> Body) returns (acts: seq<Action>)
    requires s.server.node.isServer && !s.server.replying
    requires a in s.clients && !s.clients[a].node.isServer
    requires p in s.wire && IsRequest(p) && p.cause.client == a && p.cause.number == s.clients[a].node.requestSeq
    ensures Legal(s, acts, answer) && Open(a) !in acts
    ensures Run(s, acts, answer).accepted ==
            s.accepted +
            [Acceptance(a, s.clients[a],
                        Packet(SERVER, a, Json(None, Some(p.cause.number), answer(p.cause.body)), p.cause))]
  {
    var reply := Packet(SERVER, a, Json(None, Some(p.cause.number), answer(p.cause.body)), p.cause);
    var hears, sends, accepts := ServerHears(FromWire(p)), ServerSends(1), ClientHears(a, FromWire(reply));
    acts := [hears, sends, accepts];
    var s1 := Next(s, hears, answer);
    var s2 := Next(s1, sends, answer);
    assert acts[1..] == [sends, accepts] && acts[1..][1..] == [accepts] && acts[1..][1..][1..] == [];
    assert reply in s2.wire && Legal(s2, [accepts], answer);
    var s3 := Next(s2, accepts, answer);
    assert Run(s2, [accepts], answer) == s3;
    assert Legal(s1, [sends, accepts], answer) && Run(s1, [sends, accepts], answer) == s3;
  }

  lemma OneStep(s: Net, act: Action, answer: Body -> Body)
    requires Enabled(s, act)
    ensures Legal(s, [act], answer) && Run(s, [act], answer) == Next(s, act, answer)
  {
    assert [act][1..] == [];
    assert Legal(Next(s, act, answer), [], answer);
    assert Run(Next(s, act, answer), [], answer) == Next(s, act, answer);
  }

  /** After any run, whatever was lost and whoever else is served, a client's next request can still be
      answered: some continuation ends with the client accepting the answer to just that request. */
  lemma NextRequestCanBeAnswered(before: seq<Action>, a: Address, body: Body, answer: Body -> Body)
      returns (acts: seq<Action>)
    requires Legal(START, before, answer) && a in Run(START, before, answer).clients
    ensures var s := Run(START, before, answer);
            && Legal(s, acts, answer)
            && var t := Run(s, acts, answer);
               && |t.accepted| == |s.accepted| + 1
               && var x := t.accepted[|s.accepted|];
                  x.address == a && Own(x) && x.client.last.value.body == body && x.packet.text.body == answer(body)
  {
    var s := Run(START, before, answer);
    RunKeepsInv(START, before, answer);
    assert ClientInv(a, s.clients[a]);
    var idle := if s.server.replying then [ServerSends(0)] else [];
    var s1 := if s.server.replying then Next(s, ServerSends(0), answer) else s;
    if s.server.replying {
      OneStep(s, ServerSends(0), answer);
    }
    var send := ClientSends(a, body, 1);
    OneStep(s1, send, answer);
    var s2 := Next(s1, send, answer);
    RunAppend(s, idle, [send], answer);
    var r := s2.clients[a].last.value;
    var last := ReplyGetsAccepted(s2, a, Packet(a, SERVER, Json(Some(r.number), None, body), r), answer);
    RunAppend(s, idle + [send], last, answer);
    acts := idle + [send] + last;
  }

  lemma ExposedCanFail(s: Net, a: Address, answer: Body -> Body) returns (acts: seq<Action>)
    requires Inv(s, answer) && a in s.clients && Exposed(s, a)
    ensures Legal(s, acts, answer) && Open(a) !in acts
    ensures !OwnFrom(Run(s, acts, answer), |s.accepted|, a)
  {
    var p :| p in s.wire && StaleFor(s.clients[a], a, p);
    assert ClientInv(a, s.clients[a]);
    var idle := if s.server.replying then [ServerSends(0)] else [];
    var s1 := if s.server.replying then Next(s, ServerSends(0), answer) else s;
    if s.server.replying {
      OneStep(s, ServerSends(0), answer);
    }
    var sends := FailingSends(s1, a, p.cause.number - s.clients[a].node.requestSeq, answer);
    var s2 := Run(s1, sends, answer);
    RunAppend(s, idle, sends, answer);
    RunKeepsInv(s, idle + sends, answer);
    assert ClientInv(a, s2.clients[a]);
    var last := ReplyGetsAccepted(s2, a, p, answer);
    RunAppend(s, idle + sends, last, answer);
    acts := idle + sends + last;
    var t := Run(s, acts, answer);
    assert t.accepted[|s.accepted|].packet.cause == p.cause;
    assert !Own(t.accepted[|s.accepted|]);
  }

  /** The input: a client sends one request, and another client then opens the same address. */
  function ReuseOf(a: Address, body: Body): seq<Action> {
    [Open(a), ClientSends(a, body, 1), Open(a)]
  }

  lemma ReuseExposes(a: Address, body: Body, answer: Body -> Body)
    requires a != SERVER
    ensures Legal(START, ReuseOf(a, body), answer)
    ensures var s := Run(START, ReuseOf(a, body), answer);
            a in s.clients && s.accepted == [] && Exposed(s, a)
  {
    var open, send := Open(a), ClientSends(a, body, 1);
    OneStep(START, open, answer);
    var s1 := Next(START, open, answer);
    OneStep(s1, send, answer);
    RunAppend(START, [open], [send], answer);
    var s2 := Next(s1, send, answer);
    OneStep(s2, open, answer);
    RunAppend(START, [open] + [send], [open], answer);
    assert [open] + [send] + [open] == ReuseOf(a, body);
    var s3 := Next(s2, open, answer);
    var r := Request(a, 0, 1, body);
    var p := Packet(a, SERVER, Json(Some(1), None, body), r);
    assert p in s3.wire && StaleFor(s3.clients[a], a, p);
  }

  /** A whole run, for every address and every request, that ends with a client accepting the reply to
      another client's request. */
  lemma ForeignReplyIsAccepted(a: Address, body: Body, answer: Body -> Body) returns (acts: seq<Action>)
    requires a != SERVER
    ensures ReuseOf(a, body) <= acts && Legal(START, acts, answer)
    ensures exists x :: x in Run(START, acts, answer).accepted && x.address == a && !Own(x)
  {
    ReuseExposes(a, body, answer);
    RunKeepsInv(START, ReuseOf(a, body), answer);
    var s := Run(START, ReuseOf(a, body), answer);
    var rest := ExposedCanFail(s, a, answer);
    RunAppend(START, ReuseOf(a, body), rest, answer);
    acts := ReuseOf(a, body) + rest;
    var t := Run(START, acts, answer);
    var i :| 0 <= i < |t.accepted| && t.accepted[i].address == a && !Own(t.accepted[i]);
    assert t.accepted[i] in t.accepted;
  }

  /** Exact condition: in every reachable state, all that the client at `a` may accept until the
      address is opened again is its own, if and only if no request of an earlier client at `a` with
      a number not below the client's is on the wire. */
  lemma SafeIffUnexposed(before: seq<Action>, a: Address, answer: Body -> Body)
    requires Legal(START, before, answer) && a in Run(START, before, answer).clients
    ensures var s := Run(START, before, answer);
            !Exposed(s, a) <==>
            forall acts :: Legal(s, acts, answer) && Open(a) !in acts ==> OwnFrom(Run(s, acts, answer), |s.accepted|, a)
  {
    var s := Run(START, before, answer);
    RunKeepsInv(START, before, answer);
    if Exposed(s, a) {
      var acts := ExposedCanFail(s, a, answer);
    } else {
      forall acts | Legal(s, acts, answer) && Open(a) !in acts
        ensures OwnFrom(Run(s, acts, answer), |s.accepted|, a)
      {
        UnexposedIsSafe(s, |s.accepted|, acts, a, answer);
      }
    }
  }

  // ----- The recv loop as steps of a run

  function Hearing(a: Address, inputs: seq<Input>): (acts: seq<Action>)
    ensures |acts| == |inputs| && forall i :: 0 <= i < |acts| ==> acts[i] == ClientHears(a, inputs[i])
  {
    seq(|inputs|, i requires 0 <= i < |inputs| => ClientHears(a, inputs[i]))
  }

  function Arrivals(inputs: seq<Input>): (arrivals: seq<Arrival>)
    ensures |arrivals| == |inputs| && forall i :: 0 <= i < |arrivals| ==> arrivals[i] == Seen(inputs[i])
  {
    seq(|inputs|, i requires 0 <= i < |inputs| => Seen(inputs[i]))
  }

  /** One call of a client's `recv` is the run of its turns: the foreign arrivals it passes over leave the
      whole system as it was, and the next arrival is accepted exactly when it is a reply under the client's
      number. */
  lemma {:induction false} RecvIsARun(s: Net, a: Address, inputs: seq<Input>, n: nat, answer: Body -> Body)
    requires a in s.clients && !s.clients[a].node.isServer
    requires forall i :: 0 <= i < |inputs| ==> Deliverable(s, inputs[i], a)
    requires AllForeign(Arrivals(inputs), n, s.clients[a].node.requestSeq)
    ensures Legal(s, Hearing(a, inputs[..n]), answer) && Run(s, Hearing(a, inputs[..n]), answer) == s
    ensures n < |inputs| ==>
              && Enabled(s, ClientHears(a, inputs[n]))
              && Next(s, ClientHears(a, inputs[n]), answer) ==
                 if AnswersTo(Seen(inputs[n]), s.clients[a].node.requestSeq)
                 then s.(accepted := s.accepted + [Acceptance(a, s.clients[a], inputs[n].packet)]) else s
    decreases n
  {
    if n > 0 {
      var first := ClientHears(a, inputs[0]);
      assert Foreign(Arrivals(inputs)[0], s.clients[a].node.requestSeq);
      assert Next(s, first, answer) == s;
      assert forall i :: 0 <= i < n - 1 ==> Arrivals(inputs[1..])[i] == Arrivals(inputs)[i + 1];
      RecvIsARun(s, a, inputs[1..], n - 1, answer);
      assert Hearing(a, inputs[..n]) == [first] + Hearing(a, inputs[1..][..n - 1]);
      assert Hearing(a, inputs[..n])[1..] == Hearing(a, inputs[1..][..n - 1]);
    } else if |inputs| > 0 && AnswersTo(Seen(inputs[0]), s.clients[a].node.requestSeq) {
      assert s.clients[a := s.clients[a]] == s.clients;
    }
  }
}
