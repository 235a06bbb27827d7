/** One endpoint of the STP request/reply protocol: `STPManager`.
    A JSON text is represented by the record the code reads from it; the socket by
    the outcomes of its successive `recvfrom` and `sendto` calls. */
module Stp {
  import opened Wrappers

  datatype Address = Address(ip: nat, port: nat)

  /** Everything in a message outside `__meta__`; `data` lists the `ip` members. */
  datatype Body = Body(cmd: string, data: seq<string>)

  /** `requestSeq` is `__meta__.request.seq` and `responseSeq` is `__meta__.response.seq`. */
  datatype Json = Json(requestSeq: Option<int>, responseSeq: Option<int>, body: Body)

  /** One outcome of `recvfrom`: nothing (time-out, error, empty datagram), or a datagram
      whose text parses (`Some`) or does not (`None`). */
  datatype Arrival = Silence | Datagram(from: Address, text: Option<Json>)

  /** The abstract value of an `STPManager`. */
  datatype Endpoint = Endpoint(isServer: bool, requestSeq: int, responseSeq: int)

  /** What one turn of the `recv` loop does with an arrival. */
  datatype Verdict = Skip | Accept | Fail

  /** `Json::Value::asInt` of a value that may be null. */
  function AsInt(v: Option<int>): int {
    if v.Some? then v.value else 0
  }

  function Judge(e: Endpoint, a: Arrival): Verdict {
    if a.Silence? || a.text.None? then Fail
    else if !e.isServer && a.text.value.responseSeq != Some(e.requestSeq) then Skip
    else Accept
  }

  /** The endpoint after an arrival: only a server that accepts changes. */
  function Heard(e: Endpoint, a: Arrival): Endpoint {
    if e.isServer && Judge(e, a).Accept?
    then e.(responseSeq := AsInt(a.text.value.requestSeq))
    else e
  }

  /** The endpoint after `send` with a destination. */
  function Numbered(e: Endpoint): Endpoint {
    if e.isServer then e else e.(requestSeq := e.requestSeq + 1)
  }

  /** The text that `send` hands to `sendto`; any `__meta__` of the caller is replaced. */
  function Stamped(e: Endpoint, body: Body): Json {
    if e.isServer then Json(None, Some(e.responseSeq), body)
    else Json(Some(e.requestSeq + 1), None, body)
  }

  /** How many arrivals `recv` discards before the one that ends it. */
  function Skipped(e: Endpoint, incoming: seq<Arrival>): nat {
    if incoming != [] && Judge(e, incoming[0]).Skip? then 1 + Skipped(e, incoming[1..]) else 0
  }

  /** The source of the last parsable datagram among `incoming`, else `before`. */
  function LastSource(incoming: seq<Arrival>, before: Option<Address>): Option<Address> {
    if incoming == [] then before
    else
      var last := incoming[|incoming| - 1];
      if last.Datagram? && last.text.Some? then Some(last.from)
      else LastSource(incoming[..|incoming| - 1], before)
  }

  predicate Parses(a: Arrival) {
    a.Datagram? && a.text.Some?
  }

  /** A reply under `number`. */
  predicate AnswersTo(a: Arrival, number: int) {
    Parses(a) && a.text.value.responseSeq == Some(number)
  }

  /** A parsable datagram that is no reply under `number`. */
  predicate Foreign(a: Arrival, number: int) {
    Parses(a) && a.text.value.responseSeq != Some(number)
  }

  predicate AllForeign(incoming: seq<Arrival>, n: nat, number: int) {
    n <= |incoming| && forall j :: 0 <= j < n ==> Foreign(incoming[j], number)
  }

  lemma JudgeIs(e: Endpoint, a: Arrival)
    ensures Judge(e, a).Skip? <==> !e.isServer && Foreign(a, e.requestSeq)
    ensures Judge(e, a).Accept? <==> if e.isServer then Parses(a) else AnswersTo(a, e.requestSeq)
  {
  }

  /** A server discards nothing; what a client discards is the longest prefix of parsable datagrams that
      are no replies under its number. */
  lemma {:induction false} SkippedIsLongestPrefix(e: Endpoint, incoming: seq<Arrival>, n: nat)
    ensures e.isServer ==> Skipped(e, incoming) == 0
    ensures !e.isServer ==>
              (n == Skipped(e, incoming) <==>
               AllForeign(incoming, n, e.requestSeq) && (n < |incoming| ==> !Foreign(incoming[n], e.requestSeq)))
  {
    if incoming != [] && Judge(e, incoming[0]).Skip? && n > 0 {
      SkippedIsLongestPrefix(e, incoming[1..], n - 1);
      if AllForeign(incoming[1..], n - 1, e.requestSeq) {
        forall j | 0 <= j < n
          ensures Foreign(incoming[j], e.requestSeq)
        {
          assert j > 0 ==> incoming[j] == incoming[1..][j - 1];
        }
      }
      if AllForeign(incoming, n, e.requestSeq) {
        assert forall j :: 0 <= j < n - 1 ==> incoming[1..][j] == incoming[j + 1];
      }
    }
  }

  /** The reply to one parsable datagram: to its source, with its number and an answer to its body. */
  function ReplyTo(a: Arrival, answer: Body -> Body): (Address, Json)
    requires Parses(a)
  {
    (a.from, Json(None, Some(AsInt(a.text.value.requestSeq)), answer(a.text.value.body)))
  }

  /** What a server loop sends for `incoming`. */
  function Replies(incoming: seq<Arrival>, answer: Body -> Body): seq<(Address, Json)> {
    if incoming == [] then []
    else
      var last := incoming[|incoming| - 1];
      Replies(incoming[..|incoming| - 1], answer) + if Parses(last) then [ReplyTo(last, answer)] else []
  }

  /** The indices of the parsable datagrams of `incoming`, in increasing order. */
  function Parsable(incoming: seq<Arrival>): (r: seq<nat>)
    ensures forall k :: 0 <= k < |r| ==> r[k] < |incoming| && Parses(incoming[r[k]])
    ensures forall j :: 0 <= j < |incoming| && Parses(incoming[j]) ==> j in r
    ensures forall j, k :: 0 <= j < k < |r| ==> r[j] < r[k]
  {
    if incoming == [] then []
    else
      var last := |incoming| - 1;
      Parsable(incoming[..last]) + if Parses(incoming[last]) then [last] else []
  }

  /** Reply `k` comes from parsable datagram `k` alone: destination, number and body. */
  lemma {:induction false} RepliesAreCoherent(incoming: seq<Arrival>, answer: Body -> Body)
    ensures |Replies(incoming, answer)| == |Parsable(incoming)|
    ensures forall k :: 0 <= k < |Parsable(incoming)| ==>
              Replies(incoming, answer)[k] == ReplyTo(incoming[Parsable(incoming)[k]], answer)
  {
    if incoming != [] {
      var last := |incoming| - 1;
      RepliesAreCoherent(incoming[..last], answer);
      var p := Parsable(incoming[..last]);
      forall k | 0 <= k < |Parsable(incoming)|
        ensures Replies(incoming, answer)[k] == ReplyTo(incoming[Parsable(incoming)[k]], answer)
      {
        if k < |p| {
          assert Parsable(incoming)[k] == p[k] && incoming[..last][p[k]] == incoming[p[k]];
        }
      }
    }
  }

  /** What the utility's server answers. The list is reset inside the loop, so only the last address survives. */
  function Answer(request: Body): Body {
    if request.cmd == "onvif_list" then Body("response", ["192.168.10.9"])
    else Body("unknow_cmd", [])
  }

  method ComputeAnswer(request: Body) returns (response: Body)
    ensures response == Answer(request)
  {
    response := Body("response", []);
    if request.cmd == "onvif_list" {
      var ipCount := 10;
      for i := 0 to ipCount
        invariant response.cmd == "response"
        invariant response.data == if i == 0 then [] else ["192.168.10." + [(i - 1) as char + '0']]
      {
        var ip := "192.168.10." + [i as char + '0'];
        response := response.(data := []);
        response := response.(data := response.data + [ip]);
      }
      assert "192.168.10." + [9 as char + '0'] == "192.168.10.9";
    } else {
      response := response.(cmd := "unknow_cmd");
    }
  }

  lemma SkippedIs(e: Endpoint, incoming: seq<Arrival>, n: nat)
    requires n <= |incoming| && forall j :: 0 <= j < n ==> Judge(e, incoming[j]).Skip?
    requires n < |incoming| ==> !Judge(e, incoming[n]).Skip?
    ensures n == Skipped(e, incoming)
    ensures !e.isServer ==> AllForeign(incoming, n, e.requestSeq)
  {
    forall j | 0 <= j < |incoming|
      ensures Judge(e, incoming[j]).Skip? <==> !e.isServer && Foreign(incoming[j], e.requestSeq)
    {
      JudgeIs(e, incoming[j]);
    }
    SkippedIsLongestPrefix(e, incoming, n);
  }

  class StpManager {
    const isServer: bool
    var requestSeq: int
    var responseSeq: int

    constructor (isServer: bool)
      ensures View() == Endpoint(isServer, 0, 0)
    {
      this.isServer := isServer;
      requestSeq, responseSeq := 0, 0;
    }

    function View(): Endpoint
      reads this
    {
      Endpoint(isServer, requestSeq, responseSeq)
    }

    /** `incoming` lists what the socket yields to this call; when it runs out, `recvfrom` times out.
        `used` arrivals are consumed and `json` is the message returned with status 0. */
    method Recv(incoming: seq<Arrival>, before: Option<Address>)
        returns (json: Option<Json>, remote: Option<Address>, used: nat)
      modifies this
      ensures used <= |incoming|
      ensures remote == LastSource(incoming[..used], before)
      ensures var n := Skipped(old(View()), incoming);
              if n == |incoming| then used == n && json == None && View() == old(View())
              else
                && used == n + 1
                && View() == Heard(old(View()), incoming[n])
                && json == if Judge(old(View()), incoming[n]).Accept? then incoming[n].text else None
      ensures requestSeq == old(requestSeq)
      ensures !isServer ==> responseSeq == old(responseSeq)
      ensures !isServer ==>
                (json.Some? <==>
                 exists n :: && 0 <= n < |incoming| && AllForeign(incoming, n, requestSeq)
                             && AnswersTo(incoming[n], requestSeq))
      ensures !isServer ==> forall n :: 0 <= n < |incoming| && AllForeign(incoming, n, requestSeq) ==>
                && (AnswersTo(incoming[n], requestSeq) ==> json == incoming[n].text && used == n + 1)
                && (!Parses(incoming[n]) ==> json == None && used == n + 1)
      ensures !isServer && AllForeign(incoming, |incoming|, requestSeq) ==> json == None && used == |incoming|
      ensures isServer && incoming == [] ==> json == None && used == 0
      ensures isServer && incoming != [] ==>
                used == 1 && json == if Parses(incoming[0]) then incoming[0].text else None
      ensures isServer ==>
                responseSeq ==
                if json == None then old(responseSeq)
                else if json.value.requestSeq.Some? then json.value.requestSeq.value
                else 0
    {
      json, remote, used := None, before, 0;
      ghost var start := View();
      ghost var skipped := 0;
      assert incoming[..0] == [];
      while used < |incoming|
        invariant skipped == used <= |incoming| && View() == start && json == None
        invariant remote == LastSource(incoming[..used], before)
        invariant forall j :: 0 <= j < used ==> Judge(start, incoming[j]).Skip?
      {
        var arrival := incoming[used];
        assert incoming[..used + 1][..used] == incoming[..used];
        used := used + 1;
        if arrival.Silence? || arrival.text.None? {
          break;
        }
        remote := Some(arrival.from);
        if !isServer && arrival.text.value.responseSeq != Some(requestSeq) {
          skipped := used;
          continue;
        }
        if isServer {
          responseSeq := AsInt(arrival.text.value.requestSeq);
        }
        json := arrival.text;
        break;
      }
      SkippedIs(start, incoming, skipped);
      if !isServer {
        ghost var number := start.requestSeq;
        forall n | 0 <= n < |incoming| && AllForeign(incoming, n, number) && !Foreign(incoming[n], number)
          ensures n == skipped
        {
          SkippedIsLongestPrefix(start, incoming, n);
        }
        if skipped < |incoming| {
          assert AllForeign(incoming, skipped, start.requestSeq);
        }
      }
    }

    /** `sendtoResult` is what `sendto` returns; `wire` is what it was given. */
    method Send(body: Body, remote: Option<Address>, sendtoResult: int)
        returns (status: int, wire: Option<(Address, Json)>)
      modifies this
      ensures remote.None? ==> status == -1 && wire == None && View() == old(View())
      ensures remote.Some? ==>
                && View() == Numbered(old(View()))
                && wire == Some((remote.value, Stamped(old(View()), body)))
                && status == (if sendtoResult <= 0 then -1 else 0)
      ensures responseSeq == old(responseSeq)
      ensures remote.Some? && !isServer ==>
                requestSeq == old(requestSeq) + 1 && wire == Some((remote.value, Json(Some(requestSeq), None, body)))
      ensures remote.Some? && isServer ==>
                requestSeq == old(requestSeq) && wire == Some((remote.value, Json(None, Some(responseSeq), body)))
    {
      if remote.None? {
        return -1, None;
      }
      var text: Json;
      if isServer {
        text := Json(None, Some(responseSeq), body);
      } else {
        requestSeq := requestSeq + 1;
        text := Json(Some(requestSeq), None, body);
      }
      wire := Some((remote.value, text));
      status := if sendtoResult <= 0 then -1 else 0;
    }
  }

  /** The server loop, run until its socket has yielded all of `incoming`;
      `sendtoResults[k]` is what `sendto` returns for arrival `k`. */
  method Serve(server: StpManager, incoming: seq<Arrival>, sendtoResults: seq<int>) returns (wire: seq<(Address, Json)>)
    requires server.isServer && |sendtoResults| == |incoming|
    modifies server
    ensures wire == Replies(incoming, Answer)
    ensures server.requestSeq == old(server.requestSeq)
  {
    wire := [];
    var remote := None;
    var done := 0;
    while done < |incoming|
      invariant done <= |incoming|
      invariant wire == Replies(incoming[..done], Answer)
      invariant server.requestSeq == old(server.requestSeq)
    {
      ghost var before := server.View();
      assert Skipped(before, incoming[done..]) == 0;
      assert incoming[..done + 1][..done] == incoming[..done];
      var json, from, used := server.Recv(incoming[done..], remote);
      assert incoming[done..][..1][..0] == [];
      remote := from;
      if json.Some? {
        var response := ComputeAnswer(json.value.body);
        var status, sent := server.Send(response, remote, sendtoResults[done]);
        wire := wire + [sent.value];
      }
      done := done + used;
    }
    assert incoming[..done] == incoming;
  }

  /** The utility's client: one request, then one `recv`, whatever `send` returned. */
  method Ask(client: StpManager, cmd: string, remote: Address, sendtoResult: int, incoming: seq<Arrival>)
      returns (response: Option<Json>)
    requires !client.isServer
    modifies client
    ensures client.requestSeq == old(client.requestSeq) + 1
    ensures response.Some? <==>
            exists n :: && 0 <= n < |incoming| && AllForeign(incoming, n, client.requestSeq)
                        && AnswersTo(incoming[n], client.requestSeq)
    ensures forall n :: && 0 <= n < |incoming| && AllForeign(incoming, n, client.requestSeq)
                        && AnswersTo(incoming[n], client.requestSeq)
                        ==> response == incoming[n].text
  {
    var status, sent := client.Send(Body(cmd, []), Some(remote), sendtoResult);
    var from, used;
    response, from, used := client.Recv(incoming, None);
  }
}
