/** `TcpServer::run_webserver`: accumulating a request over partial receives, draining a response over partial
    sends. */
module Server {
  import opened Wire
  import opened Http

  const RINGBUFSIZE := 128

  /** What a receive gives: at most one buffer of bytes. */
  type Segment = b: seq<byte> | |b| <= RINGBUFSIZE witness []

  /** The handlers at some moment. A handler that panics halts the firmware. */
  type Respond = HttpRequest -> Outcome<seq<byte>>

  /** The two byte vectors of `TcpServer` that the web server uses. */
  datatype Web = Web(rxbytes: seq<byte>, msgtosend: seq<byte>)

  const INIT := Web([], [])

  /** What the socket and the handlers do during one call: whether a send is possible and how many bytes it takes,
      what a receive gives if one is possible, and the responses to requests. */
  datatype Poll = Poll(canSend: bool, sent: nat, recv: Option<Segment>, respond: Respond)

  /** A receive, and the handlers at that moment. */
  datatype Receive = Receive(data: Segment, respond: Respond)

  /** A request answered: the bytes it was parsed from, and the response. */
  datatype Exchange = Exchange(request: seq<byte>, response: seq<byte>)

  /** One call: the state afterwards, the bytes the socket took, the receive made and the request answered, if any. */
  datatype WebMove = WebMove(next: Web, accepted: seq<byte>, received: seq<Receive>, answered: seq<Exchange>)

  /** The bytes the socket takes in this call. */
  function Sent(w: Web, p: Poll): nat
  {
    if p.canSend then Min(p.sent, |w.msgtosend|) else 0
  }

  function Step(w: Web, p: Poll): Outcome<WebMove>
  {
    var n := Sent(w, p);
    var rest := w.msgtosend[n..];
    if p.recv.Some? && rest == [] then
      var rx := w.rxbytes + p.recv.value;
      var received := [Receive(p.recv.value, p.respond)];
      var parsed :- ParseRequest(rx);
      match parsed
      case Ok(request) =>
        var response :- p.respond(request);
        Done(WebMove(Web([], response), w.msgtosend[..n], received, [Exchange(rx, response)]))
      case Err(_) =>
        Done(WebMove(Web(rx, rest), w.msgtosend[..n], received, []))
    else
      Done(WebMove(Web(w.rxbytes, rest), w.msgtosend[..n], [], []))
  }

  class TcpServer {
    var rxbytes: seq<byte>
    var msgtosend: seq<byte>

    ghost function View(): Web
      reads this
    {
      Web(rxbytes, msgtosend)
    }

    constructor ()
      ensures View() == INIT
    {
      rxbytes, msgtosend := [], [];
    }

    method RunWebserver(p: Poll) returns (accepted: seq<byte>, received: seq<Receive>)
      requires Step(View(), p).Done?
      modifies this
      ensures var m := Step(old(View()), p).value;
              View() == m.next && accepted == m.accepted && received == m.received
    {
      hide ParseRequest;
      assert msgtosend[0..] == msgtosend && msgtosend[..0] == [];
      accepted, received := [], [];
      if p.canSend && msgtosend != [] {
        var sent := Min(p.sent, |msgtosend|);
        accepted := msgtosend[..sent];
        msgtosend := msgtosend[sent..];
      }
      if p.recv.Some? && msgtosend == [] {
        received := [Receive(p.recv.value, p.respond)];
        rxbytes := rxbytes + p.recv.value;
        match ParseRequest(rxbytes).value
        case Ok(request) =>
          msgtosend := p.respond(request).value;
          rxbytes := [];
        case Err(_) =>
      }
    }
  }

  // ----- runs

  /** A run so far: the state, every byte the socket took, every receive made and every request answered. */
  datatype WebRun = WebRun(web: Web, accepted: seq<byte>, received: seq<Receive>, answered: seq<Exchange>)

  /** The run `r` after the call `m`. */
  function Later(r: WebRun, m: WebMove): WebRun
  {
    WebRun(m.next, r.accepted + m.accepted, r.received + m.received, r.answered + m.answered)
  }

  function Run(ps: seq<Poll>): Outcome<WebRun>
  {
    if ps == [] then Done(WebRun(INIT, [], [], []))
    else
      var r :- Run(ps[..|ps| - 1]);
      var m :- Step(r.web, ps[|ps| - 1]);
      Done(Later(r, m))
  }

  lemma RunSnoc(ps: seq<Poll>, p: Poll)
    ensures Run(ps).Panic? ==> Run(ps + [p]).Panic?
    ensures Run(ps).Done? && Step(Run(ps).value.web, p).Panic? ==> Run(ps + [p]).Panic?
    ensures Run(ps).Done? && Step(Run(ps).value.web, p).Done? ==>
              Run(ps + [p]) == Done(Later(Run(ps).value, Step(Run(ps).value.web, p).value))
  {
    hide Step;
    assert (ps + [p])[..|ps|] == ps;
  }

  lemma {:induction false} RunPrefix(ps: seq<Poll>, k: nat)
    requires k <= |ps| && Run(ps).Done?
    ensures Run(ps[..k]).Done?
    decreases |ps|
  {
    hide Step;
    if k == |ps| {
      assert ps[..k] == ps;
    } else {
      RunPrefix(ps[..|ps| - 1], k);
      assert ps[..|ps| - 1][..k] == ps[..k];
    }
  }

  /** The calls `eth_task` makes on a new server, one after the other. */
  method RunCalls(ps: seq<Poll>) returns (server: TcpServer, accepted: seq<byte>, received: seq<Receive>)
    requires Run(ps).Done?
    ensures fresh(server) && server.View() == Run(ps).value.web
    ensures accepted == Run(ps).value.accepted && received == Run(ps).value.received
  {
    hide Step;
    server := new TcpServer();
    accepted, received := [], [];
    assert Run(ps[..0]) == Done(WebRun(INIT, [], [], []));
    for i := 0 to |ps|
      invariant Run(ps[..i]).Done? && fresh(server) && server.View() == Run(ps[..i]).value.web
      invariant accepted == Run(ps[..i]).value.accepted && received == Run(ps[..i]).value.received
    {
      RunPrefix(ps, i + 1);
      assert ps[..i + 1][..i] == ps[..i];
      var a, v := server.RunWebserver(ps[i]);
      accepted, received := accepted + a, received + v;
    }
    assert ps[..|ps|] == ps;
  }

  /** The bytes of a list of receives. */
  function Data(vs: seq<Receive>): seq<byte>
  {
    if vs == [] then [] else Data(vs[..|vs| - 1]) + vs[|vs| - 1].data
  }

  lemma DataSnoc(vs: seq<Receive>, v: Receive)
    ensures Data(vs + [v]) == Data(vs) + v.data
  {
    assert (vs + [v])[..|vs|] == vs;
  }

  function Responses(xs: seq<Exchange>): seq<byte>
  {
    if xs == [] then [] else Responses(xs[..|xs| - 1]) + xs[|xs| - 1].response
  }

  function Requests(xs: seq<Exchange>): seq<byte>
  {
    if xs == [] then [] else Requests(xs[..|xs| - 1]) + xs[|xs| - 1].request
  }

  lemma OneMoreExchange(xs: seq<Exchange>, x: Exchange)
    ensures Responses(xs + [x]) == Responses(xs) + x.response
    ensures Requests(xs + [x]) == Requests(xs) + x.request
  {
    assert (xs + [x])[..|xs|] == xs;
  }

  /** The bytes the socket took, then those still to send, are the responses. */
  predicate OutBalanced(r: WebRun)
  {
    r.accepted + r.web.msgtosend == Responses(r.answered)
  }

  /** The bytes the socket gave are the answered requests, then the one under way. */
  predicate InBalanced(r: WebRun)
  {
    Requests(r.answered) + r.web.rxbytes == Data(r.received)
  }

  predicate Balanced(r: WebRun) { OutBalanced(r) && InBalanced(r) }

  /** What one call does, without the histories. */
  lemma StepShape(w: Web, p: Poll)
    requires Step(w, p).Done?
    ensures var m := Step(w, p).value;
            && |m.answered| <= 1 && |m.received| <= 1
            && m.accepted <= w.msgtosend
            && |m.accepted| == (if !p.canSend then 0 else if p.sent <= |w.msgtosend| then p.sent else |w.msgtosend|)
            && (m.received != [] <==> p.recv.Some? && m.accepted == w.msgtosend)
            && (m.answered == [] ==>
                  && m.accepted + m.next.msgtosend == w.msgtosend
                  && m.next.rxbytes == w.rxbytes + (if m.received == [] then [] else m.received[0].data))
            && (m.answered != [] ==>
                  && m.accepted == w.msgtosend && m.next.msgtosend == m.answered[0].response
                  && m.received != [] && m.answered[0].request == w.rxbytes + m.received[0].data && m.next.rxbytes == []
                  && ParseRequest(m.answered[0].request).Done? && ParseRequest(m.answered[0].request).value.Ok?
                  && p.respond(ParseRequest(m.answered[0].request).value.request) == Done(m.answered[0].response))
            && (m.received != [] ==>
                  m.accepted == w.msgtosend && p.recv.Some? && m.received[0] == Receive(p.recv.value, p.respond))
  {
    hide ParseRequest;
    var n := Sent(w, p);
    assert w.msgtosend[..n] + w.msgtosend[n..] == w.msgtosend;
    assert w.rxbytes + [] == w.rxbytes;
  }

  lemma AnsweredGrows(r: WebRun, m: WebMove)
    requires |m.answered| <= 1
    ensures Responses(r.answered + m.answered)
            == Responses(r.answered) + (if m.answered == [] then [] else m.answered[0].response)
    ensures Requests(r.answered + m.answered)
            == Requests(r.answered) + (if m.answered == [] then [] else m.answered[0].request)
  {
    if m.answered == [] {
      assert r.answered + m.answered == r.answered;
    } else {
      assert m.answered == [m.answered[0]];
      OneMoreExchange(r.answered, m.answered[0]);
    }
  }

  lemma MoveBalancesOut(r: WebRun, m: WebMove)
    requires OutBalanced(r) && |m.answered| <= 1
    requires m.answered == [] ==> m.accepted + m.next.msgtosend == r.web.msgtosend
    requires m.answered != [] ==> m.accepted == r.web.msgtosend && m.next.msgtosend == m.answered[0].response
    ensures OutBalanced(Later(r, m))
  {
    AnsweredGrows(r, m);
    hide Responses;
    if m.answered == [] {
      assert (r.accepted + m.accepted) + m.next.msgtosend == r.accepted + (m.accepted + m.next.msgtosend);
    }
  }

  lemma StepBalancesOut(r: WebRun, p: Poll)
    requires OutBalanced(r) && Step(r.web, p).Done?
    ensures OutBalanced(Later(r, Step(r.web, p).value))
    ensures Step(r.web, p).value.received != [] ==> r.accepted + Step(r.web, p).value.accepted == Responses(r.answered)
  {
    StepShape(r.web, p);
    hide Step, ParseRequest, Responses;
    MoveBalancesOut(r, Step(r.web, p).value);
  }

  lemma DataGrows(vs: seq<Receive>, ws: seq<Receive>)
    requires |ws| <= 1
    ensures Data(vs + ws) == Data(vs) + (if ws == [] then [] else ws[0].data)
  {
    if ws == [] {
      assert vs + ws == vs;
    } else {
      assert ws == [ws[0]];
      DataSnoc(vs, ws[0]);
    }
  }

  lemma MoveBalancesIn(r: WebRun, m: WebMove)
    requires InBalanced(r) && |m.answered| <= 1 && |m.received| <= 1
    requires m.answered == [] ==>
               m.next.rxbytes == r.web.rxbytes + (if m.received == [] then [] else m.received[0].data)
    requires m.answered != [] ==>
               m.received != [] && m.answered[0].request == r.web.rxbytes + m.received[0].data && m.next.rxbytes == []
    ensures InBalanced(Later(r, m))
  {
    AnsweredGrows(r, m);
    hide Requests, Data;
    DataGrows(r.received, m.received);
    Shift(Requests(r.answered), r.web.rxbytes, Data(r.received), if m.received == [] then [] else m.received[0].data);
  }

  lemma StepBalancesIn(r: WebRun, p: Poll)
    requires InBalanced(r) && Step(r.web, p).Done?
    ensures InBalanced(Later(r, Step(r.web, p).value))
  {
    StepShape(r.web, p);
    hide Step, ParseRequest, Requests;
    MoveBalancesIn(r, Step(r.web, p).value);
  }

  /** Response conservation, over every run and every choice of partial sends: the bytes the socket took, followed by
      those still to send, are the responses in request order; the bytes it gave are the answered requests
      followed by the one under way. */
  lemma {:induction false} ResponsesConserved(ps: seq<Poll>)
    requires Run(ps).Done?
    ensures Balanced(Run(ps).value)
  {
    if ps == [] {
      assert Balanced(WebRun(INIT, [], [], []));
    } else {
      hide OutBalanced, InBalanced, Step;
      var init := ps[..|ps| - 1];
      ResponsesConserved(init);
      StepBalancesOut(Run(init).value, ps[|ps| - 1]);
      StepBalancesIn(Run(init).value, ps[|ps| - 1]);
    }
  }

  /** What the socket's own counts add up to: each call takes as many bytes as the socket says, or all there are. */
  function Taken(ps: seq<Poll>): nat
  {
    if ps == [] || Run(ps[..|ps| - 1]).Panic? then 0
    else
      var unsent, p := |Run(ps[..|ps| - 1]).value.web.msgtosend|, ps[|ps| - 1];
      Taken(ps[..|ps| - 1]) + (if !p.canSend then 0 else if p.sent <= unsent then p.sent else unsent)
  }

  /** Over every run exactly as many bytes count as accepted as the socket has taken. */
  lemma {:induction false} AcceptedIsTaken(ps: seq<Poll>)
    requires Run(ps).Done?
    ensures |Run(ps).value.accepted| == Taken(ps)
  {
    if ps != [] {
      hide Step;
      var init := ps[..|ps| - 1];
      AcceptedIsTaken(init);
      StepShape(Run(init).value.web, ps[|ps| - 1]);
    }
  }

  /** No byte of a request is read while a byte of a response is unsent. */
  lemma ReadsOnlyWhenSent(ps: seq<Poll>, p: Poll)
    requires Run(ps + [p]).Done?
    ensures Run(ps).Done?
    ensures Run(ps + [p]).value.received != Run(ps).value.received ==>
              Run(ps + [p]).value.accepted == Responses(Run(ps).value.answered)
  {
    assert (ps + [p])[..|ps|] == ps;
    ResponsesConserved(ps);
    StepBalancesOut(Run(ps).value, p);
    RunSnoc(ps, p);
    hide Step, Run;
    var r := Run(ps).value;
    assert r.received + [] == r.received;
  }

  /** A call that can only send, and sends something. */
  predicate OnlySends(p: Poll)
  {
    p.canSend && p.sent >= 1 && p.recv.None?
  }

  lemma SendStep(w: Web, p: Poll)
    requires OnlySends(p)
    ensures Step(w, p).Done? && Step(w, p).value.answered == []
    ensures |Step(w, p).value.next.msgtosend| <= (if w.msgtosend == [] then 0 else |w.msgtosend| - 1)
  {}

  lemma {:induction false} SendsDrain(ps: seq<Poll>, sends: seq<Poll>)
    requires Run(ps).Done? && forall i :: 0 <= i < |sends| ==> OnlySends(sends[i])
    ensures Run(ps + sends).Done? && Run(ps + sends).value.answered == Run(ps).value.answered
    ensures |Run(ps + sends).value.web.msgtosend|
            <= (if |Run(ps).value.web.msgtosend| <= |sends| then 0 else |Run(ps).value.web.msgtosend| - |sends|)
    decreases |sends|
  {
    if sends == [] {
      assert ps + sends == ps;
    } else {
      var init, p := sends[..|sends| - 1], sends[|sends| - 1];
      assert ps + sends == (ps + init) + [p];
      hide Run, Step;
      SendsDrain(ps, init);
      SendStep(Run(ps + init).value.web, p);
      RunSnoc(ps + init, p);
      assert Run(ps + init).value.answered + [] == Run(ps + init).value.answered;
    }
  }

  /** However few bytes each send takes, a response of n bytes has been accepted whole after n sends. */
  lemma Drains(ps: seq<Poll>, sends: seq<Poll>)
    requires Run(ps).Done? && forall i :: 0 <= i < |sends| ==> OnlySends(sends[i])
    ensures Run(ps + sends).Done?
    ensures |sends| >= |Run(ps).value.web.msgtosend| ==>
              Run(ps + sends).value.accepted == Responses(Run(ps).value.answered)
  {
    hide Run, Responses, Requests, OnlySends;
    SendsDrain(ps, sends);
    ResponsesConserved(ps + sends);
    var r := Run(ps + sends).value;
    assert r.web.msgtosend == [] ==> r.accepted + r.web.msgtosend == r.accepted;
  }
}
