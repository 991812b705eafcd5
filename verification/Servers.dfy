/** `TcpServer::eth_task` above the network stack: the web server's call, then the DHCP server's, and what they mean for
    the main loop. */
module Servers {
  import opened Wire
  import opened Server
  import opened MainLoop
  import UsbIp
  import DhcpCodec
  import Dhcp
  import DhcpLeases

  const UDP_BUFSIZE := 380

  // ----- the DHCP socket

  /** The DHCP server, and the replies its socket holds until the stack has sent them. */
  datatype DhcpTask = DhcpTask(server: Dhcp.Server, queued: nat)

  /** How many of those the stack has sent since the last call, and the message the socket gives, if any. */
  datatype DhcpInput = DhcpInput(dispatched: nat, datagram: Option<seq<byte>>)

  datatype DhcpMove = DhcpMove(next: DhcpTask, reply: Option<seq<byte>>)

  function Left(d: DhcpTask, x: DhcpInput): nat
  {
    if x.dispatched <= d.queued then d.queued - x.dispatched else 0
  }

  /** `run_dhcpserver`. The reply's `send_slice` is unwrapped: one that does not fit the socket's buffer panics. */
  function RunDhcpServer(d: DhcpTask, x: DhcpInput): Outcome<DhcpMove>
  {
    match x.datagram
    case None => Done(DhcpMove(d.(queued := Left(d, x)), None))
    case Some(buf) =>
      var a :- Dhcp.Recv(d.server, buf);
      if a.reply.None? then Done(DhcpMove(DhcpTask(a.server, Left(d, x)), None))
      else if (Left(d, x) + 1) * DhcpCodec.MSG_LEN > UDP_BUFSIZE then Panic
      else Done(DhcpMove(DhcpTask(a.server, Left(d, x) + 1), a.reply))
  }

  lemma RepliesExactly(s: Dhcp.Server, buf: seq<byte>)
    ensures Dhcp.Recv(s, buf).Done? ==> (Dhcp.Recv(s, buf).value.reply.Some? <==> Dhcp.AsksForLease(buf))
  {
    Dhcp.RecvCases(s, buf);
    hide Dhcp.Recv, Dhcp.AsksForLease, Dhcp.Readable;
  }

  /** The socket holds one reply at most, so a message panics exactly when `recv` does, or when it asks for a lease
      while a reply is still unsent. */
  lemma DhcpPanicsExactly(d: DhcpTask, x: DhcpInput)
    requires d.queued <= 1
    ensures RunDhcpServer(d, x).Panic? <==>
            && x.datagram.Some?
            && (Dhcp.Recv(d.server, x.datagram.value).Panic?
                || (Dhcp.AsksForLease(x.datagram.value) && d.queued == 1 && x.dispatched == 0))
    ensures RunDhcpServer(d, x).Done? ==>
              && RunDhcpServer(d, x).value.next.queued
                 == (if x.datagram.Some? && Dhcp.AsksForLease(x.datagram.value) then 1
                     else if x.dispatched == 0 then d.queued else 0)
              && (x.datagram.Some? ==>
                    Dhcp.Recv(d.server, x.datagram.value)
                    == Done(Dhcp.Answer(RunDhcpServer(d, x).value.next.server, RunDhcpServer(d, x).value.reply)))
  {
    if x.datagram.Some? {
      RepliesExactly(d.server, x.datagram.value);
    }
    hide Dhcp.Recv, Dhcp.AsksForLease;
  }

  /** Two messages that ask for a lease, with nothing sent in between, halt the firmware. */
  lemma SecondReplyHalts(d: DhcpTask, x: DhcpInput, y: DhcpInput)
    requires d.queued <= 1 && RunDhcpServer(d, x).Done?
    requires x.datagram.Some? && Dhcp.AsksForLease(x.datagram.value)
    requires y.datagram.Some? && Dhcp.AsksForLease(y.datagram.value) && y.dispatched == 0
    ensures RunDhcpServer(RunDhcpServer(d, x).value.next, y).Panic?
  {
    DhcpPanicsExactly(d, x);
    RepliesExactly(d.server, x.datagram.value);
    DhcpPanicsExactly(RunDhcpServer(d, x).value.next, y);
    hide Dhcp.Recv, Dhcp.AsksForLease;
  }

  // ----- one turn, and runs of turns

  datatype App = App(web: Web, dhcp: DhcpTask)

  datatype AppInput = AppInput(poll: Poll, dhcp: DhcpInput)

  datatype AppMove = AppMove(next: App, web: WebMove, reply: Option<seq<byte>>)

  function Turn(a: App, x: AppInput): Outcome<AppMove>
  {
    var w :- Server.Step(a.web, x.poll);
    var d :- RunDhcpServer(a.dhcp, x.dhcp);
    Done(AppMove(App(w.next, d.next), w, d.reply))
  }

  function AppInit(dhcp: Dhcp.Server): App { App(Server.INIT, DhcpTask(dhcp, 0)) }

  function AppRun(dhcp: Dhcp.Server, xs: seq<AppInput>): Outcome<App>
  {
    if xs == [] then Done(AppInit(dhcp))
    else
      var a :- AppRun(dhcp, xs[..|xs| - 1]);
      var m :- Turn(a, xs[|xs| - 1]);
      Done(m.next)
  }

  function Polls(xs: seq<AppInput>): seq<Poll>
  {
    if xs == [] then [] else Polls(xs[..|xs| - 1]) + [xs[|xs| - 1].poll]
  }

  /** The messages the DHCP socket gave. */
  function Datagrams(xs: seq<AppInput>): seq<seq<byte>>
  {
    if xs == [] then []
    else
      Datagrams(xs[..|xs| - 1])
      + (match xs[|xs| - 1].dhcp.datagram case None => [] case Some(buf) => [buf])
  }

  /** The DHCP server's calls alone. */
  function DhcpRun(dhcp: Dhcp.Server, xs: seq<AppInput>): Outcome<DhcpTask>
  {
    if xs == [] then Done(DhcpTask(dhcp, 0))
    else
      var d :- DhcpRun(dhcp, xs[..|xs| - 1]);
      var m :- RunDhcpServer(d, xs[|xs| - 1].dhcp);
      Done(m.next)
  }

  /** The two servers do not disturb each other: a run of turns panics exactly when one of their own runs does, and
      leaves them where those do. */
  lemma {:induction false} ServersAreIndependent(dhcp: Dhcp.Server, xs: seq<AppInput>)
    ensures AppRun(dhcp, xs).Done? <==> Server.Run(Polls(xs)).Done? && DhcpRun(dhcp, xs).Done?
    ensures AppRun(dhcp, xs).Done? ==>
              AppRun(dhcp, xs).value == App(Server.Run(Polls(xs)).value.web, DhcpRun(dhcp, xs).value)
  {
    if xs == [] {
      assert Server.Run([]) == Done(WebRun(Server.INIT, [], [], []));
    } else {
      hide Server.Step, RunDhcpServer, Server.Run;
      var init, x := xs[..|xs| - 1], xs[|xs| - 1];
      ServersAreIndependent(dhcp, init);
      Server.RunSnoc(Polls(init), x.poll);
    }
  }

  /** The `i`-th message asks for a lease. */
  predicate Asks(xs: seq<AppInput>, i: nat)
    requires i < |xs|
  {
    xs[i].dhcp.datagram.Some? && Dhcp.AsksForLease(xs[i].dhcp.datagram.value)
  }

  /** The stack has sent nothing after turn `i` and up to turn `j`. */
  predicate NothingSent(xs: seq<AppInput>, i: nat, j: nat)
    requires i <= j < |xs|
  {
    forall k :: i < k <= j ==> xs[k].dhcp.dispatched == 0
  }

  /** Two messages ask for a lease with nothing sent between them. */
  predicate Blocked(xs: seq<AppInput>)
  {
    exists i, j :: 0 <= i < j < |xs| && Asks(xs, i) && Asks(xs, j) && NothingSent(xs, i, j)
  }

  /** The reply to some message has not been sent. */
  predicate Holding(xs: seq<AppInput>)
  {
    exists i :: 0 <= i < |xs| && Asks(xs, i) && NothingSent(xs, i, |xs| - 1)
  }

  lemma HoldingLast(xs: seq<AppInput>)
    requires xs != []
    ensures Holding(xs)
            <==> Asks(xs, |xs| - 1) || (Holding(xs[..|xs| - 1]) && xs[|xs| - 1].dhcp.dispatched == 0)
  {
    hide Dhcp.AsksForLease;
    var init, n := xs[..|xs| - 1], |xs| - 1;
    if Holding(init) && xs[n].dhcp.dispatched == 0 {
      var i :| 0 <= i < |init| && Asks(init, i) && NothingSent(init, i, |init| - 1);
      assert forall k :: i < k <= |init| - 1 ==> xs[k] == init[k];
      assert Asks(xs, i) && NothingSent(xs, i, n);
    }
    if Asks(xs, n) {
      assert NothingSent(xs, n, n);
    }
    if Holding(xs) {
      var i :| 0 <= i < |xs| && Asks(xs, i) && NothingSent(xs, i, n);
      if i < n {
        assert forall k :: i < k <= |init| - 1 ==> xs[k] == init[k];
        assert Asks(init, i) && NothingSent(init, i, |init| - 1);
      }
    }
  }

  lemma BlockedLast(xs: seq<AppInput>)
    requires xs != []
    ensures Blocked(xs)
            <==> || Blocked(xs[..|xs| - 1])
                 || (Holding(xs[..|xs| - 1]) && xs[|xs| - 1].dhcp.dispatched == 0 && Asks(xs, |xs| - 1))
  {
    hide Dhcp.AsksForLease;
    var init, n := xs[..|xs| - 1], |xs| - 1;
    assert forall k :: 0 <= k < n ==> xs[k] == init[k];
    if Blocked(init) {
      var i, j :| 0 <= i < j < |init| && Asks(init, i) && Asks(init, j) && NothingSent(init, i, j);
      assert Asks(xs, i) && Asks(xs, j) && NothingSent(xs, i, j);
    }
    if Holding(init) && xs[n].dhcp.dispatched == 0 && Asks(xs, n) {
      var i :| 0 <= i < |init| && Asks(init, i) && NothingSent(init, i, |init| - 1);
      assert Asks(xs, i) && NothingSent(xs, i, n);
    }
    if Blocked(xs) {
      var i, j :| 0 <= i < j < |xs| && Asks(xs, i) && Asks(xs, j) && NothingSent(xs, i, j);
      if j < n {
        assert Asks(init, i) && Asks(init, j) && NothingSent(init, i, j);
      } else {
        assert Asks(init, i) && NothingSent(init, i, |init| - 1);
      }
    }
  }

  lemma ServeSnoc(s: Dhcp.Server, bufs: seq<seq<byte>>, buf: seq<byte>)
    ensures DhcpLeases.Serve(s, bufs + [buf]).Done? <==>
            && DhcpLeases.Serve(s, bufs).Done?
            && Dhcp.Recv(DhcpLeases.Serve(s, bufs).value.server, buf).Done?
    ensures DhcpLeases.Serve(s, bufs + [buf]).Done? ==>
              DhcpLeases.Serve(s, bufs + [buf]).value.server
              == Dhcp.Recv(DhcpLeases.Serve(s, bufs).value.server, buf).value.server
  {
    hide Dhcp.Recv;
    assert (bufs + [buf])[..|bufs|] == bufs;
  }

  lemma KeepsServer(d: DhcpTask, x: DhcpInput)
    ensures x.datagram.None? ==> RunDhcpServer(d, x).Done? && RunDhcpServer(d, x).value.next.server == d.server
  {}

  /** The DHCP run over any history: its server is the one of the history of messages, its socket holds a reply exactly
      when the last one has not been sent, and it panics exactly when that history does or two messages ask for a lease
      with nothing sent between them. */
  lemma {:induction false} DhcpRunExactly(dhcp: Dhcp.Server, xs: seq<AppInput>)
    ensures DhcpRun(dhcp, xs).Done? <==> DhcpLeases.Serve(dhcp, Datagrams(xs)).Done? && !Blocked(xs)
    ensures DhcpRun(dhcp, xs).Done? ==>
              && DhcpRun(dhcp, xs).value.queued == (if Holding(xs) then 1 else 0)
              && DhcpRun(dhcp, xs).value.server == DhcpLeases.Serve(dhcp, Datagrams(xs)).value.server
  {
    if xs != [] {
      hide RunDhcpServer, DhcpLeases.Serve, Dhcp.AsksForLease, Blocked, Holding;
      var init, x := xs[..|xs| - 1], xs[|xs| - 1].dhcp;
      DhcpRunExactly(dhcp, init);
      BlockedLast(xs);
      HoldingLast(xs);
      if x.datagram.Some? {
        ServeSnoc(dhcp, Datagrams(init), x.datagram.value);
      } else {
        assert Datagrams(init) + [] == Datagrams(init);
      }
      if DhcpRun(dhcp, init).Done? {
        DhcpPanicsExactly(DhcpRun(dhcp, init).value, x);
        KeepsServer(DhcpRun(dhcp, init).value, x);
      }
    }
  }

  // ----- the main loop with these servers

  /** What the outside does during one iteration when the stack's turn is this one: the bus, what the servers find, and
      the frames the stack takes and sends. */
  datatype Input = Input(usb: UsbIp.UsbEnv, app: AppInput, turn: StackTurn)

  function Apps(ins: seq<Input>): (xs: seq<AppInput>)
    ensures |xs| == |ins|
  {
    if ins == [] then [] else Apps(ins[..|ins| - 1]) + [ins[|ins| - 1].app]
  }

  /** The environments of the main loop: a turn of the stack panics when one of the servers does. */
  function Envs(dhcp: Dhcp.Server, ins: seq<Input>): (es: seq<Env>)
    ensures |es| == |ins|
  {
    if ins == [] then []
    else
      var i := ins[|ins| - 1];
      Envs(dhcp, ins[..|ins| - 1])
      + [Env(i.usb, if AppRun(dhcp, Apps(ins)).Done? then Done(i.turn) else Panic)]
  }

  lemma {:induction false} ReturnsExactly(dhcp: Dhcp.Server, ins: seq<Input>)
    ensures StackReturns(Envs(dhcp, ins)) <==> AppRun(dhcp, Apps(ins)).Done?
  {
    if ins != [] {
      hide Turn;
      ReturnsExactly(dhcp, ins[..|ins| - 1]);
    }
  }

  /** Exactly when the whole firmware halts, over every run fed from a stream the receiver survives, in which the stack
      sends no empty frame: when the web server's own run panics, when a DHCP message is unreadable or finds no address
      left, or when one asks for a lease while a reply is unsent. */
  lemma FirmwareHaltsExactly(host: seq<Packet>, dhcp: Dhcp.Server, ins: seq<Input>)
    requires Safe(host) && Hosted(host, Envs(dhcp, ins)) && SendsNonempty(Envs(dhcp, ins))
    ensures MainLoop.Run(Envs(dhcp, ins)).Panic? <==>
            || Server.Run(Polls(Apps(ins))).Panic?
            || DhcpLeases.Serve(dhcp, Datagrams(Apps(ins))).Panic?
            || Blocked(Apps(ins))
  {
    hide MainLoop.Run, Server.Run, DhcpLeases.Serve, AppRun, DhcpRun, Blocked, Hosted, Safe, StackReturns,
         SendsNonempty;
    RunSafe(host, Envs(dhcp, ins));
    ReturnsExactly(dhcp, ins);
    ServersAreIndependent(dhcp, Apps(ins));
    DhcpRunExactly(dhcp, Apps(ins));
  }

  lemma {:induction false} EnvsPrefix(dhcp: Dhcp.Server, ins: seq<Input>, k: nat)
    requires k <= |ins|
    ensures Envs(dhcp, ins)[..k] == Envs(dhcp, ins[..k])
    decreases |ins|
  {
    hide AppRun;
    if k == |ins| {
      assert ins[..k] == ins;
    } else {
      var init := ins[..|ins| - 1];
      EnvsPrefix(dhcp, init, k);
      assert init[..k] == ins[..k];
      assert Envs(dhcp, ins)[..k] == Envs(dhcp, init)[..k];
    }
  }

  lemma OneMore(dhcp: Dhcp.Server, ins: seq<Input>)
    requires ins != [] && AppRun(dhcp, Apps(ins)).Done? && MainLoop.Run(Envs(dhcp, ins)).Done?
    ensures var init, i := ins[..|ins| - 1], ins[|ins| - 1];
            && MainLoop.Run(Envs(dhcp, init)).Done? && AppRun(dhcp, Apps(init)).Done?
            && Turn(AppRun(dhcp, Apps(init)).value, i.app).Done?
            && AppRun(dhcp, Apps(ins)).value == Turn(AppRun(dhcp, Apps(init)).value, i.app).value.next
            && Iterate(MainLoop.Run(Envs(dhcp, init)).value, Env(i.usb, Done(i.turn))) == MainLoop.Run(Envs(dhcp, ins))
  {
    hide Turn, Iterate;
  }

  /** What one more iteration of a run that does not halt does. */
  lemma NextIteration(dhcp: Dhcp.Server, ins: seq<Input>, k: nat)
    requires k < |ins| && MainLoop.Run(Envs(dhcp, ins)).Done?
    ensures MainLoop.Run(Envs(dhcp, ins[..k])).Done? && MainLoop.Run(Envs(dhcp, ins[..k + 1])).Done?
    ensures AppRun(dhcp, Apps(ins[..k])).Done? && AppRun(dhcp, Apps(ins[..k + 1])).Done?
    ensures Turn(AppRun(dhcp, Apps(ins[..k])).value, ins[k].app).Done?
    ensures AppRun(dhcp, Apps(ins[..k + 1])).value == Turn(AppRun(dhcp, Apps(ins[..k])).value, ins[k].app).value.next
    ensures Iterate(MainLoop.Run(Envs(dhcp, ins[..k])).value, Env(ins[k].usb, Done(ins[k].turn)))
            == MainLoop.Run(Envs(dhcp, ins[..k + 1]))
  {
    EnvsPrefix(dhcp, ins, k);
    EnvsPrefix(dhcp, ins, k + 1);
    MainLoop.RunPrefix(Envs(dhcp, ins), k);
    MainLoop.RunPrefix(Envs(dhcp, ins), k + 1);
    hide Turn, Iterate;
    RunReturns(Envs(dhcp, ins[..k + 1]));
    ReturnsExactly(dhcp, ins[..k + 1]);
    assert ins[..k + 1][..k] == ins[..k] && ins[..k + 1][k] == ins[k];
    OneMore(dhcp, ins[..k + 1]);
  }

  lemma NoIteration(dhcp: Dhcp.Server, ins: seq<Input>)
    requires ins == []
    ensures MainLoop.Run(Envs(dhcp, ins)) == Done(MainLoop.INIT) && AppRun(dhcp, Apps(ins)) == Done(AppInit(dhcp))
  {}
}
