/** Everything the network stack queued reaches the endpoint: a bound on how often the endpoint must be ready. */
module Delivery {
  import opened Wire
  import opened Ring
  import opened MainLoop
  import Ntb
  import NcmTx
  import NcmTransfer
  import NcmRx
  import UsbIp

  /** An upper bound on the ready iterations left: one for a pending packet, two for a queued one, three for each step
      of the transmitter, and forty for a frame it has not taken. */
  function Potential(s: Sys): nat
    requires NcmTx.Held(s.tx)
  {
    UsbIp.Backlog(s.usb) + 3 * NcmTransfer.StepsLeft(s.tx) + 40 * |s.ethTx|
  }

  lemma LoadedSteps(s: NcmTx.Tx, msg: EthMsg)
    requires NcmTx.Held(s) && s.state.Ready? && NcmTx.Load(s, msg).Done?
    ensures NcmTx.Held(NcmTx.Load(s, msg).value) && NcmTransfer.StepsLeft(NcmTx.Load(s, msg).value) <= 12
  {
    hide Ntb.NthBytes, Ntb.NdpBytes;
  }

  /** With `owed` of the waiting frames to care about, a transmit step with room takes at least as much off as the
      packet it pushes adds, and one more unless there is nothing to do; a step that takes a frame beyond those
      pushes nothing. */
  lemma StepLowers(s: NcmTx.Tx, ethTx: seq<EthMsg>, room: bool, owed: nat)
    requires NcmTx.Held(s) && NcmTx.Step(s, Head(ethTx), room).Done? && owed <= |ethTx|
    ensures var m := NcmTx.Step(s, Head(ethTx), room).value;
            && NcmTx.Held(m.next) && |m.popped| <= |ethTx|
            && (|m.popped| <= owed ==>
                  var before := 3 * NcmTransfer.StepsLeft(s) + 40 * owed;
                  var after := 3 * NcmTransfer.StepsLeft(m.next) + 40 * (owed - |m.popped|) + 2 * |m.pushed|;
                  after <= before && (room && before > 0 ==> after < before))
            && (|m.popped| > owed ==> s.state.Ready? && m.pushed == [])
  {
    PopsWhatIsThere(s, ethTx, room);
    if s.state.Ready? {
      NcmTransfer.NoStepsOnlyReady(s);
      if ethTx != [] {
        LoadedSteps(s, ethTx[0]);
        hide NcmTx.Load, NcmTransfer.StepsLeft;
      }
    } else {
      NcmTransfer.StepProgress(s, Head(ethTx), room);
      NcmTx.StepMovesPackets(s, Head(ethTx), room);
      hide NcmTransfer.StepsLeft, NcmTx.Remaining, NcmTx.Load;
    }
  }

  /** Ready iterations until `n` packets are written, when all of them are in the pump. */
  function Unwritten(n: nat, written: nat, pending: nat): nat
    requires pending <= 1
  {
    if written >= n then 0 else 2 * (n - written) - pending
  }

  lemma PumpLowers(u: UsbIp.Usb, e: UsbIp.UsbEnv, n: nat, written: nat)
    requires u.boot.Normal? && n <= written + |UsbIp.Pending(u)| + |u.txq|
    ensures var m := UsbIp.RunLoop(u, e);
            var before, after := Unwritten(n, written, |UsbIp.Pending(u)|),
                                 Unwritten(n, written + |m.written|, |UsbIp.Pending(m.next)|);
            after <= before && (e.writable && before > 0 ==> after < before)
  {}

  lemma BacklogOfMore(u: UsbIp.Usb, more: seq<Packet>)
    ensures UsbIp.Backlog(u.(txq := u.txq + more, rxq := [])) == UsbIp.Backlog(u) + 2 * |more|
    ensures UsbIp.Backlog(u) >= 2 * |u.txq|
  {}

  lemma WorldHeld(w: World)
    requires WorldInv(w)
    ensures NcmTx.Held(w.sys.tx)
    ensures w.log.pushed + NcmTx.Remaining(w.sys.tx) == NcmTx.StreamPackets(w.log.popped)
    ensures |w.sys.usb.txq| <= UsbIp.TX_CAPACITY
    ensures w.log.written + UsbIp.Pending(w.sys.usb) + w.sys.usb.txq == w.log.pushed
    ensures w.log.popped + w.sys.ethTx == w.log.accepted
  {
    hide NcmTx.Run;
    NcmTx.RunKeepsInvariant(w.log.schedule);
  }

  // ----- the frames accepted by some moment

  /** What an iteration from `w` to `w'` does on the way out: the pump's move, then the transmitter's. */
  predicate Moves(w: World, e: Env, um: UsbIp.UsbMove, m: NcmTx.TxMove, w': World)
  {
    && um == UsbIp.RunLoop(w.sys.usb, e.usb)
    && |w.sys.tx.buf| == Ntb.NCM_MAX_SIZE
    && NcmTx.Step(w.sys.tx, Head(w.sys.ethTx), |um.next.txq| < UsbIp.TX_CAPACITY) == Done(m)
    && w'.sys.tx == m.next && w'.sys.usb == um.next.(txq := um.next.txq + m.pushed, rxq := [])
    && w'.log.popped == w.log.popped + m.popped && w'.log.pushed == w.log.pushed + m.pushed
    && w'.log.written == w.log.written + um.written && w.log.accepted <= w'.log.accepted
  }

  lemma IterateMoves(w: World, e: Env) returns (um: UsbIp.UsbMove, m: NcmTx.TxMove)
    requires WorldInv(w) && Iterate(w, e).Done?
    ensures WorldInv(Iterate(w, e).value) && Moves(w, e, um, m, Iterate(w, e).value)
  {
    IterateKeeps(w, e);
    assert Sized(w.sys);
    hide WorldInv, NcmTx.Run, NcmRx.Session, UsbIp.RunLoop, NcmTx.Step, NcmRx.Turn, PushAll;
    um := UsbIp.RunLoop(w.sys.usb, e.usb);
    m := NcmTx.Step(w.sys.tx, Offered(w.sys, um).offer, Offered(w.sys, um).room).value;
  }

  /** `a` has been accepted, and a transmitter that has taken a later frame has pushed all packets of `a`. */
  predicate Due(w: World, a: seq<EthMsg>)
  {
    && w.sys.usb.boot.Normal?
    && a <= w.log.accepted
    && (|w.log.popped| > |a| ==> |w.log.pushed| >= |NcmTx.StreamPackets(a)|)
  }

  /** The ready iterations still needed to write `a`. */
  function Owed(w: World, a: seq<EthMsg>): nat
    requires NcmTx.Held(w.sys.tx)
  {
    if |w.log.popped| <= |a| then
      UsbIp.Backlog(w.sys.usb) + 3 * NcmTransfer.StepsLeft(w.sys.tx) + 40 * (|a| - |w.log.popped|)
    else Unwritten(|NcmTx.StreamPackets(a)|, |w.log.written|, |UsbIp.Pending(w.sys.usb)|)
  }

  /** A transmitter between frames has pushed exactly the packets of those it took. */
  lemma PushedWhenReady(w: World, a: seq<EthMsg>)
    requires WorldInv(w) && a <= w.log.accepted && |w.log.popped| == |a| && w.sys.tx.state.Ready?
    ensures w.log.popped == a && w.log.pushed == NcmTx.StreamPackets(a)
  {
    hide WorldInv, NcmTx.Remaining, NcmTx.StreamPackets;
    WorldHeld(w);
    NcmTx.ReadyRemaining(w.sys.tx);
    assert w.log.popped == w.log.accepted[..|a|] == a;
    assert w.log.pushed + [] == w.log.pushed;
  }

  /** An iteration before the transmitter goes beyond `a`. */
  lemma OwedBefore(w: World, a: seq<EthMsg>, e: Env, um: UsbIp.UsbMove, m: NcmTx.TxMove, w': World)
    requires WorldInv(w) && WorldInv(w') && Moves(w, e, um, m, w') && Due(w, a) && |w'.log.popped| <= |a|
    ensures Due(w', a) && NcmTx.Held(w.sys.tx) && NcmTx.Held(w'.sys.tx)
    ensures Owed(w', a) <= Owed(w, a) && (e.usb.writable && Owed(w, a) > 0 ==> Owed(w', a) < Owed(w, a))
  {
    hide UsbIp.RunLoop, UsbIp.Backlog, NcmTx.Step, NcmTx.Load, WorldInv, NcmTransfer.StepsLeft, NcmTx.Held,
         NcmTx.Remaining, NcmTx.StreamPackets, UsbIp.Pending;
    WorldHeld(w);
    UsbIp.PumpProgress(w.sys.usb, e.usb);
    UsbIp.BootOrder(w.sys.usb, e.usb);
    PumpShrinksQueue(w.sys.usb, e.usb);
    StepLowers(w.sys.tx, w.sys.ethTx, |um.next.txq| < UsbIp.TX_CAPACITY, |a| - |w.log.popped|);
    BacklogOfMore(um.next, m.pushed);
    BacklogOfMore(w.sys.usb, []);
  }

  /** The transmitter takes the first frame beyond `a`: all packets of `a` are in the pump. */
  lemma OwedAtPassing(w: World, a: seq<EthMsg>, room: bool, m: NcmTx.TxMove)
    requires WorldInv(w) && Due(w, a) && |w.log.popped| <= |a| < |w.log.popped| + |m.popped|
    requires NcmTx.Step(w.sys.tx, Head(w.sys.ethTx), room) == Done(m)
    ensures NcmTx.Held(w.sys.tx) && |w.log.pushed| == |NcmTx.StreamPackets(a)|
    ensures Owed(w, a) == Unwritten(|NcmTx.StreamPackets(a)|, |w.log.written|, |UsbIp.Pending(w.sys.usb)|)
  {
    assert Sized(w.sys);
    hide WorldInv, NcmTx.Load, NcmTx.Remaining, NcmTx.StreamPackets, NcmTx.Held, NcmTransfer.StepsLeft;
    WorldHeld(w);
    StepLowers(w.sys.tx, w.sys.ethTx, room, |a| - |w.log.popped|);
    PopsWhatIsThere(w.sys.tx, w.sys.ethTx, room);
    hide NcmTx.Step;
    NcmTransfer.NoStepsOnlyReady(w.sys.tx);
    PushedWhenReady(w, a);
  }

  /** An iteration in which or after which the transmitter is beyond `a`. */
  lemma OwedAfter(w: World, a: seq<EthMsg>, e: Env, um: UsbIp.UsbMove, m: NcmTx.TxMove, w': World)
    requires WorldInv(w) && WorldInv(w') && Moves(w, e, um, m, w') && Due(w, a) && |w'.log.popped| > |a|
    ensures Due(w', a) && NcmTx.Held(w.sys.tx) && NcmTx.Held(w'.sys.tx)
    ensures Owed(w', a) <= Owed(w, a) && (e.usb.writable && Owed(w, a) > 0 ==> Owed(w', a) < Owed(w, a))
  {
    hide UsbIp.RunLoop, UsbIp.Pending, UsbIp.Backlog, NcmTx.Step, WorldInv, NcmTransfer.StepsLeft, NcmTx.Held,
         NcmTx.Remaining, NcmTx.StreamPackets;
    WorldHeld(w);
    WorldHeld(w');
    UsbIp.BootOrder(w.sys.usb, e.usb);
    if |w.log.popped| <= |a| {
      OwedAtPassing(w, a, |um.next.txq| < UsbIp.TX_CAPACITY, m);
    }
    PumpLowers(w.sys.usb, e.usb, |NcmTx.StreamPackets(a)|, |w.log.written|);
    PendingIgnoresQueues(um.next, um.next.txq + m.pushed);
  }

  /** No iteration raises what is owed, and one that finds the endpoint ready lowers it, whatever is read, sent or
      taken meanwhile. */
  lemma OwedLowers(w: World, a: seq<EthMsg>, e: Env)
    requires WorldInv(w) && Iterate(w, e).Done? && Due(w, a)
    ensures WorldInv(Iterate(w, e).value) && Due(Iterate(w, e).value, a)
    ensures NcmTx.Held(w.sys.tx) && NcmTx.Held(Iterate(w, e).value.sys.tx)
    ensures Owed(Iterate(w, e).value, a) <= Owed(w, a)
    ensures e.usb.writable && Owed(w, a) > 0 ==> Owed(Iterate(w, e).value, a) < Owed(w, a)
  {
    var um, m := IterateMoves(w, e);
    hide Iterate, WorldInv, Due, Owed, NcmTx.Held, Moves;
    var w' := Iterate(w, e).value;
    if |w'.log.popped| <= |a| {
      OwedBefore(w, a, e, um, m, w');
    } else {
      OwedAfter(w, a, e, um, m, w');
    }
  }

  lemma {:induction false} StreamOfPrefix(ms: seq<EthMsg>, k: nat)
    requires k <= |ms|
    ensures NcmTx.StreamPackets(ms[..k]) <= NcmTx.StreamPackets(ms)
    decreases |ms|
  {
    hide NcmTx.FramePackets;
    if k == |ms| {
      assert ms[..k] == ms;
    } else {
      StreamOfPrefix(ms[..|ms| - 1], k);
      assert ms[..|ms| - 1][..k] == ms[..k];
    }
  }

  /** The packets pushed, and so those written, are the first packets of the frames accepted. */
  lemma WrittenIsPrefix(w: World)
    requires WorldInv(w)
    ensures w.log.written <= w.log.pushed <= NcmTx.StreamPackets(w.log.popped) <= NcmTx.StreamPackets(w.log.accepted)
  {
    WorldHeld(w);
    StreamOfPrefix(w.log.accepted, |w.log.popped|);
    hide WorldInv, NcmTx.Remaining, NcmTx.StreamPackets;
    assert w.log.accepted[..|w.log.popped|] == w.log.popped;
  }

  lemma PrefixesCompare<T>(x: seq<T>, y: seq<T>, z: seq<T>)
    requires x <= z && y <= z && |x| <= |y|
    ensures x <= y
  {}

  lemma NothingBefore(w: World, a: seq<EthMsg>)
    requires WorldInv(w) && Due(w, a) && NcmTx.Held(w.sys.tx) && Owed(w, a) == 0 && |w.log.popped| <= |a|
    ensures NcmTx.StreamPackets(a) == w.log.written
  {
    hide WorldInv, NcmTx.Remaining, NcmTx.StreamPackets, NcmTransfer.StepsLeft, NcmTx.Held;
    WorldHeld(w);
    NcmTransfer.NoStepsOnlyReady(w.sys.tx);
    PushedWhenReady(w, a);
    assert UsbIp.Pending(w.sys.usb) == [] && w.sys.usb.txq == [];
    assert w.log.written == w.log.pushed;
  }

  lemma NothingAfter(w: World, a: seq<EthMsg>)
    requires WorldInv(w) && Due(w, a) && |w.log.written| >= |NcmTx.StreamPackets(a)|
    ensures NcmTx.StreamPackets(a) <= w.log.written
  {
    hide WorldInv, NcmTx.StreamPackets;
    WrittenIsPrefix(w);
    StreamOfPrefix(w.log.accepted, |a|);
    assert w.log.accepted[..|a|] == a;
    PrefixesCompare(NcmTx.StreamPackets(a), w.log.written, NcmTx.StreamPackets(w.log.accepted));
  }

  /** With nothing owed, `a` has been written. */
  lemma NothingOwed(w: World, a: seq<EthMsg>)
    requires WorldInv(w) && Due(w, a) && NcmTx.Held(w.sys.tx) && Owed(w, a) == 0
    ensures NcmTx.StreamPackets(a) <= w.log.written
  {
    hide WorldInv, NcmTx.Held, NcmTx.StreamPackets, NcmTransfer.StepsLeft;
    if |w.log.popped| <= |a| {
      NothingBefore(w, a);
    } else {
      NothingAfter(w, a);
    }
  }

  /** The iterations that find the endpoint ready. */
  function Writable(envs: seq<Env>): nat
  {
    if envs == [] then 0
    else Writable(envs[..|envs| - 1]) + (if envs[|envs| - 1].usb.writable then 1 else 0)
  }

  lemma {:induction false} OwedRun(envs: seq<Env>, more: seq<Env>, a: seq<EthMsg>)
    requires Run(envs + more).Done? && Run(envs).Done? && Due(Run(envs).value, a)
    ensures WorldInv(Run(envs).value) && WorldInv(Run(envs + more).value)
    ensures NcmTx.Held(Run(envs).value.sys.tx) && NcmTx.Held(Run(envs + more).value.sys.tx)
    ensures Due(Run(envs + more).value, a)
    ensures var before, after := Owed(Run(envs).value, a), Owed(Run(envs + more).value, a);
            after == 0 || after + Writable(more) <= before
    decreases |more|
  {
    hide WorldInv, Iterate, Owed, Due, NcmTx.Held;
    RunKeeps(envs);
    WorldHeld(Run(envs).value);
    if more == [] {
      assert envs + more == envs;
    } else {
      var init, e := more[..|more| - 1], more[|more| - 1];
      assert (envs + more)[..|envs + more| - 1] == envs + init;
      OwedRun(envs, init, a);
      OwedLowers(Run(envs + init).value, a, e);
    }
  }

  lemma SettledQueues(w: World)
    requires WorldInv(w)
    ensures |w.sys.usb.txq| <= UsbIp.TX_CAPACITY && |w.sys.ethTx| <= ETH_CAPACITY
  {}

  lemma StepsAreFew(s: NcmTx.Tx)
    requires NcmTx.Held(s)
    ensures NcmTransfer.StepsLeft(s) <= 11
  {}

  lemma PotentialIsSmall(w: World)
    requires WorldInv(w)
    ensures NcmTx.Held(w.sys.tx) && Potential(w.sys) <= 90
  {
    WorldHeld(w);
    SettledQueues(w);
    hide WorldInv, NcmTransfer.StepsLeft;
    StepsAreFew(w.sys.tx);
  }

  lemma AcceptedIsOwed(w: World)
    requires WorldInv(w) && w.sys.usb.boot.Normal?
    ensures NcmTx.Held(w.sys.tx) && Due(w, w.log.accepted) && Owed(w, w.log.accepted) == Potential(w.sys)
  {
    WorldHeld(w);
  }

  /** Bounded delivery: take any run that has booted, and any continuation that does not halt. Once the endpoint has
      been ready as many times as the potential says, which is never more than 90, it has taken the packets of every
      frame accepted by then, whatever else was read, sent or refused meanwhile; and it has taken nothing else if no
      more was accepted. */
  lemma AllAcceptedIsWritten(envs: seq<Env>, more: seq<Env>)
    requires Run(envs + more).Done?
    ensures Run(envs).Done?
    ensures NcmTx.Held(Run(envs).value.sys.tx) && Potential(Run(envs).value.sys) <= 90
    ensures var w, w' := Run(envs).value, Run(envs + more).value;
            w.sys.usb.boot.Normal? && Writable(more) >= Potential(w.sys) ==>
              && NcmTx.StreamPackets(w.log.accepted) <= w'.log.written
              && (w'.log.accepted == w.log.accepted ==> w'.log.written == NcmTx.StreamPackets(w.log.accepted))
  {
    hide Run, WorldInv, Iterate, Owed, Due, Potential, NcmTx.Held, NcmTx.StreamPackets;
    assert (envs + more)[..|envs|] == envs;
    RunPrefix(envs + more, |envs|);
    RunKeeps(envs);
    var w := Run(envs).value;
    PotentialIsSmall(w);
    if w.sys.usb.boot.Normal? && Writable(more) >= Potential(w.sys) {
      AcceptedIsOwed(w);
      OwedRun(envs, more, w.log.accepted);
      NothingOwed(Run(envs + more).value, w.log.accepted);
      WrittenIsPrefix(Run(envs + more).value);
    }
  }

  lemma {:induction false} RunNonempty(envs: seq<Env>)
    requires Run(envs).Done? && SendsNonempty(envs)
    ensures Nonempty(Run(envs).value)
  {
    if envs != [] {
      hide WorldInv, Nonempty, Iterate;
      var init := envs[..|envs| - 1];
      RunNonempty(init);
      RunKeeps(init);
      IterateNonempty(Run(init).value, envs[|envs| - 1]);
    }
  }

  /** After the run `envs`, every packet offered is the next one of `host`. */
  predicate HostedAfter(host: seq<Packet>, envs: seq<Env>, more: seq<Env>)
  {
    more == [] ||
    (var init := more[..|more| - 1];
     HostedAfter(host, envs, init)
     && (Run(envs + init).Done? ==> Serves(host, Run(envs + init).value, more[|more| - 1])))
  }

  lemma {:induction false} SafeAfter(host: seq<Packet>, envs: seq<Env>, more: seq<Env>)
    requires Run(envs).Done? && Run(envs).value.log.read <= host
    requires Safe(host) && HostedAfter(host, envs, more) && SendsNonempty(envs) && SendsNonempty(more)
    ensures Run(envs + more).Done? <==> StackReturns(more)
    ensures Run(envs + more).Done? ==>
              && WorldInv(Run(envs + more).value) && Nonempty(Run(envs + more).value)
              && Run(envs + more).value.log.read <= host
    decreases |more|
  {
    hide WorldInv, Nonempty, Iterate, Safe, Serves;
    if more == [] {
      assert envs + more == envs;
      RunKeeps(envs);
      RunNonempty(envs);
    } else {
      var init, e := more[..|more| - 1], more[|more| - 1];
      SafeAfter(host, envs, init);
      assert (envs + more)[..|envs + more| - 1] == envs + init;
      if StackReturns(init) {
        IterateSafe(host, Run(envs + init).value, e);
      }
    }
  }

  /** ... and a continuation that is fed from a stream the receiver survives -- with nothing at all, for instance, as
      the receiver has survived what it has read -- and has no empty frame halts exactly when a turn of the stack
      panics; otherwise 90 ready iterations are enough from any booted moment on. */
  lemma SafeDelivery(host: seq<Packet>, envs: seq<Env>, more: seq<Env>)
    requires Run(envs).Done? && Run(envs).value.log.read <= host
    requires Safe(host) && HostedAfter(host, envs, more) && SendsNonempty(envs) && SendsNonempty(more)
    ensures Run(envs + more).Done? <==> StackReturns(more)
    ensures Run(envs + more).Done? && Run(envs).value.sys.usb.boot.Normal? && Writable(more) >= 90 ==>
              NcmTx.StreamPackets(Run(envs).value.log.accepted) <= Run(envs + more).value.log.written
  {
    hide Run, WorldInv, Nonempty, Safe, HostedAfter, Potential, NcmTx.StreamPackets;
    SafeAfter(host, envs, more);
    if Run(envs + more).Done? {
      AllAcceptedIsWritten(envs, more);
    }
  }

  /** What has been read is such a stream. */
  lemma ReadIsSafe(envs: seq<Env>)
    requires Run(envs).Done?
    ensures Safe(Run(envs).value.log.read)
  {
    hide Run, NcmRx.Session;
    RunKeeps(envs);
    WorldSession(Run(envs).value);
  }
}
