/** The main loop: USB pump, then NCM, then the network stack, for ever. */
module MainLoop {
  import opened Wire
  import opened Ring
  import opened Ntb
  import NcmTx
  import NcmRx
  import NcmTraffic
  import UsbIp
  import NcmTransfer
  import Loopback

  const ETH_CAPACITY := 1

  /** Everything the loop keeps between iterations. */
  datatype Sys = Sys(
    usb: UsbIp.Usb,
    tx: NcmTx.Tx,
    rx: NcmRx.Rx,
    ethRx: seq<EthMsg>,  // StmPhy.rxq
    ethTx: seq<EthMsg>)  // StmPhy.txq

  /** A turn of the network stack and the servers on it: how many frames it takes, and the frames it sends. */
  datatype StackTurn = StackTurn(taken: nat, sent: seq<EthMsg>)

  /** What the outside does during one iteration: the bus, and the stack's turn, which may panic. */
  datatype Env = Env(usb: UsbIp.UsbEnv, stack: Outcome<StackTurn>)

  /** The history of a run. */
  datatype Log = Log(
    accepted: seq<EthMsg>,          // frames that found room in StmPhy.txq
    schedule: seq<NcmTx.TxInput>,   // what each transmit step was offered
    popped: seq<EthMsg>,            // frames the transmitter took
    pushed: seq<Packet>,            // packets it queued
    written: seq<Packet>,           // packets the IN endpoint took
    read: seq<Packet>,              // packets the OUT endpoint gave
    flushed: seq<Packet>,           // packets thrown away by the pump
    decoded: seq<EthMsg>,           // frames decoded from received blocks
    received: seq<EthMsg>)          // frames the network stack took

  datatype World = World(sys: Sys, log: Log)

  const INIT := World(Sys(UsbIp.INIT, NcmTx.INIT, NcmRx.INIT, [], []), Log([], [], [], [], [], [], [], [], []))

  predicate Sized(s: Sys)
  {
    |s.tx.buf| == NCM_MAX_SIZE && |s.rx.buf| == NCM_MAX_SIZE
  }

  /** What the transmit step of this iteration is offered, the pump having run. */
  function Offered(s: Sys, um: UsbIp.UsbMove): NcmTx.TxInput
  {
    NcmTx.TxInput(Head(s.ethTx), |um.next.txq| < UsbIp.TX_CAPACITY)
  }

  /** The items of `xs` that a push one by one would accept. */
  function Fitting<T>(items: seq<T>, capacity: nat, xs: seq<T>): seq<T>
  {
    xs[..if |items| >= capacity then 0 else Min(|xs|, capacity - |items|)]
  }

  /** One iteration, from the parts' own steps. */
  function Compose(w: World, um: UsbIp.UsbMove, tm: NcmTx.TxMove, rt: NcmRx.RxTurn, st: StackTurn): World
    requires |tm.popped| <= |w.sys.ethTx|
  {
    var ethRx := PushAll(w.sys.ethRx, ETH_CAPACITY, rt.frames);
    var k := Min(st.taken, |ethRx|);
    var rest := w.sys.ethTx[|tm.popped|..];
    var ethTx := PushAll(rest, ETH_CAPACITY, st.sent);
    World(
      Sys(um.next.(txq := um.next.txq + tm.pushed, rxq := []), tm.next, rt.next, ethRx[k..], ethTx),
      Log(w.log.accepted + Fitting(rest, ETH_CAPACITY, st.sent),
          w.log.schedule + [Offered(w.sys, um)],
          w.log.popped + tm.popped,
          w.log.pushed + tm.pushed,
          w.log.written + um.written,
          w.log.read + um.read,
          w.log.flushed + um.flushed,
          w.log.decoded + rt.frames,
          w.log.received + ethRx[..k]))
  }

  lemma PopsWhatIsThere(s: NcmTx.Tx, ethTx: seq<EthMsg>, room: bool)
    requires |s.buf| == NCM_MAX_SIZE && NcmTx.Step(s, Head(ethTx), room).Done?
    ensures var m := NcmTx.Step(s, Head(ethTx), room).value;
            |m.popped| <= |ethTx| && m.popped == ethTx[..|m.popped|] && |m.popped| <= 1 && |m.pushed| <= 1
            && (m.pushed != [] ==> room)
  {
    hide NcmTx.Load;
  }

  function Iterate(w: World, e: Env): (w': Outcome<World>)
    requires Sized(w.sys)
    ensures w'.Done? ==> Sized(w'.value.sys)
  {
    var um := UsbIp.RunLoop(w.sys.usb, e.usb);
    var x := Offered(w.sys, um);
    var tm :- NcmTx.Step(w.sys.tx, x.offer, x.room);
    var rt :- NcmRx.Turn(w.sys.rx, um.next.rxq);
    var st :- e.stack;
    PopsWhatIsThere(w.sys.tx, w.sys.ethTx, x.room);
    Done(Compose(w, um, tm, rt, st))
  }

  function Run(envs: seq<Env>): (w: Outcome<World>)
    ensures w.Done? ==> Sized(w.value.sys)
  {
    if envs == [] then Done(INIT)
    else
      var w :- Run(envs[..|envs| - 1]);
      Iterate(w, envs[|envs| - 1])
  }

  /** Every beginning of a run that does not panic does not panic. */
  lemma {:induction false} RunPrefix(envs: seq<Env>, k: nat)
    requires k <= |envs| && Run(envs).Done?
    ensures Run(envs[..k]).Done?
    decreases |envs|
  {
    hide Iterate;
    if k == |envs| {
      assert envs[..k] == envs;
    } else {
      RunPrefix(envs[..|envs| - 1], k);
      assert envs[..|envs| - 1][..k] == envs[..k];
    }
  }

  // ----- the invariant

  /** Queues within their capacities, nothing received left over. */
  predicate Settled(s: Sys)
  {
    && |s.usb.txq| <= UsbIp.TX_CAPACITY
    && |s.ethRx| <= ETH_CAPACITY && |s.ethTx| <= ETH_CAPACITY
    && s.usb.rxq == []
    && !s.rx.ready
  }

  /** The transmit machine has made a run of its own. */
  predicate TransmitRuns(w: World)
  {
    NcmTx.Run(w.log.schedule) == Done(NcmTx.TxRun(w.sys.tx, w.log.popped, w.log.pushed))
  }

  /** The receive machine has had one packet a call. */
  predicate ReceiveRuns(w: World)
  {
    NcmRx.Session(NcmRx.INIT, w.log.read) == Done(NcmRx.RxTurn(w.sys.rx, w.log.decoded))
  }

  /** Packets and frames on their way out are all accounted for, in order. */
  predicate PathConserved(w: World)
  {
    && w.log.written + UsbIp.Pending(w.sys.usb) + w.sys.usb.txq == w.log.pushed
    && w.log.popped + w.sys.ethTx == w.log.accepted
    && w.log.flushed == []
  }

  predicate WorldInv(w: World)
  {
    Sized(w.sys) && Settled(w.sys) && TransmitRuns(w) && ReceiveRuns(w) && PathConserved(w)
  }

  lemma TransmitExtends(w: World, x: NcmTx.TxInput)
    requires Sized(w.sys) && TransmitRuns(w)
    ensures NcmTx.Step(w.sys.tx, x.offer, x.room).Panic? ==> NcmTx.Run(w.log.schedule + [x]).Panic?
    ensures NcmTx.Step(w.sys.tx, x.offer, x.room).Done? ==>
              var m := NcmTx.Step(w.sys.tx, x.offer, x.room).value;
              NcmTx.Run(w.log.schedule + [x])
              == Done(NcmTx.TxRun(m.next, w.log.popped + m.popped, w.log.pushed + m.pushed))
  {
    hide NcmTx.Step;
    assert (w.log.schedule + [x])[..|w.log.schedule|] == w.log.schedule;
  }

  lemma ReceiveExtends(w: World, ps: seq<Packet>)
    requires Sized(w.sys) && ReceiveRuns(w) && !w.sys.rx.ready && |ps| <= 1
    ensures NcmRx.Turn(w.sys.rx, ps).Panic? ==> NcmRx.Session(NcmRx.INIT, w.log.read + ps).Panic?
    ensures NcmRx.Turn(w.sys.rx, ps).Done? ==>
              var t := NcmRx.Turn(w.sys.rx, ps).value;
              NcmRx.Session(NcmRx.INIT, w.log.read + ps) == Done(NcmRx.RxTurn(t.next, w.log.decoded + t.frames))
  {
    if ps == [] {
      assert NcmRx.Turn(w.sys.rx, []) == Done(NcmRx.RxTurn(w.sys.rx, []));
      assert w.log.read + [] == w.log.read && w.log.decoded + [] == w.log.decoded;
    } else {
      hide NcmRx.Turn, NcmRx.Session;
      assert ps == [ps[0]];
      NcmRx.SessionSnoc(NcmRx.INIT, w.log.read, ps[0]);
    }
  }

  lemma FittingSurvive<T>(items: seq<T>, capacity: nat, xs: seq<T>)
    requires |items| <= capacity
    ensures PushAll(items, capacity, xs) == items + Fitting(items, capacity, xs)
    ensures |PushAll(items, capacity, xs)| <= capacity
  {
    PushAllKeepsFirst(items, capacity, xs);
  }

  /** Moving items along a path of three places, and adding some at the far end. */
  lemma PathStep<T>(out: seq<T>, mid: seq<T>, q: seq<T>, out': seq<T>, mid': seq<T>, q': seq<T>, more: seq<T>)
    requires out' + mid' + q' == mid + q
    ensures (out + out') + mid' + (q' + more) == (out + mid + q) + more
  {
    calc {
      (out + out') + mid' + (q' + more);
      out + (out' + mid' + q') + more;
      out + (mid + q) + more;
      (out + mid + q) + more;
    }
  }

  lemma PumpShrinksQueue(u: UsbIp.Usb, e: UsbIp.UsbEnv)
    ensures |UsbIp.RunLoop(u, e).next.txq| <= |u.txq|
  {}

  lemma PendingIgnoresQueues(u: UsbIp.Usb, q: seq<Packet>)
    ensures UsbIp.Pending(u.(txq := q, rxq := [])) == UsbIp.Pending(u)
  {}

  lemma ComposeKeepsPath(w: World, e: Env, um: UsbIp.UsbMove, tm: NcmTx.TxMove, rt: NcmRx.RxTurn, st: StackTurn)
    requires PathConserved(w) && Settled(w.sys)
    requires um == UsbIp.RunLoop(w.sys.usb, e.usb)
    requires |tm.popped| <= |w.sys.ethTx| && tm.popped == w.sys.ethTx[..|tm.popped|]
    ensures PathConserved(Compose(w, um, tm, rt, st))
  {
    hide UsbIp.RunLoop, PushAll, Fitting, UsbIp.Pending;
    UsbIp.OutgoingConserved(w.sys.usb, e.usb);
    UsbIp.IncomingConserved(w.sys.usb, e.usb);
    PathStep(w.log.written, UsbIp.Pending(w.sys.usb), w.sys.usb.txq,
             um.written, UsbIp.Pending(um.next), um.next.txq, tm.pushed);
    PendingIgnoresQueues(um.next, um.next.txq + tm.pushed);
    var rest := w.sys.ethTx[|tm.popped|..];
    FittingSurvive(rest, ETH_CAPACITY, st.sent);
    assert tm.popped + rest == w.sys.ethTx;
    PathStep(w.log.popped, [], w.sys.ethTx, tm.popped, [], rest, Fitting(rest, ETH_CAPACITY, st.sent));
    assert w.log.popped + [] == w.log.popped && w.log.popped + tm.popped + [] == w.log.popped + tm.popped;
  }

  lemma ComposeSettles(w: World, e: Env, um: UsbIp.UsbMove, tm: NcmTx.TxMove, rt: NcmRx.RxTurn, st: StackTurn)
    requires Settled(w.sys)
    requires um == UsbIp.RunLoop(w.sys.usb, e.usb)
    requires |tm.popped| <= |w.sys.ethTx|
    requires |tm.pushed| <= 1 && (tm.pushed != [] ==> |um.next.txq| < UsbIp.TX_CAPACITY)
    requires !rt.next.ready
    ensures Settled(Compose(w, um, tm, rt, st).sys)
  {
    hide UsbIp.RunLoop, PushAll;
    PumpShrinksQueue(w.sys.usb, e.usb);
    FittingSurvive(w.sys.ethTx[|tm.popped|..], ETH_CAPACITY, st.sent);
    FittingSurvive(w.sys.ethRx, ETH_CAPACITY, rt.frames);
  }

  /** In a settled system the pump never flushes, and hands the receive machine at most the packet it read. */
  lemma PumpHandsOver(w: World, e: Env)
    requires Settled(w.sys)
    ensures var um := UsbIp.RunLoop(w.sys.usb, e.usb); um.next.rxq == um.read && |um.read| <= 1 && um.flushed == []
  {}

  /** One iteration keeps the invariant, and panics exactly when one of the two machines or the stack's turn does. */
  lemma IterateKeeps(w: World, e: Env)
    requires WorldInv(w)
    ensures var um := UsbIp.RunLoop(w.sys.usb, e.usb);
            Iterate(w, e).Panic? <==>
            NcmTx.Run(w.log.schedule + [Offered(w.sys, um)]).Panic?
            || NcmRx.Session(NcmRx.INIT, w.log.read + um.read).Panic?
            || e.stack.Panic?
    ensures Iterate(w, e).Done? ==> WorldInv(Iterate(w, e).value)
  {
    var um := UsbIp.RunLoop(w.sys.usb, e.usb);
    var x := Offered(w.sys, um);
    PumpHandsOver(w, e);
    hide UsbIp.RunLoop, NcmTx.Step, NcmRx.Turn, NcmTx.Run, NcmRx.Session, PathConserved;
    TransmitExtends(w, x);
    ReceiveExtends(w, um.next.rxq);
    if NcmTx.Step(w.sys.tx, x.offer, x.room).Done? && NcmRx.Turn(w.sys.rx, um.next.rxq).Done? && e.stack.Done? {
      var tm, rt := NcmTx.Step(w.sys.tx, x.offer, x.room).value, NcmRx.Turn(w.sys.rx, um.next.rxq).value;
      PopsWhatIsThere(w.sys.tx, w.sys.ethTx, x.room);
      ComposeKeepsPath(w, e, um, tm, rt, e.stack.value);
      ComposeSettles(w, e, um, tm, rt, e.stack.value);
    }
  }

  lemma InitSettled()
    ensures WorldInv(INIT)
  {
    hide Zeros;
    assert NcmTx.Run([]) == Done(NcmTx.TxRun(NcmTx.INIT, [], []));
    assert NcmRx.Session(NcmRx.INIT, []) == Done(NcmRx.RxTurn(NcmRx.INIT, []));
  }

  /** The transmitter is refused exactly when eight packets wait, and each frame queue holds one frame. */
  lemma QueueSizes(w: World, e: Env)
    requires WorldInv(w)
    ensures |w.sys.usb.txq| <= 8 && |w.sys.ethRx| <= 1 && |w.sys.ethTx| <= 1
    ensures var um := UsbIp.RunLoop(w.sys.usb, e.usb); Offered(w.sys, um).room <==> |um.next.txq| < 8
  {
    hide UsbIp.RunLoop, NcmTx.Run, NcmRx.Session;
  }

  /** Main-loop safety, over every run: whenever an iteration starts the USB receive queue is empty and no block
      waits to be decoded, nothing was ever flushed, each machine has made a run of its own, and packets and
      frames are conserved along the way out. */
  lemma {:induction false} RunKeeps(envs: seq<Env>)
    requires Run(envs).Done?
    ensures WorldInv(Run(envs).value)
  {
    if envs == [] {
      InitSettled();
    } else {
      hide WorldInv, Iterate;
      RunKeeps(envs[..|envs| - 1]);
      IterateKeeps(Run(envs[..|envs| - 1]).value, envs[|envs| - 1]);
    }
  }

  /** Whole-path conservation, over every run: what the endpoint took, the pending packet, the queue and what the
      transmitter still has to push are together the packets of the frames taken, in order; their bytes, with
      the unsent tail of the transmit buffer, are those frames' blocks. */
  lemma WholePathConserved(envs: seq<Env>)
    requires Run(envs).Done?
    ensures var w := Run(envs).value;
            var onTheWay := w.log.written + UsbIp.Pending(w.sys.usb) + w.sys.usb.txq;
            && NcmTx.Held(w.sys.tx)
            && onTheWay + NcmTx.Remaining(w.sys.tx) == NcmTx.StreamPackets(w.log.popped)
            && Bytes(onTheWay) + NcmTransfer.UnsentTail(w.sys.tx) == NcmTransfer.Blocks(w.log.popped)
            && w.log.popped + w.sys.ethTx == w.log.accepted
  {
    RunKeeps(envs);
    hide Run, Bytes, UsbIp.Pending, NcmTransfer.UnsentTail, NcmTransfer.Blocks, NcmTx.Remaining, NcmTx.StreamPackets;
    NcmTransfer.BytesConserved(Run(envs).value.log.schedule);
  }

  lemma InOrder<T>(out: seq<T>, mid: seq<T>, q: seq<T>, out': seq<T>, mid': seq<T>, q': seq<T>)
    requires out' + mid' + q' == mid + q
    ensures out + out' <= out + mid + q
  {
    assert out + (out' + mid' + q') == out + mid + q;
    assert out + out' + (mid' + q') == out + mid + q;
  }

  lemma FirstIsTaken<T>(xs: seq<T>, capacity: nat, k: nat)
    requires xs != [] && capacity > 0 && k >= 1
    ensures PushAll([], capacity, xs)[..Min(k, |PushAll([], capacity, xs)|)] != []
    ensures PushAll([], capacity, xs)[..Min(k, |PushAll([], capacity, xs)|)][0] == xs[0]
  {
    PushAllKeepsFirst<T>([], capacity, xs);
    assert [] + xs == xs;
  }

  lemma ComposeOrder(w: World, e: Env, um: UsbIp.UsbMove, tm: NcmTx.TxMove, rt: NcmRx.RxTurn, st: StackTurn)
    requires PathConserved(w) && um == UsbIp.RunLoop(w.sys.usb, e.usb)
    requires |tm.popped| <= |w.sys.ethTx| && tm.popped == w.sys.ethTx[..|tm.popped|]
    ensures var w' := Compose(w, um, tm, rt, st); w'.log.written <= w.log.pushed && w'.log.popped <= w.log.accepted
  {
    hide UsbIp.RunLoop, PushAll, Fitting, UsbIp.Pending;
    UsbIp.OutgoingConserved(w.sys.usb, e.usb);
    InOrder(w.log.written, UsbIp.Pending(w.sys.usb), w.sys.usb.txq, um.written, UsbIp.Pending(um.next), um.next.txq);
    InOrder(w.log.popped, [], w.sys.ethTx, tm.popped, [], w.sys.ethTx[|tm.popped|..]);
    assert w.log.popped + [] == w.log.popped;
  }

  lemma ComposeDelivers(w: World, um: UsbIp.UsbMove, tm: NcmTx.TxMove, rt: NcmRx.RxTurn, st: StackTurn)
    requires |tm.popped| <= |w.sys.ethTx|
    requires w.sys.ethRx == [] && rt.frames != [] && st.taken >= 1
    ensures var w' := Compose(w, um, tm, rt, st);
            |w.log.received| < |w'.log.received| && w'.log.received[|w.log.received|] == rt.frames[0]
  {
    hide PushAll, Fitting;
    FirstIsTaken(rt.frames, ETH_CAPACITY, st.taken);
  }

  /** The order within an iteration: a packet written was queued in an earlier one, and a frame the transmitter takes
      was sent in an earlier one; but a frame decoded can be taken by the stack in the same iteration, and is, if it
      finds the queue empty and the stack takes frames. */
  lemma OrderOfTurn(w: World, e: Env)
    requires WorldInv(w) && Iterate(w, e).Done?
    ensures var w' := Iterate(w, e).value;
            && w'.log.written <= w.log.pushed
            && w'.log.popped <= w.log.accepted
            && (w.sys.ethRx == [] && |w.log.decoded| < |w'.log.decoded| && e.stack.value.taken >= 1 ==>
                  |w.log.received| < |w'.log.received|
                  && w'.log.received[|w.log.received|] == w'.log.decoded[|w.log.decoded|])
  {
    hide UsbIp.RunLoop, NcmTx.Step, NcmRx.Turn, NcmTx.Run, NcmRx.Session, PathConserved, PushAll, Fitting;
    var um := UsbIp.RunLoop(w.sys.usb, e.usb);
    var x := Offered(w.sys, um);
    PopsWhatIsThere(w.sys.tx, w.sys.ethTx, x.room);
    var tm, rt := NcmTx.Step(w.sys.tx, x.offer, x.room).value, NcmRx.Turn(w.sys.rx, um.next.rxq).value;
    ComposeOrder(w, e, um, tm, rt, e.stack.value);
    if w.sys.ethRx == [] && rt.frames != [] && e.stack.value.taken >= 1 {
      ComposeDelivers(w, um, tm, rt, e.stack.value);
    }
  }

  // ----- booting

  /** The iterations in which the bus takes a notification. */
  function Notified(envs: seq<Env>): nat
  {
    if envs == [] then 0
    else Notified(envs[..|envs| - 1]) + (if envs[|envs| - 1].usb.notified then 1 else 0)
  }

  lemma IterateBoots(w: World, e: Env)
    requires Sized(w.sys) && Iterate(w, e).Done?
    ensures var w' := Iterate(w, e).value;
            && (!w.sys.usb.boot.Normal? ==> w'.log.read == w.log.read && w'.log.written == w.log.written)
            && w'.sys.usb.boot == if !e.usb.notified then w.sys.usb.boot
                                  else if w.sys.usb.boot.Speed? then UsbIp.Notify else UsbIp.Normal
  {
    UsbIp.BootOrder(w.sys.usb, e.usb);
    hide UsbIp.RunLoop, NcmTx.Step, NcmRx.Turn;
    assert w.log.read + [] == w.log.read && w.log.written + [] == w.log.written;
  }

  /** Over every run from power-on: the pump is in its normal state exactly from the second accepted notification on,
      and before that no packet has been read and none written. */
  lemma {:induction false} BootsFirst(envs: seq<Env>)
    requires Run(envs).Done?
    ensures var w := Run(envs).value;
            && w.sys.usb.boot == (if Notified(envs) == 0 then UsbIp.Speed
                                  else if Notified(envs) == 1 then UsbIp.Notify else UsbIp.Normal)
            && (Notified(envs) < 2 ==> w.log.read == [] && w.log.written == [])
  {
    if envs != [] {
      hide Iterate;
      var init := envs[..|envs| - 1];
      BootsFirst(init);
      IterateBoots(Run(init).value, envs[|envs| - 1]);
    }
  }

  // ----- no panics

  /** No frame waiting or offered so far is empty. */
  predicate Nonempty(w: World)
  {
    Loopback.NoneEmpty(w.sys.ethTx) && NcmTx.NoEmptyFrame(w.log.schedule)
  }

  lemma PushAllMembers(items: seq<EthMsg>, xs: seq<EthMsg>)
    requires |items| <= ETH_CAPACITY && Loopback.NoneEmpty(items) && Loopback.NoneEmpty(xs)
    ensures Loopback.NoneEmpty(PushAll(items, ETH_CAPACITY, xs))
  {
    PushAllKeepsFirst(items, ETH_CAPACITY, xs);
  }

  /** The stack sends no empty frame in this turn. */
  predicate NoEmptySent(e: Env)
  {
    e.stack.Done? ==> Loopback.NoneEmpty(e.stack.value.sent)
  }

  lemma IterateNonempty(w: World, e: Env)
    requires WorldInv(w) && Nonempty(w) && NoEmptySent(e)
    ensures NcmTx.Run(w.log.schedule + [Offered(w.sys, UsbIp.RunLoop(w.sys.usb, e.usb))]).Done?
    ensures Iterate(w, e).Done? ==> Nonempty(Iterate(w, e).value)
  {
    var x := Offered(w.sys, UsbIp.RunLoop(w.sys.usb, e.usb));
    assert NcmTx.NoEmptyFrame(w.log.schedule + [x]);
    hide NcmTx.Run, NcmTx.Step, NcmRx.Turn, UsbIp.RunLoop, PathConserved, TransmitRuns, ReceiveRuns, PushAll;
    NcmTx.NeverPanics(w.log.schedule + [x]);
    if Iterate(w, e).Done? {
      var tm := NcmTx.Step(w.sys.tx, x.offer, x.room).value;
      PopsWhatIsThere(w.sys.tx, w.sys.ethTx, x.room);
      PushAllMembers(w.sys.ethTx[|tm.popped|..], e.stack.value.sent);
    }
  }

  /** The packet the endpoint offers is the next one of `host`. */
  predicate Serves(host: seq<Packet>, w: World, e: Env)
  {
    e.usb.read.Some? ==> w.log.read + [e.usb.read.value] <= host
  }

  /** A stream the receive machine survives. */
  ghost predicate Safe(host: seq<Packet>)
  {
    NcmRx.Session(NcmRx.INIT, host).Done?
  }

  lemma SafePrefix(host: seq<Packet>, ps: seq<Packet>)
    requires Safe(host) && ps <= host
    ensures NcmRx.Session(NcmRx.INIT, ps).Done?
    ensures NcmRx.Session(NcmRx.INIT, ps).value.frames <= NcmRx.Session(NcmRx.INIT, host).value.frames
  {
    hide NcmRx.Session;
    assert ps + host[|ps|..] == host;
    NcmRx.SessionConcat(NcmRx.INIT, ps, host[|ps|..]);
  }

  lemma ReadsNext(host: seq<Packet>, w: World, e: Env)
    requires WorldInv(w) && w.log.read <= host && Serves(host, w, e)
    ensures w.log.read + UsbIp.RunLoop(w.sys.usb, e.usb).read <= host
    ensures Iterate(w, e).Done? ==> Iterate(w, e).value.log.read <= host
  {
    UsbIp.IncomingConserved(w.sys.usb, e.usb);
    hide UsbIp.RunLoop, NcmTx.Step, NcmRx.Turn, PathConserved, TransmitRuns, ReceiveRuns;
    var read := UsbIp.RunLoop(w.sys.usb, e.usb).read;
    if read == [] {
      assert w.log.read + read == w.log.read;
    } else {
      assert read == [e.usb.read.value];
    }
  }

  /** An iteration fed from a safe stream, with no empty frame, panics exactly when the stack's turn does. */
  lemma IterateSafe(host: seq<Packet>, w: World, e: Env)
    requires WorldInv(w) && Nonempty(w) && NoEmptySent(e)
    requires Safe(host) && w.log.read <= host && Serves(host, w, e)
    ensures Iterate(w, e).Done? <==> e.stack.Done?
    ensures Iterate(w, e).Done? ==>
              WorldInv(Iterate(w, e).value) && Nonempty(Iterate(w, e).value) && Iterate(w, e).value.log.read <= host
  {
    hide WorldInv, Nonempty, Iterate, NcmTx.Run, NcmRx.Session, UsbIp.RunLoop, Offered, Safe, Serves;
    IterateKeeps(w, e);
    IterateNonempty(w, e);
    ReadsNext(host, w, e);
    SafePrefix(host, w.log.read + UsbIp.RunLoop(w.sys.usb, e.usb).read);
  }

  /** Every packet offered in the run is the next one of `host`. */
  predicate Hosted(host: seq<Packet>, envs: seq<Env>)
  {
    envs == [] ||
    (var init := envs[..|envs| - 1];
     Hosted(host, init) && (Run(init).Done? ==> Serves(host, Run(init).value, envs[|envs| - 1])))
  }

  predicate SendsNonempty(envs: seq<Env>)
  {
    forall i :: 0 <= i < |envs| ==> NoEmptySent(envs[i])
  }

  /** No turn of the stack panics. */
  predicate StackReturns(envs: seq<Env>)
  {
    envs == [] || (StackReturns(envs[..|envs| - 1]) && envs[|envs| - 1].stack.Done?)
  }

  lemma IterateReturns(w: World, e: Env)
    requires Sized(w.sys) && Iterate(w, e).Done?
    ensures e.stack.Done?
  {
    hide UsbIp.RunLoop, NcmTx.Step, NcmRx.Turn;
  }

  lemma {:induction false} RunReturns(envs: seq<Env>)
    requires Run(envs).Done?
    ensures StackReturns(envs)
  {
    if envs != [] {
      RunReturns(envs[..|envs| - 1]);
      IterateReturns(Run(envs[..|envs| - 1]).value, envs[|envs| - 1]);
    }
  }

  /** A run fed from a stream the receiver survives, with no empty frame, panics exactly when a turn of the stack
      does. */
  lemma {:induction false} RunSafe(host: seq<Packet>, envs: seq<Env>)
    requires Safe(host) && Hosted(host, envs) && SendsNonempty(envs)
    ensures Run(envs).Done? <==> StackReturns(envs)
    ensures Run(envs).Done? ==>
              WorldInv(Run(envs).value) && Nonempty(Run(envs).value) && Run(envs).value.log.read <= host
  {
    if envs == [] {
      InitSettled();
    } else {
      hide WorldInv, Nonempty, Iterate, Safe, Serves;
      var init := envs[..|envs| - 1];
      RunSafe(host, init);
      if Run(init).Done? {
        IterateSafe(host, Run(init).value, envs[|envs| - 1]);
      }
    }
  }

  lemma WorldSession(w: World)
    requires WorldInv(w)
    ensures NcmRx.Session(NcmRx.INIT, w.log.read) == Done(NcmRx.RxTurn(w.sys.rx, w.log.decoded))
  {}

  /** Over every run whose frames are not empty and whose packets come from blocks that are readable where they lie,
      sent in any way and with junk in between, nothing but the stack's turn can panic, and the frames decoded are the
      first frames of those blocks. */
  lemma PanicsOnlyInStack(gs: seq<NcmTraffic.Segment>, envs: seq<Env>)
    requires NcmTraffic.ValidTraffic(gs) && NcmTraffic.Survives(gs)
    requires Hosted(NcmTraffic.TrafficPackets(gs), envs) && SendsNonempty(envs)
    ensures Run(envs).Done? <==> StackReturns(envs)
    ensures Run(envs).Done? ==> Frames(Run(envs).value.log.decoded) <= NcmTraffic.TrafficFrames(gs)
  {
    hide WorldInv, Nonempty, Run, NcmRx.Session, Frames, StackReturns;
    hide NcmTraffic.TrafficPackets, NcmTraffic.TrafficFrames, NcmTraffic.ValidTraffic, NcmTraffic.Survives;
    NcmTraffic.TrafficExactly(gs);
    RunSafe(NcmTraffic.TrafficPackets(gs), envs);
    if Run(envs).Done? {
      WorldSession(Run(envs).value);
      NcmTraffic.TrafficPrefix(gs, Run(envs).value.log.read);
    }
  }

  /** In particular on traffic by the standard, of plain blocks with frames of up to 576 bytes. */
  lemma StandardTrafficIsSafe(gs: seq<NcmTraffic.Segment>, envs: seq<Env>)
    requires NcmTraffic.ValidTraffic(gs) && NcmTraffic.PlainTraffic(gs)
    requires NcmTraffic.AllShort(NcmTraffic.StandardTraffic(gs))
    requires Hosted(NcmTraffic.TrafficPackets(gs), envs) && SendsNonempty(envs)
    ensures Run(envs).Done? <==> StackReturns(envs)
    ensures Run(envs).Done? ==> Frames(Run(envs).value.log.decoded) <= NcmTraffic.StandardTraffic(gs)
  {
    hide Run, Frames, StackReturns, Hosted, SendsNonempty;
    hide NcmTraffic.TrafficPackets, NcmTraffic.TrafficFrames, NcmTraffic.ValidTraffic, NcmTraffic.Survives;
    hide NcmTraffic.StandardTraffic, NcmTraffic.PlainTraffic, NcmTraffic.AllShort;
    NcmTraffic.PlainTrafficFrames(gs);
    PanicsOnlyInStack(gs, envs);
  }

  /** No run gets past traffic with a block that is not readable where it lies. */
  lemma HaltsOnTraffic(gs: seq<NcmTraffic.Segment>, envs: seq<Env>)
    requires NcmTraffic.ValidTraffic(gs) && !NcmTraffic.Survives(gs)
    ensures Run(envs).Done? ==> !(NcmTraffic.TrafficPackets(gs) <= Run(envs).value.log.read)
  {
    hide WorldInv, Run, NcmRx.Session;
    hide NcmTraffic.TrafficPackets, NcmTraffic.ValidTraffic, NcmTraffic.Survives;
    NcmTraffic.TrafficExactly(gs);
    if Run(envs).Done? && NcmTraffic.TrafficPackets(gs) <= Run(envs).value.log.read {
      RunKeeps(envs);
      WorldSession(Run(envs).value);
      SafePrefix(Run(envs).value.log.read, NcmTraffic.TrafficPackets(gs));
      assert false;
    }
  }
}
