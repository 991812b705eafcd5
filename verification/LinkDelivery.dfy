/** How long two devices back to back take to hand every accepted frame over. */
module LinkDelivery {
  import opened Wire
  import opened MainLoop
  import opened Pair = Link
  import NcmTx
  import NcmRx
  import UsbIp
  import Loopback
  import Delivery

  // ----- what the packets of some frames decode to

  lemma FrameNotEmpty(n: u16, m: EthMsg)
    ensures NcmTx.FramePackets(n, m.Payload()) != []
  {
    hide NcmTx.Chunks;
  }

  lemma {:induction false} StreamLonger(ms: seq<EthMsg>, k: nat)
    requires k < |ms|
    ensures |NcmTx.StreamPackets(ms[..k])| < |NcmTx.StreamPackets(ms)|
    decreases |ms|
  {
    var init := ms[..|ms| - 1];
    FrameNotEmpty((|ms| - 1) % 0x1_0000, ms[|ms| - 1]);
    assert |NcmTx.StreamPackets(init)| < |NcmTx.StreamPackets(ms)|;
    hide NcmTx.StreamPackets;
    assert init[..k] == ms[..k];
    if k < |init| {
      StreamLonger(init, k);
    } else {
      assert ms[..k] == init;
    }
  }

  /** A transmitter that has nothing more to push for the last frame it took has completed it. */
  lemma NothingRemains(s: NcmTx.Tx)
    requires NcmTx.Held(s) && NcmTx.Remaining(s) == []
    ensures !s.state.Header? && !s.state.Sending?
  {
    hide NcmTx.Chunks, NcmTx.Trailer;
  }

  /** The transmitter has taken the frames `a` and pushed all their packets. */
  predicate Pushed(r: NcmTx.TxRun, a: seq<EthMsg>)
  {
    && a <= r.popped && NcmTx.Held(r.s)
    && (a == r.popped ==> NcmTx.Remaining(r.s) == [])
  }

  lemma PushedWhole(schedule: seq<NcmTx.TxInput>, a: seq<EthMsg>)
    requires NcmTx.NoEmptyFrame(schedule) && NcmTx.Run(schedule).Done?
    requires Pushed(NcmTx.Run(schedule).value, a) && NcmTx.Run(schedule).value.popped == a
    ensures Safe(NcmTx.StreamPackets(a))
    ensures Frames(NcmRx.Session(NcmRx.INIT, NcmTx.StreamPackets(a)).value.frames) == Frames(a)
  {
    var r := NcmTx.Run(schedule).value;
    NcmTx.RunKeepsInvariant(schedule);
    assert r.pushed == NcmTx.StreamPackets(a) by {
      hide NcmTx.Run, NcmTx.StreamPackets, NcmTx.Remaining;
      assert r.pushed + [] == r.pushed;
    }
    NothingRemains(r.s);
    hide NcmTx.Run, NcmRx.Session, NcmTx.StreamPackets, NcmTx.Remaining, NcmTx.RunInv;
    Loopback.LoopbackIsIdentity(schedule);
  }

  /** A run one step shorter has pushed them too, unless this step took the last of them. */
  lemma PushedBefore(schedule: seq<NcmTx.TxInput>, a: seq<EthMsg>)
    requires NcmTx.NoEmptyFrame(schedule) && NcmTx.Run(schedule).Done? && schedule != []
    requires a <= NcmTx.Run(schedule).value.popped && a != NcmTx.Run(schedule).value.popped
    ensures var init := schedule[..|schedule| - 1];
            NcmTx.NoEmptyFrame(init) && NcmTx.Run(init).Done? && Pushed(NcmTx.Run(init).value, a)
  {
    var init, x := schedule[..|schedule| - 1], schedule[|schedule| - 1];
    NcmTx.RunKeepsInvariant(init);
    var r := NcmTx.Run(init).value;
    NcmTx.ExtendTakes(r, x);
    hide NcmTx.Run, NcmTx.Load, NcmTx.Remaining, NcmTx.Numbered, NcmTx.Tabled, NcmTx.Loaded, NcmTx.Conserved;
    assert r.popped + [] == r.popped;
    if r.s.state.Ready? {
      NcmTx.ReadyRemaining(r.s);
    } else {
      NcmTx.StepMovesPackets(r.s, x.offer, x.room);
    }
  }

  /** The packets of frames that have all been pushed decode to exactly these frames. */
  lemma {:induction false} StreamDecodes(schedule: seq<NcmTx.TxInput>, a: seq<EthMsg>)
    requires NcmTx.NoEmptyFrame(schedule) && NcmTx.Run(schedule).Done? && Pushed(NcmTx.Run(schedule).value, a)
    ensures Safe(NcmTx.StreamPackets(a))
    ensures Frames(NcmRx.Session(NcmRx.INIT, NcmTx.StreamPackets(a)).value.frames) == Frames(a)
    decreases |schedule|
  {
    if a == NcmTx.Run(schedule).value.popped {
      PushedWhole(schedule, a);
    } else {
      assert schedule != [];
      hide NcmTx.Run, NcmRx.Session, Pushed, Safe, NcmTx.StreamPackets;
      PushedBefore(schedule, a);
      StreamDecodes(schedule[..|schedule| - 1], a);
    }
  }

  lemma WrittenIsPushed(w: World, a: seq<EthMsg>)
    requires Sound(w) && a <= w.log.accepted && NcmTx.StreamPackets(a) <= w.log.written
    ensures Pushed(NcmTx.TxRun(w.sys.tx, w.log.popped, w.log.pushed), a)
  {
    hide Nonempty, NcmTx.StreamPackets, NcmTx.Remaining, WorldInv;
    Delivery.WorldHeld(w);
    Delivery.WrittenIsPrefix(w);
    assert a == w.log.accepted[..|a|];
    if |w.log.popped| < |a| {
      assert a[..|w.log.popped|] == w.log.accepted[..|w.log.popped|] == w.log.popped;
      StreamLonger(a, |w.log.popped|);
    }
    if a == w.log.popped {
      assert |w.log.pushed| == |NcmTx.StreamPackets(a)|;
    }
  }

  /** A device that has read all that another wrote for the frames `a` has decoded them. */
  lemma ReadIsDecoded(reader: World, writer: World, a: seq<EthMsg>)
    requires Sound(reader) && Sound(writer) && Follows(reader, writer)
    requires a <= writer.log.accepted && NcmTx.StreamPackets(a) <= writer.log.written
    requires |reader.log.read| >= |NcmTx.StreamPackets(a)|
    ensures Frames(a) <= Frames(reader.log.decoded)
  {
    WrittenIsPushed(writer, a);
    WorldRun(writer);
    WorldSession(reader);
    hide NcmTx.Run, NcmRx.Session, NcmTx.StreamPackets, NcmTx.Remaining, WorldInv, Pushed;
    StreamDecodes(writer.log.schedule, a);
    assert NcmTx.StreamPackets(a) == writer.log.written[..|NcmTx.StreamPackets(a)|] <= reader.log.read;
    SafePrefix(reader.log.read, NcmTx.StreamPackets(a));
    FramesPrefix(NcmRx.Session(NcmRx.INIT, NcmTx.StreamPackets(a)).value.frames, reader.log.decoded);
  }

  // ----- runs of the link

  lemma {:induction false} LinkPrefix(moves: seq<Move>, k: nat)
    requires k <= |moves| && Pair.Run(moves).Done?
    ensures Pair.Run(moves[..k]).Done?
    decreases |moves|
  {
    hide Pair.Step;
    if k == |moves| {
      assert moves[..k] == moves;
    } else {
      LinkPrefix(moves[..|moves| - 1], k);
      assert moves[..|moves| - 1][..k] == moves[..k];
    }
  }

  /** The last move of a run. */
  lemma LastMove(moves: seq<Move>, init: seq<Move>, m: Move)
    requires Pair.Run(moves + (init + [m])).Done?
    ensures Pair.Run(moves + init).Done?
    ensures Pair.Step(Pair.Run(moves + init).value, m) == Pair.Run(moves + (init + [m]))
    ensures Pair.SendsNonempty(moves + (init + [m])) ==> Pair.SendsNonempty(moves + init)
  {
    hide Pair.Step;
    var all := moves + (init + [m]);
    assert all[..|all| - 1] == moves + init;
  }

  function Side(l: Link, left: bool): World { if left then l.left else l.right }

  /** The iterations of one side that find its endpoint ready to write, and those that find a packet to read if the
      peer has written one. */
  function Writes(moves: seq<Move>, left: bool): nat
  {
    if moves == [] then 0
    else
      var m := moves[|moves| - 1];
      Writes(moves[..|moves| - 1], left) + (if m.onLeft == left && m.env.usb.writable then 1 else 0)
  }

  function Reads(moves: seq<Move>, left: bool): nat
  {
    if moves == [] then 0
    else
      var m := moves[|moves| - 1];
      Reads(moves[..|moves| - 1], left) + (if m.onLeft == left && m.env.usb.read.Some? then 1 else 0)
  }

  /** The other side's move leaves this side alone; its own move is an iteration. */
  lemma MoveOfSide(l: Link, m: Move, left: bool)
    requires Shaped(l) && Pair.Step(l, m).Done?
    ensures var l' := Pair.Step(l, m).value;
            var e := Fed(Side(l, m.onLeft), Side(l, !m.onLeft), m.env);
            && (m.onLeft != left ==> Side(l', left) == Side(l, left))
            && (m.onLeft == left ==> Sized(Side(l, left).sys) && Iterate(Side(l, left), e) == Done(Side(l', left)))
            && e.usb.writable == m.env.usb.writable
  {
    hide Iterate;
  }

  // ----- writing

  lemma OwedByMove(l: Link, m: Move, left: bool, a: seq<EthMsg>)
    requires Shaped(l) && Pair.Step(l, m).Done?
    requires WorldInv(Side(l, left)) && Delivery.Due(Side(l, left), a)
    ensures var w, w' := Side(l, left), Side(Pair.Step(l, m).value, left);
            && WorldInv(w') && Delivery.Due(w', a) && NcmTx.Held(w.sys.tx) && NcmTx.Held(w'.sys.tx)
            && Delivery.Owed(w', a) <= Delivery.Owed(w, a)
            && (m.onLeft == left && m.env.usb.writable && Delivery.Owed(w, a) > 0 ==>
                  Delivery.Owed(w', a) < Delivery.Owed(w, a))
  {
    hide WorldInv, Iterate, Delivery.Due, Delivery.Owed, NcmTx.Held, Fed;
    MoveOfSide(l, m, left);
    Delivery.WorldHeld(Side(l, left));
    if m.onLeft == left {
      Delivery.OwedLowers(Side(l, left), a, Fed(Side(l, left), Side(l, !left), m.env));
    }
  }

  lemma {:induction false} OwedByLink(moves: seq<Move>, more: seq<Move>, left: bool, a: seq<EthMsg>)
    requires Pair.Run(moves).Done? && Pair.Run(moves + more).Done?
    requires WorldInv(Side(Pair.Run(moves).value, left)) && Delivery.Due(Side(Pair.Run(moves).value, left), a)
    ensures var w, w' := Side(Pair.Run(moves).value, left), Side(Pair.Run(moves + more).value, left);
            && WorldInv(w') && Delivery.Due(w', a) && NcmTx.Held(w.sys.tx) && NcmTx.Held(w'.sys.tx)
            && (Delivery.Owed(w', a) == 0 || Delivery.Owed(w', a) + Writes(more, left) <= Delivery.Owed(w, a))
    decreases |more|
  {
    hide WorldInv, Pair.Run, Pair.Step, Delivery.Due, Delivery.Owed, NcmTx.Held, Side;
    Delivery.WorldHeld(Side(Pair.Run(moves).value, left));
    if more == [] {
      assert moves + more == moves;
    } else {
      var init, m := more[..|more| - 1], more[|more| - 1];
      assert more == init + [m];
      LastMove(moves, init, m);
      OwedByLink(moves, init, left, a);
      OwedByMove(Pair.Run(moves + init).value, m, left, a);
    }
  }

  /** After 90 ready iterations of a booted side, the packets of all it had accepted are written. */
  lemma AcceptedIsWritten(moves: seq<Move>, more: seq<Move>, left: bool)
    requires Pair.Run(moves).Done? && Pair.Run(moves + more).Done?
    requires WorldInv(Side(Pair.Run(moves).value, left)) && Side(Pair.Run(moves).value, left).sys.usb.boot.Normal?
    requires Writes(more, left) >= 90
    ensures var a, w' := Side(Pair.Run(moves).value, left).log.accepted, Side(Pair.Run(moves + more).value, left);
            a <= w'.log.accepted && NcmTx.StreamPackets(a) <= w'.log.written
  {
    var w := Side(Pair.Run(moves).value, left);
    var a := w.log.accepted;
    hide WorldInv, Pair.Run, Delivery.Owed, NcmTx.Held, Side, Delivery.Potential, NcmTx.StreamPackets;
    Delivery.AcceptedIsOwed(w);
    Delivery.PotentialIsSmall(w);
    OwedByLink(moves, more, left, a);
    Delivery.NothingOwed(Side(Pair.Run(moves + more).value, left), a);
  }

  // ----- reading

  /** A booted device reads a packet whenever its endpoint holds one. */
  lemma ReadsOne(w: World, e: Env)
    requires WorldInv(w) && Iterate(w, e).Done?
    ensures var w' := Iterate(w, e).value;
            && w.log.read <= w'.log.read && w.log.written <= w'.log.written
            && (w.sys.usb.boot.Normal? ==> w'.sys.usb.boot.Normal?)
            && (w.sys.usb.boot.Normal? && e.usb.read.Some? ==> |w'.log.read| == |w.log.read| + 1)
  {
    UsbIp.IncomingConserved(w.sys.usb, e.usb);
    UsbIp.BootOrder(w.sys.usb, e.usb);
    hide UsbIp.RunLoop, NcmTx.Step, NcmRx.Turn, TransmitRuns, ReceiveRuns, PathConserved;
  }

  /** `n` packets have been written, and the reader has read `k` of them or all. */
  predicate ReadSoFar(l: Link, left: bool, n: nat, k: nat)
  {
    && Side(l, left).sys.usb.boot.Normal?
    && |Side(l, !left).log.written| >= n
    && (|Side(l, left).log.read| >= n || |Side(l, left).log.read| >= k)
  }

  lemma ReadByMove(l: Link, m: Move, left: bool, n: nat, k: nat)
    requires Shaped(l) && Pair.Step(l, m).Done? && WorldInv(l.left) && WorldInv(l.right) && ReadSoFar(l, left, n, k)
    ensures ReadSoFar(Pair.Step(l, m).value, left, n,
                      if m.onLeft == left && m.env.usb.read.Some? then k + 1 else k)
  {
    hide WorldInv, Iterate;
    MoveOfSide(l, m, left);
    MoveOfSide(l, m, !left);
    var e := Fed(Side(l, m.onLeft), Side(l, !m.onLeft), m.env);
    ReadsOne(Side(l, m.onLeft), e);
  }

  lemma {:induction false} ReadByLink(moves: seq<Move>, more: seq<Move>, left: bool, n: nat, k: nat)
    requires Pair.Run(moves + more).Done? && Pair.SendsNonempty(moves + more)
    requires Pair.Run(moves).Done? && ReadSoFar(Pair.Run(moves).value, left, n, k)
    ensures ReadSoFar(Pair.Run(moves + more).value, left, n, k + Reads(more, left))
    decreases |more|
  {
    hide Pair.Run, Pair.Step, Pair.SendsNonempty, ReadSoFar, WorldInv, Nonempty, Follows;
    if more == [] {
      assert moves + more == moves;
    } else {
      var init, m := more[..|more| - 1], more[|more| - 1];
      assert more == init + [m];
      LastMove(moves, init, m);
      ReadByLink(moves, init, left, n, k);
      LinkKeeps(moves + init);
      ReadByMove(Pair.Run(moves + init).value, m, left, n, k + Reads(init, left));
    }
  }

  lemma Grows(w: World, e: Env)
    requires WorldInv(w) && Iterate(w, e).Done?
    ensures w.log.accepted <= Iterate(w, e).value.log.accepted && w.log.written <= Iterate(w, e).value.log.written
  {
    hide UsbIp.RunLoop, NcmTx.Step, NcmRx.Turn, TransmitRuns, ReceiveRuns, PathConserved;
  }

  /** What a side has accepted and written stays so. */
  lemma {:induction false} StillWritten(moves: seq<Move>, more: seq<Move>, left: bool, a: seq<EthMsg>)
    requires Pair.Run(moves).Done? && Pair.Run(moves + more).Done? && Pair.SendsNonempty(moves + more)
    requires a <= Side(Pair.Run(moves).value, left).log.accepted
    requires NcmTx.StreamPackets(a) <= Side(Pair.Run(moves).value, left).log.written
    ensures a <= Side(Pair.Run(moves + more).value, left).log.accepted
    ensures NcmTx.StreamPackets(a) <= Side(Pair.Run(moves + more).value, left).log.written
    decreases |more|
  {
    hide NcmTx.StreamPackets, Pair.Run, Pair.Step, Pair.SendsNonempty, WorldInv, Nonempty, Iterate, Follows, Fed;
    if more == [] {
      assert moves + more == moves;
    } else {
      var init, m := more[..|more| - 1], more[|more| - 1];
      assert more == init + [m];
      LastMove(moves, init, m);
      StillWritten(moves, init, left, a);
      LinkKeeps(moves + init);
      var l := Pair.Run(moves + init).value;
      MoveOfSide(l, m, left);
      if m.onLeft == left {
        Grows(Side(l, left), Fed(Side(l, left), Side(l, !left), m.env));
      }
    }
  }

  // ----- both

  lemma PrefixSends(moves: seq<Move>, k: nat)
    requires k <= |moves| && Pair.SendsNonempty(moves)
    ensures Pair.SendsNonempty(moves[..k])
  {}

  lemma SidesSound(l: Link, left: bool)
    requires LinkInv(l)
    ensures Sound(Side(l, left)) && Sound(Side(l, !left)) && Follows(Side(l, !left), Side(l, left))
    ensures WorldInv(Side(l, left))
  {}

  lemma DeliveredWhen(moves: seq<Move>, more: seq<Move>, later: seq<Move>, left: bool)
    requires Pair.SendsNonempty(moves + more + later)
    requires Pair.Run(moves).Done? && Pair.Run(moves + more).Done? && Pair.Run(moves + more + later).Done?
    requires LinkInv(Pair.Run(moves).value) && LinkInv(Pair.Run(moves + more + later).value)
    ensures var l0, l1, l2 := Pair.Run(moves).value, Pair.Run(moves + more).value, Pair.Run(moves + more + later).value;
            var a := Side(l0, left).log.accepted;
            && Side(l0, left).sys.usb.boot.Normal? && Side(l1, !left).sys.usb.boot.Normal?
            && Writes(more, left) >= 90
            && |Side(l1, !left).log.read| + Reads(later, !left) >= |NcmTx.StreamPackets(a)|
            ==> Frames(a) <= Frames(Side(l2, !left).log.decoded)
  {
    hide Pair.Run, Pair.SendsNonempty, Frames, Sound, LinkInv, Follows, WorldInv, NcmTx.StreamPackets, Side, Writes,
         Reads;
    var l0, l1, l2 := Pair.Run(moves).value, Pair.Run(moves + more).value, Pair.Run(moves + more + later).value;
    var a := Side(l0, left).log.accepted;
    var n, k := |NcmTx.StreamPackets(a)|, |Side(l1, !left).log.read|;
    SidesSound(l0, left);
    SidesSound(l2, left);
    if && Side(l0, left).sys.usb.boot.Normal? && Side(l1, !left).sys.usb.boot.Normal?
       && Writes(more, left) >= 90 && k + Reads(later, !left) >= n {
      AcceptedIsWritten(moves, more, left);
      ReadByLink(moves + more, later, !left, n, k);
      StillWritten(moves + more, later, left, a);
      ReadIsDecoded(Side(l2, !left), Side(l2, left), a);
    }
  }

  /** Bounded delivery from stack to stack, under every interleaving and in either direction: once the sender has booted
      and its endpoint has then been ready 90 times, and the receiver, booted by then, has afterwards found its endpoint
      holding a packet as often as packets are missing, it has decoded every frame the sender had accepted -- whatever
      else both sides read, send or refuse meanwhile, as long as no turn of a stack panics. */
  lemma DeliveredWithin(moves: seq<Move>, more: seq<Move>, later: seq<Move>, left: bool)
    requires Pair.SendsNonempty(moves + more + later) && StacksReturn(moves + more + later)
    ensures Pair.Run(moves).Done? && Pair.Run(moves + more).Done? && Pair.Run(moves + more + later).Done?
    ensures var l0, l1, l2 := Pair.Run(moves).value, Pair.Run(moves + more).value, Pair.Run(moves + more + later).value;
            var a := Side(l0, left).log.accepted;
            && Side(l0, left).sys.usb.boot.Normal? && Side(l1, !left).sys.usb.boot.Normal?
            && Writes(more, left) >= 90
            && |Side(l1, !left).log.read| + Reads(later, !left) >= |NcmTx.StreamPackets(a)|
            ==> Frames(a) <= Frames(Side(l2, !left).log.decoded)
  {
    LinkKeeps(moves + more + later);
    LinkPrefix(moves + more + later, |moves + more|);
    LinkPrefix(moves + more + later, |moves|);
    assert (moves + more + later)[..|moves + more|] == moves + more;
    assert (moves + more + later)[..|moves|] == moves;
    PrefixSends(moves + more + later, |moves + more|);
    PrefixSends(moves + more + later, |moves|);
    hide Pair.Run, Pair.SendsNonempty, StacksReturn, Frames;
    LinkKeeps(moves + more);
    LinkKeeps(moves);
    DeliveredWhen(moves, more, later, left);
  }
}
