/** Two copies of the firmware connected back to back, each reading what the other writes. */
module Link {
  import opened Wire
  import opened MainLoop
  import NcmTx
  import NcmRx
  import UsbIp
  import Loopback
  import Ring

  datatype Link = Link(left: World, right: World)

  /** One side makes an iteration. Its endpoint holds the peer's next unread packet, if `env` says there is one. */
  datatype Move = Move(onLeft: bool, env: Env)

  const INIT := Link(MainLoop.INIT, MainLoop.INIT)

  function NextPacket(reader: World, writer: World): Option<Packet>
  {
    if |reader.log.read| < |writer.log.written| then Some(writer.log.written[|reader.log.read|]) else None
  }

  function Fed(reader: World, writer: World, e: Env): Env
  {
    if e.usb.read.None? then e else e.(usb := e.usb.(read := NextPacket(reader, writer)))
  }

  predicate Shaped(l: Link) { Sized(l.left.sys) && Sized(l.right.sys) }

  function Step(l: Link, m: Move): (l': Outcome<Link>)
    requires Shaped(l)
    ensures l'.Done? ==> Shaped(l'.value)
  {
    if m.onLeft then
      var w :- Iterate(l.left, Fed(l.left, l.right, m.env));
      Done(l.(left := w))
    else
      var w :- Iterate(l.right, Fed(l.right, l.left, m.env));
      Done(l.(right := w))
  }

  function Run(moves: seq<Move>): (l: Outcome<Link>)
    ensures l.Done? ==> Shaped(l.value)
  {
    if moves == [] then Done(INIT)
    else
      var l :- Run(moves[..|moves| - 1]);
      Step(l, moves[|moves| - 1])
  }

  /** One direction: the reader has a prefix of what the writer wrote. */
  predicate Follows(reader: World, writer: World)
  {
    reader.log.read <= writer.log.written
  }

  predicate Sound(w: World) { WorldInv(w) && Nonempty(w) }

  predicate LinkInv(l: Link)
  {
    Sound(l.left) && Sound(l.right) && Follows(l.left, l.right) && Follows(l.right, l.left)
  }

  lemma FramesPrefix(a: seq<EthMsg>, b: seq<EthMsg>)
    requires a <= b
    ensures Frames(a) <= Frames(b)
  {}

  /** What one device writes never halts the other. */
  lemma WrittenIsSafe(w: World)
    requires Sound(w)
    ensures Safe(w.log.written)
    ensures Frames(NcmRx.Session(NcmRx.INIT, w.log.written).value.frames) <= Frames(w.log.popped)
  {
    assert w.log.written <= w.log.pushed;
    assert NcmTx.Run(w.log.schedule) == Done(NcmTx.TxRun(w.sys.tx, w.log.popped, w.log.pushed));
    hide NcmTx.Run, NcmRx.Session, Settled, NcmTx.RunInv;
    Loopback.LoopbackIsIdentity(w.log.schedule);
    SafePrefix(w.log.pushed, w.log.written);
    var r := NcmTx.TxRun(w.sys.tx, w.log.popped, w.log.pushed);
    assert Loopback.Completed(r) <= w.log.popped;
    FramesPrefix(Loopback.Completed(r), w.log.popped);
    FramesPrefix(NcmRx.Session(NcmRx.INIT, w.log.written).value.frames,
                 NcmRx.Session(NcmRx.INIT, w.log.pushed).value.frames);
  }

  /** An iteration only adds to what a device wrote. */
  lemma WritesGrow(w: World, e: Env)
    requires Sized(w.sys) && Iterate(w, e).Done?
    ensures w.log.written <= Iterate(w, e).value.log.written
  {
    hide UsbIp.RunLoop, NcmTx.Step, NcmRx.Turn;
  }

  lemma FedServes(reader: World, writer: World, e: Env)
    requires Follows(reader, writer)
    ensures Serves(writer.log.written, reader, Fed(reader, writer, e))
  {}

  lemma SideSteps(reader: World, writer: World, e: Env)
    requires Sound(reader) && Sound(writer) && Follows(reader, writer) && Follows(writer, reader)
    requires NoEmptySent(e)
    ensures var w' := Iterate(reader, Fed(reader, writer, e));
            && (w'.Done? <==> e.stack.Done?)
            && (w'.Done? ==> Sound(w'.value) && Follows(w'.value, writer) && Follows(writer, w'.value))
  {
    var e' := Fed(reader, writer, e);
    assert e'.stack == e.stack;
    WrittenIsSafe(writer);
    FedServes(reader, writer, e);
    hide WorldInv, Nonempty, Iterate, Serves, Safe, Fed;
    IterateSafe(writer.log.written, reader, e');
    if e.stack.Done? { WritesGrow(reader, e'); }
  }

  predicate SendsNonempty(moves: seq<Move>)
  {
    forall i :: 0 <= i < |moves| ==> NoEmptySent(moves[i].env)
  }

  /** No turn of either stack panics. */
  predicate StacksReturn(moves: seq<Move>)
  {
    moves == [] || (StacksReturn(moves[..|moves| - 1]) && moves[|moves| - 1].env.stack.Done?)
  }

  lemma {:induction false} LinkKeeps(moves: seq<Move>)
    requires SendsNonempty(moves)
    ensures Run(moves).Done? <==> StacksReturn(moves)
    ensures Run(moves).Done? ==> LinkInv(Run(moves).value)
  {
    if moves == [] {
      InitSettled();
    } else {
      hide Sound, Follows, Iterate, Fed;
      var init, m := moves[..|moves| - 1], moves[|moves| - 1];
      LinkKeeps(init);
      if Run(init).Done? {
        var l := Run(init).value;
        if m.onLeft {
          SideSteps(l.left, l.right, m.env);
        } else {
          SideSteps(l.right, l.left, m.env);
        }
      }
    }
  }

  lemma DeliversPrefix(reader: World, writer: World)
    requires Sound(reader) && Sound(writer) && Follows(reader, writer)
    ensures Frames(reader.log.decoded) <= Frames(writer.log.popped)
    ensures reader.log.read == writer.log.pushed && !writer.sys.tx.state.Header? && !writer.sys.tx.state.Sending? ==>
              Frames(reader.log.decoded) == Frames(writer.log.popped)
  {
    WrittenIsSafe(writer);
    WorldSession(reader);
    hide NcmRx.Session, NcmTx.Run, Settled, NcmTx.RunInv;
    SafePrefix(writer.log.written, reader.log.read);
    FramesPrefix(reader.log.decoded, NcmRx.Session(NcmRx.INIT, writer.log.written).value.frames);
    assert NcmTx.Run(writer.log.schedule) == Done(NcmTx.TxRun(writer.sys.tx, writer.log.popped, writer.log.pushed));
    Loopback.LoopbackIsIdentity(writer.log.schedule);
  }

  /** End to end, in both directions at once: two devices back to back, under every interleaving of their
      iterations, every refusal by the endpoints and every behaviour of the network stacks that sends no empty
      frame, halt exactly when a turn of a stack panics; each decodes a prefix of the frames the other
      transmitted, unchanged and in order, and all of them once it has read all the packets of a transmitter with
      nothing left to send. */
  lemma EndToEnd(moves: seq<Move>)
    requires SendsNonempty(moves)
    ensures Run(moves).Done? <==> StacksReturn(moves)
    ensures Run(moves).Done? ==>
            var l := Run(moves).value;
            && Frames(l.right.log.decoded) <= Frames(l.left.log.popped)
            && Frames(l.left.log.decoded) <= Frames(l.right.log.popped)
            && (l.right.log.read == l.left.log.pushed && l.left.sys.tx.state.Ready? ==>
                  Frames(l.right.log.decoded) == Frames(l.left.log.popped))
            && (l.left.log.read == l.right.log.pushed && l.right.sys.tx.state.Ready? ==>
                  Frames(l.left.log.decoded) == Frames(l.right.log.popped))
  {
    hide Sound, Follows, Step, Frames;
    LinkKeeps(moves);
    if Run(moves).Done? {
      var l := Run(moves).value;
      DeliversPrefix(l.right, l.left);
      DeliversPrefix(l.left, l.right);
    }
  }

  // ----- up to the network stack

  /** Every frame decoded so far has been taken by the network stack. */
  predicate HandedOver(w: World)
  {
    w.sys.ethRx == [] && w.log.received == w.log.decoded
  }

  /** A stack that takes a frame whenever there is one gets every frame, if no packet completes two. */
  lemma EagerHandsOver(w: World, e: Env)
    requires WorldInv(w) && HandedOver(w) && Iterate(w, e).Done? && e.stack.value.taken >= 1
    requires |Iterate(w, e).value.log.decoded| <= |w.log.decoded| + 1
    ensures HandedOver(Iterate(w, e).value)
  {
    var um := UsbIp.RunLoop(w.sys.usb, e.usb);
    hide UsbIp.RunLoop, NcmTx.Step, NcmRx.Turn, Settled, TransmitRuns, ReceiveRuns, PathConserved;
    var frames := NcmRx.Turn(w.sys.rx, um.next.rxq).value.frames;
    Ring.PushAllKeepsFirst<EthMsg>([], ETH_CAPACITY, frames);
    assert [] + frames == frames == frames[..|frames|];
  }

  lemma PrefixesApart<T>(s: seq<T>, a: seq<T>, b: seq<T>)
    requires a <= b <= s && |b| <= |a| + 1 && a != b
    ensures |a| < |s| && a == s[..|a|] && b == s[..|a| + 1]
  {
    assert a == b[..|a|];
  }

  lemma OnePacketOneFrame(schedule: seq<NcmTx.TxInput>, pushed: seq<Packet>, a: seq<Packet>, b: seq<Packet>)
    requires NcmTx.NoEmptyFrame(schedule) && NcmTx.Run(schedule).Done? && NcmTx.Run(schedule).value.pushed == pushed
    requires a <= b <= pushed && |b| <= |a| + 1
    requires NcmRx.Session(NcmRx.INIT, a).Done? && NcmRx.Session(NcmRx.INIT, b).Done?
    ensures |NcmRx.Session(NcmRx.INIT, b).value.frames| <= |NcmRx.Session(NcmRx.INIT, a).value.frames| + 1
  {
    hide NcmTx.Run, NcmRx.Session, NcmTx.NoEmptyFrame;
    if a != b {
      PrefixesApart(pushed, a, b);
      Loopback.OneFrameAtATime(schedule, |a|);
    }
  }

  lemma WorldRun(w: World)
    requires WorldInv(w)
    ensures NcmTx.Run(w.log.schedule) == Done(NcmTx.TxRun(w.sys.tx, w.log.popped, w.log.pushed))
    ensures w.log.written <= w.log.pushed
  {
    hide NcmTx.Run;
  }

  lemma ReadsAtMostOne(w: World, e: Env)
    requires WorldInv(w) && Iterate(w, e).Done?
    ensures w.log.read <= Iterate(w, e).value.log.read && |Iterate(w, e).value.log.read| <= |w.log.read| + 1
  {
    UsbIp.IncomingConserved(w.sys.usb, e.usb);
    hide UsbIp.RunLoop, NcmTx.Step, NcmRx.Turn, Settled, TransmitRuns, ReceiveRuns, PathConserved;
  }

  /** Reading another device's packets decodes at most one frame per iteration. */
  lemma DecodesOne(reader: World, writer: World, e: Env)
    requires Sound(reader) && Sound(writer) && Iterate(reader, e).Done?
    requires Sound(Iterate(reader, e).value) && Follows(Iterate(reader, e).value, writer)
    ensures |Iterate(reader, e).value.log.decoded| <= |reader.log.decoded| + 1
  {
    var w' := Iterate(reader, e).value;
    ReadsAtMostOne(reader, e);
    WorldSession(reader);
    WorldSession(w');
    WorldRun(writer);
    hide Iterate, NcmRx.Session, NcmTx.Run, WorldInv;
    OnePacketOneFrame(writer.log.schedule, writer.log.pushed, reader.log.read, w'.log.read);
  }

  predicate Eager(moves: seq<Move>)
  {
    forall i :: 0 <= i < |moves| && moves[i].env.stack.Done? ==> moves[i].env.stack.value.taken >= 1
  }

  lemma SideHandsOver(reader: World, writer: World, e: Env)
    requires Sound(reader) && Sound(writer) && Follows(reader, writer) && Follows(writer, reader)
    requires NoEmptySent(e) && e.stack.Done? && e.stack.value.taken >= 1 && HandedOver(reader)
    ensures Iterate(reader, Fed(reader, writer, e)).Done?
    ensures HandedOver(Iterate(reader, Fed(reader, writer, e)).value)
  {
    SideSteps(reader, writer, e);
    var e' := Fed(reader, writer, e);
    assert e'.stack == e.stack;
    hide Iterate, Fed, HandedOver, WorldInv, Nonempty, Follows;
    DecodesOne(reader, writer, e');
    EagerHandsOver(reader, e');
  }

  /** With network stacks that take a frame whenever there is one, the one-slot queue loses nothing: each stack
      has received exactly the frames decoded, so a prefix of those the peer transmitted. */
  lemma {:induction false} StacksReceiveAll(moves: seq<Move>)
    requires SendsNonempty(moves) && Eager(moves) && StacksReturn(moves)
    ensures Run(moves).Done? && HandedOver(Run(moves).value.left) && HandedOver(Run(moves).value.right)
    ensures Frames(Run(moves).value.right.log.received) <= Frames(Run(moves).value.left.log.popped)
    ensures Frames(Run(moves).value.left.log.received) <= Frames(Run(moves).value.right.log.popped)
  {
    EndToEnd(moves);
    if moves != [] {
      hide Sound, Follows, Iterate, Fed, Frames;
      var init, m := moves[..|moves| - 1], moves[|moves| - 1];
      StacksReceiveAll(init);
      LinkKeeps(init);
      var l := Run(init).value;
      if m.onLeft {
        SideHandsOver(l.left, l.right, m.env);
      } else {
        SideHandsOver(l.right, l.left, m.env);
      }
    }
  }
}
