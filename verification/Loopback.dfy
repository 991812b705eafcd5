/** A receiver fed with everything the transmitter pushes, one packet per call: transmit followed by receive
    is the identity on sequences of frames. */
module Loopback {
  import opened Wire
  import opened Ntb
  import opened NcmTx
  import Rx = NcmRx

  /** The block the transmitter holds. */
  function HeldBlock(r: TxRun): seq<byte>
    requires Held(r.s)
  {
    r.s.buf[..r.s.total]
  }

  /** The frames whose last byte has been pushed. */
  function Completed(r: TxRun): seq<EthMsg>
    requires r.s.state.Header? || r.s.state.Sending? ==> r.popped != []
  {
    if r.s.state.Header? || r.s.state.Sending? then r.popped[..|r.popped| - 1] else r.popped
  }

  predicate NoneEmpty(ms: seq<EthMsg>)
  {
    forall i :: 0 <= i < |ms| ==> ms[i].len != 0
  }

  /** The receiver is inside the held block, as far as the transmitter has pushed it; otherwise idle. */
  predicate InStep(s: Tx, b: seq<byte>, rx: Rx.Rx)
  {
    if s.state.Sending? && s.cnt > 0 then
      Rx.InBlock(rx, b) && rx.cnt == s.cnt
    else Rx.Idle(rx)
  }

  /** Transmitter and receiver in step. */
  predicate Coupled(r: TxRun, t: Rx.RxTurn)
  {
    && RunInv(r)
    && NoneEmpty(r.popped)
    && InStep(r.s, HeldBlock(r), t.next)
    && Frames(t.frames) == Frames(Completed(r))
  }

  /** The receiver after some packets more. */
  function After(t: Rx.RxTurn, ps: seq<Packet>): Outcome<Rx.RxTurn>
    requires |t.next.buf| == NCM_MAX_SIZE
  {
    if ps == [] then Done(t)
    else
      var u :- Rx.Turn(t.next, ps);
      Done(Rx.RxTurn(u.next, t.frames + u.frames))
  }

  /** What is held outside `Ready` is a well-formed block carrying the last frame taken. */
  lemma HeldBlockIsHostBlock(r: TxRun)
    requires RunInv(r) && NoneEmpty(r.popped) && !r.s.state.Ready?
    ensures IsHostBlock(HeldBlock(r))
    ensures BlockFrames(HeldBlock(r)) == [r.popped[|r.popped| - 1].Payload()]
    ensures U16At(HeldBlock(r), 10) == NTH16_SIZE
    ensures |HeldBlock(r)| > TOTAL_HEADER_SIZE
  {
    hide OwnBlock, IsHostBlock, BlockFrames, Conserved;
    var n := (|r.popped| - 1) % 0x1_0000;
    OwnBlockCarriesFrame(n, r.popped[|r.popped| - 1].Payload());
    OwnBlockWellFormed(n, r.popped[|r.popped| - 1].Payload());
  }

  /** The packet that starts a block takes an idle receiver into it. */
  lemma StartBlock(rx: Rx.Rx, b: seq<byte>, k: nat)
    requires Rx.Idle(rx) && IsBlock(b) && NTH16_SIZE <= k < |b| && k <= EP_DATA_BUF_SIZE
    ensures Rx.Turn(rx, [PacketOf(b[..k])]).Done?
    ensures var t := Rx.Turn(rx, [PacketOf(b[..k])]).value;
            && t.frames == [] && Rx.Midway(t.next, b) && t.next.cnt == k && !t.next.ready
            && t.next.header.ndpindex == U16At(b, 10)
  {
    var p := PacketOf(b[..k]);
    Rx.FirstPacket(rx, b, p);
    Rx.OverwritePrefix(rx.buf, b[..k]);
    hide Rx.Feed, PacketOf, Overwrite;
    Rx.TurnOne(rx, p);
    Rx.DecodeNotReady(Rx.Feed(rx, p).value);
  }

  /** A packet in the middle of a block. */
  lemma ContinueBlock(rx: Rx.Rx, b: seq<byte>, n: nat)
    requires Rx.Midway(rx, b) && !rx.ready && n < |b| - rx.cnt && n <= EP_DATA_BUF_SIZE
    ensures var p := PacketOf(b[rx.cnt..rx.cnt + n]);
            && Rx.Turn(rx, [p]).Done?
            && var t := Rx.Turn(rx, [p]).value;
            && t.frames == [] && Rx.Midway(t.next, b) && t.next.cnt == rx.cnt + n && !t.next.ready
            && t.next.header == rx.header
  {
    var p := PacketOf(b[rx.cnt..rx.cnt + n]);
    assert b[rx.cnt..][..n] == b[rx.cnt..rx.cnt + n];
    Rx.CopyMore(rx, b, p);
    hide Rx.Feed, PacketOf, Overwrite;
    Rx.TurnOne(rx, p);
    Rx.DecodeNotReady(Rx.Feed(rx, p).value);
  }

  /** The packet that ends a block. */
  lemma EndBlock(rx: Rx.Rx, b: seq<byte>)
    requires Rx.InBlock(rx, b)
    requires |b| - rx.cnt <= EP_DATA_BUF_SIZE
    ensures var p := PacketOf(b[rx.cnt..|b|]);
            && Rx.Turn(rx, [p]).Done?
            && Rx.Idle(Rx.Turn(rx, [p]).value.next)
            && Frames(Rx.Turn(rx, [p]).value.frames) == BlockFrames(b)
  {
    assert b[rx.cnt..] == b[rx.cnt..|b|];
    Rx.LastTurn(rx, b, PacketOf(b[rx.cnt..|b|]));
  }

  lemma Continued(t: Rx.RxTurn, u: Rx.RxTurn, fs: seq<seq<byte>>, p: Packet)
    requires |t.next.buf| == NCM_MAX_SIZE && Rx.Turn(t.next, [p]) == Done(u) && Frames(u.frames) == fs
    ensures After(t, [p]) == Done(Rx.RxTurn(u.next, t.frames + u.frames))
    ensures Frames(t.frames + u.frames) == Frames(t.frames) + fs
  {
    hide Rx.Turn;
    FramesConcat(t.frames, u.frames);
  }

  /** The transmitter holds the block `b`, and the receiver is in step with it. */
  predicate Sharing(s: Tx, b: seq<byte>, rx: Rx.Rx)
  {
    && Held(s) && !s.state.Ready?
    && b == s.buf[..s.total] && |b| > TOTAL_HEADER_SIZE
    && IsHostBlock(b) && U16At(b, 10) == NTH16_SIZE
    && InStep(s, b, rx)
  }

  /** How the state of a transmitter holding a non-empty frame moves. */
  predicate Advances(a: TxState, b: TxState)
  {
    match a
    case Ready => b.Ready?
    case Header => b.Header? || b.Sending?
    case Sending => b.Sending? || b.Zlp?
    case Zlp => b.Zlp? || b.Ready?
  }

  /** After the move `m` the two are in step again, and the receiver has the frames of `b` exactly when the
      move pushed its last byte. */
  predicate Follows(s: Tx, b: seq<byte>, t: Rx.RxTurn, m: TxMove)
    requires |t.next.buf| == NCM_MAX_SIZE && IsHostBlock(b)
  {
    && Advances(s.state, m.next.state) && |m.pushed| <= 1
    && After(t, m.pushed).Done?
    && InStep(m.next, b, After(t, m.pushed).value.next)
    && Frames(After(t, m.pushed).value.frames)
       == Frames(t.frames) + (if s.state.Sending? && m.next.state.Zlp? then BlockFrames(b) else [])
  }

  lemma StillFollows(s: Tx, b: seq<byte>, t: Rx.RxTurn, m: TxMove)
    requires |t.next.buf| == NCM_MAX_SIZE && IsHostBlock(b)
    requires m.pushed == [] && InStep(m.next, b, t.next) && m.next.state == s.state
    ensures Follows(s, b, t, m)
  {}

  lemma HeaderFollows(s: Tx, b: seq<byte>, t: Rx.RxTurn)
    requires Sharing(s, b, t.next) && s.state.Header?
    ensures Step(s, None, true).Done? && Follows(s, b, t, Step(s, None, true).value)
  {
    hide BlockFrames, HasTable, TableEntries, Rx.Turn, PacketOf, Rx.Midway;
    StartBlock(t.next, b, TOTAL_HEADER_SIZE);
    assert b[..TOTAL_HEADER_SIZE] == s.buf[..TOTAL_HEADER_SIZE];
    var p := PacketOf(b[..TOTAL_HEADER_SIZE]);
    Continued(t, Rx.Turn(t.next, [p]).value, [], p);
  }

  /** The push made in `Sending`. */
  function SendMove(s: Tx, b: seq<byte>): TxMove
    requires s.cnt <= s.total == |b|
  {
    var n := Min(s.total - s.cnt, EP_DATA_BUF_SIZE);
    TxMove(s.(cnt := s.cnt + n, state := if s.cnt + n == s.total then Zlp else Sending), [],
           [PacketOf(b[s.cnt..s.cnt + n])])
  }

  lemma SendingStep(s: Tx, b: seq<byte>)
    requires Held(s) && s.state.Sending? && b == s.buf[..s.total]
    ensures Step(s, None, true) == Done(SendMove(s, b))
  {
    var n := Min(s.total - s.cnt, EP_DATA_BUF_SIZE);
    SliceOfTake(s.buf, s.total, s.cnt, s.cnt + n);
    hide PacketOf, Load;
  }

  lemma FirstChunkFollows(s: Tx, b: seq<byte>, t: Rx.RxTurn)
    requires Sharing(s, b, t.next) && s.state.Sending? && s.cnt == 0
    ensures Follows(s, b, t, SendMove(s, b))
  {
    hide BlockFrames, HasTable, TableEntries, Rx.Turn, PacketOf, Rx.Midway;
    var n := EP_DATA_BUF_SIZE;
    assert b[..n] == b[0..n];
    StartBlock(t.next, b, n);
    Continued(t, Rx.Turn(t.next, [PacketOf(b[0..n])]).value, [], PacketOf(b[0..n]));
  }

  lemma MiddleChunkFollows(s: Tx, b: seq<byte>, t: Rx.RxTurn)
    requires Sharing(s, b, t.next) && s.state.Sending? && 0 < s.cnt && s.cnt + EP_DATA_BUF_SIZE < s.total
    ensures Follows(s, b, t, SendMove(s, b))
  {
    hide IsHostBlock, BlockFrames, Rx.Turn, PacketOf;
    var n := EP_DATA_BUF_SIZE;
    ContinueBlock(t.next, b, n);
    Continued(t, Rx.Turn(t.next, [PacketOf(b[s.cnt..s.cnt + n])]).value, [], PacketOf(b[s.cnt..s.cnt + n]));
  }

  lemma LastChunkFollows(s: Tx, b: seq<byte>, t: Rx.RxTurn)
    requires Sharing(s, b, t.next) && s.state.Sending? && 0 < s.cnt && s.total - s.cnt <= EP_DATA_BUF_SIZE
    ensures Follows(s, b, t, SendMove(s, b))
  {
    hide IsHostBlock, BlockFrames, Rx.Turn, PacketOf, Rx.Idle;
    EndBlock(t.next, b);
    var p := PacketOf(b[s.cnt..s.total]);
    Continued(t, Rx.Turn(t.next, [p]).value, BlockFrames(b), p);
  }

  lemma ZlpFollows(s: Tx, b: seq<byte>, t: Rx.RxTurn, room: bool)
    requires Sharing(s, b, t.next) && s.state.Zlp?
    ensures Step(s, None, room).Done? && Follows(s, b, t, Step(s, None, room).value)
  {
    var m := Step(s, None, room).value;
    if m.pushed != [] {
      Rx.JunkTurn(t.next, PacketOf([]));
      assert t.frames + [] == t.frames;
    }
  }

  lemma StepFollows(s: Tx, b: seq<byte>, t: Rx.RxTurn, offer: Option<EthMsg>, room: bool)
    requires Sharing(s, b, t.next)
    ensures Step(s, offer, room).Done? && Follows(s, b, t, Step(s, offer, room).value)
  {
    assert Step(s, offer, room) == Step(s, None, room);
    hide Follows, InStep, IsHostBlock, SendMove;
    match s.state
    case Zlp => ZlpFollows(s, b, t, room);
    case Header =>
      if room { HeaderFollows(s, b, t); } else { StillFollows(s, b, t, TxMove(s, [], [])); }
    case Sending =>
      if room {
        SendingStep(s, b);
        if s.cnt == 0 {
          FirstChunkFollows(s, b, t);
        } else if s.cnt + EP_DATA_BUF_SIZE < s.total {
          MiddleChunkFollows(s, b, t);
        } else {
          LastChunkFollows(s, b, t);
        }
      } else { StillFollows(s, b, t, TxMove(s, [], [])); }
  }

  lemma CompletedGrows(ms: seq<EthMsg>)
    requires ms != []
    ensures Frames(ms) == Frames(ms[..|ms| - 1]) + [ms[|ms| - 1].Payload()]
    ensures Frames(ms) + [] == Frames(ms)
    ensures Frames(ms[..|ms| - 1]) + [] == Frames(ms[..|ms| - 1])
  {}

  lemma FollowingStaysCoupled(r: TxRun, t: Rx.RxTurn, m: TxMove)
    requires Coupled(r, t) && !r.s.state.Ready?
    requires IsHostBlock(HeldBlock(r)) && BlockFrames(HeldBlock(r)) == [r.popped[|r.popped| - 1].Payload()]
    requires |t.next.buf| == NCM_MAX_SIZE && Follows(r.s, HeldBlock(r), t, m)
    requires m.next.buf == r.s.buf && m.next.total == r.s.total
    requires RunInv(TxRun(m.next, r.popped, r.pushed + m.pushed))
    ensures Coupled(TxRun(m.next, r.popped, r.pushed + m.pushed), After(t, m.pushed).value)
  {
    CompletedGrows(r.popped);
    hide RunInv, IsHostBlock, BlockFrames, InStep, After, Frames;
  }

  lemma PushStaysCoupled(r: TxRun, t: Rx.RxTurn, x: TxInput)
    requires Coupled(r, t) && !r.s.state.Ready?
    ensures Extend(r, x).Done?
    ensures var r' := Extend(r, x).value;
            && r.pushed <= r'.pushed && |r'.pushed| <= |r.pushed| + 1
            && |t.next.buf| == NCM_MAX_SIZE
            && After(t, r'.pushed[|r.pushed|..]).Done?
            && Coupled(r', After(t, r'.pushed[|r.pushed|..]).value)
  {
    HeldBlockIsHostBlock(r);
    PushKeeps(r, x);
    StepMovesPackets(r.s, x.offer, x.room);
    StepFollows(r.s, HeldBlock(r), t, x.offer, x.room);
    var m := Step(r.s, x.offer, x.room).value;
    hide RunInv, Held, Step, IsHostBlock, BlockFrames, Remaining, After, Frames;
    assert r.popped + m.popped == r.popped;
    assert (r.pushed + m.pushed)[|r.pushed|..] == m.pushed;
    FollowingStaysCoupled(r, t, m);
  }

  lemma LoadStartsFrame(s: Tx, msg: EthMsg)
    requires |s.buf| == NCM_MAX_SIZE && Load(s, msg).Done?
    requires s.cnt == 0
    ensures var s' := Load(s, msg).value; s'.cnt == 0 && (s'.state.Header? || s'.state.Sending?)
  {
    hide OwnBlock, NthBytes, NdpBytes, EntryBytes, Overwrite;
  }

  lemma NonemptyBefore(r: TxRun)
    requires RunInv(r) && r.s.state.Ready? && NoneEmpty(r.popped)
    ensures |r.s.buf| == NCM_MAX_SIZE && r.s.cnt == 0
    ensures r.popped != [] ==> r.popped[|r.popped| - 1].len != 0
  {}

  lemma LoadStaysCoupled(r: TxRun, t: Rx.RxTurn, msg: EthMsg)
    requires Coupled(r, t) && r.s.state.Ready? && msg.len != 0
    ensures Load(r.s, msg).Done? && Coupled(TxRun(Load(r.s, msg).value, r.popped + [msg], r.pushed), t)
  {
    LoadKeeps(r, msg);
    NonemptyBefore(r);
    LoadStartsFrame(r.s, msg);
    hide RunInv, Load, Frames, Rx.Idle, Rx.InBlock, HeldBlock;
    assert (r.popped + [msg])[..|r.popped|] == r.popped;
  }

  lemma ReadyStaysCoupled(r: TxRun, t: Rx.RxTurn, x: TxInput)
    requires Coupled(r, t) && r.s.state.Ready? && (x.offer.Some? ==> x.offer.value.len != 0)
    ensures Extend(r, x).Done?
    ensures var r' := Extend(r, x).value; r'.pushed == r.pushed && Coupled(r', t)
  {
    assert r.pushed + [] == r.pushed && r.popped + [] == r.popped;
    hide Coupled, Load;
    if x.offer.Some? {
      LoadStaysCoupled(r, t, x.offer.value);
    }
  }

  lemma AfterIsSession(ps: seq<Packet>, more: seq<Packet>)
    requires |more| <= 1 && Rx.Session(Rx.INIT, ps).Done?
    requires After(Rx.Session(Rx.INIT, ps).value, more).Done?
    ensures Rx.Session(Rx.INIT, ps + more) == After(Rx.Session(Rx.INIT, ps).value, more)
  {
    hide Rx.Session, Rx.Turn;
    if more == [] {
      assert ps + more == ps;
    } else {
      assert more == [more[0]];
      Rx.SessionSnoc(Rx.INIT, ps, more[0]);
    }
  }

  lemma {:induction false} StaysCoupled(inputs: seq<TxInput>)
    requires NoEmptyFrame(inputs)
    ensures Run(inputs).Done? && RunInv(Run(inputs).value)
    ensures Rx.Session(Rx.INIT, Run(inputs).value.pushed).Done?
    ensures Coupled(Run(inputs).value, Rx.Session(Rx.INIT, Run(inputs).value.pushed).value)
  {
    if inputs == [] {
      InitKeeps();
    } else {
      var init, x := inputs[..|inputs| - 1], inputs[|inputs| - 1];
      StaysCoupled(init);
      var r := Run(init).value;
      var t := Rx.Session(Rx.INIT, r.pushed).value;
      RunKeepsInvariant(inputs);
      hide Coupled, Extend, Rx.Session, Rx.Turn, RunInv, After;
      if r.s.state.Ready? {
        ReadyStaysCoupled(r, t, x);
      } else {
        PushStaysCoupled(r, t, x);
        var r' := Extend(r, x).value;
        var more := r'.pushed[|r.pushed|..];
        assert r.pushed + more == r'.pushed;
        AfterIsSession(r.pushed, more);
      }
    }
  }

  /** Loopback, for every sequence of non-empty frames and every pattern of refused pushes, at every moment of
      the run: the receiver has not panicked and has delivered exactly the frames whose last byte was pushed,
      in order. */
  lemma LoopbackIsIdentity(inputs: seq<TxInput>)
    requires NoEmptyFrame(inputs)
    ensures Run(inputs).Done? && RunInv(Run(inputs).value)
    ensures Rx.Session(Rx.INIT, Run(inputs).value.pushed).Done?
    ensures Frames(Rx.Session(Rx.INIT, Run(inputs).value.pushed).value.frames) == Frames(Completed(Run(inputs).value))
  {
    StaysCoupled(inputs);
  }

  lemma ExtendGrowsByOne(r: TxRun, x: TxInput)
    requires |r.s.buf| == NCM_MAX_SIZE && Extend(r, x).Done?
    ensures var r' := Extend(r, x).value;
            && r.pushed <= r'.pushed && |r'.pushed| <= |r.pushed| + 1
            && (r'.pushed != r.pushed ==> r'.popped == r.popped)
  {
    hide Load, PacketOf;
  }

  lemma LastPacketCompletesOne(inputs: seq<TxInput>)
    requires NoEmptyFrame(inputs) && inputs != []
    requires Run(inputs).Done? && Run(inputs[..|inputs| - 1]).Done?
    requires Run(inputs).value.pushed != Run(inputs[..|inputs| - 1]).value.pushed
    ensures var before, after := Run(inputs[..|inputs| - 1]).value.pushed, Run(inputs).value.pushed;
            && Rx.Session(Rx.INIT, before).Done? && Rx.Session(Rx.INIT, after).Done?
            && |Rx.Session(Rx.INIT, after).value.frames| <= |Rx.Session(Rx.INIT, before).value.frames| + 1
  {
    var init, x := inputs[..|inputs| - 1], inputs[|inputs| - 1];
    LoopbackIsIdentity(init);
    LoopbackIsIdentity(inputs);
    ExtendGrowsByOne(Run(init).value, x);
    hide Rx.Session, RunInv, Extend;
    assert Run(inputs) == Extend(Run(init).value, x);
    var r, r' := Run(init).value, Run(inputs).value;
    assert |Completed(r')| <= |r'.popped| && |Completed(r)| >= |r.popped| - 1;
    assert |Frames(Rx.Session(Rx.INIT, r'.pushed).value.frames)| == |Completed(r')|;
    assert |Frames(Rx.Session(Rx.INIT, r.pushed).value.frames)| == |Completed(r)|;
  }

  /** No packet of the stream completes more than one frame. */
  lemma {:induction false} OneFrameAtATime(inputs: seq<TxInput>, k: nat)
    requires NoEmptyFrame(inputs)
    requires Run(inputs).Done? && k < |Run(inputs).value.pushed|
    ensures var pushed := Run(inputs).value.pushed;
            && Rx.Session(Rx.INIT, pushed[..k]).Done? && Rx.Session(Rx.INIT, pushed[..k + 1]).Done?
            && |Rx.Session(Rx.INIT, pushed[..k + 1]).value.frames|
               <= |Rx.Session(Rx.INIT, pushed[..k]).value.frames| + 1
  {
    if inputs != [] {
      var init, x := inputs[..|inputs| - 1], inputs[|inputs| - 1];
      var r, r' := Run(init).value, Run(inputs).value;
      ExtendGrowsByOne(r, x);
      hide Rx.Session, Extend;
      assert r'.pushed[..|r.pushed|] == r.pushed;
      if k < |r.pushed| {
        OneFrameAtATime(init, k);
        assert r'.pushed[..k] == r.pushed[..k] && r'.pushed[..k + 1] == r.pushed[..k + 1];
      } else {
        assert r'.pushed[..k + 1] == r'.pushed;
        LastPacketCompletesOne(inputs);
      }
    }
  }
}
