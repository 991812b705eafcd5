/** How the transmitter's packets sit on the bus: their bytes, their number, the transfers they delimit,
    and how many accepted steps a frame takes. */
module NcmTransfer {
  import opened Wire
  import opened Ntb
  import opened NcmTx

  lemma BytesCons(d: seq<byte>, ps: seq<Packet>)
    requires |d| <= EP_DATA_BUF_SIZE
    ensures Bytes([PacketOf(d)] + ps) == d + Bytes(ps)
  {
    assert ([PacketOf(d)] + ps)[1..] == ps;
  }

  lemma OnePacketBytes(d: seq<byte>)
    requires |d| <= EP_DATA_BUF_SIZE
    ensures Bytes([PacketOf(d)]) == d
  {
    assert Bytes([PacketOf(d)]) == d + Bytes([]);
  }

  /** Chunks carry exactly their string. */
  lemma {:induction false} ChunksBytes(b: seq<byte>)
    ensures Bytes(Chunks(b)) == b
  {
    hide Bytes, PacketOf;
    if |b| <= EP_DATA_BUF_SIZE {
      OnePacketBytes(b);
    } else {
      var head, tail := b[..EP_DATA_BUF_SIZE], b[EP_DATA_BUF_SIZE..];
      ChunksBytes(tail);
      BytesCons(head, Chunks(tail));
      assert head + tail == b;
    }
  }

  /** All chunks but the last are full and the last is not empty. */
  lemma {:induction false} ChunksShape(b: seq<byte>)
    requires b != []
    ensures Bytes(Chunks(b)) == b
    ensures |Chunks(b)| == (|b| + 63) / EP_DATA_BUF_SIZE
    ensures forall i :: 0 <= i < |Chunks(b)| - 1 ==> Chunks(b)[i].len == EP_DATA_BUF_SIZE
    ensures Chunks(b)[|Chunks(b)| - 1].len == |b| - EP_DATA_BUF_SIZE * (|Chunks(b)| - 1) > 0
  {
    hide Bytes, PacketOf;
    ChunksBytes(b);
    if |b| > EP_DATA_BUF_SIZE {
      var tail := b[EP_DATA_BUF_SIZE..];
      ChunksShape(tail);
      var ps, qs := Chunks(b), Chunks(tail);
      assert ps == [ps[0]] + qs;
      assert forall i :: 0 <= i < |ps| - 1 ==> ps[i].len == EP_DATA_BUF_SIZE;
    }
  }

  lemma TrailerBytes(len: nat)
    ensures Bytes(Trailer(len)) == []
  {
    assert Bytes([PacketOf([])]) == [] + Bytes([]);
  }

  /** The packets of a frame carry the bytes of its block, all of them and nothing else. */
  lemma FrameBytes(n: u16, f: seq<byte>)
    requires |f| <= MTU
    ensures Bytes(FramePackets(n, f)) == OwnBlock(n, f)
  {
    hide OwnBlock, Chunks, PacketOf, Bytes;
    var b := OwnBlock(n, f);
    TrailerBytes(|f|);
    if |b| > EP_DATA_BUF_SIZE {
      ChunksShape(b);
      BytesConcat(Chunks(b), Trailer(|f|));
    } else {
      var head := [PacketOf(b[..TOTAL_HEADER_SIZE])];
      OnePacketBytes(b[..TOTAL_HEADER_SIZE]);
      if f == [] {
        assert b[..TOTAL_HEADER_SIZE] == b;
      } else {
        ChunksShape(b[TOTAL_HEADER_SIZE..]);
        BytesConcat(head, Chunks(b[TOTAL_HEADER_SIZE..]));
        BytesConcat(head + Chunks(b[TOTAL_HEADER_SIZE..]), Trailer(|f|));
        assert b == b[..TOTAL_HEADER_SIZE] + b[TOTAL_HEADER_SIZE..];
      }
    }
  }

  /** The blocks of a sequence of frames, one after the other. */
  function Blocks(ms: seq<EthMsg>): seq<byte>
  {
    if ms == [] then []
    else Blocks(ms[..|ms| - 1]) + OwnBlock((|ms| - 1) % 0x1_0000, ms[|ms| - 1].Payload())
  }

  /** The k-th block of the stream is the k-th frame's, with sequence number k modulo 65536. */
  lemma {:induction false} KthBlock(ms: seq<EthMsg>, k: nat)
    requires k < |ms|
    ensures var b, at := OwnBlock(k % 0x1_0000, ms[k].Payload()), |Blocks(ms[..k])|;
            at + |b| <= |Blocks(ms)| && Blocks(ms)[at..at + |b|] == b
  {
    hide OwnBlock;
    var init := ms[..|ms| - 1];
    if k < |init| {
      assert init[..k] == ms[..k];
      KthBlock(init, k);
      var b, at := OwnBlock(k % 0x1_0000, ms[k].Payload()), |Blocks(ms[..k])|;
      assert Blocks(ms)[at..at + |b|] == Blocks(init)[at..at + |b|];
    }
  }

  lemma NoBytes()
    ensures Bytes([]) == []
  {}

  lemma {:induction false} StreamBytes(ms: seq<EthMsg>)
    ensures Bytes(StreamPackets(ms)) == Blocks(ms)
  {
    hide OwnBlock, FramePackets, Bytes;
    if ms == [] {
      assert Bytes([]) == [] by { NoBytes(); }
    } else {
      var init, last := ms[..|ms| - 1], ms[|ms| - 1];
      var n := (|ms| - 1) % 0x1_0000;
      StreamBytes(init);
      FrameBytes(n, last.Payload());
      BytesConcat(StreamPackets(init), FramePackets(n, last.Payload()));
    }
  }

  /** The bytes still held in the transmit buffer for the current frame. */
  function UnsentTail(s: Tx): seq<byte>
    requires Held(s)
  {
    match s.state
    case Ready => []
    case Header => s.buf[..s.total]
    case Sending => s.buf[s.cnt..s.total]
    case Zlp => []
  }

  lemma RemainingBytes(s: Tx)
    requires Held(s)
    ensures Bytes(Remaining(s)) == UnsentTail(s)
  {
    hide Chunks, PacketOf, Bytes;
    TrailerBytes(s.datalen);
    match s.state
    case Ready => NoBytes();
    case Zlp =>
    case Sending =>
      ChunksShape(s.buf[s.cnt..s.total]);
      BytesConcat(Chunks(s.buf[s.cnt..s.total]), Trailer(s.datalen));
    case Header =>
      var head, rest := s.buf[..TOTAL_HEADER_SIZE], s.buf[TOTAL_HEADER_SIZE..s.total];
      OnePacketBytes(head);
      if s.total == TOTAL_HEADER_SIZE {
        assert [PacketOf(head)] + [] == [PacketOf(head)];
      } else {
        ChunksShape(rest);
        BytesConcat(Chunks(rest), Trailer(s.datalen));
        BytesConcat([PacketOf(head)], Chunks(rest) + Trailer(s.datalen));
        assert head + rest == s.buf[..s.total];
      }
  }

  /** Over every run: the bytes pushed, then the unsent tail of the buffer, are the blocks of the frames
      taken, in order. Nothing is lost, duplicated or reordered, whatever pushes were refused. */
  lemma BytesConserved(inputs: seq<TxInput>)
    requires Run(inputs).Done?
    ensures RunInv(Run(inputs).value)
    ensures Bytes(Run(inputs).value.pushed) + UnsentTail(Run(inputs).value.s) == Blocks(Run(inputs).value.popped)
  {
    RunKeepsInvariant(inputs);
    hide Run, Remaining, StreamPackets, Held, Bytes, UnsentTail, Blocks;
    var r := Run(inputs).value;
    RemainingBytes(r.s);
    BytesConcat(r.pushed, Remaining(r.s));
    StreamBytes(r.popped);
  }

  lemma CancelTail(x: seq<byte>, tail: seq<byte>, before: seq<byte>, block: seq<byte>, head: seq<byte>)
    requires x + tail == before + block && block == head + tail
    ensures x == before + head
  {
    assert (before + head) + tail == x + tail;
    assert x == (x + tail)[..|x|] && before + head == ((before + head) + tail)[..|before + head|];
  }

  lemma BlocksSnoc(ms: seq<EthMsg>)
    requires ms != []
    ensures Blocks(ms) == Blocks(ms[..|ms| - 1]) + OwnBlock((|ms| - 1) % 0x1_0000, ms[|ms| - 1].Payload())
  {
    hide OwnBlock;
  }

  lemma HeldInTwo(s: Tx)
    requires Held(s) && !s.state.Ready?
    ensures s.buf[..s.total] == s.buf[..s.cnt] + UnsentTail(s)
  {}

  lemma HeldBytes(r: TxRun)
    requires RunInv(r) && !r.s.state.Ready? && Bytes(r.pushed) + UnsentTail(r.s) == Blocks(r.popped)
    ensures r.popped != []
    ensures r.s.buf[..r.s.total] == OwnBlock((|r.popped| - 1) % 0x1_0000, r.popped[|r.popped| - 1].Payload())
    ensures Bytes(r.pushed) == Blocks(r.popped[..|r.popped| - 1]) + r.s.buf[..r.s.cnt]
  {
    HeldInTwo(r.s);
    hide Bytes, OwnBlock, UnsentTail, Blocks, Conserved, Tabled, Numbered, OnlyLastEmpty, Remaining;
    BlocksSnoc(r.popped);
    CancelTail(Bytes(r.pushed), UnsentTail(r.s), Blocks(r.popped[..|r.popped| - 1]),
               r.s.buf[..r.s.total], r.s.buf[..r.s.cnt]);
  }

  /** Over every run, while a frame is held: what was pushed is the blocks of the frames before it and the first
      `txtransactioncnt` bytes of the buffer, which holds the frame's own block, within 2048 bytes. */
  lemma CurrentFrameBytes(inputs: seq<TxInput>)
    requires Run(inputs).Done? && !Run(inputs).value.s.state.Ready?
    ensures var r := Run(inputs).value;
            && r.popped != []
            && r.s.cnt <= r.s.total <= NCM_MAX_SIZE == |r.s.buf|
            && r.s.buf[..r.s.total]
               == OwnBlock((|r.popped| - 1) % 0x1_0000, r.popped[|r.popped| - 1].Payload())
            && Bytes(r.pushed) == Blocks(r.popped[..|r.popped| - 1]) + r.s.buf[..r.s.cnt]
  {
    BytesConserved(inputs);
    hide Run, Bytes, UnsentTail, Blocks;
    HeldBytes(Run(inputs).value);
  }

  // ----- packet counts and transfers

  /** The exact number of packets of a frame. */
  lemma FramePacketCount(n: u16, f: seq<byte>)
    requires 1 <= |f| <= MTU
    ensures |FramePackets(n, f)| ==
              if |f| <= 36 then 2
              else (TOTAL_HEADER_SIZE + |f| + 63) / EP_DATA_BUF_SIZE + (if |f| % EP_DATA_BUF_SIZE == 0 then 1 else 0)
  {
    hide OwnBlock, Chunks, PacketOf;
    var b := OwnBlock(n, f);
    if |f| <= 36 {
      ChunksShape(b[TOTAL_HEADER_SIZE..]);
    } else {
      ChunksShape(b);
    }
  }

  predicate Short(p: Packet) { p.len < EP_DATA_BUF_SIZE }

  /** Section 5.8.3 of USB 2.0: a bulk transfer ends with its first short packet. */
  predicate OneTransfer(ps: seq<Packet>)
  {
    && ps != []
    && Short(ps[|ps| - 1])
    && forall i :: 0 <= i < |ps| - 1 ==> !Short(ps[i])
  }

  /** The last packet of a frame is short exactly when a receiver can tell that the frame ended: the test in
      the code uses the payload length, so a block that fills its packets is left open. */
  lemma EndsShortExactly(n: u16, f: seq<byte>)
    requires 1 <= |f| <= MTU
    ensures var ps := FramePackets(n, f);
            ps != [] && (Short(ps[|ps| - 1]) <==> !(|f| > 36 && (TOTAL_HEADER_SIZE + |f|) % EP_DATA_BUF_SIZE == 0))
  {
    hide OwnBlock, Chunks, PacketOf;
    var b := OwnBlock(n, f);
    var ps := FramePackets(n, f);
    if |f| <= 36 {
      ChunksShape(b[TOTAL_HEADER_SIZE..]);
    } else {
      ChunksShape(b);
      if |f| % EP_DATA_BUF_SIZE != 0 {
        assert ps == Chunks(b);
      }
    }
  }

  lemma HeadPacketShort(d: seq<byte>)
    requires |d| < EP_DATA_BUF_SIZE
    ensures Short(PacketOf(d))
  {}

  /** No packet before the last is short exactly when the frame is neither split after its headers nor
      followed by a zero-length packet. */
  lemma FullUntilLastExactly(n: u16, f: seq<byte>)
    requires 1 <= |f| <= MTU
    ensures var ps := FramePackets(n, f);
            (forall i :: 0 <= i < |ps| - 1 ==> !Short(ps[i])) <==> |f| > 36 && |f| % EP_DATA_BUF_SIZE != 0
  {
    hide OwnBlock, Chunks, PacketOf;
    var b := OwnBlock(n, f);
    var ps := FramePackets(n, f);
    if |f| <= 36 {
      ChunksShape(b[TOTAL_HEADER_SIZE..]);
      assert ps[0] == PacketOf(b[..TOTAL_HEADER_SIZE]);
      HeadPacketShort(b[..TOTAL_HEADER_SIZE]);
    } else {
      ChunksShape(b);
      var cs := Chunks(b);
      if |f| % EP_DATA_BUF_SIZE != 0 {
        assert ps == cs;
      } else {
        assert ps[|cs| - 1] == cs[|cs| - 1] && |cs| - 1 < |ps| - 1;
        assert (TOTAL_HEADER_SIZE + |f|) % EP_DATA_BUF_SIZE != 0;
      }
    }
  }

  /** Section 5.8.3 of USB 2.0 is met for a frame -- one transfer carries it -- exactly when it is longer than
      36 bytes, its block does not fill its last packet, and no stray zero-length packet follows. */
  lemma OneTransferExactly(n: u16, f: seq<byte>)
    requires 1 <= |f| <= MTU
    ensures OneTransfer(FramePackets(n, f)) <==>
            |f| > 36 && (TOTAL_HEADER_SIZE + |f|) % EP_DATA_BUF_SIZE != 0 && |f| % EP_DATA_BUF_SIZE != 0
  {
    hide FramePackets, Short;
    EndsShortExactly(n, f);
    FullUntilLastExactly(n, f);
  }

  /** Three frames that are not one transfer: no short packet at all, a transfer cut after the headers, and
      an empty transfer after a complete one. */
  lemma NotOneTransfer(n: u16)
    ensures !OneTransfer(FramePackets(n, Zeros(100)))
    ensures !OneTransfer(FramePackets(n, Zeros(20)))
    ensures !OneTransfer(FramePackets(n, Zeros(64)))
  {
    hide FramePackets, OneTransfer;
    OneTransferExactly(n, Zeros(100));
    OneTransferExactly(n, Zeros(20));
    OneTransferExactly(n, Zeros(64));
  }

  // ----- progress

  /** The number of steps that are not refused before the machine is `Ready` again. */
  function StepsLeft(s: Tx): nat
    requires Held(s)
  {
    match s.state
    case Ready => 0
    case Header => if s.total == TOTAL_HEADER_SIZE then 1 else 3
    case Sending => (s.total - s.cnt + 63) / EP_DATA_BUF_SIZE + 1
    case Zlp => 1
  }

  /** Every accepted step brings `Ready` exactly one step closer; a refused one changes nothing. */
  lemma StepProgress(s: Tx, offer: Option<EthMsg>, room: bool)
    requires Held(s) && !s.state.Ready?
    ensures Step(s, offer, room).Done? && Held(Step(s, offer, room).value.next)
    ensures var next := Step(s, offer, room).value.next;
            if room || (s.state.Zlp? && s.datalen % EP_DATA_BUF_SIZE != 0) then StepsLeft(next) == StepsLeft(s) - 1
            else next == s
  {
    StepMovesPackets(s, offer, room);
    hide Remaining, PacketOf, Load;
  }

  /** The machine after a schedule of accepted and refused pushes, with no further frame. */
  function Drive(s: Tx, rooms: seq<bool>): Outcome<Tx>
    requires |s.buf| == NCM_MAX_SIZE
    decreases |rooms|
  {
    if rooms == [] then Done(s)
    else
      var m :- Step(s, None, rooms[0]);
      Drive(m.next, rooms[1..])
  }

  function Accepted(rooms: seq<bool>): nat
  {
    if rooms == [] then 0 else (if rooms[0] then 1 else 0) + Accepted(rooms[1..])
  }

  lemma ReadyStays(s: Tx, room: bool)
    requires Held(s) && s.state.Ready?
    ensures Step(s, None, room) == Done(TxMove(s, [], [])) && StepsLeft(s) == 0
  {}

  lemma NoStepsOnlyReady(s: Tx)
    requires Held(s)
    ensures StepsLeft(s) == 0 <==> s.state.Ready?
  {}

  /** Under every schedule, as many accepted pushes as `StepsLeft` bring the machine back to `Ready`. */
  lemma {:induction false} ReturnsToReady(s: Tx, rooms: seq<bool>)
    requires Held(s)
    ensures Drive(s, rooms).Done?
    ensures Accepted(rooms) >= StepsLeft(s) ==> Drive(s, rooms).value.state.Ready?
    decreases |rooms|
  {
    hide Step, StepsLeft;
    if rooms != [] {
      if s.state.Ready? {
        ReadyStays(s, rooms[0]);
        ReturnsToReady(s, rooms[1..]);
      } else {
        StepProgress(s, None, rooms[0]);
        ReturnsToReady(Step(s, None, rooms[0]).value.next, rooms[1..]);
      }
    } else {
      NoStepsOnlyReady(s);
    }
  }

  /** From the moment a frame is loaded, the machine takes one accepted step per packet, and one more when no
      zero-length packet ends the frame. */
  lemma StepsPerFrame(s: Tx, n: u16, f: seq<byte>)
    requires Held(s) && s.cnt == 0 && s.datalen == |f| >= 1
    requires s.state == if s.total <= EP_DATA_BUF_SIZE then Header else Sending
    ensures |f| <= MTU
    ensures StepsLeft(s) == |FramePackets(n, f)| + (if |f| % EP_DATA_BUF_SIZE == 0 then 0 else 1)
  {
    hide FramePackets;
    FramePacketCount(n, f);
  }
}
