/** The transmit half of `process_messages` as a state machine, and what holds over all its runs. */
module NcmTx {
  import opened Wire
  import opened Ntb

  datatype TxState = Ready | Header | Sending | Zlp

  /** The transmit fields of `NcmApiManager`. */
  datatype Tx = Tx(
    state: TxState,
    cnt: nat,        // txtransactioncnt
    total: nat,      // usbmsgtotlen
    datalen: nat,    // currtxdatalen
    header: Nth16,   // txheader
    table: Ndp16,    // txdatagram
    buf: seq<byte>)  // ncmmsgtxbuf

  const INIT := Tx(Ready, 0, 0, 0, DEFAULT_NTH16, DEFAULT_NDP16, Zeros(NCM_MAX_SIZE))

  /** One step: the machine afterwards, the frame it took from the Ethernet queue, the packet it pushed. */
  datatype TxMove = TxMove(next: Tx, popped: seq<EthMsg>, pushed: seq<Packet>)

  /** Wraps a frame into the transmit buffer. A table that is not exactly 16 bytes long does not fit its slot. */
  function Load(s: Tx, msg: EthMsg): (s': Outcome<Tx>)
    requires |s.buf| == NCM_MAX_SIZE
    ensures s'.Done? ==> |s'.value.buf| == NCM_MAX_SIZE
  {
    var total := TOTAL_HEADER_SIZE + msg.len;
    var table := s.table.(datagrams := s.table.datagrams + [Datagram(TOTAL_HEADER_SIZE, msg.len), Datagram(0, 0)]);
    var header := s.header.(blocklen := total);
    if |NdpBytes(table)| != TOTAL_HEADER_SIZE - NTH16_SIZE then Panic
    else
      Done(Tx(if total <= EP_DATA_BUF_SIZE then Header else Sending,
              s.cnt, total, msg.len,
              header.(sequence := (header.sequence + 1) % 0x1_0000),
              table,
              NthBytes(header) + NdpBytes(table) + msg.Payload() + s.buf[total..]))
  }

  /** The step taken when the head of the Ethernet queue is `offer` and the USB queue has `room`. */
  function Step(s: Tx, offer: Option<EthMsg>, room: bool): (m: Outcome<TxMove>)
    requires |s.buf| == NCM_MAX_SIZE
    ensures m.Done? ==> |m.value.next.buf| == NCM_MAX_SIZE
  {
    match s.state
    case Ready =>
      if offer.None? then Done(TxMove(s, [], []))
      else
        var next :- Load(s, offer.value);
        Done(TxMove(next, [offer.value], []))
    case Header =>
      if !room then Done(TxMove(s, [], []))
      else
        var next := if s.total == TOTAL_HEADER_SIZE then s.(state := Ready)
                    else s.(state := Sending, cnt := s.cnt + TOTAL_HEADER_SIZE);
        Done(TxMove(next, [], [PacketOf(s.buf[..TOTAL_HEADER_SIZE])]))
    case Sending =>
      if s.cnt > s.total then Panic
      else
        var n := Min(s.total - s.cnt, EP_DATA_BUF_SIZE);
        if s.cnt + n > |s.buf| then Panic
        else if !room then Done(TxMove(s, [], []))
        else
          var next := s.(cnt := s.cnt + n, state := if s.cnt + n == s.total then Zlp else Sending);
          Done(TxMove(next, [], [PacketOf(s.buf[s.cnt..s.cnt + n])]))
    case Zlp =>
      if s.datalen % EP_DATA_BUF_SIZE == 0 && !room then Done(TxMove(s, [], []))
      else
        var next := s.(state := Ready, cnt := 0, table := s.table.(datagrams := []));
        Done(TxMove(next, [], if s.datalen % EP_DATA_BUF_SIZE == 0 then [PacketOf([])] else []))
  }

  /** What the environment does to one step. */
  datatype TxInput = TxInput(offer: Option<EthMsg>, room: bool)

  /** A run so far: the machine, every frame taken, every packet pushed. */
  datatype TxRun = TxRun(s: Tx, popped: seq<EthMsg>, pushed: seq<Packet>)

  function Extend(r: TxRun, x: TxInput): (r': Outcome<TxRun>)
    requires |r.s.buf| == NCM_MAX_SIZE
    ensures r'.Done? ==> |r'.value.s.buf| == NCM_MAX_SIZE
  {
    var m :- Step(r.s, x.offer, x.room);
    Done(TxRun(m.next, r.popped + m.popped, r.pushed + m.pushed))
  }

  function Run(inputs: seq<TxInput>): (r: Outcome<TxRun>)
    ensures r.Done? ==> |r.value.s.buf| == NCM_MAX_SIZE
  {
    if inputs == [] then Done(TxRun(INIT, [], []))
    else
      var r :- Run(inputs[..|inputs| - 1]);
      Extend(r, inputs[|inputs| - 1])
  }

  // ----- what a frame becomes on the wire

  /** A byte string cut into full packets and one last packet. */
  function Chunks(b: seq<byte>): (ps: seq<Packet>)
    ensures |ps| > 0
  {
    if |b| <= EP_DATA_BUF_SIZE then [PacketOf(b)]
    else [PacketOf(b[..EP_DATA_BUF_SIZE])] + Chunks(b[EP_DATA_BUF_SIZE..])
  }

  /** The zero-length packet follows when the payload length, not the block length, is a multiple of 64. */
  function Trailer(len: nat): seq<Packet>
  {
    if len % EP_DATA_BUF_SIZE == 0 then [PacketOf([])] else []
  }

  /** The packets of the frame sent with sequence number `sequence`. */
  function FramePackets(sequence: u16, frame: seq<byte>): seq<Packet>
    requires |frame| <= MTU
  {
    var b := OwnBlock(sequence, frame);
    if |b| > EP_DATA_BUF_SIZE then Chunks(b) + Trailer(|frame|)
    else if frame == [] then [PacketOf(b[..TOTAL_HEADER_SIZE])]
    else [PacketOf(b[..TOTAL_HEADER_SIZE])] + Chunks(b[TOTAL_HEADER_SIZE..]) + Trailer(|frame|)
  }

  /** The packets of a sequence of frames; the k-th block carries sequence number k mod 65536. */
  function StreamPackets(ms: seq<EthMsg>): seq<Packet>
  {
    if ms == [] then []
    else StreamPackets(ms[..|ms| - 1]) + FramePackets((|ms| - 1) % 0x1_0000, ms[|ms| - 1].Payload())
  }

  /** The state alone: counters in order, buffer in bounds. */
  predicate Held(s: Tx)
  {
    && |s.buf| == NCM_MAX_SIZE
    && s.cnt <= s.total <= NCM_MAX_SIZE
    && (s.state.Ready? ==> s.cnt == 0)
    && (!s.state.Ready? ==> s.total == TOTAL_HEADER_SIZE + s.datalen && s.datalen <= MTU)
    && (s.state.Header? ==> s.cnt == 0 && s.total <= EP_DATA_BUF_SIZE)
    && (s.state.Sending? ==> s.cnt < s.total && s.total > TOTAL_HEADER_SIZE)
    && (s.state.Sending? && s.total <= EP_DATA_BUF_SIZE ==> s.cnt == TOTAL_HEADER_SIZE)
    && (s.state.Sending? && s.total > EP_DATA_BUF_SIZE ==> s.cnt % EP_DATA_BUF_SIZE == 0)
    && (s.state.Zlp? ==> s.cnt == s.total > TOTAL_HEADER_SIZE)
  }

  /** The packets the machine has still to push for the frame it holds. */
  function Remaining(s: Tx): seq<Packet>
    requires Held(s)
  {
    match s.state
    case Ready => []
    case Header =>
      [PacketOf(s.buf[..TOTAL_HEADER_SIZE])]
      + (if s.total == TOTAL_HEADER_SIZE then [] else Chunks(s.buf[TOTAL_HEADER_SIZE..s.total]) + Trailer(s.datalen))
    case Sending => Chunks(s.buf[s.cnt..s.total]) + Trailer(s.datalen)
    case Zlp => Trailer(s.datalen)
  }

  // ----- the invariant

  /** The header is the default one, numbered with the count of frames taken so far. */
  predicate Numbered(h: Nth16, n: nat)
  {
    h == DEFAULT_NTH16.(sequence := n % 0x1_0000, blocklen := h.blocklen)
  }

  /** The table holds the current frame's two entries, and none in `Ready` -- unless the last frame was
      empty, which is the one case that skips the clearing. */
  predicate Tabled(t: Ndp16, ready: bool, popped: seq<EthMsg>)
  {
    t == if popped == [] || (ready && popped[|popped| - 1].len != 0) then DEFAULT_NDP16
         else OwnTable(popped[|popped| - 1].len)
  }

  /** The buffer starts with the block of the last frame taken. */
  predicate Loaded(block: seq<byte>, datalen: nat, popped: seq<EthMsg>)
  {
    && popped != []
    && datalen == popped[|popped| - 1].len
    && block == OwnBlock((|popped| - 1) % 0x1_0000, popped[|popped| - 1].Payload())
  }

  predicate OnlyLastEmpty(popped: seq<EthMsg>)
  {
    forall i :: 0 <= i < |popped| - 1 ==> popped[i].len != 0
  }

  /** Pushed and remaining packets together are the stream of the frames taken. */
  predicate Conserved(r: TxRun)
    requires Held(r.s)
  {
    r.pushed + Remaining(r.s) == StreamPackets(r.popped)
  }

  predicate RunInv(r: TxRun)
  {
    && Held(r.s)
    && Numbered(r.s.header, |r.popped|)
    && Tabled(r.s.table, r.s.state.Ready?, r.popped)
    && (!r.s.state.Ready? ==> Loaded(r.s.buf[..r.s.total], r.s.datalen, r.popped))
    && OnlyLastEmpty(r.popped)
    && Conserved(r)
  }

  /** The one way a step can panic. */
  predicate Jammed(r: TxRun, x: TxInput)
  {
    r.s.state.Ready? && x.offer.Some? && r.popped != [] && r.popped[|r.popped| - 1].len == 0
  }

  /** A newly loaded block is the frame's own block. */
  lemma LoadBuildsBlock(s: Tx, n: u16, msg: EthMsg)
    requires |s.buf| == NCM_MAX_SIZE
    requires s.header == DEFAULT_NTH16.(sequence := n, blocklen := s.header.blocklen) && s.table == DEFAULT_NDP16
    ensures Load(s, msg).Done?
    ensures Load(s, msg).value.buf[..TOTAL_HEADER_SIZE + msg.len] == OwnBlock(n, msg.Payload())
    ensures |Load(s, msg).value.buf| == NCM_MAX_SIZE
    ensures Load(s, msg).value.table == OwnTable(msg.len)
  {
    assert [] + OwnTable(msg.len).datagrams == OwnTable(msg.len).datagrams;
    hide NthBytes, NdpBytes;
    var b := OwnBlock(n, msg.Payload());
    assert Load(s, msg).value.buf == b + s.buf[|b|..];
  }

  /** A machine that has just loaded a frame has all of the frame's packets before it. */
  lemma LoadedRemaining(s: Tx, n: u16, frame: seq<byte>)
    requires Held(s) && s.cnt == 0 && s.datalen == |frame|
    requires s.state == if s.total <= EP_DATA_BUF_SIZE then Header else Sending
    requires s.buf[..s.total] == OwnBlock(n, frame)
    ensures Remaining(s) == FramePackets(n, frame)
  {
    hide OwnBlock, Chunks;
    var b := OwnBlock(n, frame);
    assert s.buf[0..s.total] == b;
    assert s.buf[..TOTAL_HEADER_SIZE] == b[..TOTAL_HEADER_SIZE];
    assert s.buf[TOTAL_HEADER_SIZE..s.total] == b[TOTAL_HEADER_SIZE..];
  }

  lemma ReadyRemaining(s: Tx)
    requires Held(s) && s.state.Ready?
    ensures Remaining(s) == []
  {}

  lemma StreamOfOneMore(ms: seq<EthMsg>, m: EthMsg)
    ensures StreamPackets(ms + [m]) == StreamPackets(ms) + FramePackets(|ms| % 0x1_0000, m.Payload())
  {
    hide FramePackets;
    assert (ms + [m])[..|ms|] == ms;
  }

  lemma LoadKeeps(r: TxRun, msg: EthMsg)
    requires RunInv(r) && r.s.state.Ready?
    ensures Load(r.s, msg).Panic? <==> r.popped != [] && r.popped[|r.popped| - 1].len == 0
    ensures Load(r.s, msg).Done? ==> RunInv(TxRun(Load(r.s, msg).value, r.popped + [msg], r.pushed))
  {
    hide OwnBlock, FramePackets, NthBytes, EntryBytes, StreamPackets, Remaining;
    if Load(r.s, msg).Done? {
      var n := |r.popped| % 0x1_0000;
      LoadBuildsBlock(r.s, n, msg);
      var s' := Load(r.s, msg).value;
      var r' := TxRun(s', r.popped + [msg], r.pushed);
      assert Conserved(r') by {
        LoadedRemaining(s', n, msg.Payload());
        StreamOfOneMore(r.popped, msg);
        assert r.pushed + Remaining(r.s) == r.pushed by { assert Remaining(r.s) == [] by { ReadyRemaining(r.s); } }
      }
    }
  }

  /** Cutting the first `n` bytes off a chunked string, `n` being the next chunk's size. */
  lemma ChunksStep(b: seq<byte>, n: nat)
    requires n == Min(|b|, EP_DATA_BUF_SIZE)
    ensures n < |b| ==> Chunks(b) == [PacketOf(b[..n])] + Chunks(b[n..])
    ensures n == |b| ==> Chunks(b) == [PacketOf(b[..n])]
  {
    assert b[..|b|] == b;
  }

  /** While a frame is held, a step only moves packets from `Remaining` into the queue. */
  lemma StepMovesPackets(s: Tx, offer: Option<EthMsg>, room: bool)
    requires Held(s) && !s.state.Ready?
    ensures Step(s, offer, room).Done?
    ensures var m := Step(s, offer, room).value;
            && Held(m.next) && m.popped == [] && Remaining(s) == m.pushed + Remaining(m.next)
            && m.next.header == s.header && m.next.buf == s.buf
            && m.next.total == s.total && m.next.datalen == s.datalen
            && m.next.table == if m.next.state.Ready? && s.datalen != 0 then s.table.(datagrams := []) else s.table
  {
    hide Chunks, PacketOf, Load;
    if s.state.Sending? && room {
      var n := Min(s.total - s.cnt, EP_DATA_BUF_SIZE);
      SliceSplit(s.buf, s.cnt, s.total, n);
      ChunksStep(s.buf[s.cnt..s.total], n);
    }
  }

  lemma MoveConserves(r: TxRun, m: TxMove)
    requires Held(r.s) && Held(m.next) && m.popped == []
    requires Remaining(r.s) == m.pushed + Remaining(m.next)
    requires Conserved(r)
    ensures Conserved(TxRun(m.next, r.popped, r.pushed + m.pushed))
  {
    hide Remaining, StreamPackets, Held;
    assert r.pushed + m.pushed + Remaining(m.next) == r.pushed + (m.pushed + Remaining(m.next));
  }

  lemma PushKeeps(r: TxRun, x: TxInput)
    requires RunInv(r) && !r.s.state.Ready?
    ensures Extend(r, x).Done? && RunInv(Extend(r, x).value)
  {
    StepMovesPackets(r.s, x.offer, x.room);
    hide Step, Remaining, Conserved, OwnBlock, Numbered, OnlyLastEmpty;
    var m := Step(r.s, x.offer, x.room).value;
    MoveConserves(r, m);
    assert r.popped + m.popped == r.popped;
  }

  /** One step of a run: it panics exactly when jammed, and otherwise keeps the invariant. */
  lemma ExtendKeeps(r: TxRun, x: TxInput)
    requires RunInv(r)
    ensures Extend(r, x).Panic? <==> Jammed(r, x)
    ensures Extend(r, x).Done? ==> RunInv(Extend(r, x).value)
  {
    if !r.s.state.Ready? {
      hide RunInv, Step;
      PushKeeps(r, x);
    } else if x.offer.Some? {
      hide RunInv, Load;
      LoadKeeps(r, x.offer.value);
      assert r.pushed + [] == r.pushed;
    } else {
      hide RunInv;
      assert TxRun(r.s, r.popped + [], r.pushed + []) == r;
    }
  }

  lemma InitKeeps()
    ensures RunInv(TxRun(INIT, [], []))
  {}

  /** Every run, with every pattern of refused pushes and any frames: the invariant holds, so what was
      pushed together with what remains is the packet stream of the frames taken, and the table holds
      the entries it should. */
  lemma {:induction false} RunKeepsInvariant(inputs: seq<TxInput>)
    ensures Run(inputs).Done? ==> RunInv(Run(inputs).value)
  {
    if inputs == [] {
      InitKeeps();
    } else {
      hide RunInv, Extend;
      var init, x := inputs[..|inputs| - 1], inputs[|inputs| - 1];
      RunKeepsInvariant(init);
      if Run(init).Done? {
        ExtendKeeps(Run(init).value, x);
      }
    }
  }

  /** Exactly when the transmitter halts the firmware: it is asked for another frame after an empty one. */
  lemma PanicsExactlyAfterEmptyFrame(inputs: seq<TxInput>, x: TxInput)
    requires Run(inputs).Done?
    ensures Run(inputs + [x]).Panic? <==> Jammed(Run(inputs).value, x)
  {
    hide RunInv, Extend, Jammed;
    RunKeepsInvariant(inputs);
    ExtendKeeps(Run(inputs).value, x);
    assert (inputs + [x])[..|inputs|] == inputs;
  }

  lemma ExtendTakes(r: TxRun, x: TxInput)
    requires |r.s.buf| == NCM_MAX_SIZE && Extend(r, x).Done?
    ensures var popped := Extend(r, x).value.popped;
            popped == r.popped || (x.offer.Some? && popped == r.popped + [x.offer.value])
  {
    hide Load;
    assert r.popped + [] == r.popped;
  }

  /** No frame offered is empty. */
  predicate NoEmptyFrame(inputs: seq<TxInput>)
  {
    forall i :: 0 <= i < |inputs| && inputs[i].offer.Some? ==> inputs[i].offer.value.len != 0
  }

  /** Under the contract that frames are not empty, no run panics, under any pattern of refusals. */
  lemma {:induction false} NeverPanics(inputs: seq<TxInput>)
    requires NoEmptyFrame(inputs)
    ensures Run(inputs).Done?
    ensures forall i :: 0 <= i < |Run(inputs).value.popped| ==> Run(inputs).value.popped[i].len != 0
  {
    if inputs != [] {
      var init, x := inputs[..|inputs| - 1], inputs[|inputs| - 1];
      NeverPanics(init);
      RunKeepsInvariant(init);
      hide RunInv, Extend, Held;
      var r := Run(init).value;
      ExtendKeeps(r, x);
      assert Run(inputs).value.popped == r.popped || Run(inputs).value.popped == r.popped + [x.offer.value] by {
        ExtendTakes(r, x);
      }
    }
  }

  lemma RunTwo(x: TxInput, y: TxInput)
    requires Extend(TxRun(INIT, [], []), x).Done?
    ensures Run([x, y]) == Extend(Extend(TxRun(INIT, [], []), x).value, y)
  {
    hide Extend;
    assert [x, y][..1] == [x] && [x][..0] == [];
    assert Run([]) == Done(TxRun(INIT, [], []));
    assert Run([x]) == Extend(TxRun(INIT, [], []), x);
  }

  lemma EmptyFrameSteps(e: EthMsg)
    requires e.len == 0
    ensures Load(INIT, e).Done?
    ensures var s := Load(INIT, e).value;
            && |s.buf| == NCM_MAX_SIZE
            && Step(s, None, true).Done? && Step(s, None, true).value.next.state.Ready?
            && Step(s, None, true).value.popped == []
  {
    LoadBuildsBlock(INIT, 0, e);
    hide OwnBlock, NthBytes, NdpBytes, Overwrite;
  }

  /** An empty frame, its header taken, and then any frame at all: the firmware halts. */
  lemma EmptyFrameJams(e: EthMsg, next: EthMsg, room: bool)
    requires e.len == 0
    ensures Run([TxInput(Some(e), true), TxInput(None, true)]).Done?
    ensures Run([TxInput(Some(e), true), TxInput(None, true), TxInput(Some(next), room)]).Panic?
  {
    var x, y, z := TxInput(Some(e), true), TxInput(None, true), TxInput(Some(next), room);
    EmptyFrameSteps(e);
    RunTwo(x, y);
    hide Load;
    assert [] + [e] == [e] && [e] + [] == [e];
    assert Run([x, y]).value.popped == [e] && Run([x, y]).value.s.state.Ready?;
    PanicsExactlyAfterEmptyFrame([x, y], z);
    assert [x, y] + [z] == [x, y, z];
  }
}
