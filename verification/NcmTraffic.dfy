/** Streams of blocks and junk, one packet a call or many. */
module NcmTraffic {
  import opened Wire
  import opened Ntb
  import opened NtbStandard
  import opened NcmRx

  /** What a standard block does, however it is sent: the receiver halts exactly when the first table has an entry
      longer than 576 bytes or past byte 2048; otherwise it delivers the standard's frames exactly when what it keeps
      after the null entry is what the chained tables hold. */
  lemma SessionAgreesExactly(s: Rx, b: seq<byte>, ps: seq<Packet>)
    requires Idle(s) && IsStandardBlock(b) && Sends(ps, b)
    ensures Session(s, ps).Panic? <==> Halts(b)
    ensures Session(s, ps).Done? ==>
              (Frames(Session(s, ps).value.frames) == StandardFrames(b) <==> SameRest(s.buf, b))
  {
    assert IsBlock(b) && HasTable(b);
    hide Session, Sends, IsStandardBlock, IsBlock, HasTable, StandardFrames, FramesOver, ReadableOver, Halts, SameRest;
    SessionExactly(s, b, ps);
    HaltsExactly(s.buf, b);
    if !Halts(b) { AgreesExactly(s.buf, b); }
  }

  /** A legal frame of 577 to 1514 bytes in a block of its own halts the firmware. */
  lemma LongFrameHaltsReceiver(s: Rx, f: seq<byte>, ps: seq<Packet>)
    requires Idle(s) && MTU < |f| <= NCM_MAX_SEGMENT_SIZE
    requires Sends(ps, OneEntryBlock(TOTAL_HEADER_SIZE, |f|, false, f))
    ensures Session(s, ps).Panic?
  {
    hide Session, Sends, OneEntryBlock;
    LongFrameHalts(f);
    SessionAgreesExactly(s, OneEntryBlock(TOTAL_HEADER_SIZE, |f|, false, f), ps);
  }

  /** So does an entry after the null one, in a block that is empty by the standard, if it does not fit. */
  lemma LateEntryHalts(s: Rx, index: u16, length: u16, ps: seq<Packet>)
    requires Idle(s) && index != 0 && Overflows(Datagram(index, length))
    requires Sends(ps, OneEntryBlock(index, length, true, []))
    ensures var b := OneEntryBlock(index, length, true, []); IsStandardBlock(b) && StandardFrames(b) == []
    ensures Session(s, ps).Panic?
  {
    hide Session, Sends, OneEntryBlock;
    OneEntryBlockReads(index, length, true, []);
    OneEntryHalts(index, length, true, []);
    hide StandardDatagrams;
    SessionAgreesExactly(s, OneEntryBlock(index, length, true, []), ps);
  }

  /** What a host sends: blocks, each in its packets, with junk in between. */
  datatype Segment = Noise(junk: Packet) | Block(block: seq<byte>, packets: seq<Packet>)

  /** A block has a header and is sent in a way the receiver reassembles. */
  ghost predicate ValidSegment(g: Segment)
  {
    match g
    case Noise(p) => Junk(p)
    case Block(b, ps) => IsBlock(b) && Sends(ps, b)
  }

  ghost predicate ValidTraffic(gs: seq<Segment>)
  {
    forall i :: 0 <= i < |gs| ==> ValidSegment(gs[i])
  }

  function SegmentPackets(g: Segment): seq<Packet>
  {
    match g
    case Noise(p) => [p]
    case Block(_, ps) => ps
  }

  function TrafficPackets(gs: seq<Segment>): seq<Packet>
  {
    if gs == [] then [] else TrafficPackets(gs[..|gs| - 1]) + SegmentPackets(gs[|gs| - 1])
  }

  /** The receive buffer `buf` when all blocks have been laid into it. */
  ghost function Buffer(buf: seq<byte>, gs: seq<Segment>): (r: seq<byte>)
    requires |buf| == NCM_MAX_SIZE && ValidTraffic(gs)
    ensures |r| == NCM_MAX_SIZE
  {
    if gs == [] then buf
    else
      assert ValidSegment(gs[|gs| - 1]);
      match gs[|gs| - 1]
      case Noise(_) => Buffer(buf, gs[..|gs| - 1])
      case Block(b, _) => Overwrite(Buffer(buf, gs[..|gs| - 1]), 0, b)
  }

  /** Every block is readable over what the blocks before it left in the buffer. */
  ghost predicate Survives(gs: seq<Segment>)
    requires ValidTraffic(gs)
  {
    gs == []
    || (assert ValidSegment(gs[|gs| - 1]);
        && Survives(gs[..|gs| - 1])
        && (gs[|gs| - 1].Block? ==> ReadableOver(Buffer(INIT.buf, gs[..|gs| - 1]), gs[|gs| - 1].block)))
  }

  /** The frames found in the blocks, in order. */
  ghost function TrafficFrames(gs: seq<Segment>): seq<seq<byte>>
    requires ValidTraffic(gs) && Survives(gs)
  {
    if gs == [] then []
    else
      assert ValidSegment(gs[|gs| - 1]);
      TrafficFrames(gs[..|gs| - 1])
      + (match gs[|gs| - 1] case Noise(_) => [] case Block(b, _) => FramesOver(Buffer(INIT.buf, gs[..|gs| - 1]), b))
  }

  lemma SegmentSession(s: Rx, g: Segment)
    requires Idle(s) && ValidSegment(g)
    ensures Session(s, SegmentPackets(g)).Done? <==> (g.Block? ==> ReadableOver(s.buf, g.block))
    ensures Session(s, SegmentPackets(g)).Done? ==>
              var r := Session(s, SegmentPackets(g)).value;
              && Idle(r.next)
              && (g.Noise? ==> r.next.buf == s.buf && Frames(r.frames) == [])
              && (g.Block? ==>
                    r.next.buf == Overwrite(s.buf, 0, g.block) && Frames(r.frames) == FramesOver(s.buf, g.block))
  {
    match g
    case Noise(p) =>
      hide Session, Turn;
      JunkTurn(s, p);
      SessionOne(s, p);
    case Block(b, ps) =>
      hide Session, Turn, IsBlock, ReadableOver, FramesOver, Overwrite, Sends;
      SessionExactly(s, b, ps);
  }

  lemma IdleSized(s: Rx)
    requires Idle(s)
    ensures |s.buf| == NCM_MAX_SIZE
  {}

  /** Over all such traffic, one packet a call, whatever junk lies between the blocks and however each is sent: the
      receiver panics exactly when some block is not readable, and otherwise delivers exactly the frames found in the
      blocks, in order. */
  lemma {:induction false} TrafficExactly(gs: seq<Segment>)
    requires ValidTraffic(gs)
    ensures Session(INIT, TrafficPackets(gs)).Done? <==> Survives(gs)
    ensures Survives(gs) ==>
              var r := Session(INIT, TrafficPackets(gs)).value;
              Idle(r.next) && r.next.buf == Buffer(INIT.buf, gs) && Frames(r.frames) == TrafficFrames(gs)
  {
    if gs == [] {
      SessionEmpty(INIT);
    } else {
      var init, g := gs[..|gs| - 1], gs[|gs| - 1];
      TrafficExactly(init);
      assert ValidSegment(g);
      hide Session, FramesOver, ReadableOver, SegmentPackets, Idle, Overwrite, Frames;
      if Survives(init) {
        var r := Session(INIT, TrafficPackets(init)).value;
        IdleSized(r.next);
        SegmentSession(r.next, g);
        SessionConcat(INIT, TrafficPackets(init), SegmentPackets(g));
        if Session(r.next, SegmentPackets(g)).Done? {
          FramesConcat(r.frames, Session(r.next, SegmentPackets(g)).value.frames);
        }
      } else {
        SessionConcat(INIT, TrafficPackets(init), SegmentPackets(g));
      }
    }
  }

  // ----- blocks that bring their own table

  predicate TabledTraffic(gs: seq<Segment>)
  {
    forall i :: 0 <= i < |gs| && gs[i].Block? ==> IsBlock(gs[i].block) && HasTable(gs[i].block)
  }

  /** Some block has an entry of more than 576 bytes, or one that ends past byte 2048. */
  predicate SomeHalts(gs: seq<Segment>)
    requires TabledTraffic(gs)
  {
    exists i :: 0 <= i < |gs| && gs[i].Block? && Halts(gs[i].block)
  }

  lemma SomeHaltsLast(gs: seq<Segment>)
    requires TabledTraffic(gs) && gs != []
    ensures SomeHalts(gs)
            <==> SomeHalts(gs[..|gs| - 1]) || (gs[|gs| - 1].Block? && Halts(gs[|gs| - 1].block))
  {
    hide Halts, IsBlock, HasTable;
    var init := gs[..|gs| - 1];
    if i :| 0 <= i < |init| && init[i].Block? && Halts(init[i].block) {
      assert gs[i] == init[i];
    }
    if i :| 0 <= i < |gs| && gs[i].Block? && Halts(gs[i].block) {
      assert i < |init| ==> gs[i] == init[i];
    }
  }

  lemma {:induction false} TabledSurvives(gs: seq<Segment>)
    requires ValidTraffic(gs) && TabledTraffic(gs)
    ensures Survives(gs) <==> !SomeHalts(gs)
  {
    if gs != [] {
      var init, g := gs[..|gs| - 1], gs[|gs| - 1];
      TabledSurvives(init);
      assert ValidSegment(g);
      hide ReadableOver, Halts, HasTable, IsBlock;
      if g.Block? { HaltsExactly(Buffer(INIT.buf, init), g.block); }
      SomeHaltsLast(gs);
      hide SomeHalts;
    }
  }

  // ----- blocks that are whole in themselves

  /** Every block is one the receiver reads in itself. */
  predicate HostTraffic(gs: seq<Segment>)
  {
    forall i :: 0 <= i < |gs| && gs[i].Block? ==> IsHostBlock(gs[i].block)
  }

  /** The frames of the blocks alone. */
  function HostFrames(gs: seq<Segment>): seq<seq<byte>>
    requires HostTraffic(gs)
  {
    if gs == [] then []
    else
      HostFrames(gs[..|gs| - 1])
      + (match gs[|gs| - 1] case Noise(_) => [] case Block(b, _) => BlockFrames(b))
  }

  lemma {:induction false} HostTrafficFrames(gs: seq<Segment>)
    requires ValidTraffic(gs) && HostTraffic(gs)
    ensures Survives(gs) && TrafficFrames(gs) == HostFrames(gs)
  {
    if gs != [] {
      var init, g := gs[..|gs| - 1], gs[|gs| - 1];
      HostTrafficFrames(init);
      assert ValidSegment(g);
      hide BlockFrames, ReadableOver, FramesOver, IsHostBlock, Sends, IsBlock;
      if g.Block? { HostFramesOver(Buffer(INIT.buf, init), g.block); }
    }
  }

  /** Every block is a standard block of one table with nothing after its null entry. */
  predicate PlainTraffic(gs: seq<Segment>)
  {
    forall i :: 0 <= i < |gs| && gs[i].Block? ==> IsPlainBlock(gs[i].block)
  }

  /** The frames of the blocks by the standard. */
  function StandardTraffic(gs: seq<Segment>): seq<seq<byte>>
    requires PlainTraffic(gs)
  {
    if gs == [] then []
    else
      StandardTraffic(gs[..|gs| - 1])
      + (match gs[|gs| - 1] case Noise(_) => [] case Block(b, _) => StandardFrames(b))
  }

  /** All frames fit the receiver's frame buffer. */
  predicate AllShort(fs: seq<seq<byte>>)
  {
    forall f :: f in fs ==> |f| <= 576
  }

  lemma AllShortConcat(a: seq<seq<byte>>, b: seq<seq<byte>>)
    ensures AllShort(a + b) <==> AllShort(a) && AllShort(b)
  {
    assert forall f :: f in a ==> f in a + b;
    assert forall f :: f in b ==> f in a + b;
  }

  lemma PlainSegment(before: seq<byte>, b: seq<byte>)
    requires IsPlainBlock(b) && |before| == NCM_MAX_SIZE
    ensures ReadableOver(before, b) <==> AllShort(StandardFrames(b))
    ensures ReadableOver(before, b) ==> FramesOver(before, b) == StandardFrames(b)
  {
    hide IsPlainBlock, ReadableOver, FramesOver, Halts;
    PlainHaltsExactly(before, b);
  }

  lemma {:induction false} PlainTrafficFrames(gs: seq<Segment>)
    requires ValidTraffic(gs) && PlainTraffic(gs)
    ensures Survives(gs) <==> AllShort(StandardTraffic(gs))
    ensures Survives(gs) ==> TrafficFrames(gs) == StandardTraffic(gs)
  {
    if gs != [] {
      var init, g := gs[..|gs| - 1], gs[|gs| - 1];
      PlainTrafficFrames(init);
      assert ValidSegment(g);
      hide StandardFrames, IsPlainBlock, Sends, ReadableOver, FramesOver, IsBlock, AllShort;
      if g.Block? {
        PlainSegment(Buffer(INIT.buf, init), g.block);
        AllShortConcat(StandardTraffic(init), StandardFrames(g.block));
      }
    }
  }

  /** What this means for blocks by their own bytes. If each brings its table, the receiver panics exactly when one of
      them has an entry of more than 576 bytes or past byte 2048. If their entries lie inside them, it delivers their
      frames. If they are plain, it panics exactly when a frame is longer than 576 bytes and otherwise delivers exactly
      the frames of NCM 1.0. */
  lemma TrafficDelivered(gs: seq<Segment>)
    requires ValidTraffic(gs)
    ensures TabledTraffic(gs) ==> (Session(INIT, TrafficPackets(gs)).Panic? <==> SomeHalts(gs))
    ensures HostTraffic(gs) ==>
              && Session(INIT, TrafficPackets(gs)).Done?
              && Frames(Session(INIT, TrafficPackets(gs)).value.frames) == HostFrames(gs)
    ensures PlainTraffic(gs) ==>
              && (Session(INIT, TrafficPackets(gs)).Done? <==> AllShort(StandardTraffic(gs)))
              && (Session(INIT, TrafficPackets(gs)).Done? ==>
                    Frames(Session(INIT, TrafficPackets(gs)).value.frames) == StandardTraffic(gs))
  {
    hide Session, TrafficPackets, Survives, TrafficFrames, HostFrames, StandardTraffic, Frames, AllShort, ValidTraffic,
         TabledTraffic, HostTraffic, PlainTraffic, SomeHalts;
    TrafficExactly(gs);
    if TabledTraffic(gs) { TabledSurvives(gs); }
    if HostTraffic(gs) { HostTrafficFrames(gs); }
    if PlainTraffic(gs) { PlainTrafficFrames(gs); }
  }

  /** ... and at every point inside surviving traffic, the frames delivered so far are the first ones. */
  lemma TrafficPrefix(gs: seq<Segment>, ps: seq<Packet>)
    requires ValidTraffic(gs) && Survives(gs) && ps <= TrafficPackets(gs)
    ensures Session(INIT, ps).Done?
    ensures Frames(Session(INIT, ps).value.frames) <= TrafficFrames(gs)
  {
    TrafficExactly(gs);
    hide Session, TrafficFrames, TrafficPackets, Survives, ValidTraffic;
    var rest := TrafficPackets(gs)[|ps|..];
    assert ps + rest == TrafficPackets(gs);
    SessionConcat(INIT, ps, rest);
    var r := Session(INIT, ps).value;
    FramesConcat(r.frames, Session(r.next, rest).value.frames);
  }

  // ----- several blocks in one drain

  lemma {:induction false} DrainConcat(s: Rx, a: seq<Packet>, b: seq<Packet>)
    requires |s.buf| == NCM_MAX_SIZE && Drain(s, a).Done?
    ensures Drain(s, a + b) == Drain(Drain(s, a).value, b)
    decreases |a|
  {
    if a == [] {
      assert a + b == b;
    } else {
      hide Feed;
      assert (a + b)[1..] == a[1..] + b;
      DrainConcat(Feed(s, a[0]).value, a[1..], b);
    }
  }

  /** The last block of the traffic. */
  function LastBlock(gs: seq<Segment>): Option<seq<byte>>
  {
    if gs == [] then None
    else if gs[|gs| - 1].Block? then Some(gs[|gs| - 1].block)
    else LastBlock(gs[..|gs| - 1])
  }

  /** The buffer that block is laid into. */
  ghost function BeforeLast(buf: seq<byte>, gs: seq<Segment>): (r: seq<byte>)
    requires |buf| == NCM_MAX_SIZE && ValidTraffic(gs)
    ensures |r| == NCM_MAX_SIZE
  {
    if gs == [] then buf
    else if gs[|gs| - 1].Block? then Buffer(buf, gs[..|gs| - 1])
    else BeforeLast(buf, gs[..|gs| - 1])
  }

  lemma SegmentDrain(s: Rx, g: Segment)
    requires Between(s) && ValidSegment(g)
    ensures Drain(s, SegmentPackets(g)).Done? && Between(Drain(s, SegmentPackets(g)).value)
    ensures g.Noise? ==> Drain(s, SegmentPackets(g)).value == s
    ensures g.Block? ==> |g.block| <= |s.buf| && Drain(s, SegmentPackets(g)).value.buf == Overwrite(s.buf, 0, g.block)
  {
    match g
    case Noise(p) =>
      hide Drain;
      DrainOne(s, [p]);
    case Block(b, ps) =>
      hide Sends, Drain, Overwrite, ParseNth16;
      Reassembles(s, b, ps);
  }

  lemma {:induction false} TrafficDrain(s: Rx, gs: seq<Segment>)
    requires Between(s) && ValidTraffic(gs)
    ensures Drain(s, TrafficPackets(gs)).Done? && Between(Drain(s, TrafficPackets(gs)).value)
    ensures Drain(s, TrafficPackets(gs)).value.buf == Buffer(s.buf, gs)
  {
    if gs != [] {
      var init, g := gs[..|gs| - 1], gs[|gs| - 1];
      TrafficDrain(s, init);
      assert ValidSegment(g);
      hide Drain, SegmentPackets, IsBlock, Overwrite;
      SegmentDrain(Drain(s, TrafficPackets(init)).value, g);
      DrainConcat(s, TrafficPackets(init), SegmentPackets(g));
    }
  }

  lemma TurnConcat(s: Rx, a: seq<Packet>, b: seq<Packet>)
    requires |s.buf| == NCM_MAX_SIZE && Drain(s, a).Done?
    ensures Turn(s, a + b) == Turn(Drain(s, a).value, b)
    ensures Drain(Drain(s, a).value, b) == Drain(s, a) ==> Turn(s, a + b) == Turn(s, a)
  {
    hide Decode, Drain;
    DrainConcat(s, a, b);
  }

  /** The same traffic found in the queue by one call: only the last block is decoded. The call halts the firmware
      exactly when that one is not readable, and otherwise delivers its frames alone; what earlier blocks held is
      lost, be it frames or a reason to halt. */
  lemma {:induction false} TurnKeepsLastBlock(s: Rx, gs: seq<Segment>)
    requires Idle(s) && ValidTraffic(gs)
    ensures LastBlock(gs).None? ==> Turn(s, TrafficPackets(gs)) == Done(RxTurn(s, []))
    ensures LastBlock(gs).Some? ==>
              var b, before, t := LastBlock(gs).value, BeforeLast(s.buf, gs), Turn(s, TrafficPackets(gs));
              && IsBlock(b)
              && (t.Done? <==> ReadableOver(before, b))
              && (t.Done? ==> Frames(t.value.frames) == FramesOver(before, b))
  {
    if gs == [] {
      DecodeNotReady(s);
      assert Drain(s, []) == Done(s);
    } else {
      var init, g := gs[..|gs| - 1], gs[|gs| - 1];
      TrafficDrain(s, init);
      assert ValidSegment(g);
      var s' := Drain(s, TrafficPackets(init)).value;
      SegmentDrain(s', g);
      hide Turn, Drain, ReadableOver, FramesOver, IsBlock, Sends, Overwrite;
      TurnConcat(s, TrafficPackets(init), SegmentPackets(g));
      match g
      case Noise(_) =>
        TurnKeepsLastBlock(s, init);
      case Block(b, ps) =>
        TurnExactly(s', b, ps);
    }
  }

  /** In terms of the block alone. */
  lemma LastBlockDecides(s: Rx, gs: seq<Segment>)
    requires Idle(s) && ValidTraffic(gs) && LastBlock(gs).Some?
    ensures var b, t := LastBlock(gs).value, Turn(s, TrafficPackets(gs));
            && IsBlock(b)
            && (HasTable(b) ==> (t.Panic? <==> Halts(b)))
            && (IsHostBlock(b) ==> t.Done? && Frames(t.value.frames) == BlockFrames(b))
  {
    hide Turn, ReadableOver, FramesOver, IsBlock, HasTable, IsHostBlock, BlockFrames, Halts, ValidTraffic, BeforeLast;
    TurnKeepsLastBlock(s, gs);
    var b := LastBlock(gs).value;
    if HasTable(b) { HaltsExactly(BeforeLast(s.buf, gs), b); }
    if IsHostBlock(b) { HostFramesOver(BeforeLast(s.buf, gs), b); }
  }

  /** The packets carry the beginning of the block `c`, and more of it is to come. */
  ghost predicate Begins(qs: seq<Packet>, c: seq<byte>)
  {
    qs != [] && NTH16_SIZE <= qs[0].len && |Bytes(qs)| < |c| && Bytes(qs) == c[..|Bytes(qs)|]
  }

  /** The machine when the first `k` bytes of `c` have been copied. */
  function Copied(s: Rx, c: seq<byte>, k: nat): Rx
    requires k <= |c| <= |s.buf|
  {
    s.(cnt := k, buf := Overwrite(s.buf, 0, c[..k]))
  }

  lemma CopyCopied(s: Rx, c: seq<byte>, p: Packet)
    requires Midway(s, c) && s.cnt + p.len < |c| && p.Payload() == c[s.cnt..s.cnt + p.len]
    ensures Feed(s, p) == Done(Copied(s, c, s.cnt + p.len)) && Midway(Copied(s, c, s.cnt + p.len), c)
  {
    SliceSplit(c, s.cnt, |c|, p.len);
    CopyMore(s, c, p);
  }

  lemma OverwriteSelf(buf: seq<byte>, a: seq<byte>)
    requires |a| <= |buf| && buf[..|a|] == a
    ensures Overwrite(buf, 0, a) == buf
  {}

  lemma CopiedNothing(s: Rx, c: seq<byte>, n: nat)
    requires Midway(s, c) && s.cnt <= n < |c| && c[s.cnt..n] == []
    ensures Copied(s, c, n) == s
  {
    assert n == s.cnt + |c[s.cnt..n]|;
    OverwriteSelf(s.buf, c[..s.cnt]);
  }

  lemma CopiedTwice(s: Rx, c: seq<byte>, k: nat, n: nat)
    requires k <= n <= |c| <= |s.buf|
    ensures Copied(Copied(s, c, k), c, n) == Copied(s, c, n)
  {
    OverwriteTwice(s.buf, c[..k], c[..n]);
  }

  lemma SliceInTwo(s: seq<byte>, i: nat, j: nat, x: seq<byte>, y: seq<byte>)
    requires i <= j <= |s| && s[i..j] == x + y
    ensures i + |x| <= j && x == s[i..i + |x|] && y == s[i + |x|..j]
  {
    assert |s[i..j]| == |x| + |y|;
    SliceSplit(s, i, j, |x|);
    assert x == (x + y)[..|x|] && y == (x + y)[|x|..];
  }

  lemma CopyStarts(s: Rx, c: seq<byte>, n: nat, qs: seq<Packet>) returns (k: nat)
    requires Midway(s, c) && s.cnt <= n < |c| && qs != [] && Bytes(qs) == c[s.cnt..n]
    ensures |s.buf| == NCM_MAX_SIZE && k <= n < |c| <= |s.buf| && Feed(s, qs[0]) == Done(Copied(s, c, k))
    ensures Midway(Copied(s, c, k), c) && Copied(s, c, k).cnt == k && Bytes(qs[1..]) == c[k..n]
    ensures Copied(Copied(s, c, k), c, n) == Copied(s, c, n)
  {
    var x, y := qs[0].Payload(), Bytes(qs[1..]);
    BytesUncons(qs);
    hide Bytes;
    k := s.cnt + |x|;
    SliceInTwo(c, s.cnt, n, x, y);
    CopyCopied(s, c, qs[0]);
    CopiedTwice(s, c, k, n);
    hide Feed, Overwrite;
  }

  /** From the middle of a block, packets that take it to byte `n`, before its end. */
  lemma {:induction false} CopyBeginning(s: Rx, c: seq<byte>, n: nat, qs: seq<Packet>)
    requires Midway(s, c) && s.cnt <= n < |c| && Bytes(qs) == c[s.cnt..n]
    ensures Drain(s, qs) == Done(Copied(s, c, n))
    decreases |qs|
  {
    if qs == [] {
      hide Feed;
      CopiedNothing(s, c, n);
    } else {
      hide Feed, Bytes, Drain, Midway, Copied;
      var k := CopyStarts(s, c, n, qs);
      DrainMore(s, qs);
      CopyBeginning(Copied(s, c, k), c, n, qs[1..]);
    }
  }

  /** What the buffer holds after a block and the beginning of the next. */
  function Mixed(buf: seq<byte>, b: seq<byte>, begun: seq<byte>): (r: seq<byte>)
    requires |b| <= |buf| && |begun| <= |buf|
    ensures |r| == |buf|
  {
    Overwrite(Overwrite(buf, 0, b), 0, begun)
  }

  lemma DrainTwoBlocks(s: Rx, b: seq<byte>, ps: seq<Packet>, c: seq<byte>, qs: seq<Packet>)
    requires Idle(s) && IsBlock(b) && Sends(ps, b) && IsBlock(c) && Begins(qs, c)
    ensures ParseNth16(c).Parsed?
    ensures Drain(s, ps + qs)
            == Done(Rx(CopyEntireMsg, ParseNth16(c).value, |Bytes(qs)|, Mixed(s.buf, b, Bytes(qs)), true))
  {
    Reassembles(s, b, ps);
    DrainConcat(s, ps, qs);
    var s1 := Drain(s, ps).value;
    var x, y := qs[0].Payload(), Bytes(qs[1..]);
    BytesUncons(qs);
    assert c[0..|x + y|] == c[..|x + y|];
    SliceInTwo(c, 0, |x + y|, x, y);
    FirstPacket(s1, c, qs[0]);
    OverwritePrefix(s1.buf, x);
    OverwriteTwice(s1.buf, x, x + y);
    hide Feed, Bytes, Drain, Overwrite, Sends, IsBlock, ParseNth16;
    DrainMore(s1, qs);
    CopyBeginning(Feed(s1, qs[0]).value, c, |x + y|, qs[1..]);
  }

  lemma StillInBlock(t: Rx, buf: seq<byte>, c: seq<byte>, begun: seq<byte>)
    requires IsBlock(c) && ParseNth16(c).Parsed? && |buf| == NCM_MAX_SIZE && |begun| < |c| && begun == c[..|begun|]
    requires t == Rx(CopyEntireMsg, ParseNth16(c).value, |begun|, Overwrite(buf, 0, begun), false)
    ensures Midway(t, c) && t.header.ndpindex == U16At(c, 10)
  {
    OverwritePrefix(buf, begun);
  }

  /** A drain that finds a block and the beginning of the next decodes neither: it reads a table where the second
      header points, in a buffer where the second block has overwritten the start of the first. That halts the
      firmware exactly when there is no such table or one of its entries does not fit; otherwise the frames handed
      over are the slices it names, and the machine is inside the second block as if nothing had happened. */
  lemma TwoBlocksInOneDrain(s: Rx, b: seq<byte>, ps: seq<Packet>, c: seq<byte>, qs: seq<Packet>)
    requires Idle(s) && IsBlock(b) && Sends(ps, b) && IsBlock(c) && Begins(qs, c)
    ensures var buf, p, t := Mixed(s.buf, b, Bytes(qs)), U16At(c, 10), Turn(s, ps + qs);
            && (t.Done? <==> TableAt(buf, p) && AllFit(buf, EntriesAt(buf, p)))
            && (t.Done? ==>
                  && (forall d :: d in NonEmpty(EntriesAt(buf, p)) ==> EntryFits(buf, d) && Inside(buf, d))
                  && Frames(t.value.frames) == Slices(buf, NonEmpty(EntriesAt(buf, p)))
                  && (IsHostBlock(c) ==> InBlock(t.value.next, c)))
  {
    DrainTwoBlocks(s, b, ps, c, qs);
    FirstPacketHeader(c);
    var s' := Drain(s, ps + qs).value;
    StillInBlock(s'.(ready := false), Overwrite(s.buf, 0, b), c, Bytes(qs));
    hide Drain, Decode, Slices, NonEmpty, EntriesAt, TableAt, AllFit, Mixed, Overwrite, Bytes, Sends, Midway, IsBlock,
         HasTable, ParseNth16;
    DecodesExactly(s');
  }

  /** A zero-length packet completes a block of one packet, and nothing is lost. */
  lemma ZeroLengthCompletes(s: Rx, b: seq<byte>, p: Packet, zlp: Packet)
    requires Idle(s) && IsHostBlock(b) && p.Payload() == b && zlp.len == 0
    ensures Bytes([p, zlp]) == b
    ensures Session(s, [p, zlp]).Done? && Frames(Session(s, [p, zlp]).value.frames) == BlockFrames(b)
  {
    BytesUncons([p, zlp]);
    BytesUncons([zlp]);
    assert [p, zlp][1..] == [zlp] && Bytes([]) == [];
    hide Session, BlockFrames, IsHostBlock, Bytes;
    SessionBlock(s, b, [p, zlp]);
  }

  predicate OneBlockEach(ps: seq<Packet>)
  {
    forall i :: 0 <= i < |ps| ==> IsHostBlock(ps[i].Payload())
  }

  /** The frames of the first, third, fifth ... packet, each a block. */
  function EverySecond(ps: seq<Packet>): seq<seq<byte>>
    requires OneBlockEach(ps) && |ps| % 2 == 0
    decreases |ps|
  {
    if ps == [] then []
    else EverySecond(ps[..|ps| - 2]) + BlockFrames(ps[|ps| - 2].Payload())
  }

  lemma SessionThenBlock(a: seq<Packet>, b: seq<byte>, ps: seq<Packet>)
    requires Session(INIT, a).Done? && Idle(Session(INIT, a).value.next) && IsHostBlock(b) && Sends(ps, b)
    ensures Session(INIT, a + ps).Done? && Idle(Session(INIT, a + ps).value.next)
    ensures Frames(Session(INIT, a + ps).value.frames) == Frames(Session(INIT, a).value.frames) + BlockFrames(b)
  {
    hide Session, BlockFrames, IsHostBlock, Sends;
    var r := Session(INIT, a).value;
    SessionBlock(r.next, b, ps);
    hide Idle;
    SessionConcat(INIT, a, ps);
    FramesConcat(r.frames, Session(r.next, ps).value.frames);
  }

  /** Of blocks that fill one packet each, sent one after the other, every second one is lost. */
  lemma {:induction false} EverySecondBlockIsLost(ps: seq<Packet>)
    requires OneBlockEach(ps) && |ps| % 2 == 0
    ensures Session(INIT, ps).Done? && Idle(Session(INIT, ps).value.next)
    ensures Frames(Session(INIT, ps).value.frames) == EverySecond(ps)
    decreases |ps|
  {
    if ps == [] {
      SessionEmpty(INIT);
    } else {
      var init, pair := ps[..|ps| - 2], ps[|ps| - 2..];
      EverySecondBlockIsLost(init);
      TakeDrop(ps, |ps| - 2);
      hide Session, BlockFrames, IsHostBlock, Splits, Idle, Frames;
      SessionThenBlock(init, pair[0].Payload(), pair);
    }
  }
}
