/** The receive half of `process_messages` as a state machine: reassembly, decoding, resynchronisation. */
module NcmRx {
  import opened Wire
  import opened Ntb

  datatype RxState = AwaitHeader | CopyEntireMsg

  /** The receive fields of `NcmApiManager`. */
  datatype Rx = Rx(
    state: RxState,
    header: Nth16,   // currheader
    cnt: nat,        // currcnt
    buf: seq<byte>,  // ncmmsgrxbuf
    ready: bool)     // rxbufready

  const INIT := Rx(AwaitHeader, DEFAULT_NTH16, 0, Zeros(NCM_MAX_SIZE), false)

  /** One packet of the drain loop. `blocklen - currcnt` underflows, and so panics, when a block announces
      less than its first packet holds. */
  function Feed(s: Rx, p: Packet): (r: Outcome<Rx>)
    requires |s.buf| == NCM_MAX_SIZE
    ensures r.Done? ==> |r.value.buf| == NCM_MAX_SIZE
  {
    match s.state
    case AwaitHeader =>
      if p.len < NTH16_SIZE then Done(s)
      else (
        match ParseNth16(p.Payload())
        case InvalidSignature => Done(s)
        case ParsePanic => Panic
        case Parsed(h) =>
          if h.blocklen > NCM_MAX_SIZE then Panic
          else Done(s.(state := CopyEntireMsg, header := h, cnt := s.cnt + p.len,
                       buf := Overwrite(s.buf, 0, p.Payload()))))
    case CopyEntireMsg =>
      if s.header.blocklen < s.cnt then Panic
      else
        var n := Min(s.header.blocklen - s.cnt, p.len);
        if s.cnt + n > |s.buf| then Panic
        else
          var s' := s.(buf := Overwrite(s.buf, s.cnt, p.buf[..n]), cnt := s.cnt + n);
          if s'.cnt == s.header.blocklen then Done(s'.(state := AwaitHeader, cnt := 0, ready := true))
          else Done(s')
  }

  /** The whole drain loop. */
  function Drain(s: Rx, ps: seq<Packet>): (r: Outcome<Rx>)
    requires |s.buf| == NCM_MAX_SIZE
    ensures r.Done? ==> |r.value.buf| == NCM_MAX_SIZE
    decreases |ps|
  {
    if ps == [] then Done(s)
    else
      var s' :- Feed(s, ps[0]);
      Drain(s', ps[1..])
  }

  /** The frames handed to the Ethernet queue for a list of entries. The local frame buffer holds one MTU. */
  function Deliveries(buf: seq<byte>, ds: seq<Datagram>): Outcome<seq<EthMsg>>
  {
    if ds == [] then Done([])
    else if ds[0].length == 0 then Deliveries(buf, ds[1..])
    else if ds[0].length > MTU || ds[0].index + ds[0].length > |buf| then Panic
    else
      var rest :- Deliveries(buf, ds[1..]);
      Done([EthOf(buf[ds[0].index..ds[0].index + ds[0].length])] + rest)
  }

  /** A machine after a pass through the receive code, and the frames it handed over. */
  datatype RxTurn = RxTurn(next: Rx, frames: seq<EthMsg>)

  /** The code after the drain loop: decode the buffer if a block was completed. */
  function Decode(s: Rx): (r: Outcome<RxTurn>)
    ensures r.Done? ==> r.value.next == s.(ready := false)
  {
    if !s.ready then Done(RxTurn(s, []))
    else if s.header.ndpindex > |s.buf| then Panic
    else
      match ParseNdp16(s.buf[s.header.ndpindex..])
      case Parsed(t) =>
        var frames :- Deliveries(s.buf, t.datagrams);
        Done(RxTurn(s.(ready := false), frames))
      case _ => Panic
  }

  /** One call of `process_messages`, receive side: drain the queue, then decode. */
  function Turn(s: Rx, ps: seq<Packet>): (r: Outcome<RxTurn>)
    requires |s.buf| == NCM_MAX_SIZE
    ensures r.Done? ==> |r.value.next.buf| == NCM_MAX_SIZE && !r.value.next.ready
  {
    var s' :- Drain(s, ps);
    Decode(s')
  }

  /** Many calls, each finding one packet in the queue. */
  function Session(s: Rx, ps: seq<Packet>): (r: Outcome<RxTurn>)
    requires |s.buf| == NCM_MAX_SIZE
    ensures r.Done? ==> |r.value.next.buf| == NCM_MAX_SIZE
    ensures r.Done? && !s.ready ==> !r.value.next.ready
  {
    if ps == [] then Done(RxTurn(s, []))
    else
      var r :- Session(s, ps[..|ps| - 1]);
      var t :- Turn(r.next, [ps[|ps| - 1]]);
      Done(RxTurn(t.next, r.frames + t.frames))
  }

  /** Between blocks. */
  predicate Between(s: Rx)
  {
    s.state.AwaitHeader? && s.cnt == 0 && |s.buf| == NCM_MAX_SIZE
  }

  /** ... and nothing to decode. */
  predicate Idle(s: Rx)
  {
    Between(s) && !s.ready
  }

  /** A packet that cannot start a block: fewer than 12 bytes, or not the letters NCMH. */
  predicate Junk(p: Packet)
  {
    p.len < 12 || p.Payload()[0..4] != [0x4E, 0x43, 0x4D, 0x48]
  }

  // ----- algebra of sessions

  lemma TurnOne(s: Rx, p: Packet)
    requires |s.buf| == NCM_MAX_SIZE
    ensures Feed(s, p).Panic? ==> Turn(s, [p]).Panic?
    ensures Feed(s, p).Done? ==> Turn(s, [p]) == Decode(Feed(s, p).value)
  {
    hide Feed, Decode;
    assert [p][1..] == [];
    if Feed(s, p).Done? {
      assert Drain(Feed(s, p).value, []) == Feed(s, p);
    }
  }

  lemma SessionSnoc(s: Rx, ps: seq<Packet>, p: Packet)
    requires |s.buf| == NCM_MAX_SIZE
    ensures Session(s, ps).Panic? ==> Session(s, ps + [p]).Panic?
    ensures Session(s, ps).Done? ==>
              var r := Session(s, ps).value;
              && (Turn(r.next, [p]).Panic? ==> Session(s, ps + [p]).Panic?)
              && (Turn(r.next, [p]).Done? ==>
                    var t := Turn(r.next, [p]).value;
                    Session(s, ps + [p]) == Done(RxTurn(t.next, r.frames + t.frames)))
  {
    hide Turn;
    assert (ps + [p])[..|ps|] == ps;
  }

  lemma SessionEmpty(s: Rx)
    requires |s.buf| == NCM_MAX_SIZE
    ensures Session(s, []) == Done(RxTurn(s, []))
  {}

  /** A session can be cut anywhere: the second part starts from the state the first part left. */
  lemma {:induction false} SessionConcat(s: Rx, a: seq<Packet>, b: seq<Packet>)
    requires |s.buf| == NCM_MAX_SIZE
    ensures Session(s, a).Panic? ==> Session(s, a + b).Panic?
    ensures Session(s, a).Done? ==>
              var r := Session(s, a).value;
              && (Session(r.next, b).Panic? ==> Session(s, a + b).Panic?)
              && (Session(r.next, b).Done? ==>
                    var t := Session(r.next, b).value;
                    Session(s, a + b) == Done(RxTurn(t.next, r.frames + t.frames)))
    decreases |b|
  {
    hide Turn, Session;
    if b == [] {
      SessionEmpty(s);
      assert a + b == a;
      if Session(s, a).Done? {
        SessionEmpty(Session(s, a).value.next);
        assert Session(s, a).value.frames + [] == Session(s, a).value.frames;
      }
    } else {
      var init, p := b[..|b| - 1], b[|b| - 1];
      SessionConcat(s, a, init);
      SessionSnoc(s, a + init, p);
      assert a + b == a + init + [p] && b == init + [p];
      if Session(s, a).Done? {
        var r := Session(s, a).value;
        SessionSnoc(r.next, init, p);
        if Session(r.next, init).Done? {
          var t := Session(r.next, init).value;
          if Turn(t.next, [p]).Done? {
            var u := Turn(t.next, [p]).value;
            assert r.frames + (t.frames + u.frames) == (r.frames + t.frames) + u.frames;
          }
        }
      }
    }
  }

  lemma SessionOne(s: Rx, p: Packet)
    requires |s.buf| == NCM_MAX_SIZE
    ensures Session(s, [p]) == Turn(s, [p])
  {
    hide Turn, Session;
    SessionEmpty(s);
    SessionSnoc(s, [], p);
    assert [] + [p] == [p];
    if Turn(s, [p]).Done? {
      assert [] + Turn(s, [p]).value.frames == Turn(s, [p]).value.frames;
    }
  }

  // ----- reassembly

  /** The packets carry the block `b`, and only the last of them reaches its end; what the last packet holds
      beyond the end is padding. */
  ghost predicate Carries(ps: seq<Packet>, b: seq<byte>)
  {
    && ps != []
    && |Bytes(ps[..|ps| - 1])| < |b| <= |Bytes(ps)|
    && Bytes(ps)[..|b|] == b
  }

  /** A first packet that holds the header but not the whole block. */
  ghost predicate Splits(ps: seq<Packet>, b: seq<byte>)
  {
    Carries(ps, b) && NTH16_SIZE <= ps[0].len < |b|
  }

  /** A first packet that is the whole block, and the packet after it, whatever that holds. */
  predicate Swallows(ps: seq<Packet>, b: seq<byte>)
  {
    |ps| == 2 && ps[0].Payload() == b
  }

  /** The ways a block can reach the receiver that do not make it panic. */
  ghost predicate Sends(ps: seq<Packet>, b: seq<byte>)
  {
    Splits(ps, b) || Swallows(ps, b)
  }

  lemma BytesUncons(ps: seq<Packet>)
    requires ps != []
    ensures Bytes(ps) == ps[0].Payload() + Bytes(ps[1..])
  {}

  lemma CarriesOne(ps: seq<Packet>, b: seq<byte>)
    requires Carries(ps, b) && |ps| == 1
    ensures |b| <= ps[0].len && ps[0].buf[..|b|] == b && b != []
  {
    BytesUncons(ps);
    assert Bytes(ps[1..]) == [] && Bytes(ps) == ps[0].Payload();
  }

  lemma CarriesMore(ps: seq<Packet>, b: seq<byte>)
    requires Carries(ps, b) && |ps| > 1
    ensures ps[0].len < |b| && ps[0].Payload() == b[..ps[0].len]
    ensures Carries(ps[1..], b[ps[0].len..])
  {
    var init := ps[..|ps| - 1];
    BytesUncons(ps);
    BytesUncons(init);
    hide Bytes;
    var x, y := ps[0].Payload(), Bytes(ps[1..]);
    assert init[1..] == ps[1..][..|ps[1..]| - 1];
    assert b == (x + y)[..|b|];
    assert b[..|x|] == x && b[|x|..] == y[..|b| - |x|];
  }

  /** The machine is inside the block `b`, whose first bytes it has buffered. */
  predicate Midway(s: Rx, b: seq<byte>)
  {
    && s.state.CopyEntireMsg?
    && |s.buf| == NCM_MAX_SIZE >= |b| == s.header.blocklen
    && s.cnt < |b|
    && s.buf[..s.cnt] == b[..s.cnt]
  }

  lemma OverwriteExtends(buf: seq<byte>, a: seq<byte>, d: seq<byte>)
    requires |a| + |d| <= |buf| && buf[..|a|] == a
    ensures Overwrite(buf, |a|, d) == Overwrite(buf, 0, a + d)
  {}

  /** The bytes of the block still to come. */
  function Left(s: Rx, b: seq<byte>): seq<byte>
  {
    if s.cnt <= |b| then b[s.cnt..] else []
  }

  /** A packet that does not reach the end of the block. */
  lemma CopyMore(s: Rx, b: seq<byte>, p: Packet)
    requires Midway(s, b) && p.len < |b| - s.cnt && p.Payload() == b[s.cnt..][..p.len]
    ensures Feed(s, p) == Done(s.(cnt := s.cnt + p.len, buf := Overwrite(s.buf, 0, b[..s.cnt + p.len])))
    ensures Midway(Feed(s, p).value, b)
    ensures b[s.cnt..][p.len..] == b[s.cnt + p.len..]
  {
    assert b[..s.cnt] + p.Payload() == b[..s.cnt + p.len];
    OverwriteExtends(s.buf, b[..s.cnt], p.Payload());
  }

  /** The packet that completes the block, with whatever pads it. */
  lemma CopyLast(s: Rx, b: seq<byte>, p: Packet)
    requires Midway(s, b) && |b| - s.cnt <= p.len && p.buf[..|b| - s.cnt] == b[s.cnt..]
    ensures Feed(s, p) == Done(Rx(AwaitHeader, s.header, 0, Overwrite(s.buf, 0, b), true))
    ensures Overwrite(s.buf, 0, b)[..|b|] == b
  {
    assert b[..s.cnt] + b[s.cnt..] == b;
    OverwriteExtends(s.buf, b[..s.cnt], b[s.cnt..]);
  }

  lemma OverwriteTwice(buf: seq<byte>, a: seq<byte>, b: seq<byte>)
    requires |a| <= |b| <= |buf|
    ensures Overwrite(Overwrite(buf, 0, a), 0, b) == Overwrite(buf, 0, b)
  {}

  lemma CopySome(s: Rx, b: seq<byte>, p: Packet)
    requires Midway(s, b) && p.len < |Left(s, b)| && p.Payload() == Left(s, b)[..p.len]
    ensures |s.buf| == NCM_MAX_SIZE >= |b| && Feed(s, p).Done?
    ensures var s' := Feed(s, p).value;
            && Midway(s', b) && Left(s', b) == Left(s, b)[p.len..] && s'.header == s.header
            && |s'.buf| == NCM_MAX_SIZE && Overwrite(s'.buf, 0, b) == Overwrite(s.buf, 0, b)
  {
    CopyMore(s, b, p);
    OverwriteTwice(s.buf, b[..s.cnt + p.len], b);
    hide Feed, Overwrite;
  }

  lemma DrainOne(s: Rx, ps: seq<Packet>)
    requires |s.buf| == NCM_MAX_SIZE && |ps| == 1
    ensures Drain(s, ps) == Feed(s, ps[0])
  {
    hide Feed;
    if Feed(s, ps[0]).Done? {
      assert Drain(Feed(s, ps[0]).value, ps[1..]) == Feed(s, ps[0]);
    }
  }

  lemma DrainMore(s: Rx, ps: seq<Packet>)
    requires |s.buf| == NCM_MAX_SIZE && ps != [] && Feed(s, ps[0]).Done?
    ensures Drain(s, ps) == Drain(Feed(s, ps[0]).value, ps[1..])
  {
    hide Feed;
  }

  /** From the middle of a block, any packets carrying the rest complete it. */
  lemma {:induction false} CopyRest(s: Rx, b: seq<byte>, ps: seq<Packet>)
    requires Midway(s, b) && Carries(ps, Left(s, b))
    ensures |s.buf| == NCM_MAX_SIZE >= |b|
    ensures Drain(s, ps) == Done(Rx(AwaitHeader, s.header, 0, Overwrite(s.buf, 0, b), true))
    decreases |ps|
  {
    assert ps != [] && |s.buf| == NCM_MAX_SIZE >= |b|;
    if |ps| == 1 {
      CarriesOne(ps, Left(s, b));
      CopyLast(s, b, ps[0]);
      hide Feed, Overwrite, Drain;
      DrainOne(s, ps);
    } else {
      hide Carries, Feed, Overwrite, Drain, Midway, Left;
      CarriesMore(ps, Left(s, b));
      CopySome(s, b, ps[0]);
      CopyRest(Feed(s, ps[0]).value, b, ps[1..]);
      DrainMore(s, ps);
    }
  }

  lemma OverwritePrefix(buf: seq<byte>, a: seq<byte>)
    requires |a| <= |buf|
    ensures Overwrite(buf, 0, a)[..|a|] == a
  {}

  /** The first packet of a block. */
  lemma FirstPacket(s: Rx, b: seq<byte>, p: Packet)
    requires Between(s) && IsBlock(b) && NTH16_SIZE <= p.len <= |b| && p.Payload() == b[..p.len]
    ensures Feed(s, p) == Done(Rx(CopyEntireMsg, ParseNth16(b).value, p.len, Overwrite(s.buf, 0, p.Payload()), s.ready))
    ensures ParseNth16(b).Parsed? && ParseNth16(b).value.blocklen == |b|
    ensures ParseNth16(b).value.ndpindex == U16At(b, 10)
  {
    assert ParseNth16(p.Payload()) == ParseNth16(b);
  }

  lemma FirstOfSplit(ps: seq<Packet>, b: seq<byte>)
    requires Splits(ps, b)
    ensures ps != [] && NTH16_SIZE <= ps[0].len < |b| && ps[0].Payload() == b[..ps[0].len]
    ensures Carries(ps[1..], b[ps[0].len..])
  {
    if |ps| == 1 { CarriesOne(ps, b); }
    CarriesMore(ps, b);
  }

  /** The first packet of a split block takes the machine into the block, with the rest still to come. */
  lemma SplitStarts(s: Rx, b: seq<byte>, ps: seq<Packet>)
    requires Between(s) && IsBlock(b) && Splits(ps, b)
    ensures ParseNth16(b).Parsed? && ps != [] && Feed(s, ps[0]).Done?
    ensures var s' := Feed(s, ps[0]).value;
            && Midway(s', b) && Carries(ps[1..], Left(s', b)) && s'.header == ParseNth16(b).value
            && |s'.buf| == NCM_MAX_SIZE >= |b| && Overwrite(s'.buf, 0, b) == Overwrite(s.buf, 0, b)
  {
    hide Splits, Carries, Overwrite, ParseNth16;
    FirstOfSplit(ps, b);
    FirstPacket(s, b, ps[0]);
    hide Feed;
    OverwritePrefix(s.buf, ps[0].Payload());
    OverwriteTwice(s.buf, ps[0].Payload(), b);
  }

  lemma SplitReassembles(s: Rx, b: seq<byte>, ps: seq<Packet>)
    requires Between(s) && IsBlock(b) && Splits(ps, b)
    ensures ParseNth16(b).Parsed?
    ensures Drain(s, ps) == Done(Rx(AwaitHeader, ParseNth16(b).value, 0, Overwrite(s.buf, 0, b), true))
  {
    hide Splits, Midway, Carries, Left, Feed, Drain, Overwrite, IsBlock, ParseNth16;
    SplitStarts(s, b, ps);
    CopyRest(Feed(s, ps[0]).value, b, ps[1..]);
    DrainMore(s, ps);
  }

  /** The packet after a whole block completes it and is lost. */
  lemma SwallowingPacket(s: Rx, b: seq<byte>, q: Packet)
    requires s.state.CopyEntireMsg? && |s.buf| == NCM_MAX_SIZE >= |b| == s.header.blocklen == s.cnt
    ensures Feed(s, q) == Done(s.(state := AwaitHeader, cnt := 0, ready := true))
  {
    assert q.buf[..0] == [];
    assert Overwrite(s.buf, s.cnt, []) == s.buf;
  }

  /** Reassembly does not depend on packetisation: however a block is sent, the drain ends between blocks with the
      buffer starting with the block, whatever the packet sizes, whatever pads the last packet, and also if an
      earlier block is still to be decoded. */
  lemma Reassembles(s: Rx, b: seq<byte>, ps: seq<Packet>)
    requires Between(s) && IsBlock(b) && Sends(ps, b)
    ensures ParseNth16(b).Parsed?
    ensures Drain(s, ps) == Done(Rx(AwaitHeader, ParseNth16(b).value, 0, Overwrite(s.buf, 0, b), true))
  {
    if Splits(ps, b) {
      SplitReassembles(s, b, ps);
    } else {
      FirstPacket(s, b, ps[0]);
      hide Splits, Feed, Drain, Overwrite;
      var s1 := Feed(s, ps[0]).value;
      SwallowingPacket(s1, b, ps[1]);
      DrainMore(s, ps);
      DrainOne(s1, ps[1..]);
    }
  }

  /** Exactly what the size of the first packet does to the packet after it: below the block length the block
      goes on, at the block length the next packet is swallowed whole to complete it, above it the firmware halts. */
  lemma FirstPacketDecides(s: Rx, p: Packet, q: Packet)
    requires Idle(s) && !Junk(p) && U16At(p.Payload(), 8) <= NCM_MAX_SIZE
    ensures Feed(s, p).Done?
    ensures var blocklen := U16At(p.Payload(), 8);
            var s1 := Feed(s, p).value;
            && (Feed(s1, q).Panic? <==> blocklen < p.len)
            && (blocklen == p.len ==> Feed(s1, q) == Done(s1.(state := AwaitHeader, cnt := 0, ready := true)))
            && (blocklen > p.len && blocklen - p.len > q.len ==>
                  Feed(s1, q).Done? && Feed(s1, q).value.state.CopyEntireMsg?)
  {
    var s1 := Feed(s, p).value;
    if U16At(p.Payload(), 8) == p.len {
      assert q.buf[..0] == [];
      assert Overwrite(s1.buf, p.len, []) == s1.buf;
    }
  }

  /** Between blocks, a packet starts a block exactly when it has at least 12 bytes and begins with the letters NCMH;
      every other packet is junk and changes nothing. */
  lemma StartsBlockExactly(s: Rx, p: Packet)
    requires Between(s)
    ensures Feed(s, p) != Done(s) <==> p.len >= 12 && p.Payload()[..4] == [0x4E, 0x43, 0x4D, 0x48]
    ensures Junk(p) <==> Feed(s, p) == Done(s)
    ensures Feed(s, p).Panic? <==>
            && p.len >= 12 && p.Payload()[..4] == [0x4E, 0x43, 0x4D, 0x48]
            && Word(p.Payload()[8], p.Payload()[9]) > 2048
  {
    var b := p.Payload();
    if p.len >= 12 {
      HeaderTakenExactly(b);
      assert b[0..4] == b[..4];
    }
  }

  /** What every reachable receive machine satisfies. */
  predicate Sane(s: Rx)
  {
    && |s.buf| == NCM_MAX_SIZE
    && (s.state.AwaitHeader? ==> s.cnt == 0)
    && (s.state.CopyEntireMsg? ==> s.header.blocklen <= NCM_MAX_SIZE)
  }

  /** A packet halts the firmware exactly when it announces a block larger than the buffer, or follows a first packet
      larger than its block; no copy ever leaves the buffer. */
  lemma FeedPanicsExactly(s: Rx, p: Packet)
    requires Sane(s)
    ensures Feed(s, p).Panic? <==>
            if s.state.AwaitHeader? then !Junk(p) && U16At(p.Payload(), 8) > NCM_MAX_SIZE
            else s.header.blocklen < s.cnt
    ensures Feed(s, p).Done? ==> Sane(Feed(s, p).value)
  {}

  // ----- decoding

  lemma SliceOfPrefix(buf: seq<byte>, b: seq<byte>, i: nat, j: nat)
    requires i <= j <= |b| <= |buf| && buf[..|b|] == b
    ensures buf[i..j] == b[i..j]
  {
    forall k | 0 <= k < j - i
      ensures buf[i..j][k] == b[i..j][k]
    {
      assert buf[i + k] == buf[..|b|][i + k];
    }
  }

  lemma SlicesUncons(b: seq<byte>, ds: seq<Datagram>)
    requires ds != [] && forall d :: d in ds ==> EntryFits(b, d)
    ensures EntryFits(b, ds[0]) && (forall d :: d in ds[1..] ==> EntryFits(b, d))
    ensures (forall d :: d in ds ==> Inside(b, d)) && (forall d :: d in ds[1..] ==> Inside(b, d))
    ensures Slices(b, ds) == [b[ds[0].index..ds[0].index + ds[0].length]] + Slices(b, ds[1..])
  {
    assert ds[0] in ds;
  }

  lemma FramesUncons(m: EthMsg, ms: seq<EthMsg>)
    ensures Frames([m] + ms) == [m.Payload()] + Frames(ms)
  {}

  lemma DeliveriesUncons(buf: seq<byte>, ds: seq<Datagram>)
    requires ds != [] && 0 < ds[0].length <= MTU && ds[0].index + ds[0].length <= |buf|
    requires Deliveries(buf, ds[1..]).Done?
    ensures Deliveries(buf, ds)
            == Done([EthOf(buf[ds[0].index..ds[0].index + ds[0].length])] + Deliveries(buf, ds[1..]).value)
  {}

  lemma {:induction false} DeliversSlices(buf: seq<byte>, b: seq<byte>, ds: seq<Datagram>)
    requires |b| <= |buf| && buf[..|b|] == b
    requires forall d :: d in ds ==> d.length != 0 && EntryFits(b, d)
    ensures forall d :: d in ds ==> Inside(b, d)
    ensures Deliveries(buf, ds).Done?
    ensures Frames(Deliveries(buf, ds).value) == Slices(b, ds)
  {
    if ds != [] {
      var d, rest := ds[0], ds[1..];
      assert d in ds && forall e :: e in rest ==> e in ds;
      assert d.length != 0 && EntryFits(b, d);
      DeliversSlices(buf, b, rest);
      DeliveriesUncons(buf, ds);
      SlicesUncons(b, ds);
      SliceOfPrefix(buf, b, d.index, d.index + d.length);
      FramesUncons(EthOf(b[d.index..d.index + d.length]), Deliveries(buf, rest).value);
    } else {
      assert Slices(b, ds) == [];
      assert Deliveries(buf, ds) == Done([]);
    }
  }

  /** The table read from the buffer is the table of the block the buffer starts with. */
  lemma TableInBuffer(buf: seq<byte>, b: seq<byte>)
    requires IsBlock(b) && HasTable(b) && |b| <= |buf| && buf[..|b|] == b
    ensures var p := U16At(b, 10);
            && p <= |buf|
            && ParseNdp16(buf[p..]).Parsed?
            && ParseNdp16(buf[p..]).value.datagrams == NonEmpty(TableEntries(b))
  {
    hide NonEmpty;
    var p := U16At(b, 10);
    var x := buf[p..];
    assert forall i :: 0 <= i < |b| ==> buf[i] == b[i];
    assert U32At(x, 0) == U32At(b, p) && U16At(x, 4) == U16At(b, p + 4);
    var n := (U16At(b, p + 4) - 8) / 4;
    var y, z := x[8..], b[p + 8..];
    assert forall i :: 0 <= i < 4 * n ==> y[i] == z[i];
    assert Entries(y, n) == Entries(z, n);
  }

  /** A buffered block is decoded to exactly the frames it carries. */
  lemma DecodesBlock(s: Rx, b: seq<byte>)
    requires s.ready && |s.buf| == NCM_MAX_SIZE && IsHostBlock(b) && s.buf[..|b|] == b
    requires s.header.ndpindex == U16At(b, 10)
    ensures Decode(s).Done? && Frames(Decode(s).value.frames) == BlockFrames(b)
  {
    hide NonEmpty, ParseNdp16, Deliveries;
    TableInBuffer(s.buf, b);
    var ds := NonEmpty(TableEntries(b));
    forall d | d in ds
      ensures d.length != 0 && EntryFits(b, d)
    {
      NonEmptyMembers(TableEntries(b), d);
    }
    DeliversSlices(s.buf, b, ds);
  }

  lemma {:induction false} DeliveriesExactly(buf: seq<byte>, ds: seq<Datagram>)
    ensures Deliveries(buf, NonEmpty(ds)).Done? <==> AllFit(buf, ds)
  {
    if ds != [] {
      DeliveriesExactly(buf, ds[1..]);
      assert forall d :: d in ds <==> d == ds[0] || d in ds[1..];
      var keep := NonEmpty(ds);
      if ds[0].length != 0 {
        assert keep == [ds[0]] + NonEmpty(ds[1..]) && keep[1..] == NonEmpty(ds[1..]);
      }
    }
  }

  lemma ParsesExactly(buf: seq<byte>, p: nat)
    requires p <= |buf|
    ensures ParseNdp16(buf[p..]).Parsed? <==> TableAt(buf, p)
    ensures TableAt(buf, p) ==> ParseNdp16(buf[p..]).value.datagrams == NonEmpty(EntriesAt(buf, p))
  {
    hide NonEmpty;
    var x := buf[p..];
    if p + 4 <= |buf| { assert U32At(x, 0) == U32At(buf, p); }
    if p + 8 <= |buf| {
      assert U16At(x, 4) == U16At(buf, p + 4);
      assert x[8..] == buf[p + 8..];
    }
  }

  /** Decoding a completed block halts the firmware exactly when the buffer has no readable table where the header
      points, or one of its entries of non-zero length does not fit a frame or the buffer. Otherwise the frames are
      the slices these entries name. */
  lemma DecodesExactly(s: Rx)
    requires s.ready
    ensures var p := s.header.ndpindex;
            && (Decode(s).Done? <==> TableAt(s.buf, p) && AllFit(s.buf, EntriesAt(s.buf, p)))
            && (Decode(s).Done? ==>
                  && (forall d :: d in NonEmpty(EntriesAt(s.buf, p)) ==> EntryFits(s.buf, d) && Inside(s.buf, d))
                  && Frames(Decode(s).value.frames) == Slices(s.buf, NonEmpty(EntriesAt(s.buf, p))))
  {
    var p := s.header.ndpindex;
    if p <= |s.buf| {
      ParsesExactly(s.buf, p);
      hide NonEmpty, ParseNdp16, Deliveries, AllFit, EntriesAt, TableAt;
      if TableAt(s.buf, p) {
        DeliveriesExactly(s.buf, EntriesAt(s.buf, p));
        if AllFit(s.buf, EntriesAt(s.buf, p)) {
          NonEmptyFit(s.buf, EntriesAt(s.buf, p));
          DeliversSlices(s.buf, s.buf, NonEmpty(EntriesAt(s.buf, p)));
        }
      }
    }
  }

  lemma DecodeNotReady(s: Rx)
    requires !s.ready
    ensures Decode(s) == Done(RxTurn(s, []))
  {}

  // ----- whole blocks, one packet per call

  /** A packet that completes nothing only moves the machine on. */
  lemma SessionSkips(s: Rx, ps: seq<Packet>)
    requires |s.buf| == NCM_MAX_SIZE && ps != [] && Feed(s, ps[0]).Done? && !Feed(s, ps[0]).value.ready
    ensures Session(s, ps) == Session(Feed(s, ps[0]).value, ps[1..])
  {
    hide Feed, Decode, Turn, Session;
    var p, rest := ps[0], ps[1..];
    var s' := Feed(s, p).value;
    assert ps == [p] + rest;
    SessionOne(s, p);
    TurnOne(s, p);
    DecodeNotReady(s');
    SessionConcat(s, [p], rest);
    if Session(s', rest).Done? {
      assert [] + Session(s', rest).value.frames == Session(s', rest).value.frames;
    }
  }

  /** The machine is inside a well-formed block and will find its table. */
  predicate InBlock(s: Rx, b: seq<byte>)
  {
    Midway(s, b) && IsHostBlock(b) && s.header.ndpindex == U16At(b, 10) && !s.ready
  }

  lemma LastTurn(s: Rx, b: seq<byte>, p: Packet)
    requires InBlock(s, b) && |Left(s, b)| <= p.len && p.buf[..|Left(s, b)|] == Left(s, b)
    ensures |s.buf| == NCM_MAX_SIZE && IsHostBlock(b)
    ensures Turn(s, [p]).Done?
    ensures Idle(Turn(s, [p]).value.next) && Frames(Turn(s, [p]).value.frames) == BlockFrames(b)
  {
    CopyLast(s, b, p);
    TurnOne(s, p);
    hide Feed, Overwrite, Decode, Turn, BlockFrames, HasTable, TableEntries;
    DecodesBlock(Feed(s, p).value, b);
  }

  /** No packet but the last can leave a block to decode. */
  predicate Undecoded(s: Rx, ps: seq<Packet>)
    decreases |ps|
  {
    && ps != [] && |s.buf| == NCM_MAX_SIZE
    && (|ps| > 1 ==> Feed(s, ps[0]).Done? && !Feed(s, ps[0]).value.ready && Undecoded(Feed(s, ps[0]).value, ps[1..]))
  }

  lemma TurnMore(s: Rx, ps: seq<Packet>)
    requires |s.buf| == NCM_MAX_SIZE && ps != [] && Feed(s, ps[0]).Done?
    ensures Turn(s, ps) == Turn(Feed(s, ps[0]).value, ps[1..])
  {
    hide Feed, Decode, Drain;
    DrainMore(s, ps);
  }

  /** Then one packet a call does what one call with all packets does. */
  lemma {:induction false} SessionIsTurn(s: Rx, ps: seq<Packet>)
    requires Undecoded(s, ps)
    ensures Session(s, ps) == Turn(s, ps)
    decreases |ps|
  {
    hide Feed, Decode, Turn, Session;
    if |ps| == 1 {
      SessionOne(s, ps[0]);
      assert ps == [ps[0]];
    } else {
      SessionIsTurn(Feed(s, ps[0]).value, ps[1..]);
      SessionSkips(s, ps);
      TurnMore(s, ps);
    }
  }

  lemma {:induction false} RestUndecoded(s: Rx, b: seq<byte>, ps: seq<Packet>)
    requires Midway(s, b) && !s.ready && Carries(ps, Left(s, b))
    ensures Undecoded(s, ps)
    decreases |ps|
  {
    assert ps != [];
    if |ps| > 1 {
      hide Carries, Overwrite;
      CarriesMore(ps, Left(s, b));
      CopyMore(s, b, ps[0]);
      hide Feed, Midway;
      RestUndecoded(Feed(s, ps[0]).value, b, ps[1..]);
    }
  }

  lemma SplitUndecoded(s: Rx, b: seq<byte>, ps: seq<Packet>)
    requires Idle(s) && IsBlock(b) && Splits(ps, b)
    ensures Undecoded(s, ps)
  {
    if |ps| == 1 { CarriesOne(ps, b); }
    hide Splits, Carries, Overwrite, ParseNth16, Midway, Left;
    FirstOfSplit(ps, b);
    FirstPacket(s, b, ps[0]);
    SplitStarts(s, b, ps);
    hide Feed;
    RestUndecoded(Feed(s, ps[0]).value, b, ps[1..]);
  }

  lemma SwallowUndecoded(s: Rx, b: seq<byte>, ps: seq<Packet>)
    requires Idle(s) && IsBlock(b) && Swallows(ps, b)
    ensures Undecoded(s, ps)
  {
    FirstPacket(s, b, ps[0]);
    hide Feed;
    assert Undecoded(Feed(s, ps[0]).value, ps[1..]);
  }

  lemma SendsUndecoded(s: Rx, b: seq<byte>, ps: seq<Packet>)
    requires Idle(s) && IsBlock(b) && Sends(ps, b)
    ensures Undecoded(s, ps)
  {
    hide Splits, Swallows, Undecoded;
    if Splits(ps, b) {
      SplitUndecoded(s, b, ps);
    } else {
      SwallowUndecoded(s, b, ps);
    }
  }

  lemma FirstPacketHeader(b: seq<byte>)
    requires IsBlock(b)
    ensures ParseNth16(b).Parsed? && ParseNth16(b).value.ndpindex == U16At(b, 10)
  {}

  /** What a call that finds a block does, whatever came before it: it halts the firmware exactly when the buffer holds
      no readable table or an entry that does not fit; otherwise it delivers the frames found there. */
  lemma TurnExactly(s: Rx, b: seq<byte>, ps: seq<Packet>)
    requires Between(s) && IsBlock(b) && Sends(ps, b)
    ensures Turn(s, ps).Done? <==> ReadableOver(s.buf, b)
    ensures Turn(s, ps).Done? ==>
              && Idle(Turn(s, ps).value.next) && Turn(s, ps).value.next.buf == Overwrite(s.buf, 0, b)
              && Frames(Turn(s, ps).value.frames) == FramesOver(s.buf, b)
  {
    Reassembles(s, b, ps);
    FirstPacketHeader(b);
    hide Drain, Decode, Sends, Slices, NonEmpty, EntriesAt, TableAt, AllFit, Overwrite, ParseNth16;
    DecodesExactly(Drain(s, ps).value);
  }

  /** The same, one packet a call. */
  lemma SessionExactly(s: Rx, b: seq<byte>, ps: seq<Packet>)
    requires Idle(s) && IsBlock(b) && Sends(ps, b)
    ensures Session(s, ps).Done? <==> ReadableOver(s.buf, b)
    ensures Session(s, ps).Done? ==>
              && Idle(Session(s, ps).value.next) && Session(s, ps).value.next.buf == Overwrite(s.buf, 0, b)
              && Frames(Session(s, ps).value.frames) == FramesOver(s.buf, b)
  {
    hide Session, Turn, Sends, ReadableOver, FramesOver, IsBlock, Undecoded;
    SendsUndecoded(s, b, ps);
    SessionIsTurn(s, ps);
    TurnExactly(s, b, ps);
  }

  /** However a block the receiver can read is sent, exactly its frames are delivered and the machine ends idle. */
  lemma SessionBlock(s: Rx, b: seq<byte>, ps: seq<Packet>)
    requires Idle(s) && IsHostBlock(b) && Sends(ps, b)
    ensures Session(s, ps).Done?
    ensures Idle(Session(s, ps).value.next) && Frames(Session(s, ps).value.frames) == BlockFrames(b)
  {
    assert IsBlock(b);
    hide Session, Sends, ReadableOver, FramesOver, IsBlock, IsHostBlock, BlockFrames;
    SessionExactly(s, b, ps);
    HostFramesOver(s.buf, b);
  }

  /** The same block found whole in the queue by one call gives the same frames. */
  lemma TurnBlock(s: Rx, b: seq<byte>, ps: seq<Packet>)
    requires Between(s) && IsHostBlock(b) && Sends(ps, b)
    ensures Turn(s, ps).Done?
    ensures Idle(Turn(s, ps).value.next) && Frames(Turn(s, ps).value.frames) == BlockFrames(b)
  {
    assert IsBlock(b);
    hide Turn, Sends, ReadableOver, FramesOver, IsBlock, IsHostBlock, BlockFrames;
    TurnExactly(s, b, ps);
    HostFramesOver(s.buf, b);
  }

  /** A block length of 0, by which section 3.2.1 of NCM 1.0 leaves the end of the block to the short packet, halts the
      firmware at the next packet. */
  lemma ZeroBlockLengthHalts(s: Rx, p: Packet, q: Packet)
    requires Idle(s) && !Junk(p) && U16At(p.Payload(), 8) == 0
    ensures Turn(s, [p, q]).Panic? && Session(s, [p, q]).Panic?
  {
    FirstPacketDecides(s, p, q);
    var s1 := Feed(s, p).value;
    assert !s1.ready;
    assert [p, q][1..] == [q];
    hide Feed, Turn, Session, Decode;
    TurnOne(s1, q);
    TurnMore(s, [p, q]);
    SessionSkips(s, [p, q]);
    SessionOne(s1, q);
  }

  // ----- resynchronisation

  lemma JunkTurn(s: Rx, junk: Packet)
    requires |s.buf| == NCM_MAX_SIZE && !s.ready && s.state.AwaitHeader? && Junk(junk)
    ensures Turn(s, [junk]) == Done(RxTurn(s, []))
  {
    assert Feed(s, junk) == Done(s);
    hide Feed, Turn;
    TurnOne(s, junk);
    DecodeNotReady(s);
  }

  /** Junk between blocks is invisible: dropped into a session at a point where the machine awaits a header,
      it changes neither the frames delivered nor the final state. */
  lemma JunkIsInvisible(s: Rx, a: seq<Packet>, junk: Packet, b: seq<Packet>)
    requires |s.buf| == NCM_MAX_SIZE && !s.ready
    requires Session(s, a).Done? && Session(s, a).value.next.state.AwaitHeader?
    requires Junk(junk)
    ensures Session(s, a + [junk] + b) == Session(s, a + b)
  {
    var r := Session(s, a).value;
    JunkTurn(r.next, junk);
    hide Session, Turn;
    SessionSnoc(s, a, junk);
    assert r.frames + [] == r.frames;
    assert Session(s, a + [junk]) == Session(s, a);
    SessionConcat(s, a, b);
    SessionConcat(s, a + [junk], b);
  }
}
