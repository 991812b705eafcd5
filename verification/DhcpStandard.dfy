/** The message type as section 9.6 of RFC 2132 defines it, the address range as the server's fields name it, and the
    messages on which the server departs from them. */
module DhcpStandard {
  import opened Wire
  import opened DhcpCodec
  import opened Dhcp
  import opened DhcpLeases

  const MSG_TYPE: byte := 53
  const PAD: byte := 0
  const END: byte := 255

  /** What follows the first option: a pad is one byte, the end marker ends the options, every other option carries
      its length. Nothing follows an option that is cut short. */
  function AfterFirst(area: seq<byte>): (rest: seq<byte>)
    requires area != []
    ensures |rest| < |area|
  {
    if area[0] == PAD then area[1..]
    else if area[0] == END || |area| < 2 || 2 + area[1] > |area| then []
    else area[2 + area[1]..]
  }

  /** The first option is a message type: code 53, length 1. */
  predicate FirstIsType(area: seq<byte>)
  {
    |area| >= 3 && area[0] == MSG_TYPE && area[1] == 1
  }

  /** The value of the message type option, wherever it lies. */
  function TypeValue(area: seq<byte>): Option<byte>
    decreases |area|
  {
    if area == [] then None
    else if area[0] == MSG_TYPE then if FirstIsType(area) then Some(area[2]) else None
    else TypeValue(AfterFirst(area))
  }

  /** The message types of section 9.6 of RFC 2132, numbered from 1. */
  function KindNumbered(n: byte): MessageType
    requires 1 <= n <= 8
  {
    [Discover, Offer, Request, Decline, Ack, Nak, Release, Inform][n - 1]
  }

  /** The message type. */
  function StandardKind(area: seq<byte>): Option<MessageType>
  {
    match TypeValue(area)
    case None => None
    case Some(c) => if 1 <= c <= 8 then Some(KindNumbered(c)) else None
  }

  lemma FirstOptionBytes(buf: seq<byte>)
    requires Parse(buf).Done? && |buf| >= OPTIONSTART + 3
    ensures var b, o := buf[OPTIONSTART..], Parse(buf).value.options[0..6]; o[0] == b[0] && o[1] == b[1] && o[2] == b[2]
  {}

  lemma DecodedFirstByte(o: seq<byte>)
    requires DecodeOption(o).Done?
    ensures DecodeOption(o).value.data[0] == if o[1] == 0 then 0 else o[2]
  {
    hide TypeOf;
  }

  /** A readable message has three option bytes at least, and is taken for what the third of them says. */
  lemma KindIsThirdByte(buf: seq<byte>)
    requires Readable(buf)
    ensures |buf| >= OPTIONSTART + 3 && TypeOf(buf[OPTIONSTART]).Some?
    ensures MessageTypeOf(buf[OPTIONSTART + 2]) == Some(KindOf(buf))
  {
    var o := Parse(buf).value.options[0..6];
    DecodedFirstByte(o);
    if |buf| < OPTIONSTART + 3 {
      assert false; // the third byte would be padding, which is no message type
    }
    FirstOptionBytes(buf);
    hide DecodeOption, Parse;
  }

  /** The option codes the decoder knows. */
  predicate KnownCode(c: byte)
  {
    c in [0, 1, 3, 6, 12, 23, 26, 28, 37, 42, 50, 51, 52, 53, 54, 255]
  }

  lemma TypeOfKnown(c: byte)
    ensures TypeOf(c).Some? <==> KnownCode(c)
  {}

  lemma OptionByBytes(o: seq<byte>)
    requires |o| == 6
    ensures DecodeOption(o).Done? <==> KnownCode(o[0]) && o[1] <= 4
  {
    TypeOfKnown(o[0]);
    hide TypeOf, KnownCode;
  }

  /** What the option area of a message must begin with, byte by byte. */
  predicate ReadableBytes(buf: seq<byte>)
  {
    |buf| >= 243 && KnownCode(buf[240]) && 1 <= buf[241] <= 4 && 1 <= buf[242] <= 8
  }

  lemma AreaBytes(buf: seq<byte>)
    requires |buf| >= 240
    ensures Parse(buf).Done?
    ensures var o := Parse(buf).value.options[0..6];
            forall i :: 0 <= i < 6 ==> o[i] == if 240 + i < |buf| then buf[240 + i] else 0
  {}

  lemma ReadableByBytes(buf: seq<byte>)
    ensures Readable(buf) <==> ReadableBytes(buf)
  {
    if |buf| >= 240 {
      AreaBytes(buf);
      var o := Parse(buf).value.options[0..6];
      OptionByBytes(o);
      hide DecodeOption, KnownCode, Parse;
      if DecodeOption(o).Done? { DecodedFirstByte(o); }
    }
  }

  lemma ReadableExactly(buf: seq<byte>)
    ensures Readable(buf) <==> ReadableBytes(buf)
    ensures Readable(buf) ==> KindOf(buf) == KindNumbered(buf[242])
  {
    hide Readable, KindOf, TypeOf, KnownCode;
    ReadableByBytes(buf);
    if Readable(buf) { KindIsThirdByte(buf); }
  }

  lemma ClientBytes(buf: seq<byte>)
    requires Readable(buf)
    ensures |buf| >= OPTIONSTART && ClientOf(buf) == buf[28..34]
  {
    hide DecodeOption;
  }

  lemma LeaseByBytes(s: Server, buf: seq<byte>)
    requires Readable(buf) && |buf| >= 243 && (KindOf(buf).Discover? || KindOf(buf).Request?)
    ensures var l, r := CreateLease(s, buf[28..34]), Recv(s, buf);
            && (r.Panic? <==> l.Panic?)
            && (r.Done? ==>
                  && r.value.server == l.value.server && r.value.reply.Some?
                  && r.value.reply.value != [] && r.value.reply.value[0] == 2
                  && IsReply(buf, r.value.reply.value, l.value.ip,
                             ReplyArea(s.subnet, s.serverip, if KindOf(buf).Discover? then 2 else 5)))
  {
    hide Recv, CreateLease, ReplyArea, DecodeMany, Readable, KindOf, ClientOf, CreateReply, Parse, Serialise;
    ClientBytes(buf);
    RecvCases(s, buf);
    if Recv(s, buf).Done? {
      ReplyChangesOnly(s, buf);
    }
  }

  /** What `recv` does, by the bytes of the message. One that does not begin as above panics; type 1, a Discover, gets
      an Offer, type 3, a Request, an Ack, each with the lease of the client whose address is bytes 28 to 33, and panics
      if there is none to be had; the types 2 and 4 to 8 get nothing and change nothing. */
  lemma RecvByBytes(s: Server, buf: seq<byte>)
    ensures !ReadableBytes(buf) ==> Recv(s, buf).Panic?
    ensures ReadableBytes(buf) && buf[242] != 1 && buf[242] != 3 ==> Recv(s, buf) == Done(Answer(s, None))
    ensures ReadableBytes(buf) && (buf[242] == 1 || buf[242] == 3) ==>
              var l, r := CreateLease(s, buf[28..34]), Recv(s, buf);
              && (r.Panic? <==> l.Panic?)
              && (r.Done? ==>
                    && r.value.server == l.value.server && r.value.reply.Some?
                    && r.value.reply.value != [] && r.value.reply.value[0] == 2
                    && IsReply(buf, r.value.reply.value, l.value.ip,
                               ReplyArea(s.subnet, s.serverip, if buf[242] == 1 then 2 else 5)))
  {
    ReadableExactly(buf);
    hide Recv, CreateLease, IsReply, ReplyArea, Readable, KindOf, KnownCode, CreateReply, Parse, Serialise;
    if ReadableBytes(buf) && (buf[242] == 1 || buf[242] == 3) {
      LeaseByBytes(s, buf);
    } else {
      RecvCases(s, buf);
    }
  }

  lemma KindsDiffer(c: byte, d: byte)
    requires 1 <= c <= 8 && 1 <= d <= 8 && KindNumbered(c) == KindNumbered(d)
    ensures c == d
  {}

  /** Exactly when `recv` takes a message for what it is: the first option is the message type, or it is another
      option whose third byte happens to be the value of the message type that follows. */
  lemma TypeReadRightly(buf: seq<byte>)
    requires Readable(buf)
    ensures |buf| >= OPTIONSTART + 3
    ensures var area := buf[OPTIONSTART..];
            StandardKind(area) == Some(KindOf(buf))
            <==> FirstIsType(area) || (area[0] != MSG_TYPE && TypeValue(AfterFirst(area)) == Some(area[2]))
  {
    ReadableExactly(buf);
    hide Readable, KindOf, KindNumbered, KnownCode;
    var area := buf[OPTIONSTART..];
    assert area[2] == buf[242];
    if TypeValue(area).Some? && StandardKind(area) == Some(KindOf(buf)) {
      KindsDiffer(area[2], TypeValue(area).value);
    }
  }

  lemma SameBefore(buf: seq<byte>, c: byte)
    requires |buf| > OPTIONSTART
    ensures var x, y := buf, buf[OPTIONSTART := c];
            && y[12..16] == x[12..16] && y[16..20] == x[16..20] && y[20..24] == x[20..24] && y[24..28] == x[24..28]
            && y[28..44] == x[28..44] && y[44..108] == x[44..108] && y[108..236] == x[108..236]
            && U32At(y, 4) == U32At(x, 4) && U16At(y, 8) == U16At(x, 8) && U16At(y, 10) == U16At(x, 10)
            && U32At(y, 236) == U32At(x, 236)
  {}

  /** Messages that differ in the code of their first option are parsed alike, except for that code. */
  lemma CodeOnlyInArea(buf: seq<byte>, c: byte)
    requires |buf| > OPTIONSTART
    ensures Parse(buf).Done? && Parse(buf[OPTIONSTART := c]).Done?
    ensures Parse(buf[OPTIONSTART := c]).value == Parse(buf).value.(options := Parse(buf).value.options[0 := c])
  {
    var x, y := buf, buf[OPTIONSTART := c];
    SameBefore(x, c);
    hide U16At, U32At;
    assert Parse(y).value.options == Parse(x).value.options[0 := c];
  }

  lemma DataIgnoresCode(o: seq<byte>, c: byte)
    requires |o| == 6 && TypeOf(o[0]).Some? && TypeOf(c).Some?
    ensures DecodeOption(o).Done? <==> DecodeOption(o[0 := c]).Done?
    ensures DecodeOption(o).Done? ==> DecodeOption(o[0 := c]).value.data == DecodeOption(o).value.data
  {
    var len := o[1];
    if len <= 4 {
      assert o[0 := c][2..2 + len] == o[2..2 + len];
    }
    hide TypeOf;
  }

  lemma ReplyIgnoresOptions(s: Server, a: DhcpMsg, b: DhcpMsg, t: MessageType)
    requires b == a.(options := b.options)
    ensures CreateReply(s, b, t) == CreateReply(s, a, t)
  {
    hide OptionsBytes, ReplyOptions, CreateLease;
  }

  /** The code of the first option is never looked at: over any known code `recv` does the same, reply, lease and
      panic alike. */
  lemma CodeIsIgnored(s: Server, buf: seq<byte>, c: byte)
    requires |buf| > OPTIONSTART && TypeOf(buf[OPTIONSTART]).Some? && TypeOf(c).Some?
    ensures Recv(s, buf[OPTIONSTART := c]) == Recv(s, buf)
  {
    CodeOnlyInArea(buf, c);
    var a, b := Parse(buf).value, Parse(buf[OPTIONSTART := c]).value;
    assert a.options[0] == buf[OPTIONSTART];
    var o := a.options[0..6];
    assert b.options[0..6] == o[0 := c];
    DataIgnoresCode(o, c);
    ReplyIgnoresOptions(s, a, b, Offer);
    ReplyIgnoresOptions(s, a, b, Ack);
    hide Parse, DecodeOption, CreateReply, Serialise;
  }

  /** A readable message is one of those. */
  lemma ReadableCodeIsIgnored(s: Server, buf: seq<byte>, c: byte)
    requires Readable(buf) && TypeOf(c).Some?
    ensures |buf| > OPTIONSTART && Recv(s, buf[OPTIONSTART := c]) == Recv(s, buf)
  {
    KindIsThirdByte(buf);
    hide Recv, Readable;
    CodeIsIgnored(s, buf, c);
  }

  // ----- messages of a client

  /** A boot request of the client `mac` with the given options. */
  function MessageFrom(mac: Mac, area: OptionArea): (buf: seq<byte>)
    ensures |buf| == MSG_LEN
  {
    Serialise(DhcpMsg(1, 1, 6, 0, 0, 0, 0, Zeros(4), Zeros(4), Zeros(4), Zeros(4),
                      mac + Zeros(10), Zeros(64), Zeros(128), 0x6382_5363, area))
  }

  /** A single option of length 1, and the end marker. */
  function OneOption(code: byte, value: byte): OptionArea
  {
    [code, 1, value, END] + Zeros(64)
  }

  lemma MessageParts(mac: Mac, area: OptionArea)
    ensures Parse(MessageFrom(mac, area)).Done? && Parse(MessageFrom(mac, area)).value.options == area
    ensures MessageFrom(mac, area)[28..34] == mac && MessageFrom(mac, area)[OPTIONSTART..] == area
  {
    var m := DhcpMsg(1, 1, 6, 0, 0, 0, 0, Zeros(4), Zeros(4), Zeros(4), Zeros(4),
                     mac + Zeros(10), Zeros(64), Zeros(128), 0x6382_5363, area);
    MessageRoundTrip(m);
    SerialisedFields(m);
    hide Serialise, Parse;
    var buf := MessageFrom(mac, area);
    assert buf[28..34] == buf[28..44][0..6] == mac;
    assert buf[240..] == buf[240..308];
  }

  lemma OneOptionKind(mac: Mac, code: byte, value: byte)
    requires TypeOf(code).Some? && MessageTypeOf(value).Some?
    ensures var buf := MessageFrom(mac, OneOption(code, value));
            Readable(buf) && KindOf(buf) == MessageTypeOf(value).value && ClientOf(buf) == mac
  {
    MessageParts(mac, OneOption(code, value));
    var o := OneOption(code, value)[0..6];
    DecodedFirstByte(o);
    hide Parse, TypeOf, MessageTypeOf, MessageFrom;
  }

  /** A message whose only option is a host name of one byte, which has no message type at all, is answered with an
      Offer and given a lease. */
  lemma HostnameGetsOffer(s: Server, mac: Mac)
    requires CreateLease(s, mac).Done?
    ensures var buf := MessageFrom(mac, OneOption(12, 1));
            && StandardKind(buf[OPTIONSTART..]) == None
            && Recv(s, buf).Done? && Recv(s, buf).value.server == CreateLease(s, mac).value.server
            && Recv(s, buf).value.reply.Some?
            && IsReply(buf, Recv(s, buf).value.reply.value, CreateLease(s, mac).value.ip,
                       ReplyArea(s.subnet, s.serverip, MessageCode(Offer)))
  {
    var buf, area := MessageFrom(mac, OneOption(12, 1)), OneOption(12, 1);
    OneOptionKind(mac, 12, 1);
    MessageParts(mac, area);
    assert AfterFirst(area) == area[3..] && area[3] == END;
    assert TypeValue([]) == None;
    assert AfterFirst(area[3..]) == [];
    assert TypeValue(area) == TypeValue(area[3..]) == None;
    hide Recv, CreateLease, IsReply, ReplyArea, DecodeMany, Parse, MessageFrom, OneOption, TypeValue, Readable, KindOf,
         ClientOf;
    RecvCases(s, buf);
    ReplyChangesOnly(s, buf);
  }

  // ----- the address range

  lemma {:induction false} AskerExists(bufs: seq<seq<byte>>, c: Mac) returns (i: nat)
    requires c in Askers(bufs)
    ensures i < |bufs| && AsksForLease(bufs[i]) && ClientOf(bufs[i]) == c
  {
    var init, buf := bufs[..|bufs| - 1], bufs[|bufs| - 1];
    if AsksForLease(buf) && ClientOf(buf) == c {
      i := |bufs| - 1;
    } else {
      i := AskerExists(init, c);
    }
  }

  lemma {:induction false} AskerMember(bufs: seq<seq<byte>>, i: nat)
    requires i < |bufs| && AsksForLease(bufs[i])
    ensures ClientOf(bufs[i]) in Askers(bufs)
  {
    if i < |bufs| - 1 {
      AskerMember(bufs[..|bufs| - 1], i);
    }
  }

  /** Every address of these replies lies at or below the server's `maxaddr`. */
  predicate WithinRange(s0: Server, replies: seq<Option<seq<byte>>>)
  {
    forall i :: 0 <= i < |replies| && replies[i].Some? ==>
      |replies[i].value| == MSG_LEN && replies[i].value[19] <= s0.maxaddr
  }

  lemma ReplyAddress(s0: Server, cs: seq<Mac>, buf: seq<byte>, reply: Option<seq<byte>>)
    requires |Distinct(cs)| <= Capacity(s0.addrstart) && ReplyFor(s0, cs, buf, reply) && AsksForLease(buf)
    ensures reply.Some? && |reply.value| == MSG_LEN && ClientOf(buf) in cs
    ensures reply.value[16..20] == AddressOf(s0, cs, ClientOf(buf))
    ensures reply.value[19] == AddressOf(s0, cs, ClientOf(buf))[3]
  {
    hide ReplyArea, AddressOf, AsksForLease, Readable, Distinct;
    assert reply.value[19] == reply.value[16..20][3];
  }

  lemma AskerOfReply(s0: Server, cs: seq<Mac>, buf: seq<byte>, reply: Option<seq<byte>>)
    requires |Distinct(cs)| <= Capacity(s0.addrstart) && ReplyFor(s0, cs, buf, reply) && reply.Some?
    ensures AsksForLease(buf)
  {}

  /** `maxaddr` is never consulted: over any history all addresses given out stay at or below it exactly when no more
      clients have asked than the range from `addrstart` to `maxaddr` holds. */
  lemma RangeHoldsExactly(s0: Server, bufs: seq<seq<byte>>)
    requires Fresh(s0) && Serve(s0, bufs).Done?
    ensures WithinRange(s0, Serve(s0, bufs).value.replies)
            <==> |Distinct(Askers(bufs))| <= (if s0.maxaddr < s0.addrstart then 0 else s0.maxaddr - s0.addrstart + 1)
  {
    var cs, replies := Askers(bufs), Serve(s0, bufs).value.replies;
    LeaseMapRefinement(s0, bufs);
    RepresentsFits(s0, Serve(s0, bufs).value.server, cs);
    hide Serve, Askers, Distinct, ReplyFor, Represents, AddressOf, AsksForLease, ClientOf, Readable;
    MaxaddrHoldsExactly(s0, cs);
    if WithinRange(s0, replies) {
      forall c | c in cs
        ensures AddressOf(s0, cs, c)[3] <= s0.maxaddr
      {
        var i := AskerExists(bufs, c);
        assert ReplyFor(s0, cs, bufs[i], replies[i]);
        ReplyAddress(s0, cs, bufs[i], replies[i]);
      }
    }
    if forall c :: c in cs ==> AddressOf(s0, cs, c)[3] <= s0.maxaddr {
      forall i | 0 <= i < |replies| && replies[i].Some?
        ensures |replies[i].value| == MSG_LEN && replies[i].value[19] <= s0.maxaddr
      {
        assert ReplyFor(s0, cs, bufs[i], replies[i]);
        AskerOfReply(s0, cs, bufs[i], replies[i]);
        ReplyAddress(s0, cs, bufs[i], replies[i]);
      }
    }
  }

  /** A reply gives the address that ends in `v`. */
  predicate Gives(s0: Server, reply: Option<seq<byte>>, v: byte)
  {
    reply.Some? && |reply.value| == MSG_LEN && reply.value[16..20] == s0.serverip[3 := v]
  }

  predicate Given(s0: Server, replies: seq<Option<seq<byte>>>, v: byte)
  {
    exists i :: 0 <= i < |replies| && Gives(s0, replies[i], v)
  }

  lemma ReplyGives(s0: Server, cs: seq<Mac>, buf: seq<byte>, reply: Option<seq<byte>>, v: byte)
    requires |Distinct(cs)| <= Capacity(s0.addrstart) && ReplyFor(s0, cs, buf, reply) && AsksForLease(buf)
    ensures ClientOf(buf) in cs
    ensures Gives(s0, reply, v) <==> v == s0.addrstart + IndexOf(Distinct(cs), ClientOf(buf))
  {
    hide ReplyArea, AsksForLease, Readable, Distinct, ReplyFor, IndexOf;
    ReplyAddress(s0, cs, buf, reply);
    assert s0.serverip[3 := v][3] == v;
  }

  lemma GivesSome(s0: Server, reply: Option<seq<byte>>, v: byte)
    requires Gives(s0, reply, v)
    ensures reply.Some?
  {}

  /** What `LeaseMapRefinement` says of one reply. */
  lemma ReplyOf(s0: Server, bufs: seq<seq<byte>>, i: nat)
    requires Fresh(s0) && Serve(s0, bufs).Done? && i < |bufs|
    ensures |Distinct(Askers(bufs))| <= Capacity(s0.addrstart)
    ensures ReplyFor(s0, Askers(bufs), bufs[i], Serve(s0, bufs).value.replies[i])
  {
    hide Serve, Askers, Distinct, ReplyFor, Represents;
    LeaseMapRefinement(s0, bufs);
    RepresentsFits(s0, Serve(s0, bufs).value.server, Askers(bufs));
  }

  lemma GivenWithin(s0: Server, bufs: seq<seq<byte>>, i: nat, v: byte)
    requires Fresh(s0) && Serve(s0, bufs).Done? && i < |bufs|
    requires Gives(s0, Serve(s0, bufs).value.replies[i], v)
    ensures s0.addrstart <= v < s0.addrstart + |Distinct(Askers(bufs))|
  {
    hide Serve, Askers, Distinct, ReplyFor, AsksForLease, ClientOf, Gives;
    ReplyOf(s0, bufs, i);
    GivesSome(s0, Serve(s0, bufs).value.replies[i], v);
    AskerOfReply(s0, Askers(bufs), bufs[i], Serve(s0, bufs).value.replies[i]);
    ReplyGives(s0, Askers(bufs), bufs[i], Serve(s0, bufs).value.replies[i], v);
  }

  /** The client that asked as the `k`-th. */
  lemma ClientAt(cs: seq<Mac>, k: nat) returns (c: Mac)
    requires k < |Distinct(cs)|
    ensures c in cs && IndexOf(Distinct(cs), c) == k
  {
    c := Distinct(cs)[k];
    DistinctHasNoDuplicates(cs);
    hide Distinct, NoDuplicates;
    IndexUnique(Distinct(cs), c, k);
  }

  lemma GivenWhen(s0: Server, bufs: seq<seq<byte>>, v: byte) returns (i: nat)
    requires Fresh(s0) && Serve(s0, bufs).Done?
    requires s0.addrstart <= v < s0.addrstart + |Distinct(Askers(bufs))|
    ensures i < |bufs| && Gives(s0, Serve(s0, bufs).value.replies[i], v)
  {
    hide Serve, Askers, Distinct, ReplyFor, AsksForLease, ClientOf, Gives, IndexOf;
    var cs := Askers(bufs);
    var c := ClientAt(cs, v - s0.addrstart);
    i := AskerExists(bufs, c);
    ReplyOf(s0, bufs, i);
    ReplyGives(s0, cs, bufs[i], Serve(s0, bufs).value.replies[i], v);
  }

  /** Exactly which addresses a history gives out: those from `addrstart` on, one for each client that has asked. */
  lemma GivenExactly(s0: Server, bufs: seq<seq<byte>>, v: byte)
    requires Fresh(s0) && Serve(s0, bufs).Done?
    ensures Given(s0, Serve(s0, bufs).value.replies, v)
            <==> s0.addrstart <= v < s0.addrstart + |Distinct(Askers(bufs))|
  {
    hide Serve, Askers, Distinct, Gives;
    var replies := Serve(s0, bufs).value.replies;
    if Given(s0, replies, v) {
      var i :| 0 <= i < |replies| && Gives(s0, replies[i], v);
      GivenWithin(s0, bufs, i, v);
    }
    if s0.addrstart <= v < s0.addrstart + |Distinct(Askers(bufs))| {
      var i := GivenWhen(s0, bufs, v);
    }
  }

  /** In a /24 network, when a client is given the broadcast address or the server's own. */
  lemma UnusableGivenExactly(s0: Server, bufs: seq<seq<byte>>)
    requires Fresh(s0) && Serve(s0, bufs).Done?
    ensures var replies, n := Serve(s0, bufs).value.replies, |Distinct(Askers(bufs))|;
            && (Given(s0, replies, 255) <==> n == 0x100 - s0.addrstart)
            && (Given(s0, replies, s0.serverip[3]) <==> s0.addrstart <= s0.serverip[3] < s0.addrstart + n)
  {
    LeaseMapRefinement(s0, bufs);
    RepresentsFits(s0, Serve(s0, bufs).value.server, Askers(bufs));
    hide Serve, Askers, Distinct, ReplyFor, Represents, Given;
    GivenExactly(s0, bufs, 255);
    GivenExactly(s0, bufs, s0.serverip[3]);
  }

  /** The `i`-th of up to 256 clients. */
  function MacOf(i: nat): Mac
  {
    [2, 0, 0, 0, 0, i % 0x100]
  }

  function Macs(n: nat): (ms: seq<Mac>)
    ensures |ms| == n
    ensures forall i :: 0 <= i < n ==> ms[i] == MacOf(i)
  {
    seq(n, i requires 0 <= i < n => MacOf(i))
  }

  /** A Discover from each of the first `n` clients. */
  function Discovers(n: nat): (bufs: seq<seq<byte>>)
    ensures |bufs| == n
    ensures forall i :: 0 <= i < n ==> bufs[i] == MessageFrom(MacOf(i), OneOption(MSG_TYPE, 1))
  {
    seq(n, i requires 0 <= i < n => MessageFrom(MacOf(i), OneOption(MSG_TYPE, 1)))
  }

  lemma DiscoverAsks(mac: Mac)
    ensures var buf := MessageFrom(mac, OneOption(MSG_TYPE, 1));
            AsksForLease(buf) && Readable(buf) && ClientOf(buf) == mac
  {
    OneOptionKind(mac, MSG_TYPE, 1);
  }

  lemma {:induction false} DiscoversAsk(n: nat)
    ensures Askers(Discovers(n)) == Macs(n)
    ensures forall i :: 0 <= i < n ==>
              AsksForLease(Discovers(n)[i]) && Readable(Discovers(n)[i]) && ClientOf(Discovers(n)[i]) == MacOf(i)
  {
    hide MessageFrom, OneOption, AsksForLease, ClientOf, Readable;
    forall i | 0 <= i < n
      ensures AsksForLease(Discovers(n)[i]) && Readable(Discovers(n)[i]) && ClientOf(Discovers(n)[i]) == MacOf(i)
    {
      DiscoverAsks(MacOf(i));
    }
    if n != 0 {
      DiscoversAsk(n - 1);
      assert Discovers(n)[..n - 1] == Discovers(n - 1) && Macs(n) == Macs(n - 1) + [MacOf(n - 1)];
    } else {
      assert Discovers(n) == [] && Macs(n) == [];
    }
  }

  lemma NextMac(n: nat)
    requires n < 0x100
    ensures Macs(n + 1) == Macs(n) + [MacOf(n)] && MacOf(n) !in Macs(n)
  {
    assert MacOf(n)[5] == n;
    assert forall i :: 0 <= i < n ==> Macs(n)[i][5] == i;
  }

  lemma {:induction false} MacsAreDistinct(n: nat)
    requires n <= 0x100
    ensures Distinct(Macs(n)) == Macs(n)
  {
    if n == 0 {
      assert Macs(n) == [];
    } else {
      MacsAreDistinct(n - 1);
      NextMac(n - 1);
      hide Distinct, Macs, MacOf;
      DistinctSnoc(Macs(n - 1), MacOf(n - 1));
    }
  }

  lemma DiscoversServed(s0: Server, n: nat)
    requires Fresh(s0) && n <= Capacity(s0.addrstart)
    ensures Serve(s0, Discovers(n)).Done? && Distinct(Macs(n)) == Macs(n)
    ensures forall k :: 0 <= k < n ==> ReplyFor(s0, Macs(n), Discovers(n)[k], Serve(s0, Discovers(n)).value.replies[k])
  {
    DiscoversAsk(n);
    MacsAreDistinct(n);
    hide Discovers, Macs, Distinct, Askers, ReplyFor, Serve, AsksForLease, Readable, ClientOf, Represents;
    HaltsExactlyWhenFull(s0, Discovers(n));
    LeaseMapRefinement(s0, Discovers(n));
  }

  lemma AddressAt(s0: Server, cs: seq<Mac>, k: nat)
    requires Distinct(cs) == cs && k < |cs| <= Capacity(s0.addrstart)
    ensures AddressOf(s0, cs, cs[k]) == s0.serverip[3 := s0.addrstart + k]
  {
    DistinctHasNoDuplicates(cs);
    hide Distinct, NoDuplicates, IndexOf;
    IndexUnique(cs, cs[k], k);
  }

  lemma MacAddress(s0: Server, n: nat, k: nat)
    requires k < n <= Capacity(s0.addrstart)
    ensures Distinct(Macs(n)) == Macs(n) && MacOf(k) in Macs(n)
    ensures AddressOf(s0, Macs(n), MacOf(k)) == s0.serverip[3 := s0.addrstart + k]
  {
    hide Distinct, AddressOf;
    MacsAreDistinct(n);
    assert Macs(n)[k] == MacOf(k);
    AddressAt(s0, Macs(n), k);
  }

  /** Of clients that ask one after the other, no more than there are addresses, the `k`-th is given the `k`-th. */
  lemma AddressesInOrder(s0: Server, n: nat, k: nat)
    requires Fresh(s0) && k < n <= Capacity(s0.addrstart)
    ensures Serve(s0, Discovers(n)).Done? && Serve(s0, Discovers(n)).value.replies[k].Some?
    ensures |Serve(s0, Discovers(n)).value.replies[k].value| == MSG_LEN
    ensures Serve(s0, Discovers(n)).value.replies[k].value[16..20] == s0.serverip[3 := s0.addrstart + k]
  {
    DiscoversAsk(n);
    hide Discovers, Macs, MacOf, Distinct, Askers, ReplyFor, Serve, AsksForLease, Readable, ClientOf, AddressOf;
    DiscoversServed(s0, n);
    MacAddress(s0, n, k);
    ReplyAddress(s0, Macs(n), Discovers(n)[k], Serve(s0, Discovers(n)).value.replies[k]);
  }

  /** In the firmware's own configuration, addresses from 5 with a `maxaddr` of 128, the 125th client is given 129. */
  lemma MaxaddrIgnored(s0: Server)
    requires Fresh(s0) && s0.addrstart == 5 && s0.maxaddr == 128
    ensures Serve(s0, Discovers(125)).Done?
    ensures var reply := Serve(s0, Discovers(125)).value.replies[124];
            reply.Some? && |reply.value| == MSG_LEN && reply.value[16..20] == s0.serverip[3 := 129]
  {
    hide Serve, Discovers;
    AddressesInOrder(s0, 125, 124);
  }

  /** ... and the 251st client is given the broadcast address of the network. */
  lemma BroadcastIsGiven(s0: Server)
    requires Fresh(s0) && s0.addrstart == 5
    ensures Serve(s0, Discovers(251)).Done? && Gives(s0, Serve(s0, Discovers(251)).value.replies[250], 255)
  {
    hide Serve, Discovers;
    AddressesInOrder(s0, 251, 250);
  }
}
