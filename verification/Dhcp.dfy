/** The DHCP server: one message at a time, and the lease table over every history of messages. */
module Dhcp {
  import opened Wire
  import opened DhcpCodec

  type Mac = b: seq<byte> | |b| == 6 witness Zeros(6)

  const BOOT_REPLY: byte := 2
  const LEASE_SECONDS: u32 := 86400

  datatype MessageType = Discover | Offer | Request | Decline | Ack | Nak | Release | Inform

  function MessageCode(t: MessageType): byte
  {
    match t
    case Discover => 1
    case Offer => 2
    case Request => 3
    case Decline => 4
    case Ack => 5
    case Nak => 6
    case Release => 7
    case Inform => 8
  }

  function MessageTypeOf(c: byte): Option<MessageType>
  {
    if c == 1 then Some(Discover)
    else if c == 2 then Some(Offer)
    else if c == 3 then Some(Request)
    else if c == 4 then Some(Decline)
    else if c == 5 then Some(Ack)
    else if c == 6 then Some(Nak)
    else if c == 7 then Some(Release)
    else if c == 8 then Some(Inform)
    else None
  }

  /** The fields of `DhcpServer`; `clients` is its list `allocated`. */
  datatype Server = Server(
    addrstart: byte, maxaddr: byte, addrcnt: byte, serverip: Ipv4, subnet: Ipv4, clients: seq<Mac>)

  /** The indices at which `x` occurs. */
  function Positions(xs: seq<Mac>, x: Mac): seq<nat>
  {
    if xs == [] then []
    else Positions(xs[..|xs| - 1], x) + (if xs[|xs| - 1] == x then [|xs| - 1] else [])
  }

  datatype Leased = Leased(server: Server, ip: Ipv4)

  /** `create_lease`. Address arithmetic is in one byte and panics when it overflows. */
  function CreateLease(s: Server, requester: Mac): Outcome<Leased>
  {
    var idx := Positions(s.clients, requester);
    if |idx| > 1 then Panic
    else if idx == [] then
      if s.addrstart + s.addrcnt > 255 || s.addrcnt + 1 > 255 then Panic
      else Done(Leased(s.(addrcnt := s.addrcnt + 1, clients := s.clients + [requester]),
                       s.serverip[3 := s.addrstart + s.addrcnt]))
    else if s.addrstart + idx[0] % 0x100 > 255 then Panic
    else Done(Leased(s, s.serverip[3 := s.addrstart + idx[0] % 0x100]))
  }

  /** The six options of a reply, the message type first. */
  function ReplyOptions(s: Server, t: MessageType): (os: seq<OptionMsg>)
    ensures |os| == 6
    ensures forall o :: o in os ==> o.len <= 4 && Canonical(o)
  {
    [OptionMsg(MsgType, 1, [MessageCode(t), 0, 0, 0]),
     OptionMsg(Subnetmask, 4, s.subnet),
     OptionMsg(Router, 4, s.serverip),
     OptionMsg(ServerId, 4, s.serverip),
     OptionMsg(Leasetime, 4, Le32(LEASE_SECONDS)),
     OptionMsg(Dnsserver, 4, s.serverip)]
  }

  datatype Replied = Replied(server: Server, msg: DhcpMsg)

  /** `create_dhcp_reply`. */
  function CreateReply(s: Server, incoming: DhcpMsg, t: MessageType): Outcome<Replied>
  {
    var bytes := OptionsBytes(ReplyOptions(s, t)) + [Code(End)];
    if |bytes| > OPTIONS_LEN then Panic
    else
      var l :- CreateLease(s, incoming.chaddr[0..6]);
      Done(Replied(l.server,
                   incoming.(op := BOOT_REPLY, secs := 0, flags := 0, yiaddr := l.ip,
                             options := bytes + Zeros(OPTIONS_LEN - |bytes|))))
  }

  datatype Answer = Answer(server: Server, reply: Option<seq<byte>>)

  /** `recv`: the first option is taken for the message type, whatever its type. */
  function Recv(s: Server, buf: seq<byte>): Outcome<Answer>
  {
    var incoming :- Parse(buf);
    var opt :- DecodeOption(incoming.options[0..6]);
    match MessageTypeOf(opt.data[0])
    case None => Panic
    case Some(Discover) =>
      var r :- CreateReply(s, incoming, Offer);
      Done(Answer(r.server, Some(Serialise(r.msg))))
    case Some(Request) =>
      var r :- CreateReply(s, incoming, Ack);
      Done(Answer(r.server, Some(Serialise(r.msg))))
    case Some(_) => Done(Answer(s, None))
  }

  class DhcpServer {
    var addrstart: byte
    var maxaddr: byte
    var addrcnt: byte
    var serverip: Ipv4
    var subnet: Ipv4
    var clients: seq<Mac>

    ghost function View(): Server
      reads this
    {
      Server(addrstart, maxaddr, addrcnt, serverip, subnet, clients)
    }

    constructor (addrstart: byte, maxaddr: byte, serverip: Ipv4, subnet: Ipv4)
      ensures View() == Server(addrstart, maxaddr, 0, serverip, subnet, [])
    {
      this.addrstart, this.maxaddr, this.addrcnt := addrstart, maxaddr, 0;
      this.serverip, this.subnet, this.clients := serverip, subnet, [];
    }

    method LeaseAddress(requester: Mac) returns (ip: Ipv4)
      requires CreateLease(View(), requester).Done?
      modifies `addrcnt, `clients
      ensures CreateLease(old(View()), requester) == Done(Leased(View(), ip))
    {
      var idx := Positions(clients, requester);
      assert |idx| <= 1; // "two ips to 1 mac" cannot be reached
      if idx == [] {
        ip := serverip[3 := addrstart + addrcnt];
        addrcnt := addrcnt + 1;
        clients := clients + [requester];
      } else {
        ip := serverip[3 := addrstart + idx[0] % 0x100];
      }
    }

    method CreateDhcpReply(incoming: DhcpMsg, t: MessageType) returns (reply: DhcpMsg)
      requires CreateReply(View(), incoming, t).Done?
      modifies `addrcnt, `clients
      ensures CreateReply(old(View()), incoming, t) == Done(Replied(View(), reply))
    {
      var options: seq<OptionMsg> := [];
      options := options + [OptionMsg(MsgType, 1, [MessageCode(t), 0, 0, 0])];
      options := options + [OptionMsg(Subnetmask, 4, subnet)];
      options := options + [OptionMsg(Router, 4, serverip)];
      options := options + [OptionMsg(ServerId, 4, serverip)];
      options := options + [OptionMsg(Leasetime, 4, Le32(LEASE_SECONDS))];
      options := options + [OptionMsg(Dnsserver, 4, serverip)];
      assert options == ReplyOptions(View(), t);
      var optionbytes := ConvOptionsToBytes(options);
      optionbytes := optionbytes + [Code(End)];
      var area := optionbytes + Zeros(OPTIONS_LEN - |optionbytes|);
      var ip := LeaseAddress(incoming.chaddr[0..6]);
      reply := incoming.(op := BOOT_REPLY, secs := 0, flags := 0, yiaddr := ip, options := area);
    }

    method Receive(buf: seq<byte>) returns (reply: Option<seq<byte>>)
      requires Recv(View(), buf).Done?
      modifies `addrcnt, `clients
      ensures Recv(old(View()), buf) == Done(Answer(View(), reply))
    {
      var incoming := Parse(buf).value;
      var opt := DecodeOption(incoming.options[0..6]).value;
      match MessageTypeOf(opt.data[0]).value
      case Discover =>
        var r := CreateDhcpReply(incoming, Offer);
        reply := Some(Serialise(r));
      case Request =>
        var r := CreateDhcpReply(incoming, Ack);
        reply := Some(Serialise(r));
      case _ =>
        reply := None;
    }
  }

  // ----- what a single message is and does

  /** What `recv` demands of a message, apart from room for a lease. */
  predicate Readable(buf: seq<byte>)
  {
    && Parse(buf).Done?
    && DecodeOption(Parse(buf).value.options[0..6]).Done?
    && MessageTypeOf(DecodeOption(Parse(buf).value.options[0..6]).value.data[0]).Some?
  }

  function KindOf(buf: seq<byte>): MessageType
    requires Readable(buf)
  {
    MessageTypeOf(DecodeOption(Parse(buf).value.options[0..6]).value.data[0]).value
  }

  /** The client's hardware address: 6 bytes of `chaddr`. */
  function ClientOf(buf: seq<byte>): Mac
    requires Readable(buf)
  {
    buf[28..34]
  }

  predicate AsksForLease(buf: seq<byte>)
  {
    Readable(buf) && (KindOf(buf).Discover? || KindOf(buf).Request?)
  }

  lemma ReplyOptionsSize(s: Server, t: MessageType)
    ensures |OptionsBytes(ReplyOptions(s, t)) + [Code(End)]| == 34
  {
    var os := ReplyOptions(s, t);
    OptionsSize(os);
    hide OptionsBytes, Canonical, Code, MessageCode;
    assert TotalLen(os[6..]) == 0;
    assert os[5..][1..] == os[6..] && TotalLen(os[5..]) == 6;
    assert os[4..][1..] == os[5..] && TotalLen(os[4..]) == 12;
    assert os[3..][1..] == os[4..] && TotalLen(os[3..]) == 18;
    assert os[2..][1..] == os[3..] && TotalLen(os[2..]) == 24;
    assert os[1..][1..] == os[2..] && TotalLen(os[1..]) == 30;
  }

  /** A message that asks for no lease changes nothing and gets no reply; the others depend on the lease alone. */
  lemma RecvCases(s: Server, buf: seq<byte>)
    ensures !Readable(buf) ==> Recv(s, buf).Panic?
    ensures Readable(buf) && !AsksForLease(buf) ==> Recv(s, buf) == Done(Answer(s, None))
    ensures AsksForLease(buf) ==>
              var l := CreateLease(s, ClientOf(buf));
              && (Recv(s, buf).Panic? <==> l.Panic?)
              && (l.Done? ==>
                    && Recv(s, buf).value.server == l.value.server
                    && Recv(s, buf).value.reply.Some?
                    && CreateReply(s, Parse(buf).value, if KindOf(buf).Discover? then Offer else Ack).Done?
                    && Recv(s, buf).value.reply.value
                       == Serialise(CreateReply(s, Parse(buf).value,
                                                if KindOf(buf).Discover? then Offer else Ack).value.msg))
  {
    ReplyOptionsSize(s, Offer);
    ReplyOptionsSize(s, Ack);
    hide CreateLease, OptionsBytes, ReplyOptions, Serialise, DecodeOption;
    if AsksForLease(buf) {
      assert Parse(buf).value.chaddr[0..6] == buf[28..34];
    }
  }

  /** The option area of a reply, byte by byte. */
  function ReplyArea(subnet: Ipv4, serverip: Ipv4, code: byte): (r: seq<byte>)
    ensures |r| == OPTIONS_LEN
  {
    [53, 1, code]
    + ([1, 4] + subnet
       + ([3, 4] + serverip
          + ([54, 4] + serverip
             + ([51, 4, 0x80, 0x51, 0x01, 0x00]
                + ([6, 4] + serverip
                   + ([255] + Zeros(34)))))))
  }

  /** The message type of the reply: an Offer to a Discover, an Ack to a Request. */
  function ReplyType(buf: seq<byte>): MessageType
    requires Readable(buf)
  {
    if KindOf(buf).Discover? then Offer else Ack
  }

  /** `r` is `buf` with op, secs, flags, yiaddr and options replaced: a boot reply, zero, zero, `ip` and `area`. */
  predicate IsReply(buf: seq<byte>, r: seq<byte>, ip: Ipv4, area: OptionArea)
  {
    && |buf| >= OPTIONSTART && |r| == MSG_LEN
    && r[0] == BOOT_REPLY && r[1..8] == buf[1..8] && r[8..12] == [0, 0, 0, 0] && r[12..16] == buf[12..16]
    && r[16..20] == ip && r[20..240] == buf[20..240] && r[240..] == area
  }

  lemma ClientField(buf: seq<byte>)
    requires Readable(buf)
    ensures |buf| >= OPTIONSTART && Parse(buf).Done? && Parse(buf).value.chaddr[0..6] == ClientOf(buf)
  {
    hide DecodeOption;
    assert buf[28..44][0..6] == buf[28..34];
  }

  lemma FittedKeeps(buf: seq<byte>)
    requires |buf| >= OPTIONSTART
    ensures Fitted(buf)[1..8] == buf[1..8] && Fitted(buf)[12..16] == buf[12..16] && Fitted(buf)[20..240] == buf[20..240]
  {}

  /** Messages that agree except in those five fields are written the same except at those bytes. */
  lemma SameElsewhere(a: DhcpMsg, b: DhcpMsg)
    requires b == a.(op := b.op, secs := 0, flags := 0, yiaddr := b.yiaddr, options := b.options)
    ensures var x, y := Serialise(a), Serialise(b);
            && y[0] == b.op && y[1..8] == x[1..8] && y[8..12] == [0, 0, 0, 0] && y[12..16] == x[12..16]
            && y[16..20] == b.yiaddr && y[20..240] == x[20..240] && y[240..] == b.options
  {
    SerialisedFields(a);
    SerialisedFields(b);
    HeadFields(a);
    HeadFields(b);
    hide Serialise, HeadBytes;
    var x, y, g, h := Serialise(a), Serialise(b), HeadBytes(a), HeadBytes(b);
    assert x[..28] == g && y[..28] == h;
    assert g[1..8] == [a.htype, a.hlen, a.hops] + g[4..8] && h[1..8] == [a.htype, a.hlen, a.hops] + h[4..8];
    assert x[1..8] == g[1..8] && y[1..8] == h[1..8] && x[12..16] == g[12..16] && y[12..16] == h[12..16];
    assert h[8..12] == h[8..10] + h[10..12] && y[8..12] == h[8..12] && y[16..20] == h[16..20];
    assert g[20..28] == g[20..24] + g[24..28] && h[20..28] == h[20..24] + h[24..28];
    assert x[20..28] == g[20..28] && y[20..28] == h[20..28];
    assert x[20..240] == x[20..28] + x[28..44] + x[44..108] + x[108..236] + x[236..240];
    assert y[20..240] == y[20..28] + y[28..44] + y[44..108] + y[108..236] + y[236..240];
  }

  lemma WrittenChangesOnly(buf: seq<byte>, m: DhcpMsg)
    requires Parse(buf).Done? && |buf| >= OPTIONSTART
    requires m == Parse(buf).value.(op := BOOT_REPLY, secs := 0, flags := 0, yiaddr := m.yiaddr, options := m.options)
    ensures IsReply(buf, Serialise(m), m.yiaddr, m.options)
  {
    hide Parse, Serialise, Fitted;
    SameElsewhere(Parse(buf).value, m);
    LayoutRoundTrip(buf);
    FittedKeeps(buf);
  }

  lemma OptionsBytesTail(os: seq<OptionMsg>, i: nat, rest: seq<byte>)
    requires i < |os| && forall o :: o in os ==> o.len <= 4
    ensures os[i].len <= 4
    ensures forall o :: o in os[i..] ==> o.len <= 4
    ensures forall o :: o in os[i + 1..] ==> o.len <= 4
    ensures OptionsBytes(os[i..]) + rest == OptionBytes(os[i]) + (OptionsBytes(os[i + 1..]) + rest)
  {
    assert os[i..][1..] == os[i + 1..] && os[i] in os;
    hide OptionBytes;
  }

  lemma OptionParts(s: Server, t: MessageType)
    ensures var os := ReplyOptions(s, t);
            && OptionBytes(os[0]) == [53, 1, MessageCode(t)]
            && OptionBytes(os[1]) == [1, 4] + s.subnet
            && OptionBytes(os[2]) == [3, 4] + s.serverip
            && OptionBytes(os[3]) == [54, 4] + s.serverip
            && OptionBytes(os[4]) == [51, 4, 0x80, 0x51, 0x01, 0x00]
            && OptionBytes(os[5]) == [6, 4] + s.serverip
  {}

  lemma ReplyIsArea(s: Server, t: MessageType)
    ensures OptionsBytes(ReplyOptions(s, t)) + ([255] + Zeros(34)) == ReplyArea(s.subnet, s.serverip, MessageCode(t))
  {
    var os, rest := ReplyOptions(s, t), [255] + Zeros(34);
    OptionParts(s, t);
    assert os[0..] == os && OptionsBytes(os[6..]) + rest == rest;
    hide OptionsBytes, OptionBytes, ReplyOptions, MessageCode;
    OptionsBytesTail(os, 0, rest);
    OptionsBytesTail(os, 1, rest);
    OptionsBytesTail(os, 2, rest);
    OptionsBytesTail(os, 3, rest);
    OptionsBytesTail(os, 4, rest);
    OptionsBytesTail(os, 5, rest);
  }

  lemma ReplyParts(s: Server, a: DhcpMsg, t: MessageType)
    requires CreateReply(s, a, t).Done?
    ensures CreateLease(s, a.chaddr[0..6]).Done?
    ensures var m := CreateReply(s, a, t).value.msg;
            && m == a.(op := BOOT_REPLY, secs := 0, flags := 0,
                       yiaddr := CreateLease(s, a.chaddr[0..6]).value.ip, options := m.options)
            && m.options == OptionsBytes(ReplyOptions(s, t)) + ([255] + Zeros(34))
  {
    ReplyOptionsSize(s, t);
    hide OptionsBytes, ReplyOptions, CreateLease;
    var x: seq<byte> := OptionsBytes(ReplyOptions(s, t));
    assert x + [255] + Zeros(34) == x + ([255] + Zeros(34));
  }

  lemma ReplyFields(s: Server, a: DhcpMsg, t: MessageType)
    requires CreateReply(s, a, t).Done?
    ensures CreateLease(s, a.chaddr[0..6]).Done?
    ensures var m := CreateReply(s, a, t).value.msg;
            && m == a.(op := BOOT_REPLY, secs := 0, flags := 0,
                       yiaddr := CreateLease(s, a.chaddr[0..6]).value.ip, options := m.options)
            && DecodeMany(m.options, 6) == Done((ReplyOptions(s, t), [255] + Zeros(34)))
            && m.options == ReplyArea(s.subnet, s.serverip, MessageCode(t))
  {
    hide OptionsBytes, ReplyArea, DecodeMany, CreateLease, CreateReply, Canonical, MessageCode;
    ReplyParts(s, a, t);
    ReplyIsArea(s, t);
    OptionsRoundTrip(ReplyOptions(s, t), [255] + Zeros(34));
  }

  /** The reply to a request differs from it only in op, secs, flags, yiaddr and options, and these are: a boot
      reply, zero, zero, the lease, and the six options -- the message type first -- followed by the end marker and
      zeros, which the decoder reads back. */
  lemma ReplyChangesOnly(s: Server, buf: seq<byte>)
    requires AsksForLease(buf) && Recv(s, buf).Done?
    ensures Recv(s, buf).value.reply.Some? && CreateLease(s, ClientOf(buf)).Done?
    ensures var t := ReplyType(buf);
            var area := ReplyArea(s.subnet, s.serverip, MessageCode(t));
            && IsReply(buf, Recv(s, buf).value.reply.value, CreateLease(s, ClientOf(buf)).value.ip, area)
            && DecodeMany(area, 6) == Done((ReplyOptions(s, t), [255] + Zeros(34)))
  {
    ClientField(buf);
    hide Recv, Parse, Readable, CreateLease, ReplyOptions, ReplyArea, DecodeMany, KindOf, ClientOf, CreateReply,
         Serialise, IsReply, MessageCode;
    RecvCases(s, buf);
    var t := ReplyType(buf);
    ReplyFields(s, Parse(buf).value, t);
    WrittenChangesOnly(buf, CreateReply(s, Parse(buf).value, t).value.msg);
  }

  /** The lease time is sent little-endian; in network order the client reads another number. */
  lemma LeaseTimeByteOrder(s: Server)
    ensures ReplyOptions(s, Offer)[4].data == [0x80, 0x51, 0x01, 0x00]
    ensures U32At(ReplyOptions(s, Offer)[4].data, 0) == LEASE_SECONDS
    ensures var d := ReplyOptions(s, Offer)[4].data; U32At([d[3], d[2], d[1], d[0]], 0) == 0x8051_0100 != LEASE_SECONDS
  {}
}
