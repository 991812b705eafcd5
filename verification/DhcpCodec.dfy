/** The DHCP message layout and its options, as the server reads and writes them. */
module DhcpCodec {
  import opened Wire

  const CHADDR_LEN := 16
  const SNAME_LEN := 64
  const FILE_LEN := 128
  const OPTIONS_LEN := 68
  const OPTIONSTART := 240
  const MSG_LEN := 308

  type Ipv4 = b: seq<byte> | |b| == 4 witness Zeros(4)
  type Chaddr = b: seq<byte> | |b| == CHADDR_LEN witness Zeros(CHADDR_LEN)
  type Sname = b: seq<byte> | |b| == SNAME_LEN witness Zeros(SNAME_LEN)
  type BootFile = b: seq<byte> | |b| == FILE_LEN witness Zeros(FILE_LEN)
  type OptionArea = b: seq<byte> | |b| == OPTIONS_LEN witness Zeros(OPTIONS_LEN)

  /** DhcpMsg: section 2 of RFC 2131 with a fixed option area, no padding between fields. */
  datatype DhcpMsg = DhcpMsg(
    op: byte, htype: byte, hlen: byte, hops: byte,
    xid: u32, secs: u16, flags: u16,
    ciaddr: Ipv4, yiaddr: Ipv4, siaddr: Ipv4, giaddr: Ipv4,
    chaddr: Chaddr, sname: Sname, file: BootFile,
    cookie: u32, options: OptionArea)

  /** A message brought to the length of the structure: cut, or padded with zeros. */
  function Fitted(b: seq<byte>): (r: seq<byte>)
    ensures |r| == MSG_LEN
  {
    if |b| < MSG_LEN then b + Zeros(MSG_LEN - |b|) else b[..MSG_LEN]
  }

  /** `From<&[u8]> for DhcpMsg`. A message shorter than the fixed part panics. */
  function Parse(b: seq<byte>): Outcome<DhcpMsg>
  {
    if |b| < OPTIONSTART then Panic
    else
      var options := if |b| < MSG_LEN then b[OPTIONSTART..] + Zeros(MSG_LEN - |b|) else b[OPTIONSTART..MSG_LEN];
      Done(DhcpMsg(b[0], b[1], b[2], b[3], U32At(b, 4), U16At(b, 8), U16At(b, 10),
                   b[12..16], b[16..20], b[20..24], b[24..28],
                   b[28..44], b[44..108], b[108..236], U32At(b, 236), options))
  }

  /** The first 28 bytes. */
  function HeadBytes(m: DhcpMsg): (r: seq<byte>)
    ensures |r| == 28
  {
    [m.op, m.htype, m.hlen, m.hops] + Le32(m.xid) + Le16(m.secs) + Le16(m.flags)
    + m.ciaddr + m.yiaddr + m.siaddr + m.giaddr
  }

  /** `Into<Vec<u8>> for DhcpMsg`: the structure's memory on a little-endian machine. */
  function Serialise(m: DhcpMsg): (r: seq<byte>)
    ensures |r| == MSG_LEN
  {
    HeadBytes(m) + m.chaddr + m.sname + m.file + Le32(m.cookie) + m.options
  }

  lemma HeadOfParsed(b: seq<byte>)
    requires Parse(b).Done?
    ensures HeadBytes(Parse(b).value) == b[..28]
  {
    Le32OfAt(b, 4);
    Le16OfAt(b, 8);
    Le16OfAt(b, 10);
    hide U16At, U32At, Le16, Le32;
    assert b[0..4] == [b[0], b[1], b[2], b[3]];
    assert b[12..28] == b[12..16] + b[16..20] + b[20..24] + b[24..28];
    assert b[..12] == b[0..4] + b[4..8] + b[8..10] + b[10..12];
    assert b[..28] == b[..12] + b[12..28];
  }

  /** Reading a message and writing it back gives its first 308 bytes, zero-padded if it was shorter. */
  lemma LayoutRoundTrip(b: seq<byte>)
    requires Parse(b).Done?
    ensures Serialise(Parse(b).value) == Fitted(b)
  {
    HeadOfParsed(b);
    Le32OfAt(b, 236);
    var m := Parse(b).value;
    hide HeadBytes, U16At, U32At, Le16, Le32;
    assert Fitted(b)[..OPTIONSTART] == b[..OPTIONSTART];
    assert Fitted(b)[OPTIONSTART..] == m.options;
    assert b[..OPTIONSTART] == b[..28] + b[28..44] + b[44..108] + b[108..236] + b[236..240];
    assert Fitted(b) == Fitted(b)[..OPTIONSTART] + Fitted(b)[OPTIONSTART..];
  }

  lemma HeadFields(m: DhcpMsg)
    ensures var h := HeadBytes(m);
            && h[0] == m.op && h[1] == m.htype && h[2] == m.hlen && h[3] == m.hops
            && h[4..8] == Le32(m.xid) && h[8..10] == Le16(m.secs) && h[10..12] == Le16(m.flags)
            && h[12..16] == m.ciaddr && h[16..20] == m.yiaddr && h[20..24] == m.siaddr && h[24..28] == m.giaddr
  {
    hide Le16, Le32;
  }

  lemma SerialisedFields(m: DhcpMsg)
    ensures var b := Serialise(m);
            && b[..28] == HeadBytes(m) && b[28..44] == m.chaddr && b[44..108] == m.sname && b[108..236] == m.file
            && b[236..240] == Le32(m.cookie) && b[240..308] == m.options
  {
    hide Le32, HeadBytes;
  }

  /** The other direction: a written message reads back as itself. */
  lemma MessageRoundTrip(m: DhcpMsg)
    ensures Parse(Serialise(m)) == Done(m)
  {
    HeadFields(m);
    SerialisedFields(m);
    hide Serialise, HeadBytes, Le16, Le32, U16At, U32At;
    var b, h := Serialise(m), HeadBytes(m);
    assert forall i :: 0 <= i < 28 ==> b[i] == h[i] by { assert b[..28] == h; }
    assert b[4..8] == h[4..8] && b[8..10] == h[8..10] && b[10..12] == h[10..12] && b[12..16] == h[12..16];
    assert b[16..20] == h[16..20] && b[20..24] == h[20..24] && b[24..28] == h[24..28];
    Le32At(b, 4, m.xid);
    Le16At(b, 8, m.secs);
    Le16At(b, 10, m.flags);
    Le32At(b, 236, m.cookie);
  }

  // ----- options

  datatype OptionType =
    | Pad | Subnetmask | Router | Dnsserver | Hostname | Ipttl | Mtu | Broadcast | Tcpttl | Ntp
    | Requestedip | Leasetime | Overload | MsgType | ServerId | End

  /** `IntoPrimitive`. */
  function Code(t: OptionType): byte
  {
    match t
    case Pad => 0
    case Subnetmask => 1
    case Router => 3
    case Dnsserver => 6
    case Hostname => 12
    case Ipttl => 23
    case Mtu => 26
    case Broadcast => 28
    case Tcpttl => 37
    case Ntp => 42
    case Requestedip => 50
    case Leasetime => 51
    case Overload => 52
    case MsgType => 53
    case ServerId => 54
    case End => 255
  }

  /** `try_from_primitive`. */
  function TypeOf(c: byte): Option<OptionType>
  {
    if c == 0 then Some(Pad)
    else if c == 1 then Some(Subnetmask)
    else if c == 3 then Some(Router)
    else if c == 6 then Some(Dnsserver)
    else if c == 12 then Some(Hostname)
    else if c == 23 then Some(Ipttl)
    else if c == 26 then Some(Mtu)
    else if c == 28 then Some(Broadcast)
    else if c == 37 then Some(Tcpttl)
    else if c == 42 then Some(Ntp)
    else if c == 50 then Some(Requestedip)
    else if c == 51 then Some(Leasetime)
    else if c == 52 then Some(Overload)
    else if c == 53 then Some(MsgType)
    else if c == 54 then Some(ServerId)
    else if c == 255 then Some(End)
    else None
  }

  lemma TypeOfCode(t: OptionType)
    ensures TypeOf(Code(t)) == Some(t)
  {}

  /** OptionU32Msg. */
  datatype OptionMsg = OptionMsg(type_: OptionType, len: byte, data: Ipv4)

  /** An option the encoder can write and the decoder can give back: data beyond `len` is zero. */
  predicate Canonical(o: OptionMsg)
  {
    o.len <= 4 && forall i :: o.len <= i < 4 ==> o.data[i] == 0
  }

  function OptionBytes(o: OptionMsg): (r: seq<byte>)
    requires o.len <= 4
    ensures |r| == 2 + o.len
  {
    [Code(o.type_), o.len] + o.data[..o.len]
  }

  function OptionsBytes(os: seq<OptionMsg>): seq<byte>
    requires forall o :: o in os ==> o.len <= 4
  {
    if os == [] then [] else OptionBytes(os[0]) + OptionsBytes(os[1..])
  }

  lemma {:induction false} OptionsBytesSnoc(os: seq<OptionMsg>, o: OptionMsg)
    requires o.len <= 4 && forall p :: p in os ==> p.len <= 4
    ensures OptionsBytes(os + [o]) == OptionsBytes(os) + OptionBytes(o)
  {
    hide OptionBytes;
    if os == [] {
      assert os + [o] == [o] && [o][1..] == [];
    } else {
      var rest := os[1..] + [o];
      assert (os + [o])[1..] == rest;
      OptionsBytesSnoc(os[1..], o);
      calc {
        OptionsBytes(os + [o]);
        OptionBytes(os[0]) + OptionsBytes(rest);
        OptionBytes(os[0]) + (OptionsBytes(os[1..]) + OptionBytes(o));
        OptionsBytes(os) + OptionBytes(o);
      }
    }
  }

  /** `ToBytes for Vec<OptionU32Msg>`: each option's first `2 + len` bytes. */
  method ConvOptionsToBytes(os: seq<OptionMsg>) returns (out: seq<byte>)
    requires forall o :: o in os ==> o.len <= 4
    ensures out == OptionsBytes(os)
  {
    out := [];
    for i := 0 to |os|
      invariant out == OptionsBytes(os[..i])
    {
      var buf: seq<byte> := [Code(os[i].type_), os[i].len] + os[i].data;
      assert buf[..2 + os[i].len] == OptionBytes(os[i]);
      OptionsBytesSnoc(os[..i], os[i]);
      assert os[..i + 1] == os[..i] + [os[i]];
      out := out + buf[..2 + os[i].len];
    }
    assert os[..|os|] == os;
  }

  /** `From<&[u8]> for OptionU32Msg`. */
  function DecodeOption(b: seq<byte>): Outcome<OptionMsg>
  {
    if |b| < 1 || TypeOf(b[0]).None? then Panic
    else if |b| < 2 then Panic
    else
      var len := b[1];
      if len > 4 || 2 + len > |b| then Panic
      else Done(OptionMsg(TypeOf(b[0]).value, len, b[2..2 + len] + Zeros(4 - len)))
  }

  /** `n` options read one after the other, and what follows them. */
  function DecodeMany(b: seq<byte>, n: nat): Outcome<(seq<OptionMsg>, seq<byte>)>
  {
    if n == 0 then Done(([], b))
    else
      var o :- DecodeOption(b);
      assert 2 + o.len <= |b|;
      var (os, rest) :- DecodeMany(b[2 + o.len..], n - 1);
      Done(([o] + os, rest))
  }

  lemma OptionRoundTrip(o: OptionMsg, rest: seq<byte>)
    requires Canonical(o)
    ensures DecodeOption(OptionBytes(o) + rest) == Done(o)
    ensures (OptionBytes(o) + rest)[2 + o.len..] == rest
  {
    TypeOfCode(o.type_);
    hide Code, TypeOf;
    var b := OptionBytes(o) + rest;
    assert b[2..2 + o.len] == o.data[..o.len];
    assert o.data[..o.len] + Zeros(4 - o.len) == o.data;
  }

  lemma OptionsBytesCons(os: seq<OptionMsg>, rest: seq<byte>)
    requires os != [] && forall o :: o in os ==> o.len <= 4
    ensures os[0].len <= 4 && forall o :: o in os[1..] ==> o.len <= 4
    ensures OptionsBytes(os) + rest == OptionBytes(os[0]) + (OptionsBytes(os[1..]) + rest)
  {
    hide OptionBytes;
  }

  lemma DecodeManyCons(b: seq<byte>, n: nat, o: OptionMsg, os: seq<OptionMsg>, rest: seq<byte>)
    requires n > 0 && DecodeOption(b) == Done(o) && 2 + o.len <= |b|
    requires DecodeMany(b[2 + o.len..], n - 1) == Done((os, rest))
    ensures DecodeMany(b, n) == Done(([o] + os, rest))
  {
    hide DecodeOption;
  }

  /** Any list of options, wherever it lies, is recovered by reading it back one option at a time. */
  lemma {:induction false} OptionsRoundTrip(os: seq<OptionMsg>, rest: seq<byte>)
    requires forall o :: o in os ==> o.len <= 4 && Canonical(o)
    ensures DecodeMany(OptionsBytes(os) + rest, |os|) == Done((os, rest))
  {
    if os == [] {
      assert OptionsBytes(os) + rest == rest;
    } else {
      var o, tail := os[0], os[1..];
      assert o in os && forall p :: p in tail ==> p in os;
      hide DecodeMany, DecodeOption, OptionBytes, OptionsBytes, Canonical;
      OptionRoundTrip(o, OptionsBytes(tail) + rest);
      OptionsRoundTrip(tail, rest);
      OptionsBytesCons(os, rest);
      DecodeManyCons(OptionBytes(o) + (OptionsBytes(tail) + rest), |os|, o, tail, rest);
      assert os == [o] + tail;
    }
  }

  function TotalLen(os: seq<OptionMsg>): nat
  {
    if os == [] then 0 else 2 + os[0].len + TotalLen(os[1..])
  }

  lemma {:induction false} OptionsSize(os: seq<OptionMsg>)
    requires forall o :: o in os ==> o.len <= 4
    ensures |OptionsBytes(os)| == TotalLen(os)
  {
    if os != [] {
      assert os[0] in os && forall p :: p in os[1..] ==> p in os;
      OptionsSize(os[1..]);
    }
  }
}
