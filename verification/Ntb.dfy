/** The 16-bit NCM transfer block: header, datagram pointer table, and what makes a block well formed. */
module Ntb {
  import opened Wire

  const NTH16_SIGNATURE: u32 := 0x484D_434E // "NCMH", read little-endian
  const NDP16_SIGNATURE: u32 := 0x304D_434E // "NCM0", read little-endian
  const NTH16_SIZE := 12
  const TOTAL_HEADER_SIZE := 28
  const NCM_MAX_SIZE := 2048

  /** NCMTransferHeader. */
  datatype Nth16 = Nth16(signature: u32, headerlen: u16, sequence: u16, blocklen: u16, ndpindex: u16)

  /** NCMDatagram16. */
  datatype Datagram = Datagram(index: u16, length: u16)

  /** NCMDatagramPointerTable. */
  datatype Ndp16 = Ndp16(signature: u32, length: u16, nextndpindex: u16, datagrams: seq<Datagram>)

  const DEFAULT_NTH16 := Nth16(NTH16_SIGNATURE, 12, 0, 0, 12)
  const DEFAULT_NDP16 := Ndp16(NDP16_SIGNATURE, 16, 0, [])

  /** The outcome of the two parsers: a value, the `InvalidSignature` error, or a panic. */
  datatype Parsed<+T> = Parsed(value: T) | InvalidSignature | ParsePanic

  // ----- serialising

  function NthBytes(h: Nth16): (bytes: seq<byte>)
    ensures |bytes| == NTH16_SIZE
  {
    Le32(h.signature) + Le16(h.headerlen) + Le16(h.sequence) + Le16(h.blocklen) + Le16(h.ndpindex)
  }

  function EntryBytes(ds: seq<Datagram>): (bytes: seq<byte>)
    ensures |bytes| == 4 * |ds|
  {
    if ds == [] then []
    else EntryBytes(ds[..|ds| - 1]) + Le16(ds[|ds| - 1].index) + Le16(ds[|ds| - 1].length)
  }

  function NdpBytes(t: Ndp16): (bytes: seq<byte>)
    ensures |bytes| == 8 + 4 * |t.datagrams|
  {
    Le32(t.signature) + Le16(t.length) + Le16(t.nextndpindex) + EntryBytes(t.datagrams)
  }

  method ConvNthToBytes(h: Nth16) returns (bytes: seq<byte>)
    ensures bytes == NthBytes(h)
  {
    bytes := [];
    bytes := bytes + Le32(h.signature);
    bytes := bytes + Le16(h.headerlen);
    bytes := bytes + Le16(h.sequence);
    bytes := bytes + Le16(h.blocklen);
    bytes := bytes + Le16(h.ndpindex);
  }

  method ConvNdpToBytes(t: Ndp16) returns (bytes: seq<byte>)
    ensures bytes == NdpBytes(t)
  {
    bytes := [];
    bytes := bytes + Le32(t.signature);
    bytes := bytes + Le16(t.length);
    bytes := bytes + Le16(t.nextndpindex);
    ghost var head := bytes;
    for i := 0 to |t.datagrams|
      invariant bytes == head + EntryBytes(t.datagrams[..i])
    {
      assert t.datagrams[..i + 1][..i] == t.datagrams[..i];
      bytes := bytes + Le16(t.datagrams[i].index);
      bytes := bytes + Le16(t.datagrams[i].length);
    }
    assert t.datagrams[..|t.datagrams|] == t.datagrams;
  }

  // ----- parsing

  /** `TryInto<NCMTransferHeader>`: the signature is tested before the rest of the slice is touched. */
  function ParseNth16(b: seq<byte>): Parsed<Nth16>
  {
    if |b| < 4 then ParsePanic
    else if U32At(b, 0) != NTH16_SIGNATURE then InvalidSignature
    else if |b| < NTH16_SIZE then ParsePanic
    else Parsed(Nth16(U32At(b, 0), U16At(b, 4), U16At(b, 6), U16At(b, 8), U16At(b, 10)))
  }

  /** The first `n` 4-byte chunks of a slice, each read as an entry. */
  function Entries(b: seq<byte>, n: nat): (ds: seq<Datagram>)
    requires 4 * n <= |b|
    ensures |ds| == n
    ensures forall i :: 0 <= i < n ==> ds[i] == Datagram(U16At(b, 4 * i), U16At(b, 4 * i + 2))
  {
    seq(n, i requires 0 <= i < n => Datagram(U16At(b, 4 * i), U16At(b, 4 * i + 2)))
  }

  /** `filter(|x| x.length != 0)`. */
  function NonEmpty(ds: seq<Datagram>): seq<Datagram>
  {
    if ds == [] then []
    else if ds[0].length != 0 then [ds[0]] + NonEmpty(ds[1..])
    else NonEmpty(ds[1..])
  }

  /** `TryInto<NCMDatagramPointerTable>`: a length below 8, past the slice, or leaving a partial entry panics. */
  function ParseNdp16(b: seq<byte>): Parsed<Ndp16>
  {
    if |b| < 4 then ParsePanic
    else if U32At(b, 0) != NDP16_SIGNATURE then InvalidSignature
    else if |b| < 8 then ParsePanic
    else
      var length := U16At(b, 4);
      if length < 8 || length > |b| || (length - 8) % 4 != 0 then ParsePanic
      else Parsed(Ndp16(U32At(b, 0), length, U16At(b, 6), NonEmpty(Entries(b[8..], (length - 8) / 4))))
  }

  // ----- round trips

  lemma NthRoundTrip(h: Nth16, rest: seq<byte>)
    requires h.signature == NTH16_SIGNATURE
    ensures ParseNth16(NthBytes(h) + rest) == Parsed(h)
  {
    var b := NthBytes(h) + rest;
    assert b[0..4] == Le32(h.signature) && b[4..6] == Le16(h.headerlen) && b[6..8] == Le16(h.sequence);
    assert b[8..10] == Le16(h.blocklen) && b[10..12] == Le16(h.ndpindex);
    Le32At(b, 0, h.signature);
    Le16At(b, 4, h.headerlen);
    Le16At(b, 6, h.sequence);
    Le16At(b, 8, h.blocklen);
    Le16At(b, 10, h.ndpindex);
  }

  /** The other direction: what parses is, byte for byte, the serialisation of the result. */
  lemma NthParsesOnlyItself(b: seq<byte>)
    requires ParseNth16(b).Parsed?
    ensures NthBytes(ParseNth16(b).value) == b[..NTH16_SIZE]
    ensures ParseNth16(b).value.signature == NTH16_SIGNATURE
  {
    Le32OfAt(b, 0);
    Le16OfAt(b, 4);
    Le16OfAt(b, 6);
    Le16OfAt(b, 8);
    Le16OfAt(b, 10);
    assert b[..12] == b[0..4] + b[4..6] + b[6..8] + b[8..10] + b[10..12];
  }

  lemma {:induction false} EntryBytesAt(ds: seq<Datagram>, i: nat)
    requires i < |ds|
    ensures U16At(EntryBytes(ds), 4 * i) == ds[i].index
    ensures U16At(EntryBytes(ds), 4 * i + 2) == ds[i].length
  {
    var init, last := ds[..|ds| - 1], ds[|ds| - 1];
    var a, b := EntryBytes(init), EntryBytes(ds);
    assert b == a + Le16(last.index) + Le16(last.length);
    if i < |init| {
      EntryBytesAt(init, i);
    } else {
      Le16At(b, 4 * i, last.index);
      Le16At(b, 4 * i + 2, last.length);
    }
  }

  lemma EntriesRoundTrip(ds: seq<Datagram>, rest: seq<byte>)
    ensures Entries(EntryBytes(ds) + rest, |ds|) == ds
  {
    hide EntryBytes, U16At, Entries;
    var b := EntryBytes(ds);
    forall i | 0 <= i < |ds|
      ensures Entries(b + rest, |ds|)[i] == ds[i]
    {
      EntryBytesAt(ds, i);
      U16AtPrefix(b, rest, 4 * i);
      U16AtPrefix(b, rest, 4 * i + 2);
    }
  }

  lemma NdpLayout(t: Ndp16, rest: seq<byte>)
    ensures var b := NdpBytes(t) + rest;
            && b[0..4] == Le32(t.signature) && b[4..6] == Le16(t.length) && b[6..8] == Le16(t.nextndpindex)
            && b[8..] == EntryBytes(t.datagrams) + rest
  {
    hide EntryBytes, Le16, Le32;
    var head := Le32(t.signature) + Le16(t.length) + Le16(t.nextndpindex);
    assert NdpBytes(t) + rest == head + (EntryBytes(t.datagrams) + rest);
  }

  /** The fields and entries of a serialised table, read back. */
  lemma NdpFields(t: Ndp16, rest: seq<byte>)
    ensures var b := NdpBytes(t) + rest;
            && U32At(b, 0) == t.signature && U16At(b, 4) == t.length && U16At(b, 6) == t.nextndpindex
            && Entries(b[8..], |t.datagrams|) == t.datagrams
  {
    hide EntryBytes, Le16, Le32, NdpBytes, U16At, U32At, Entries;
    var b := NdpBytes(t) + rest;
    NdpLayout(t, rest);
    Le32At(b, 0, t.signature);
    Le16At(b, 4, t.length);
    Le16At(b, 6, t.nextndpindex);
    EntriesRoundTrip(t.datagrams, rest);
  }

  /** A serialised table of any size, wherever it lies, parses to its non-empty entries in order. */
  lemma NdpRoundTrip(t: Ndp16, rest: seq<byte>)
    requires t.signature == NDP16_SIGNATURE && t.length == 8 + 4 * |t.datagrams|
    ensures ParseNdp16(NdpBytes(t) + rest) == Parsed(t.(datagrams := NonEmpty(t.datagrams)))
  {
    hide EntryBytes, Le16, Le32, NdpBytes, U16At, U32At, Entries, NonEmpty;
    NdpFields(t, rest);
  }

  /** Filtering drops no non-empty entry and adds nothing. */
  lemma {:induction false} NonEmptyMembers(ds: seq<Datagram>, d: Datagram)
    ensures d in NonEmpty(ds) <==> d in ds && d.length != 0
  {
    if ds != [] {
      NonEmptyMembers(ds[1..], d);
      assert d in ds <==> d == ds[0] || d in ds[1..];
    }
  }

  /** Filtering works entry by entry, so order and multiplicity are kept. */
  lemma {:induction false} NonEmptyConcat(a: seq<Datagram>, b: seq<Datagram>)
    ensures NonEmpty(a + b) == NonEmpty(a) + NonEmpty(b)
  {
    if a == [] {
      assert a + b == b;
    } else {
      var keep := if a[0].length != 0 then [a[0]] else [];
      assert (a + b)[1..] == a[1..] + b;
      calc {
        NonEmpty(a + b);
        keep + NonEmpty(a[1..] + b);
        { NonEmptyConcat(a[1..], b); }
        keep + (NonEmpty(a[1..]) + NonEmpty(b));
        (keep + NonEmpty(a[1..])) + NonEmpty(b);
      }
    }
  }

  // ----- what the parsers take, byte by byte

  /** A 16-bit word, low byte first. */
  function Word(lo: byte, hi: byte): u16 { (lo as int) + 0x100 * (hi as int) }

  lemma SignatureBytes()
    ensures Le32(NTH16_SIGNATURE) == [0x4E, 0x43, 0x4D, 0x48] // "NCMH"
    ensures Le32(NDP16_SIGNATURE) == [0x4E, 0x43, 0x4D, 0x30] // "NCM0"
  {}

  lemma WordIs(b: seq<byte>, p: nat, w: u32)
    requires p + 4 <= |b|
    ensures U32At(b, p) == w <==> b[p..p + 4] == Le32(w)
  {
    hide Le32;
    Le32OfAt(b, p);
    if b[p..p + 4] == Le32(w) { Le32At(b, p, w); }
  }

  /** A header is taken exactly when 12 bytes are there and the first four are the letters NCMH. */
  lemma HeaderTakenExactly(b: seq<byte>)
    requires |b| >= 4
    ensures ParseNth16(b).InvalidSignature? <==> b[0..4] != [0x4E, 0x43, 0x4D, 0x48]
    ensures ParseNth16(b).Parsed? <==> |b| >= 12 && b[0..4] == [0x4E, 0x43, 0x4D, 0x48]
    ensures ParseNth16(b).Parsed? ==>
              var h := ParseNth16(b).value;
              && h.sequence == Word(b[6], b[7]) && h.blocklen == Word(b[8], b[9])
              && h.ndpindex == Word(b[10], b[11])
  {
    SignatureBytes();
    WordIs(b, 0, NTH16_SIGNATURE);
    hide U32At;
  }

  /** The `i`-th entry of a table that starts at the beginning of `b`. */
  function EntryOfBytes(b: seq<byte>, i: nat): Datagram
    requires 12 + 4 * i <= |b|
  {
    Datagram(Word(b[8 + 4 * i], b[9 + 4 * i]), Word(b[10 + 4 * i], b[11 + 4 * i]))
  }

  /** A table is taken exactly when the first four bytes are the letters NCM0 and its length, at byte 4, is a multiple
      of 4, at least 8, and within the slice; its entries follow byte 8. */
  lemma TableTakenExactly(b: seq<byte>)
    requires |b| >= 4
    ensures ParseNdp16(b).InvalidSignature? <==> b[0..4] != [0x4E, 0x43, 0x4D, 0x30]
    ensures ParseNdp16(b).Parsed? <==>
            && |b| >= 8 && b[0..4] == [0x4E, 0x43, 0x4D, 0x30]
            && var length := Word(b[4], b[5]); 8 <= length <= |b| && length % 4 == 0
    ensures ParseNdp16(b).Parsed? ==>
              var n := (Word(b[4], b[5]) - 8) / 4;
              && 8 + 4 * n <= |b| && ParseNdp16(b).value.nextndpindex == Word(b[6], b[7])
              && ParseNdp16(b).value.datagrams
                 == NonEmpty(seq(n, i requires 0 <= i < n => EntryOfBytes(b, i)))
  {
    SignatureBytes();
    WordIs(b, 0, NDP16_SIGNATURE);
    hide U32At, NonEmpty;
    if ParseNdp16(b).Parsed? {
      var n := (Word(b[4], b[5]) - 8) / 4;
      assert Entries(b[8..], n) == seq(n, i requires 0 <= i < n => EntryOfBytes(b, i));
    }
  }

  // ----- blocks the receiver can read, stated on raw bytes

  /** A block by its header: it fits the receive buffer and announces its own length. */
  predicate IsBlock(b: seq<byte>)
  {
    && NTH16_SIZE <= |b| <= NCM_MAX_SIZE
    && U32At(b, 0) == NTH16_SIGNATURE
    && U16At(b, 8) == |b|
  }

  lemma BlockFits(b: seq<byte>)
    requires IsBlock(b)
    ensures NTH16_SIZE <= |b| <= NCM_MAX_SIZE
  {}

  /** There is a readable table at `p`. */
  predicate TableAt(b: seq<byte>, p: nat)
  {
    && p + 8 <= |b|
    && U32At(b, p) == NDP16_SIGNATURE
    && 8 <= U16At(b, p + 4)
    && U16At(b, p + 4) % 4 == 0
    && p + U16At(b, p + 4) <= |b|
  }

  /** All entries of the table at `p`, null ones included. */
  function EntriesAt(b: seq<byte>, p: nat): seq<Datagram>
    requires TableAt(b, p)
  {
    Entries(b[p + 8..], (U16At(b, p + 4) - 8) / 4)
  }

  /** A table laid down at `p` is read back there. */
  lemma TableReads(a: seq<byte>, t: Ndp16, rest: seq<byte>)
    requires t.signature == NDP16_SIGNATURE && t.length == 8 + 4 * |t.datagrams|
    ensures var b, p := a + NdpBytes(t) + rest, |a|;
            TableAt(b, p) && EntriesAt(b, p) == t.datagrams && U16At(b, p + 6) == t.nextndpindex
  {
    hide EntryBytes, Le16, Le32, NdpBytes, U16At, Entries;
    var x := NdpBytes(t) + rest;
    var b, p := a + NdpBytes(t) + rest, |a|;
    Suffix(a, NdpBytes(t), rest);
    NdpFields(t, rest);
    U16AtDrop(b, p, 0);
    U16AtDrop(b, p, 2);
    U16AtDrop(b, p, 4);
    U16AtDrop(b, p, 6);
    assert b[p + 8..] == x[8..];
  }

  /** The table the block's header points at. */
  predicate HasTable(b: seq<byte>)
    requires IsBlock(b)
  {
    TableAt(b, U16At(b, 10))
  }

  function TableEntries(b: seq<byte>): seq<Datagram>
    requires IsBlock(b) && HasTable(b)
  {
    EntriesAt(b, U16At(b, 10))
  }

  /** The entry lies inside the block. */
  predicate Inside(b: seq<byte>, d: Datagram)
  {
    d.index + d.length <= |b|
  }

  /** ... and inside the receiver's frame buffer. */
  predicate EntryFits(b: seq<byte>, d: Datagram)
  {
    d.length <= MTU && Inside(b, d)
  }

  /** Every entry of non-zero length fits a frame and the buffer. */
  predicate AllFit(b: seq<byte>, ds: seq<Datagram>)
  {
    forall d :: d in ds && d.length != 0 ==> EntryFits(b, d)
  }

  /** A block whose table the receiver reads without panicking. */
  predicate IsHostBlock(b: seq<byte>)
  {
    IsBlock(b) && HasTable(b) && AllFit(b, TableEntries(b))
  }

  /** The datagrams a list of entries points at. */
  function Slices(b: seq<byte>, ds: seq<Datagram>): (fs: seq<seq<byte>>)
    requires forall d :: d in ds ==> Inside(b, d)
    ensures |fs| == |ds|
  {
    seq(|ds|, i requires 0 <= i < |ds| && Inside(b, ds[i]) => b[ds[i].index..ds[i].index + ds[i].length])
  }

  lemma NonEmptyFit(b: seq<byte>, ds: seq<Datagram>)
    requires AllFit(b, ds)
    ensures forall d :: d in NonEmpty(ds) ==> d.length != 0 && EntryFits(b, d) && Inside(b, d)
  {
    forall d | d in NonEmpty(ds)
      ensures d.length != 0 && EntryFits(b, d) && Inside(b, d)
    {
      NonEmptyMembers(ds, d);
    }
  }

  /** The frames the receiver takes from a block: those of all entries of non-zero length in its first table. */
  function BlockFrames(b: seq<byte>): seq<seq<byte>>
    requires IsHostBlock(b)
  {
    NonEmptyFit(b, TableEntries(b));
    Slices(b, NonEmpty(TableEntries(b)))
  }

  // ----- blocks as the receiver finds them, laid over what its buffer held before

  /** The buffer holds a readable table where the block's header points, and all its entries fit. */
  predicate ReadableOver(before: seq<byte>, b: seq<byte>)
    requires IsBlock(b) && |before| == NCM_MAX_SIZE
  {
    var buf, p := Overwrite(before, 0, b), U16At(b, 10);
    TableAt(buf, p) && AllFit(buf, EntriesAt(buf, p))
  }

  /** The frames it takes then. */
  function FramesOver(before: seq<byte>, b: seq<byte>): seq<seq<byte>>
    requires IsBlock(b) && |before| == NCM_MAX_SIZE && ReadableOver(before, b)
  {
    var buf := Overwrite(before, 0, b);
    var ds := EntriesAt(buf, U16At(b, 10));
    NonEmptyFit(buf, ds);
    Slices(buf, NonEmpty(ds))
  }

  /** An entry the receiver halts on: the frame is longer than its frame buffer, or ends past its block buffer. */
  predicate Overflows(d: Datagram)
  {
    d.length != 0 && (d.length > 576 || d.index + d.length > 2048)
  }

  /** The block has such an entry. */
  predicate Halts(b: seq<byte>)
    requires IsBlock(b) && HasTable(b)
  {
    exists d :: d in TableEntries(b) && Overflows(d)
  }

  lemma EntriesPrefix(y: seq<byte>, rest: seq<byte>, n: nat)
    requires 4 * n <= |y|
    ensures Entries(y + rest, n) == Entries(y, n)
  {
    hide U16At;
    forall i | 0 <= i < n
      ensures Entries(y + rest, n)[i] == Entries(y, n)[i]
    {
      U16AtPrefix(y, rest, 4 * i);
      U16AtPrefix(y, rest, 4 * i + 2);
    }
  }

  /** A table is read the same whatever follows it. */
  lemma TablePrefix(b: seq<byte>, rest: seq<byte>, p: nat)
    requires TableAt(b, p)
    ensures TableAt(b + rest, p) && EntriesAt(b + rest, p) == EntriesAt(b, p)
  {
    hide U16At, Entries;
    U16AtPrefix(b, rest, p);
    U16AtPrefix(b, rest, p + 2);
    U16AtPrefix(b, rest, p + 4);
    DropOfConcat(b, rest, p + 8);
    EntriesPrefix(b[p + 8..], rest, (U16At(b, p + 4) - 8) / 4);
  }

  lemma TableOver(before: seq<byte>, b: seq<byte>)
    requires IsBlock(b) && HasTable(b) && |before| == NCM_MAX_SIZE
    ensures var buf, p := Overwrite(before, 0, b), U16At(b, 10);
            TableAt(buf, p) && EntriesAt(buf, p) == TableEntries(b)
  {
    hide IsBlock, TableAt, EntriesAt, U16At;
    BlockFits(b);
    assert Overwrite(before, 0, b) == b + before[|b|..];
    TablePrefix(b, before[|b|..], U16At(b, 10));
  }

  /** A block with a table of its own is readable exactly if it has no such entry, whatever the buffer held before. */
  lemma HaltsExactly(before: seq<byte>, b: seq<byte>)
    requires IsBlock(b) && HasTable(b) && |before| == NCM_MAX_SIZE
    ensures ReadableOver(before, b) <==> !Halts(b)
  {
    TableOver(before, b);
    hide HasTable, TableEntries, TableAt, EntriesAt, Overwrite;
    var buf := Overwrite(before, 0, b);
    assert forall d :: d in TableEntries(b) && d.length != 0 ==> (EntryFits(buf, d) <==> !Overflows(d));
  }

  lemma SliceOver(before: seq<byte>, b: seq<byte>, i: nat, j: nat)
    requires i <= j <= |b| <= |before|
    ensures Overwrite(before, 0, b)[i..j] == b[i..j]
  {}

  /** Slices inside a block are the same in the buffer. */
  lemma SlicesOver(before: seq<byte>, b: seq<byte>, ds: seq<Datagram>)
    requires |b| <= |before| && forall d :: d in ds ==> Inside(b, d)
    ensures forall d :: d in ds ==> Inside(Overwrite(before, 0, b), d)
    ensures Slices(Overwrite(before, 0, b), ds) == Slices(b, ds)
  {
    var buf := Overwrite(before, 0, b);
    forall i | 0 <= i < |ds|
      ensures Slices(buf, ds)[i] == Slices(b, ds)[i]
    {
      assert ds[i] in ds;
      SliceOver(before, b, ds[i].index, ds[i].index + ds[i].length);
    }
  }

  lemma SliceBeyond(before: seq<byte>, b: seq<byte>, i: nat, j: nat)
    requires |b| <= i <= j <= |before|
    ensures Overwrite(before, 0, b)[i..j] == before[i..j]
  {}

  /** When all entries lie in the block, so do the frames. */
  lemma HostFramesOver(before: seq<byte>, b: seq<byte>)
    requires IsHostBlock(b) && |before| == NCM_MAX_SIZE
    ensures ReadableOver(before, b) && FramesOver(before, b) == BlockFrames(b)
  {
    TableOver(before, b);
    hide HasTable, TableEntries, TableAt, EntriesAt, NonEmpty;
    NonEmptyFit(b, TableEntries(b));
    SlicesOver(before, b, NonEmpty(TableEntries(b)));
  }

  // ----- the block the transmitter builds

  function OwnTable(length: u16): Ndp16
  {
    DEFAULT_NDP16.(datagrams := [Datagram(TOTAL_HEADER_SIZE, length), Datagram(0, 0)])
  }

  /** The block for one frame, with sequence number `sequence`. */
  function OwnBlock(sequence: u16, frame: seq<byte>): (b: seq<byte>)
    requires |frame| <= MTU
    ensures |b| == TOTAL_HEADER_SIZE + |frame|
  {
    NthBytes(DEFAULT_NTH16.(sequence := sequence, blocklen := TOTAL_HEADER_SIZE + |frame|))
    + NdpBytes(OwnTable(|frame|)) + frame
  }

  lemma OwnTableBytes(f: u16)
    ensures NdpBytes(OwnTable(f)) == [0x4E, 0x43, 0x4D, 0x30, 16, 0, 0, 0, 28, 0, f % 0x100, f / 0x100, 0, 0, 0, 0]
  {
    SignatureBytes();
    var ds := OwnTable(f).datagrams;
    assert ds[..1] == [ds[0]] && ds[..1][..0] == [];
    assert EntryBytes([]) == [];
    assert EntryBytes(ds[..1]) == [28, 0, f % 0x100, f / 0x100];
    assert EntryBytes(ds) == [28, 0, f % 0x100, f / 0x100, 0, 0, 0, 0];
  }

  /** The block, byte by byte. */
  lemma OwnBlockBytes(sequence: u16, frame: seq<byte>)
    requires |frame| <= MTU
    ensures var l, f := TOTAL_HEADER_SIZE + |frame|, |frame|;
            OwnBlock(sequence, frame)
            == [0x4E, 0x43, 0x4D, 0x48, 12, 0, sequence % 0x100, sequence / 0x100, l % 0x100, l / 0x100, 12, 0]
               + [0x4E, 0x43, 0x4D, 0x30, 16, 0, 0, 0, 28, 0, f % 0x100, f / 0x100, 0, 0, 0, 0]
               + frame
  {
    SignatureBytes();
    var l, f := TOTAL_HEADER_SIZE + |frame|, |frame|;
    assert NthBytes(DEFAULT_NTH16.(sequence := sequence, blocklen := l))
        == [0x4E, 0x43, 0x4D, 0x48, 12, 0, sequence % 0x100, sequence / 0x100, l % 0x100, l / 0x100, 12, 0];
    OwnTableBytes(f);
  }

  /** Every byte of the two headers has the value sections 3.2 and 3.3 of NCM 1.0 give it: the block is
      numbered and sized, its one datagram lies after both headers and inside the block, and a zero
      entry ends the table. */
  lemma OwnBlockWellFormed(sequence: u16, frame: seq<byte>)
    requires |frame| <= MTU
    ensures var b := OwnBlock(sequence, frame);
            && U32At(b, 0) == NTH16_SIGNATURE && U16At(b, 4) == NTH16_SIZE
            && U16At(b, 6) == sequence && U16At(b, 8) == |b| && U16At(b, 10) == NTH16_SIZE
            && U32At(b, 12) == NDP16_SIGNATURE && U16At(b, 16) == 16 && U16At(b, 18) == 0
            && U16At(b, 20) == TOTAL_HEADER_SIZE && U16At(b, 22) == |frame|
            && U16At(b, 24) == 0 && U16At(b, 26) == 0
            && b[U16At(b, 20)..U16At(b, 20) + U16At(b, 22)] == frame
  {
    var b := OwnBlock(sequence, frame);
    var h := DEFAULT_NTH16.(sequence := sequence, blocklen := TOTAL_HEADER_SIZE + |frame|);
    var t := OwnTable(|frame|);
    var n, e := NdpBytes(t) + frame, EntryBytes(t.datagrams);
    assert b == NthBytes(h) + n && b[12..] == n;
    NthRoundTrip(h, n);
    hide EntryBytes, Le16, Le32, NdpBytes, NthBytes, U16At;
    NdpLayout(t, frame);
    Le32At(n, 0, NDP16_SIGNATURE);
    Le16At(n, 4, 16);
    Le16At(n, 6, 0);
    U16AtDrop(b, 12, 0);
    U16AtDrop(b, 12, 2);
    U16AtDrop(b, 12, 4);
    U16AtDrop(b, 12, 6);
    assert b[20..] == n[8..] == e + frame;
    EntryBytesAt(t.datagrams, 0);
    EntryBytesAt(t.datagrams, 1);
    forall i | i in {0, 2, 4, 6}
      ensures U16At(b, 20 + i) == U16At(e, i)
    {
      U16AtPrefix(e, frame, i);
      U16AtDrop(b, 20, i);
    }
  }

  /** The transmitter's block is one the receiver accepts, and it carries exactly its frame. */
  lemma OwnBlockCarriesFrame(sequence: u16, frame: seq<byte>)
    requires 1 <= |frame| <= MTU
    ensures IsHostBlock(OwnBlock(sequence, frame))
    ensures BlockFrames(OwnBlock(sequence, frame)) == [frame]
  {
    var b := OwnBlock(sequence, frame);
    OwnBlockWellFormed(sequence, frame);
    var t := b[20..];
    assert U16At(t, 0) == U16At(b, 20) && U16At(t, 2) == U16At(b, 22);
    assert U16At(t, 4) == U16At(b, 24) && U16At(t, 6) == U16At(b, 26);
    var d := Datagram(TOTAL_HEADER_SIZE, |frame|);
    assert TableEntries(b) == Entries(t, 2) == [d, Datagram(0, 0)];
    var zero := [Datagram(0, 0)];
    assert NonEmpty(zero) == NonEmpty(zero[1..]) == [];
    assert TableEntries(b)[1..] == zero;
    assert NonEmpty(TableEntries(b)) == [d] + NonEmpty(zero);
  }
}
