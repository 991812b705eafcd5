/** The datagrams of a block as section 3.3 of the USB CDC NCM Subclass Specification 1.0 defines them, and when the
    receiver's reading agrees. */
module NtbStandard {
  import opened Wire
  import opened Ntb

  /** The segment size the device announces. */
  const NCM_MAX_SEGMENT_SIZE := 1514

  /** A null entry ends the list of a table. */
  predicate Null(d: Datagram)
  {
    d.index == 0 || d.length == 0
  }

  /** The entries of a table: those before its first null entry. */
  function UpToNull(ds: seq<Datagram>): seq<Datagram>
  {
    if ds == [] || Null(ds[0]) then [] else [ds[0]] + UpToNull(ds[1..])
  }

  /** What follows: the first null entry and all after it. */
  function FromNull(ds: seq<Datagram>): seq<Datagram>
  {
    if ds == [] || Null(ds[0]) then ds else FromNull(ds[1..])
  }

  lemma NonEmptyNil()
    ensures NonEmpty([]) == []
  {}

  lemma NonEmptyStep(d: Datagram, rest: seq<Datagram>)
    requires d.length != 0 && NonEmpty(rest) == rest
    ensures NonEmpty([d] + rest) == [d] + rest
  {
    assert ([d] + rest)[1..] == rest;
  }

  lemma HeadTail<T>(s: seq<T>, x: seq<T>, y: seq<T>)
    requires s != [] && x + y == s[1..]
    ensures [s[0]] + x + y == s
  {
    assert [s[0]] + x + y == [s[0]] + (x + y);
  }

  lemma {:induction false} TableInTwo(ds: seq<Datagram>)
    ensures UpToNull(ds) + FromNull(ds) == ds
    ensures NonEmpty(UpToNull(ds)) == UpToNull(ds)
  {
    hide NonEmpty;
    if ds == [] || Null(ds[0]) {
      NonEmptyNil();
    } else {
      TableInTwo(ds[1..]);
      NonEmptyStep(ds[0], UpToNull(ds[1..]));
      HeadTail(ds, UpToNull(ds[1..]), FromNull(ds[1..]));
    }
  }

  /** The datagrams of the chain of tables that starts at `p`; index 0 ends it. A chain without a cycle has fewer
      tables than the block has bytes, so with `bound` at least that many, None means a table that cannot be read
      or a cycle. */
  function ChainFrom(b: seq<byte>, p: nat, bound: nat): Option<seq<Datagram>>
    decreases bound
  {
    if p == 0 then Some([])
    else if bound == 0 || !TableAt(b, p) then None
    else
      match ChainFrom(b, U16At(b, p + 6), bound - 1)
      case None => None
      case Some(rest) => Some(UpToNull(EntriesAt(b, p)) + rest)
  }

  /** The datagrams of a block. */
  function StandardDatagrams(b: seq<byte>): Option<seq<Datagram>>
    requires IsBlock(b)
  {
    ChainFrom(b, U16At(b, 10), |b|)
  }

  /** The index of the table after the first, and the datagrams from there on. */
  function NextTable(b: seq<byte>): u16
    requires IsBlock(b) && HasTable(b)
  {
    U16At(b, U16At(b, 10) + 6)
  }

  function ChainedDatagrams(b: seq<byte>): Option<seq<Datagram>>
    requires IsBlock(b) && HasTable(b)
  {
    ChainFrom(b, NextTable(b), |b| - 1)
  }

  /** A block whose list exists and lies inside it. */
  predicate IsStandardBlock(b: seq<byte>)
  {
    && IsBlock(b) && HasTable(b)
    && StandardDatagrams(b).Some?
    && forall d :: d in StandardDatagrams(b).value ==> Inside(b, d)
  }

  /** The frames of a block, by the standard. */
  function StandardFrames(b: seq<byte>): seq<seq<byte>>
    requires IsStandardBlock(b)
  {
    Slices(b, StandardDatagrams(b).value)
  }

  lemma TableIsNotAtZero(b: seq<byte>)
    requires IsBlock(b) && HasTable(b)
    ensures U16At(b, 10) != 0
  {}

  /** The list by the standard is the first table's entries up to its null entry, then the chained ones. */
  lemma StandardInTwo(b: seq<byte>)
    requires IsBlock(b) && HasTable(b)
    ensures StandardDatagrams(b).Some? <==> ChainedDatagrams(b).Some?
    ensures StandardDatagrams(b).Some? ==>
              StandardDatagrams(b).value == UpToNull(TableEntries(b)) + ChainedDatagrams(b).value
  {
    TableIsNotAtZero(b);
  }

  /** The receiver's list is the same entries, then the non-empty ones after the null entry. */
  lemma DecodedInTwo(b: seq<byte>)
    requires IsBlock(b) && HasTable(b)
    ensures NonEmpty(TableEntries(b)) == UpToNull(TableEntries(b)) + NonEmpty(FromNull(TableEntries(b)))
  {
    var ds := TableEntries(b);
    TableInTwo(ds);
    NonEmptyConcat(UpToNull(ds), FromNull(ds));
  }

  lemma SlicesConcat(b: seq<byte>, xs: seq<Datagram>, ys: seq<Datagram>)
    requires forall d :: d in xs + ys ==> Inside(b, d)
    ensures forall d :: d in xs ==> Inside(b, d)
    ensures forall d :: d in ys ==> Inside(b, d)
    ensures Slices(b, xs + ys) == Slices(b, xs) + Slices(b, ys)
  {
    assert forall d :: d in xs ==> d in xs + ys;
    assert forall d :: d in ys ==> d in xs + ys;
  }

  lemma {:induction false} NoneKept(ds: seq<Datagram>)
    ensures NonEmpty(ds) == [] <==> forall d :: d in ds ==> d.length == 0
  {
    if ds != [] {
      NoneKept(ds[1..]);
      assert forall d :: d in ds <==> d == ds[0] || d in ds[1..];
      assert ds[0] in ds;
    }
  }

  /** Every entry after the first null one is empty. */
  predicate NothingAfterNull(b: seq<byte>)
    requires IsBlock(b) && HasTable(b)
  {
    forall d :: d in FromNull(TableEntries(b)) ==> d.length == 0
  }

  lemma SamePrefix<T>(p: seq<T>, x: seq<T>, y: seq<T>)
    ensures p + x == p + y <==> x == y
  {
    assert (p + x)[|p|..] == x && (p + y)[|p|..] == y;
  }

  /** What the receiver keeps after the null entry, cut from its buffer, and what the chained tables hold. */
  predicate SameRest(before: seq<byte>, b: seq<byte>)
    requires IsStandardBlock(b) && |before| == NCM_MAX_SIZE
  {
    var buf, late := Overwrite(before, 0, b), NonEmpty(FromNull(TableEntries(b)));
    && ChainedDatagrams(b).Some?
    && (forall d :: d in late ==> Inside(buf, d))
    && (forall d :: d in ChainedDatagrams(b).value ==> Inside(b, d))
    && Slices(buf, late) == Slices(b, ChainedDatagrams(b).value)
  }

  lemma FramesInTwo(before: seq<byte>, b: seq<byte>)
    requires IsStandardBlock(b) && |before| == NCM_MAX_SIZE && !Halts(b)
    ensures ReadableOver(before, b)
    ensures var buf, late := Overwrite(before, 0, b), NonEmpty(FromNull(TableEntries(b)));
            && (forall d :: d in UpToNull(TableEntries(b)) ==> Inside(buf, d))
            && (forall d :: d in late ==> Inside(buf, d))
            && FramesOver(before, b) == Slices(buf, UpToNull(TableEntries(b))) + Slices(buf, late)
  {
    HaltsExactly(before, b);
    TableOver(before, b);
    DecodedInTwo(b);
    var buf, ds := Overwrite(before, 0, b), TableEntries(b);
    hide NonEmpty, UpToNull, FromNull, ChainedDatagrams, StandardDatagrams, TableEntries, HasTable, EntriesAt, TableAt,
         Overwrite, Slices;
    NonEmptyFit(buf, ds);
    SlicesConcat(buf, UpToNull(ds), NonEmpty(FromNull(ds)));
  }

  lemma StandardFramesInTwo(b: seq<byte>)
    requires IsStandardBlock(b)
    ensures ChainedDatagrams(b).Some?
    ensures forall d :: d in UpToNull(TableEntries(b)) ==> Inside(b, d)
    ensures forall d :: d in ChainedDatagrams(b).value ==> Inside(b, d)
    ensures StandardFrames(b) == Slices(b, UpToNull(TableEntries(b))) + Slices(b, ChainedDatagrams(b).value)
  {
    StandardInTwo(b);
    hide UpToNull, ChainedDatagrams, StandardDatagrams, TableEntries, HasTable, Slices;
    SlicesConcat(b, UpToNull(TableEntries(b)), ChainedDatagrams(b).value);
  }

  /** On a block that does not halt it, the receiver takes the standard's frames exactly when what it keeps after the
      null entry is what the chained tables hold. */
  lemma AgreesExactly(before: seq<byte>, b: seq<byte>)
    requires IsStandardBlock(b) && |before| == NCM_MAX_SIZE && !Halts(b)
    ensures ReadableOver(before, b)
    ensures FramesOver(before, b) == StandardFrames(b) <==> SameRest(before, b)
  {
    FramesInTwo(before, b);
    StandardFramesInTwo(b);
    var buf, ds := Overwrite(before, 0, b), TableEntries(b);
    hide NonEmpty, UpToNull, FromNull, ChainedDatagrams, StandardFrames, TableEntries, HasTable, Overwrite, Slices,
         FramesOver, ReadableOver, Halts, StandardDatagrams;
    SlicesOver(before, b, UpToNull(ds));
    SamePrefix(Slices(b, UpToNull(ds)), Slices(buf, NonEmpty(FromNull(ds))), Slices(b, ChainedDatagrams(b).value));
  }

  /** No frame in a chained table. */
  predicate NothingChained(b: seq<byte>)
    requires IsBlock(b) && HasTable(b)
  {
    ChainedDatagrams(b) == Some([])
  }

  lemma SameRestByCount(before: seq<byte>, b: seq<byte>)
    requires IsStandardBlock(b) && |before| == NCM_MAX_SIZE && !Halts(b)
    ensures NothingChained(b) ==> (SameRest(before, b) <==> NothingAfterNull(b))
    ensures NothingAfterNull(b) ==> (SameRest(before, b) <==> NothingChained(b))
  {
    StandardFramesInTwo(b);
    FramesInTwo(before, b);
    hide ReadableOver, FramesOver, StandardFrames, Halts, HasTable, TableEntries, Overwrite, UpToNull,
         StandardDatagrams;
    NoneKept(FromNull(TableEntries(b)));
  }

  /** Without chained datagrams only entries after the null one make a difference. */
  lemma AgreesWithoutChain(before: seq<byte>, b: seq<byte>)
    requires IsStandardBlock(b) && |before| == NCM_MAX_SIZE && !Halts(b) && NothingChained(b)
    ensures ReadableOver(before, b)
    ensures FramesOver(before, b) == StandardFrames(b) <==> NothingAfterNull(b)
  {
    hide IsStandardBlock, ReadableOver, FramesOver, StandardFrames, Halts, SameRest;
    SameRestByCount(before, b);
    AgreesExactly(before, b);
  }

  /** Without late entries only chained datagrams make a difference. */
  lemma AgreesWithoutLateEntries(before: seq<byte>, b: seq<byte>)
    requires IsStandardBlock(b) && |before| == NCM_MAX_SIZE && !Halts(b) && NothingAfterNull(b)
    ensures ReadableOver(before, b)
    ensures FramesOver(before, b) == StandardFrames(b) <==> NothingChained(b)
  {
    hide IsStandardBlock, ReadableOver, FramesOver, StandardFrames, Halts, SameRest;
    SameRestByCount(before, b);
    AgreesExactly(before, b);
  }

  /** A standard block of one table, with nothing after its null entry. */
  predicate IsPlainBlock(b: seq<byte>)
  {
    IsStandardBlock(b) && NothingAfterNull(b) && NothingChained(b)
  }

  lemma PlainDatagrams(b: seq<byte>)
    requires IsPlainBlock(b)
    ensures StandardDatagrams(b).value == UpToNull(TableEntries(b)) == NonEmpty(TableEntries(b))
  {
    StandardInTwo(b);
    DecodedInTwo(b);
    NoneKept(FromNull(TableEntries(b)));
  }

  lemma PlainMembers(b: seq<byte>, d: Datagram)
    requires IsPlainBlock(b)
    ensures d in StandardDatagrams(b).value <==> d in TableEntries(b) && d.length != 0
  {
    PlainDatagrams(b);
    NonEmptyMembers(TableEntries(b), d);
  }

  lemma PlainOverflows(b: seq<byte>)
    requires IsPlainBlock(b)
    ensures Halts(b) <==> exists f :: f in StandardFrames(b) && |f| > MTU
  {
    var ds := StandardDatagrams(b).value;
    hide StandardDatagrams, TableEntries, NothingAfterNull, NothingChained, HasTable;
    if Halts(b) {
      var d :| d in TableEntries(b) && Overflows(d);
      PlainMembers(b, d);
      var i :| 0 <= i < |ds| && ds[i] == d;
      assert StandardFrames(b)[i] in StandardFrames(b);
    }
    if f :| f in StandardFrames(b) && |f| > MTU {
      var i :| 0 <= i < |ds| && StandardFrames(b)[i] == f;
      PlainMembers(b, ds[i]);
      assert ds[i] in TableEntries(b) && Overflows(ds[i]);
    }
  }

  /** Receiver and standard differ on a plain block exactly when a frame is longer than 576 bytes, and then the receiver
      halts. */
  lemma PlainHaltsExactly(before: seq<byte>, b: seq<byte>)
    requires IsPlainBlock(b) && |before| == NCM_MAX_SIZE
    ensures Halts(b) <==> exists f :: f in StandardFrames(b) && |f| > 576
    ensures ReadableOver(before, b) <==> !Halts(b)
    ensures !Halts(b) ==> FramesOver(before, b) == StandardFrames(b)
  {
    HaltsExactly(before, b);
    PlainOverflows(b);
    hide Halts, ReadableOver, FramesOver, NothingChained, StandardFrames, IsStandardBlock, HasTable;
    if !Halts(b) { AgreesWithoutChain(before, b); }
  }

  // ----- blocks on which receiver and standard differ

  /** A block of a header, one or more tables, and the datagrams. */
  function Assembled(tables: seq<byte>, data: seq<byte>): (b: seq<byte>)
    requires NTH16_SIZE + |tables| + |data| <= NCM_MAX_SIZE
    ensures |b| == NTH16_SIZE + |tables| + |data|
  {
    NthBytes(DEFAULT_NTH16.(blocklen := NTH16_SIZE + |tables| + |data|)) + tables + data
  }

  lemma AssembledHeader(tables: seq<byte>, data: seq<byte>)
    requires NTH16_SIZE + |tables| + |data| <= NCM_MAX_SIZE
    ensures IsBlock(Assembled(tables, data)) && U16At(Assembled(tables, data), 10) == NTH16_SIZE
  {
    var h := DEFAULT_NTH16.(blocklen := NTH16_SIZE + |tables| + |data|);
    assert Assembled(tables, data) == NthBytes(h) + (tables + data);
    hide NthBytes;
    NthRoundTrip(h, tables + data);
  }

  /** A table that places one frame of `length` bytes at `index`, after a null entry or before it. */
  function OneEntry(index: u16, length: u16, next: u16, late: bool): Ndp16
  {
    var d := Datagram(index, length);
    DEFAULT_NDP16.(nextndpindex := next, datagrams := if late then [Datagram(0, 0), d] else [d, Datagram(0, 0)])
  }

  lemma OneEntryLists(index: u16, length: u16, next: u16, late: bool)
    requires index != 0 && length != 0
    ensures var t, d := OneEntry(index, length, next, late), Datagram(index, length);
            && NonEmpty(t.datagrams) == [d]
            && UpToNull(t.datagrams) == (if late then [] else [d])
            && forall x :: x in t.datagrams && x.length != 0 ==> x == d
  {
    var ds := OneEntry(index, length, next, late).datagrams;
    assert ds[1..][1..] == [];
    assert NonEmpty(ds[1..][1..]) == [] && UpToNull(ds[1..][1..]) == [];
    assert NonEmpty(ds[1..]) == if late then [ds[1]] else [];
  }

  lemma LastTable(b: seq<byte>, p: nat, bound: nat)
    requires p != 0 && bound != 0 && TableAt(b, p) && U16At(b, p + 6) == 0
    ensures ChainFrom(b, p, bound) == Some(UpToNull(EntriesAt(b, p)))
  {
    hide TableAt, EntriesAt;
    assert ChainFrom(b, 0, bound - 1) == Some([]);
    assert UpToNull(EntriesAt(b, p)) + [] == UpToNull(EntriesAt(b, p));
  }

  /** A block of one table with one entry, which places `f` or, past the end of the block, nothing. */
  function OneEntryBlock(index: u16, length: u16, late: bool, f: seq<byte>): seq<byte>
    requires TOTAL_HEADER_SIZE + |f| <= NCM_MAX_SIZE
  {
    Assembled(NdpBytes(OneEntry(index, length, 0, late)), f)
  }

  lemma OneEntryBlockReads(index: u16, length: u16, late: bool, f: seq<byte>)
    requires TOTAL_HEADER_SIZE + |f| <= NCM_MAX_SIZE && index != 0 && length != 0
    ensures var b := OneEntryBlock(index, length, late, f);
            && |b| == TOTAL_HEADER_SIZE + |f| && b[TOTAL_HEADER_SIZE..] == f && IsBlock(b) && HasTable(b)
            && TableEntries(b) == OneEntry(index, length, 0, late).datagrams && NothingChained(b)
            && StandardDatagrams(b) == Some(if late then [] else [Datagram(index, length)])
            && NonEmpty(TableEntries(b)) == [Datagram(index, length)]
  {
    var b, t := OneEntryBlock(index, length, late, f), OneEntry(index, length, 0, late);
    hide NdpBytes, NthBytes, EntriesAt, U16At, UpToNull, NonEmpty;
    AssembledHeader(NdpBytes(t), f);
    TableReads(NthBytes(DEFAULT_NTH16.(blocklen := TOTAL_HEADER_SIZE + |f|)), t, f);
    OneEntryLists(index, length, 0, late);
    assert NothingChained(b);
    hide OneEntryBlock, IsBlock, HasTable, TableEntries, ChainedDatagrams, StandardDatagrams;
    StandardInTwo(b);
  }

  lemma OneEntryHalts(index: u16, length: u16, late: bool, f: seq<byte>)
    requires TOTAL_HEADER_SIZE + |f| <= NCM_MAX_SIZE && index != 0 && length != 0
    ensures var b := OneEntryBlock(index, length, late, f);
            IsBlock(b) && HasTable(b) && (Halts(b) <==> Overflows(Datagram(index, length)))
  {
    OneEntryBlockReads(index, length, late, f);
    var ds := OneEntry(index, length, 0, late).datagrams;
    assert Datagram(index, length) == ds[0] || Datagram(index, length) == ds[1];
    hide OneEntryBlock, HasTable, TableEntries, IsBlock;
  }

  lemma OneEntryOver(before: seq<byte>, index: u16, length: u16, late: bool, f: seq<byte>)
    requires TOTAL_HEADER_SIZE + |f| <= NCM_MAX_SIZE && index != 0 && length != 0 && |before| == NCM_MAX_SIZE
    requires !Overflows(Datagram(index, length))
    ensures var b := OneEntryBlock(index, length, late, f);
            && IsBlock(b) && HasTable(b) && ReadableOver(before, b)
            && FramesOver(before, b) == [Overwrite(before, 0, b)[index..index + length]]
  {
    var b := OneEntryBlock(index, length, late, f);
    OneEntryBlockReads(index, length, late, f);
    OneEntryHalts(index, length, late, f);
    HaltsExactly(before, b);
    TableOver(before, b);
    hide OneEntryBlock, HasTable, TableEntries, IsBlock, Halts, ReadableOver, EntriesAt, TableAt, NonEmpty, Overwrite;
  }

  /** A datagram after the null entry: the standard's list is empty, the receiver takes the frame. */
  lemma LateEntryIsDelivered(before: seq<byte>, f: seq<byte>)
    requires 1 <= |f| <= MTU && |before| == NCM_MAX_SIZE
    ensures var b := OneEntryBlock(TOTAL_HEADER_SIZE, |f|, true, f);
            && IsStandardBlock(b) && StandardFrames(b) == []
            && ReadableOver(before, b) && FramesOver(before, b) == [f]
  {
    var b := OneEntryBlock(TOTAL_HEADER_SIZE, |f|, true, f);
    OneEntryBlockReads(TOTAL_HEADER_SIZE, |f|, true, f);
    OneEntryOver(before, TOTAL_HEADER_SIZE, |f|, true, f);
    hide OneEntryBlock, HasTable, TableEntries, IsBlock, ReadableOver, FramesOver, StandardDatagrams;
    assert b[TOTAL_HEADER_SIZE..|b|] == f;
    SliceOver(before, b, TOTAL_HEADER_SIZE, |b|);
  }

  /** A frame longer than the receiver's frame buffer, up to the segment size the device announces: by the standard
      the block is plain and carries the frame, the receiver halts on it. */
  lemma LongFrameHalts(f: seq<byte>)
    requires MTU < |f| <= NCM_MAX_SEGMENT_SIZE
    ensures var b := OneEntryBlock(TOTAL_HEADER_SIZE, |f|, false, f);
            IsPlainBlock(b) && StandardFrames(b) == [f] && Halts(b)
  {
    var b := OneEntryBlock(TOTAL_HEADER_SIZE, |f|, false, f);
    OneEntryBlockReads(TOTAL_HEADER_SIZE, |f|, false, f);
    OneEntryHalts(TOTAL_HEADER_SIZE, |f|, false, f);
    var ds := OneEntry(TOTAL_HEADER_SIZE, |f|, 0, false).datagrams;
    assert ds[1..] == [Datagram(0, 0)] && FromNull(ds) == FromNull(ds[1..]) == [Datagram(0, 0)];
    hide OneEntryBlock, HasTable, TableEntries, IsBlock, StandardDatagrams, FromNull, NothingChained;
    assert b[TOTAL_HEADER_SIZE..|b|] == f;
  }

  /** An entry past the end of the block and inside the buffer: the receiver takes bytes of earlier blocks. */
  lemma StaleBytesAreDelivered(before: seq<byte>, n: u16)
    requires 1 <= n <= MTU && |before| == NCM_MAX_SIZE
    ensures var b := OneEntryBlock(TOTAL_HEADER_SIZE, n, false, []);
            && IsBlock(b) && !IsStandardBlock(b)
            && ReadableOver(before, b) && FramesOver(before, b) == [before[TOTAL_HEADER_SIZE..TOTAL_HEADER_SIZE + n]]
  {
    var b := OneEntryBlock(TOTAL_HEADER_SIZE, n, false, []);
    hide OneEntryBlock, HasTable, TableEntries, IsBlock, ReadableOver, FramesOver, StandardDatagrams, Overwrite,
         NonEmpty, NothingChained, OneEntry;
    OneEntryBlockReads(TOTAL_HEADER_SIZE, n, false, []);
    OneEntryOver(before, TOTAL_HEADER_SIZE, n, false, []);
    assert Datagram(TOTAL_HEADER_SIZE, n) in StandardDatagrams(b).value;
    SliceBeyond(before, b, TOTAL_HEADER_SIZE, TOTAL_HEADER_SIZE + n);
  }

  /** Two chained tables, the first placing `f`, or nothing if that is empty, the second `g`. */
  function ChainedBlock(f: seq<byte>, g: seq<byte>): seq<byte>
    requires |f| <= MTU && 1 <= |g| <= MTU
  {
    Assembled(NdpBytes(OneEntry(44, |f|, 28, false)) + NdpBytes(OneEntry(44 + |f|, |g|, 0, false)), f + g)
  }

  lemma ChainedBlockReads(f: seq<byte>, g: seq<byte>)
    requires |f| <= MTU && 1 <= |g| <= MTU
    ensures var b := ChainedBlock(f, g);
            && |b| == 44 + |f| + |g| && b[44..] == f + g && IsBlock(b) && HasTable(b)
            && TableEntries(b) == OneEntry(44, |f|, 28, false).datagrams && NextTable(b) == 28
            && TableAt(b, 28) && EntriesAt(b, 28) == OneEntry(44 + |f|, |g|, 0, false).datagrams && U16At(b, 34) == 0
  {
    var t, u := OneEntry(44, |f|, 28, false), OneEntry(44 + |f|, |g|, 0, false);
    hide NdpBytes, NthBytes, EntriesAt, U16At;
    var h, b := NthBytes(DEFAULT_NTH16.(blocklen := 44 + |f| + |g|)), ChainedBlock(f, g);
    AssembledHeader(NdpBytes(t) + NdpBytes(u), f + g);
    assert b == h + NdpBytes(t) + (NdpBytes(u) + (f + g));
    assert b == (h + NdpBytes(t)) + NdpBytes(u) + (f + g);
    TableReads(h, t, NdpBytes(u) + (f + g));
    TableReads(h + NdpBytes(t), u, f + g);
  }

  lemma ChainedBlockRest(f: seq<byte>, g: seq<byte>)
    requires |f| <= MTU && 1 <= |g| <= MTU
    ensures var b := ChainedBlock(f, g);
            IsBlock(b) && HasTable(b) && ChainedDatagrams(b) == Some([Datagram(44 + |f|, |g|)])
  {
    hide ChainedBlock, NonEmpty, UpToNull, TableEntries, EntriesAt, TableAt, HasTable, IsBlock, U16At, ChainFrom;
    ChainedBlockReads(f, g);
    OneEntryLists(44 + |f|, |g|, 0, false);
    LastTable(ChainedBlock(f, g), 28, |ChainedBlock(f, g)| - 1);
  }

  /** The list of the first table. */
  function FirstList(f: seq<byte>): seq<Datagram>
    requires |f| <= MTU
  {
    if f == [] then [] else [Datagram(44, |f|)]
  }

  lemma FirstLists(f: seq<byte>)
    requires |f| <= MTU
    ensures var ds := OneEntry(44, |f|, 28, false).datagrams;
            NonEmpty(ds) == UpToNull(ds) == FirstList(f) && forall d :: d in ds ==> !Overflows(d)
  {
    var ds := OneEntry(44, |f|, 28, false).datagrams;
    assert ds[1..][1..] == [];
    assert NonEmpty(ds[1..]) == [] && UpToNull(ds[1..]) == [];
  }

  lemma ChainedBlockLists(f: seq<byte>, g: seq<byte>)
    requires |f| <= MTU && 1 <= |g| <= MTU
    ensures var b := ChainedBlock(f, g);
            && IsBlock(b) && HasTable(b) && !Halts(b) && NonEmpty(TableEntries(b)) == FirstList(f)
            && StandardDatagrams(b) == Some(FirstList(f) + [Datagram(44 + |f|, |g|)])
  {
    hide ChainedBlock, NonEmpty, UpToNull, TableEntries, EntriesAt, TableAt, HasTable, IsBlock, U16At, ChainFrom;
    var b := ChainedBlock(f, g);
    ChainedBlockReads(f, g);
    ChainedBlockRest(f, g);
    FirstLists(f);
    hide ChainedDatagrams, StandardDatagrams, FirstList;
    StandardInTwo(b);
  }

  function Listed(f: seq<byte>): seq<seq<byte>> { if f == [] then [] else [f] }

  lemma PairSlices(b: seq<byte>, at: nat, f: seq<byte>, g: seq<byte>)
    requires at + |f| + |g| <= |b| && b[at..] == f + g
    ensures b[at..at + |f|] == f && b[at + |f|..at + |f| + |g|] == g
  {
    SliceSplit(b, at, |b|, |f|);
    assert b[at..] == b[at..|b|];
  }

  lemma ChainedSlices(b: seq<byte>, f: seq<byte>, g: seq<byte>)
    requires |f| <= MTU && 1 <= |g| <= MTU && |b| == 44 + |f| + |g| && b[44..] == f + g
    ensures forall d :: d in FirstList(f) ==> Inside(b, d)
    ensures forall d :: d in FirstList(f) + [Datagram(44 + |f|, |g|)] ==> Inside(b, d)
    ensures Slices(b, FirstList(f)) == Listed(f)
    ensures Slices(b, FirstList(f) + [Datagram(44 + |f|, |g|)]) == Listed(f) + [g]
  {
    PairSlices(b, 44, f, g);
  }

  /** The receiver never looks at the second table: it takes `f` or, if the first table is empty, nothing. */
  lemma ChainIsIgnored(before: seq<byte>, f: seq<byte>, g: seq<byte>)
    requires |f| <= MTU && 1 <= |g| <= MTU && |before| == NCM_MAX_SIZE
    ensures var b := ChainedBlock(f, g);
            && IsStandardBlock(b) && StandardFrames(b) == Listed(f) + [g]
            && ReadableOver(before, b) && FramesOver(before, b) == Listed(f)
  {
    var b := ChainedBlock(f, g);
    ChainedBlockReads(f, g);
    ChainedBlockLists(f, g);
    ChainedSlices(b, f, g);
    HaltsExactly(before, b);
    TableOver(before, b);
    hide ChainedBlock, StandardDatagrams, TableEntries, NonEmpty, IsBlock, HasTable, U16At, EntriesAt, TableAt, Halts,
         ReadableOver, FirstList, Overwrite, Listed;
    SlicesOver(before, b, FirstList(f));
  }

  /** The transmitter's own blocks are plain. */
  lemma OwnBlockIsPlain(sequence: u16, frame: seq<byte>)
    requires 1 <= |frame| <= MTU
    ensures IsPlainBlock(OwnBlock(sequence, frame))
  {
    var b, t := OwnBlock(sequence, frame), OwnTable(|frame|);
    OwnBlockCarriesFrame(sequence, frame);
    OwnBlockWellFormed(sequence, frame);
    hide NdpBytes, NthBytes, EntriesAt, U16At, U32At;
    TableReads(NthBytes(DEFAULT_NTH16.(sequence := sequence, blocklen := 28 + |frame|)), t, frame);
    hide OwnBlock;
    assert TableEntries(b) == t.datagrams;
    assert t.datagrams[1..] == [Datagram(0, 0)];
    assert FromNull(t.datagrams) == [Datagram(0, 0)] && UpToNull(t.datagrams[1..]) == [];
    StandardInTwo(b);
  }
}
