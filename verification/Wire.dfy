/** Bytes, machine words, and the little-endian layout every module shares. */
module Wire {

  type byte = b: int | 0 <= b < 0x100
  type u16 = w: int | 0 <= w < 0x1_0000
  type u32 = w: int | 0 <= w < 0x1_0000_0000

  /** A Rust computation that either returns or panics. A panic halts the firmware. */
  datatype Outcome<+T> = Done(value: T) | Panic {
    predicate IsFailure() { Panic? }

    function PropagateFailure<U>(): Outcome<U>
      requires Panic?
    {
      Panic
    }

    function Extract(): T
      requires Done?
    {
      value
    }
  }

  datatype Option<+T> = None | Some(value: T)

  function Min(a: int, b: int): int { if a <= b then a else b }

  /** `to_le_bytes` of a 16-bit word. */
  function Le16(w: u16): (bs: seq<byte>)
    ensures |bs| == 2
  {
    [w % 0x100, w / 0x100]
  }

  /** `to_le_bytes` of a 32-bit word. */
  function Le32(w: u32): (bs: seq<byte>)
    ensures |bs| == 4
  {
    Le16(w % 0x1_0000) + Le16(w / 0x1_0000)
  }

  /** `u16::from_le_bytes(b[i..i + 2])`. */
  function U16At(b: seq<byte>, i: nat): u16
    requires i + 2 <= |b|
  {
    (b[i] as int) + 0x100 * (b[i + 1] as int)
  }

  /** `u32::from_le_bytes(b[i..i + 4])`. */
  function U32At(b: seq<byte>, i: nat): u32
    requires i + 4 <= |b|
  {
    (U16At(b, i) as int) + 0x1_0000 * (U16At(b, i + 2) as int)
  }

  /** A word laid down at offset `i` is the word read back there. */
  lemma Le16At(b: seq<byte>, i: nat, w: u16)
    requires i + 2 <= |b| && b[i..i + 2] == Le16(w)
    ensures U16At(b, i) == w
  {
    assert b[i] == b[i..i + 2][0] && b[i + 1] == b[i..i + 2][1];
  }

  lemma Le32At(b: seq<byte>, i: nat, w: u32)
    requires i + 4 <= |b| && b[i..i + 4] == Le32(w)
    ensures U32At(b, i) == w
  {
    assert b[i..i + 2] == b[i..i + 4][..2] == Le16(w % 0x1_0000);
    assert b[i + 2..i + 4] == b[i..i + 4][2..] == Le16(w / 0x1_0000);
    Le16At(b, i, w % 0x1_0000);
    Le16At(b, i + 2, w / 0x1_0000);
  }

  lemma U16AtPrefix(b: seq<byte>, rest: seq<byte>, i: nat)
    requires i + 2 <= |b|
    ensures U16At(b + rest, i) == U16At(b, i)
  {}

  lemma U16AtDrop(b: seq<byte>, k: nat, i: nat)
    requires k + i + 2 <= |b|
    ensures U16At(b[k..], i) == U16At(b, k + i)
  {}

  /** Reading a word and laying it down again restores the bytes. */
  lemma Le16OfAt(b: seq<byte>, i: nat)
    requires i + 2 <= |b|
    ensures Le16(U16At(b, i)) == b[i..i + 2]
  {}

  lemma Le32OfAt(b: seq<byte>, i: nat)
    requires i + 4 <= |b|
    ensures Le32(U32At(b, i)) == b[i..i + 4]
  {
    Le16OfAt(b, i);
    Le16OfAt(b, i + 2);
    assert U32At(b, i) % 0x1_0000 == U16At(b, i) && U32At(b, i) / 0x1_0000 == U16At(b, i + 2);
    assert b[i..i + 4] == b[i..i + 2] + b[i + 2..i + 4];
  }

  function Zeros(n: nat): (z: seq<byte>)
    ensures |z| == n
    ensures forall i :: 0 <= i < n ==> z[i] == 0
  {
    seq(n, _ => 0)
  }

  lemma SliceSplit<T>(s: seq<T>, i: nat, j: nat, n: nat)
    requires i + n <= j <= |s|
    ensures s[i..j][..n] == s[i..i + n] && s[i..j][n..] == s[i + n..j]
  {}

  lemma SliceOfTake<T>(s: seq<T>, k: nat, i: nat, j: nat)
    requires i <= j <= k <= |s|
    ensures s[..k][i..j] == s[i..j]
  {}

  lemma DropOfTake<T>(s: seq<T>, k: nat, i: nat)
    requires i <= k <= |s|
    ensures s[..k][i..] == s[i..k]
  {}

  lemma TakeDrop<T>(s: seq<T>, k: nat)
    requires k <= |s|
    ensures s[..k] + s[k..] == s
  {}

  lemma SliceJoin<T>(s: seq<T>, i: nat, j: nat)
    requires i <= j <= |s|
    ensures s[..i] + s[i..j] == s[..j]
  {}

  lemma Suffix<T>(a: seq<T>, b: seq<T>, c: seq<T>)
    ensures (a + b + c)[|a|..] == b + c
  {}

  lemma DropOfConcat<T>(a: seq<T>, b: seq<T>, k: nat)
    requires k <= |a|
    ensures (a + b)[k..] == a[k..] + b
    ensures a == [] ==> a + b == b
  {}

  /** Adding at the end of both sides. */
  lemma Shift<T>(a: seq<T>, b: seq<T>, c: seq<T>, d: seq<T>)
    requires a + b == c
    ensures a + (b + d) == c + d
  {
    assert a + (b + d) == (a + b) + d;
  }

  /** `a` is what `s` starts with. */
  predicate StartsWith(s: seq<byte>, a: seq<byte>)
  {
    |a| <= |s| && s[..|a|] == a
  }

  lemma StartsWithSplit(s: seq<byte>, a: seq<byte>, b: seq<byte>)
    requires StartsWith(s, a + b)
    ensures StartsWith(s, a) && |a| + |b| <= |s| && b == s[|a|..|a| + |b|]
  {
    var ab := a + b;
    assert a == ab[..|a|] && b == ab[|a|..];
    SliceOfTake(s, |ab|, 0, |a|);
    SliceOfTake(s, |ab|, |a|, |ab|);
  }

  /** `copy_from_slice` of `data` at offset `at`. */
  function Overwrite(buf: seq<byte>, at: nat, data: seq<byte>): (r: seq<byte>)
    requires at + |data| <= |buf|
    ensures |r| == |buf|
  {
    buf[..at] + data + buf[at + |data|..]
  }

  method CopyInto(a: array<byte>, at: nat, data: seq<byte>)
    requires at + |data| <= a.Length
    modifies a
    ensures a[..] == Overwrite(old(a[..]), at, data)
  {
    forall i | 0 <= i < |data| {
      a[at + i] := data[i];
    }
  }

  /** A fixed-size buffer holding `len` meaningful bytes: the pair that travels in the queues. */
  datatype Msg = Msg(len: nat, buf: seq<byte>) {
    function Payload(): seq<byte>
      requires len <= |buf|
    {
      buf[..len]
    }
  }

  const EP_DATA_BUF_SIZE := 64
  const MTU := 576

  /** `Usbtransaciton`: at most one full-speed bulk packet. */
  type Packet = m: Msg | m.len <= EP_DATA_BUF_SIZE && |m.buf| == EP_DATA_BUF_SIZE
    witness Msg(0, Zeros(EP_DATA_BUF_SIZE))

  /** `Ethmsg`: at most one Ethernet frame. */
  type EthMsg = m: Msg | m.len <= MTU && |m.buf| == MTU
    witness Msg(0, Zeros(MTU))

  function PacketOf(data: seq<byte>): (p: Packet)
    requires |data| <= EP_DATA_BUF_SIZE
    ensures p.len == |data| && p.Payload() == data
  {
    Msg(|data|, data + Zeros(EP_DATA_BUF_SIZE - |data|))
  }

  function EthOf(data: seq<byte>): (m: EthMsg)
    requires |data| <= MTU
    ensures m.len == |data| && m.Payload() == data
  {
    Msg(|data|, data + Zeros(MTU - |data|))
  }

  /** The bytes carried by a sequence of USB packets. */
  function Bytes(ps: seq<Packet>): seq<byte>
  {
    if ps == [] then [] else ps[0].Payload() + Bytes(ps[1..])
  }

  /** The frames carried by a sequence of Ethernet messages. */
  function Frames(ms: seq<EthMsg>): (fs: seq<seq<byte>>)
    ensures |fs| == |ms|
    ensures forall i :: 0 <= i < |ms| ==> fs[i] == ms[i].Payload()
  {
    seq(|ms|, i requires 0 <= i < |ms| => ms[i].Payload())
  }

  lemma FramesConcat(a: seq<EthMsg>, b: seq<EthMsg>)
    ensures Frames(a + b) == Frames(a) + Frames(b)
  {}

  lemma {:induction false} BytesConcat(a: seq<Packet>, b: seq<Packet>)
    ensures Bytes(a + b) == Bytes(a) + Bytes(b)
  {
    if a == [] {
      assert a + b == b;
    } else {
      assert (a + b)[1..] == a[1..] + b;
      calc {
        Bytes(a + b);
        a[0].Payload() + Bytes(a[1..] + b);
        { BytesConcat(a[1..], b); }
        a[0].Payload() + (Bytes(a[1..]) + Bytes(b));
        (a[0].Payload() + Bytes(a[1..])) + Bytes(b);
      }
    }
  }
}
