/** Requests written out, and characters encoded: what the parser and the decoder must give back. */
module HttpFormat {
  import opened Wire
  import opened Http

  /** The 25 characters that Unicode calls white space. */
  lemma SpacesAre(c: scalar)
    ensures IsSpace(c) <==>
            c in [0x9, 0xA, 0xB, 0xC, 0xD, 0x20, 0x85, 0xA0, 0x1680, 0x2000, 0x2001, 0x2002, 0x2003, 0x2004, 0x2005,
                  0x2006, 0x2007, 0x2008, 0x2009, 0x200A, 0x2028, 0x2029, 0x202F, 0x205F, 0x3000]
  {}

  // ----- requests

  /** A visible ASCII character. */
  predicate Visible(c: scalar)
  {
    0x21 <= c <= 0x7E
  }

  predicate IsPath(path: seq<scalar>)
  {
    path != [] && forall i :: 0 <= i < |path| ==> Visible(path[i])
  }

  /** A line break and a blank line. */
  const BREAK: seq<scalar> := [13, 10]

  const EMPTY_LINE: seq<scalar> := [13, 10, 13, 10]

  predicate BlankAt(t: seq<scalar>, i: nat)
  {
    i + 4 <= |t| && t[i..i + 4] == EMPTY_LINE
  }

  /** Header lines, each ended by a line break; no blank line among them. */
  predicate IsHeaders(headers: seq<scalar>)
  {
    && (headers == [] || (|headers| >= 2 && headers[|headers| - 2..] == BREAK))
    && forall i :: 0 <= i <= |headers| ==> !BlankAt(BREAK + headers, i)
  }

  /** The request line: the method, the path, and the version, with one space between them. */
  function RequestLine(method_: seq<scalar>, path: seq<scalar>): seq<scalar>
  {
    method_ + [32] + path + [32, 72, 84, 84, 80, 47, 49, 46, 49] // " HTTP/1.1"
  }

  function Request(method_: seq<scalar>, path: seq<scalar>, headers: seq<scalar>, body: seq<scalar>): seq<scalar>
  {
    RequestLine(method_, path) + BREAK + headers + BREAK + body
  }

  lemma {:induction false} HeaderEndIs(t: seq<scalar>, i: nat, k: nat)
    requires i <= k && EndsAt(t, k)
    requires forall j :: i <= j < k ==> !EndsAt(t, j)
    ensures i <= |t| && HeaderEnd(t, i) == Some(k)
    decreases k - i
  {
    if i < k { HeaderEndIs(t, i + 1, k); }
  }

  lemma {:induction false} SkipWordIs(t: seq<scalar>, i: nat, k: nat)
    requires i <= k < |t| && IsSpace(t[k])
    requires forall j :: i <= j < k ==> !IsSpace(t[j])
    ensures SkipWord(t, i) == k
    decreases k - i
  {
    if i < k { SkipWordIs(t, i + 1, k); }
  }

  lemma {:induction false} NewlineIs(t: seq<scalar>, i: nat, k: nat)
    requires i <= k < |t| && t[k] == LF
    requires forall j :: i <= j < k ==> t[j] != LF
    ensures Newline(t, i) == k
    decreases k - i
  {
    if i < k { NewlineIs(t, i + 1, k); }
  }

  /** The words of the request line. */
  lemma LineWords(m: seq<scalar>, path: seq<scalar>)
    requires IsPath(m) && IsPath(path)
    ensures FirstWord(RequestLine(m, path)) == m && SecondWord(RequestLine(m, path)) == Some(path)
  {
    var t := RequestLine(m, path);
    var a, b := |m|, |m| + 1 + |path|;
    assert forall j :: 0 <= j < a ==> t[j] == m[j];
    assert forall j :: a + 1 <= j < b ==> t[j] == path[j - a - 1];
    assert t[a] == 32 && t[b] == 32;
    assert SkipSpace(t, 0) == 0;
    SkipWordIs(t, 0, a);
    assert SkipSpace(t, a + 1) == a + 1 == SkipSpace(t, a);
    SkipWordIs(t, a + 1, b);
    assert t[0..a] == m && t[a + 1..b] == path;
  }

  lemma LineHasNoBreak(m: seq<scalar>, path: seq<scalar>, i: nat)
    requires IsPath(m) && IsPath(path) && i < |RequestLine(m, path)|
    ensures RequestLine(m, path)[i] != CR && RequestLine(m, path)[i] != LF
  {}

  lemma FirstLineIs(line: seq<scalar>, rest: seq<scalar>)
    requires forall i :: 0 <= i < |line| ==> line[i] != LF
    requires line != []
    ensures Line(line + BREAK + rest) == line + [CR] && FirstLine(line + BREAK + rest) == line
  {
    var t := line + BREAK + rest;
    NewlineIs(t, 0, |line| + 1);
  }

  /** Before the end of the headers there is no blank line, not even one that the last line break would complete. */
  lemma NoBlankWithin(t: seq<scalar>, n: nat, inner: seq<scalar>, i: nat)
    requires n + |inner| + 2 <= |t| && i + 2 < |inner| && !BlankAt(inner, i)
    requires forall j :: 0 <= j < |inner| ==> t[n + j] == inner[j]
    requires t[n + |inner|] == CR && t[n + |inner| + 1] == LF
    ensures !EndsAt(t, n + i)
  {
    assert t[n + i] == inner[i] && t[n + (i + 1)] == inner[i + 1] && t[n + (i + 2)] == inner[i + 2];
    if i + 4 <= |inner| {
      assert t[n + (i + 3)] == inner[i + 3];
      assert inner[i..i + 4] == [inner[i], inner[i + 1], inner[i + 2], inner[i + 3]];
    }
  }

  lemma EndsThere(line: seq<scalar>, headers: seq<scalar>, body: seq<scalar>)
    requires IsHeaders(headers)
    ensures EndsAt(line + BREAK + headers + BREAK + body, |line| + |headers|)
  {
    var t, n := line + BREAK + headers + BREAK + body, |line|;
    if headers != [] {
      var h := headers[|headers| - 2..];
      assert h[0] == headers[|headers| - 2] && h[1] == headers[|headers| - 1];
    }
  }

  /** Where the headers end. */
  lemma HeadersEnd(line: seq<scalar>, headers: seq<scalar>, body: seq<scalar>)
    requires forall i :: 0 <= i < |line| ==> line[i] != CR
    requires IsHeaders(headers)
    ensures HeaderEnd(line + BREAK + headers + BREAK + body, 0) == Some(|line| + |headers|)
  {
    var t, n := line + BREAK + headers + BREAK + body, |line|;
    var inner := BREAK + headers;
    assert forall i :: 0 <= i < |inner| ==> t[n + i] == inner[i];
    EndsThere(line, headers, body);
    assert forall i :: 0 <= i < 2 ==> t[n + |inner| + i] == BREAK[i];
    forall j | 0 <= j < n + |headers|
      ensures !EndsAt(t, j)
    {
      if n <= j {
        NoBlankWithin(t, n, inner, j - n);
      }
    }
    HeaderEndIs(t, 0, n + |headers|);
  }

  lemma Parts(line: seq<scalar>, headers: seq<scalar>, body: seq<scalar>)
    ensures line + BREAK + headers + BREAK + body == line + BREAK + (headers + BREAK + body)
    ensures (line + BREAK + headers + BREAK + body)[|line| + |headers| + 4..] == body
  {}

  /** A request written out is parsed to its parts: for the methods "GET" and "POST", every path of visible characters,
      all headers and every body. */
  lemma WrittenIsParsed(method_: seq<scalar>, path: seq<scalar>, headers: seq<scalar>, body: seq<scalar>)
    requires method_ == [71, 69, 84] || method_ == [80, 79, 83, 84]
    requires IsPath(path) && IsHeaders(headers)
    ensures ParseText(Request(method_, path, headers, body)) == Done(Ok(HttpRequest(method_, path, body)))
  {
    assert IsPath(method_);
    var line := RequestLine(method_, path);
    var t := Request(method_, path, headers, body);
    forall i | 0 <= i < |line| ensures line[i] != CR && line[i] != LF { LineHasNoBreak(method_, path, i); }
    assert line != [];
    hide RequestLine, FirstLine, FirstWord, SecondWord, HeaderEnd, IsHeaders, IsPath, Line;
    LineWords(method_, path);
    HeadersEnd(line, headers, body);
    Parts(line, headers, body);
    FirstLineIs(line, headers + BREAK + body);
  }

  /** ... also from the bytes, if the whole is ASCII. */
  lemma WrittenBytesAreParsed(b: seq<byte>, method_: seq<scalar>, path: seq<scalar>, headers: seq<scalar>,
                              body: seq<scalar>)
    requires method_ == [71, 69, 84] || method_ == [80, 79, 83, 84]
    requires IsPath(path) && IsHeaders(headers)
    requires |b| == |Request(method_, path, headers, body)|
    requires forall i :: 0 <= i < |b| ==> b[i] == Request(method_, path, headers, body)[i] && b[i] < 0x80
    ensures ParseRequest(b) == Done(Ok(HttpRequest(method_, path, body)))
  {
    assert Text(b) == Request(method_, path, headers, body);
    AsciiDecodes(b);
    hide ParseText, Request, IsPath, IsHeaders;
    WrittenIsParsed(method_, path, headers, body);
  }

  // ----- characters

  /** A character: no surrogate. */
  predicate IsCharacter(c: scalar)
  {
    !(0xD800 <= c < 0xE000)
  }

  /** UTF-8, section 3 of RFC 3629. */
  function Encode(c: scalar): (b: seq<byte>)
    ensures 1 <= |b| <= 4
  {
    if c < 0x80 then [c]
    else if c < 0x800 then [0xC0 + c / 0x40, 0x80 + c % 0x40]
    else if c < 0x1_0000 then [0xE0 + c / 0x1000, 0x80 + c / 0x40 % 0x40, 0x80 + c % 0x40]
    else [0xF0 + c / 0x4_0000, 0x80 + c / 0x1000 % 0x40, 0x80 + c / 0x40 % 0x40, 0x80 + c % 0x40]
  }

  function EncodeAll(t: seq<scalar>): seq<byte>
  {
    if t == [] then [] else Encode(t[0]) + EncodeAll(t[1..])
  }

  lemma TwoBytes(c: scalar, rest: seq<byte>)
    requires 0x80 <= c < 0x800
    ensures var b := Encode(c) + rest; Width(b) == 2 && CharAt(b, 2) == c
  {
    var b := Encode(c) + rest;
    assert b[0] == 0xC0 + c / 0x40 && b[1] == 0x80 + c % 0x40;
    assert 2 <= c / 0x40 < 0x20;
    hide Encode;
  }

  lemma ThreeBytes(c: scalar, rest: seq<byte>)
    requires 0x800 <= c < 0x1_0000 && IsCharacter(c)
    ensures var b := Encode(c) + rest; Width(b) == 3 && CharAt(b, 3) == c
  {
    var b := Encode(c) + rest;
    var x, y, z := c / 0x1000, c / 0x40 % 0x40, c % 0x40;
    assert b[0] == 0xE0 + x && b[1] == 0x80 + y && b[2] == 0x80 + z;
    assert c == 0x1000 * x + 0x40 * y + z by { assert c / 0x40 == 0x40 * x + y; }
    hide Encode;
  }

  lemma FourBytes(c: scalar, rest: seq<byte>)
    requires 0x1_0000 <= c
    ensures var b := Encode(c) + rest; Width(b) == 4 && CharAt(b, 4) == c
  {
    var b := Encode(c) + rest;
    var x, y, z, u := c / 0x4_0000, c / 0x1000 % 0x40, c / 0x40 % 0x40, c % 0x40;
    assert b[0] == 0xF0 + x && b[1] == 0x80 + y && b[2] == 0x80 + z && b[3] == 0x80 + u;
    assert c == 0x4_0000 * x + 0x1000 * y + 0x40 * z + u by {
      assert c / 0x1000 == 0x40 * x + y;
      assert c / 0x40 == 0x1000 * x + 0x40 * y + z;
    }
    hide Encode;
  }

  lemma EncodedSize(c: scalar)
    ensures |Encode(c)| == if c < 0x80 then 1 else if c < 0x800 then 2 else if c < 0x1_0000 then 3 else 4
  {}

  lemma EncodedCharacter(c: scalar, rest: seq<byte>)
    requires IsCharacter(c)
    ensures Width(Encode(c) + rest) == |Encode(c)| && CharAt(Encode(c) + rest, |Encode(c)|) == c
  {
    if c < 0x80 {
      assert (Encode(c) + rest)[0] == c;
    } else {
      EncodedSize(c);
      hide Width, CharAt, Encode;
      if c < 0x800 {
        TwoBytes(c, rest);
      } else if c < 0x1_0000 {
        ThreeBytes(c, rest);
      } else {
        FourBytes(c, rest);
      }
    }
  }

  /** The bits of a character, apart. */
  lemma Bits(x: nat, y: nat, z: nat, u: nat)
    requires y < 0x40 && z < 0x40 && u < 0x40
    ensures var c := 0x40 * x + y; c / 0x40 == x && c % 0x40 == y
    ensures var c := 0x1000 * x + 0x40 * y + z; c / 0x1000 == x && c / 0x40 % 0x40 == y && c % 0x40 == z
    ensures var c := 0x4_0000 * x + 0x1000 * y + 0x40 * z + u;
            c / 0x4_0000 == x && c / 0x1000 % 0x40 == y && c / 0x40 % 0x40 == z && c % 0x40 == u
  {
    var d := 0x1000 * x + 0x40 * y + z;
    assert d / 0x40 == 0x40 * x + y && d / 0x1000 == x;
    var c := 0x40 * d + u;
    assert c / 0x40 == d && c / 0x1000 == 0x40 * x + y;
  }

  lemma TwoEncoded(b: seq<byte>)
    requires Width(b) == 2
    ensures IsCharacter(CharAt(b, 2)) && Encode(CharAt(b, 2)) == b[..2]
  {
    Bits(b[0] - 0xC0, b[1] - 0x80, 0, 0);
    assert b[..2] == [b[0], b[1]];
  }

  lemma ThreeEncoded(b: seq<byte>)
    requires Width(b) == 3
    ensures IsCharacter(CharAt(b, 3)) && Encode(CharAt(b, 3)) == b[..3]
  {
    Bits(b[0] - 0xE0, b[1] - 0x80, b[2] - 0x80, 0);
    assert b[..3] == [b[0], b[1], b[2]];
  }

  lemma FourEncoded(b: seq<byte>)
    requires Width(b) == 4
    ensures IsCharacter(CharAt(b, 4)) && Encode(CharAt(b, 4)) == b[..4]
  {
    Bits(b[0] - 0xF0, b[1] - 0x80, b[2] - 0x80, b[3] - 0x80);
    assert b[..4] == [b[0], b[1], b[2], b[3]];
  }

  lemma CharacterEncoded(b: seq<byte>)
    requires Width(b) > 0
    ensures IsCharacter(CharAt(b, Width(b))) && Encode(CharAt(b, Width(b))) == b[..Width(b)]
  {
    var w := Width(b);
    if w == 1 {
      assert b[..1] == [b[0]];
    } else {
      hide Width, CharAt, Encode, IsCharacter;
      if w == 2 {
        TwoEncoded(b);
      } else if w == 3 {
        ThreeEncoded(b);
      } else {
        FourEncoded(b);
      }
    }
  }

  predicate AreCharacters(t: seq<scalar>)
  {
    forall i :: 0 <= i < |t| ==> IsCharacter(t[i])
  }

  /** Every text is decoded from its encoding. */
  lemma {:induction false} EncodedIsDecoded(t: seq<scalar>)
    requires AreCharacters(t)
    ensures DecodeUtf8(EncodeAll(t)) == Some(t)
  {
    if t != [] {
      EncodedIsDecoded(t[1..]);
      EncodedCharacter(t[0], EncodeAll(t[1..]));
      hide Width, CharAt, Encode;
      assert (Encode(t[0]) + EncodeAll(t[1..]))[|Encode(t[0])|..] == EncodeAll(t[1..]);
      assert t == [t[0]] + t[1..];
    }
  }

  lemma ConsEncoded(c: scalar, rest: seq<scalar>)
    ensures EncodeAll([c] + rest) == Encode(c) + EncodeAll(rest)
    ensures AreCharacters([c] + rest) <==> IsCharacter(c) && AreCharacters(rest)
  {
    hide Encode, IsCharacter;
    var t := [c] + rest;
    assert t[1..] == rest;
    assert forall i :: 0 <= i < |rest| ==> t[i + 1] == rest[i];
    assert forall i :: 1 <= i < |t| ==> t[i] == rest[i - 1];
  }

  /** What decodes is the encoding of the text, byte for byte. */
  lemma {:induction false} DecodedIsEncoded(b: seq<byte>)
    requires DecodeUtf8(b).Some?
    ensures AreCharacters(DecodeUtf8(b).value) && EncodeAll(DecodeUtf8(b).value) == b
  {
    if b != [] {
      var w := Width(b);
      var c, rest := CharAt(b, w), DecodeUtf8(b[w..]).value;
      hide Width, CharAt, Encode, DecodeUtf8;
      CharacterEncoded(b);
      DecodedIsEncoded(b[w..]);
      ConsEncoded(c, rest);
      TakeDrop(b, w);
    }
  }
}
