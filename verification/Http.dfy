/** `Httpserver::parse_request`, and what it makes of every prefix of a request. */
module Http {
  import opened Wire

  type scalar = c: int | 0 <= c < 0x11_0000

  const TAB: scalar := 9
  const LF: scalar := 10
  const CR: scalar := 13

  const GET: seq<scalar> := [71, 69, 84]
  const POST: seq<scalar> := [80, 79, 83, 84]

  // ----- text

  predicate Continuation(b: byte) { 0x80 <= b < 0xC0 }

  /** The number of bytes of the character that starts `b`; 0 if no well-formed character does. */
  function Width(b: seq<byte>): (w: nat)
    ensures w <= |b| && w <= 4
  {
    if b == [] then 0
    else if b[0] < 0x80 then 1
    else if |b| < 2 || !Continuation(b[1]) then 0
    else if 0xC2 <= b[0] < 0xE0 then 2
    else if |b| < 3 || !Continuation(b[2]) then 0
    else if 0xE0 <= b[0] < 0xF0 then
      if (b[0] == 0xE0 && b[1] < 0xA0) || (b[0] == 0xED && b[1] >= 0xA0) then 0 else 3
    else if |b| < 4 || !Continuation(b[3]) then 0
    else if 0xF0 <= b[0] < 0xF5 then
      if (b[0] == 0xF0 && b[1] < 0x90) || (b[0] == 0xF4 && b[1] >= 0x90) then 0 else 4
    else 0
  }

  /** The character made of the `w` bytes that start `b`. */
  function CharAt(b: seq<byte>, w: nat): scalar
    requires w == Width(b) > 0
  {
    var x0: int := b[0];
    if w == 1 then x0
    else if w == 2 then (x0 - 0xC0) * 0x40 + (b[1] as int - 0x80)
    else if w == 3 then (x0 - 0xE0) * 0x1000 + (b[1] as int - 0x80) * 0x40 + (b[2] as int - 0x80)
    else (x0 - 0xF0) * 0x4_0000 + (b[1] as int - 0x80) * 0x1000 + (b[2] as int - 0x80) * 0x40 + (b[3] as int - 0x80)
  }

  /** `String::from_utf8`. */
  function DecodeUtf8(b: seq<byte>): Option<seq<scalar>>
  {
    if b == [] then Some([])
    else
      var w := Width(b);
      if w == 0 then None
      else
        match DecodeUtf8(b[w..])
        case None => None
        case Some(rest) => Some([CharAt(b, w)] + rest)
  }

  /** `char::is_whitespace`. */
  predicate IsSpace(c: scalar)
  {
    || TAB <= c <= CR || c == 0x20 || c == 0x85 || c == 0xA0 || c == 0x1680 || 0x2000 <= c <= 0x200A
    || c == 0x2028 || c == 0x2029 || c == 0x202F || c == 0x205F || c == 0x3000
  }

  /** The index of the first line feed at or after `i`, or the end. */
  function Newline(t: seq<scalar>, i: nat): (n: nat)
    requires i <= |t|
    ensures i <= n <= |t| && (n < |t| ==> t[n] == LF)
    decreases |t| - i
  {
    if i == |t| || t[i] == LF then i else Newline(t, i + 1)
  }

  /** `lines().next()`: up to the first line feed, without it and without a carriage return before it. */
  function FirstLine(t: seq<scalar>): seq<scalar>
  {
    var n := Newline(t, 0);
    if 0 < n < |t| && t[n - 1] == CR then t[..n - 1] else t[..n]
  }

  /** The first index at or after `i` that is not a space, or the end. */
  function SkipSpace(t: seq<scalar>, i: nat): (n: nat)
    requires i <= |t|
    ensures i <= n <= |t| && (n < |t| ==> !IsSpace(t[n]))
    decreases |t| - i
  {
    if i == |t| || !IsSpace(t[i]) then i else SkipSpace(t, i + 1)
  }

  /** The first index at or after `i` that is a space, or the end. */
  function SkipWord(t: seq<scalar>, i: nat): (n: nat)
    requires i <= |t|
    ensures i <= n <= |t| && (n < |t| ==> IsSpace(t[n]))
    decreases |t| - i
  {
    if i == |t| || IsSpace(t[i]) then i else SkipWord(t, i + 1)
  }

  /** Where the first word starts and ends and the second starts (`split_whitespace`). */
  function WordStart(t: seq<scalar>): (n: nat) ensures n <= |t| { SkipSpace(t, 0) }

  function WordEnd(t: seq<scalar>): (n: nat) ensures WordStart(t) <= n <= |t| { SkipWord(t, WordStart(t)) }

  function NextStart(t: seq<scalar>): (n: nat) ensures WordEnd(t) <= n <= |t| { SkipSpace(t, WordEnd(t)) }

  /** `split_whitespace().nth(0).unwrap_or("")`. */
  function FirstWord(t: seq<scalar>): seq<scalar> { t[WordStart(t)..WordEnd(t)] }

  /** `split_whitespace().nth(1)`. */
  function SecondWord(t: seq<scalar>): Option<seq<scalar>>
  {
    var s := NextStart(t);
    if s == |t| then None else Some(t[s..SkipWord(t, s)])
  }

  predicate EndsAt(t: seq<scalar>, i: nat)
  {
    i + 4 <= |t| && t[i] == CR && t[i + 1] == LF && t[i + 2] == CR && t[i + 3] == LF
  }

  /** `find("\\r\\n\\r\\n")` from `i` on. */
  function HeaderEnd(t: seq<scalar>, i: nat): (r: Option<nat>)
    requires i <= |t|
    ensures r.Some? ==> i <= r.value && EndsAt(t, r.value)
    decreases |t| - i
  {
    if EndsAt(t, i) then Some(i)
    else if i == |t| then None
    else HeaderEnd(t, i + 1)
  }

  // ----- parsing

  datatype HttpError = ParseError | CallbackNotFound | Unsupported

  datatype HttpRequest = HttpRequest(method_: seq<scalar>, path: seq<scalar>, body: seq<scalar>)

  datatype Parsed = Ok(request: HttpRequest) | Err(error: HttpError)

  predicate Supported(m: seq<scalar>) { m == GET || m == POST }

  /** `parse_request` up to the choice of handler, on decoded text. No text has no first line, and a first line
      with a method but no second word fails an `unwrap`: both panic. */
  function ParseText(t: seq<scalar>): Outcome<Parsed>
  {
    if t == [] then Panic
    else
      var line := FirstLine(t);
      if !Supported(FirstWord(line)) then Done(Err(Unsupported))
      else if SecondWord(line).None? then Panic
      else
        match HeaderEnd(t, 0)
        case None => Done(Err(ParseError))
        case Some(e) => Done(Ok(HttpRequest(FirstWord(line), SecondWord(line).value, t[e + 4..])))
  }

  function ParseRequest(buf: seq<byte>): Outcome<Parsed>
  {
    match DecodeUtf8(buf)
    case None => Done(Err(ParseError))
    case Some(t) => ParseText(t)
  }

  // ----- prefixes

  lemma {:induction false} NewlinePrefix(t: seq<scalar>, l: nat, i: nat)
    requires i <= l <= |t|
    ensures Newline(t[..l], i) == Min(l, Newline(t, i))
    decreases l - i
  {
    if i < l { NewlinePrefix(t, l, i + 1); }
  }

  lemma {:induction false} SkipSpacePrefix(t: seq<scalar>, l: nat, i: nat)
    requires i <= l <= |t|
    ensures SkipSpace(t[..l], i) == Min(l, SkipSpace(t, i))
    decreases l - i
  {
    if i < l { SkipSpacePrefix(t, l, i + 1); }
  }

  lemma {:induction false} SkipWordPrefix(t: seq<scalar>, l: nat, i: nat)
    requires i <= l <= |t|
    ensures SkipWord(t[..l], i) == Min(l, SkipWord(t, i))
    decreases l - i
  {
    if i < l { SkipWordPrefix(t, l, i + 1); }
  }

  /** Cutting a line moves its word boundaries no further than the cut. */
  lemma WordsPrefix(t: seq<scalar>, l: nat)
    requires l <= |t|
    ensures WordStart(t[..l]) == Min(l, WordStart(t))
    ensures WordEnd(t[..l]) == Min(l, WordEnd(t))
    ensures NextStart(t[..l]) == Min(l, NextStart(t))
  {
    SkipSpacePrefix(t, l, 0);
    SkipWordPrefix(t, l, Min(l, WordStart(t)));
    if WordStart(t) >= l { assert SkipWord(t[..l], l) == l; }
    SkipSpacePrefix(t, l, Min(l, WordEnd(t)));
    if WordEnd(t) >= l { assert SkipSpace(t[..l], l) == l; }
  }

  /** The text before the first line feed; a carriage return at its end is a space and does not matter. */
  function Line(t: seq<scalar>): seq<scalar> { t[..Newline(t, 0)] }

  lemma {:induction false} SkipWordFirst(t: seq<scalar>, i: nat, k: nat)
    requires i <= k < |t| && IsSpace(t[k])
    ensures SkipWord(t, i) <= k
    decreases k - i
  {
    if !IsSpace(t[i]) { SkipWordFirst(t, i + 1, k); }
  }

  lemma TrailingSpaceIrrelevant(u: seq<scalar>)
    requires u != [] && IsSpace(u[|u| - 1])
    ensures FirstWord(u[..|u| - 1]) == FirstWord(u)
    ensures SecondWord(u[..|u| - 1]) == SecondWord(u)
  {
    var k := |u| - 1;
    var v := u[..k];
    WordsPrefix(u, k);
    var a, b, c := WordStart(u), WordEnd(u), NextStart(u);
    if a < |u| {
      SkipWordFirst(u, a, k);
      SliceOfTake(u, k, a, b);
    } else {
      assert FirstWord(u) == [] == FirstWord(v);
    }
    assert c < |u| ==> c < k;
    if c < |u| {
      SkipWordPrefix(u, k, c);
      SkipWordFirst(u, c, k);
      SliceOfTake(u, k, c, SkipWord(u, c));
    }
  }

  lemma CarriageReturnIrrelevant(t: seq<scalar>)
    ensures FirstWord(FirstLine(t)) == FirstWord(Line(t))
    ensures SecondWord(FirstLine(t)) == SecondWord(Line(t))
  {
    var u := Line(t);
    var k := |FirstLine(t)|;
    if k < |u| {
      assert FirstLine(t) == u[..k] && IsSpace(u[k]);
      TrailingSpaceIrrelevant(u);
    }
  }

  /** What the first line of a prefix is. */
  lemma LinePrefix(t: seq<scalar>, l: nat)
    requires l <= |t|
    ensures Line(t[..l]) == if l <= |Line(t)| then Line(t)[..l] else Line(t)
  {
    NewlinePrefix(t, l, 0);
  }

  // ----- what every prefix of a complete request parses to

  /** A text that parses to a request, with where its words and its header end lie. */
  predicate Complete(t: seq<scalar>)
  {
    t != [] && Supported(FirstWord(Line(t))) && SecondWord(Line(t)).Some? && HeaderEnd(t, 0).Some?
  }

  lemma CompleteExactly(t: seq<scalar>)
    ensures Complete(t) <==> ParseText(t).Done? && ParseText(t).value.Ok?
    ensures Complete(t) ==>
              ParseText(t).value.request == HttpRequest(FirstWord(Line(t)), SecondWord(Line(t)).value,
                                                        t[HeaderEnd(t, 0).value + 4..])
  {
    CarriageReturnIrrelevant(t);
  }

  /** Parsing a prefix, on its own first line. */
  lemma ParseByLine(t: seq<scalar>)
    requires t != []
    ensures ParseText(t) ==
              if !Supported(FirstWord(Line(t))) then Done(Err(Unsupported))
              else if SecondWord(Line(t)).None? then Panic
              else if HeaderEnd(t, 0).None? then Done(Err(ParseError))
              else Done(Ok(HttpRequest(FirstWord(Line(t)), SecondWord(Line(t)).value,
                                       t[HeaderEnd(t, 0).value + 4..])))
  {
    CarriageReturnIrrelevant(t);
  }

  /** Part of a method is no method. */
  lemma PartOfMethod(m: seq<scalar>, k: nat)
    requires Supported(m) && k < |m|
    ensures !Supported(m[..k])
  {
    assert m[..k] != GET by { if m == POST && k == 3 { assert m[..k][0] == 80; } }
  }

  /** The words of a line cut at `l`. */
  lemma CutLine(u: seq<scalar>, l: nat)
    requires l <= |u| && Supported(FirstWord(u)) && NextStart(u) < |u|
    ensures l < WordEnd(u) ==> !Supported(FirstWord(u[..l]))
    ensures l >= WordEnd(u) ==> FirstWord(u[..l]) == FirstWord(u)
    ensures l <= NextStart(u) ==> SecondWord(u[..l]).None?
    ensures l > NextStart(u) ==> SecondWord(u[..l]).Some?
  {
    WordsPrefix(u, l);
    var a, b := WordStart(u), WordEnd(u);
    if l <= a {
      assert FirstWord(u[..l]) == [];
    } else if l < b {
      SliceSplit(u, a, b, l - a);
      SliceOfTake(u, l, a, l);
      assert FirstWord(u[..l]) == FirstWord(u)[..l - a];
      PartOfMethod(FirstWord(u), l - a);
    } else {
      SliceOfTake(u, l, a, b);
    }
  }

  lemma {:induction false} NoHeaderEndInTail(t: seq<scalar>, i: nat)
    requires i <= |t| < i + 4
    ensures HeaderEnd(t, i).None?
    decreases |t| - i
  {
    if i < |t| { NoHeaderEndInTail(t, i + 1); }
  }

  lemma {:induction false} HeaderEndPrefix(t: seq<scalar>, l: nat, i: nat)
    requires i <= l <= |t| && HeaderEnd(t, i).Some?
    ensures HeaderEnd(t[..l], i) == if l < HeaderEnd(t, i).value + 4 then None else HeaderEnd(t, i)
    decreases l - i
  {
    assert EndsAt(t[..l], i) <==> EndsAt(t, i) && i + 4 <= l;
    if EndsAt(t, i) {
      if i + 4 > l { NoHeaderEndInTail(t[..l], i); }
    } else if i < l {
      HeaderEndPrefix(t, l, i + 1);
    }
  }

  lemma {:induction false} NewlineFirst(t: seq<scalar>, i: nat, k: nat)
    requires i <= k < |t| && t[k] == LF
    ensures Newline(t, i) <= k
    decreases k - i
  {
    if t[i] != LF { NewlineFirst(t, i + 1, k); }
  }

  /** The first line ends inside the header end at the latest. */
  lemma LineBeforeHeaderEnd(t: seq<scalar>)
    requires HeaderEnd(t, 0).Some?
    ensures |Line(t)| <= HeaderEnd(t, 0).value + 1
  {
    NewlineFirst(t, 0, HeaderEnd(t, 0).value + 1);
  }

  /** The lengths at which a request may not be cut: from the end of its method to the start of its path, both
      included, and before its first character. */
  predicate BadCut(t: seq<scalar>, l: nat)
  {
    l == 0 || WordEnd(Line(t)) <= l <= NextStart(Line(t))
  }

  /** The length of the shortest prefix with the blank line that ends the headers. */
  function HeaderLength(t: seq<scalar>): nat
    requires Complete(t)
  {
    HeaderEnd(t, 0).value + 4
  }

  /** The request as parsed when `l` characters of it have arrived. */
  function Received(t: seq<scalar>, l: nat): HttpRequest
    requires Complete(t) && HeaderLength(t) <= l <= |t|
  {
    HttpRequest(FirstWord(Line(t)), SecondWord(Line(t)).value, t[HeaderLength(t)..l])
  }

  lemma WithinLine(t: seq<scalar>, l: nat)
    requires Complete(t) && 0 < l <= |Line(t)|
    ensures ParseText(t[..l]) ==
              if l < WordEnd(Line(t)) then Done(Err(Unsupported))
              else if l <= NextStart(Line(t)) then Panic
              else Done(Err(ParseError))
  {
    LineBeforeHeaderEnd(t);
    LinePrefix(t, l);
    ParseByLine(t[..l]);
    HeaderEndPrefix(t, l, 0);
    CutLine(Line(t), l);
  }

  lemma PastLine(t: seq<scalar>, l: nat)
    requires Complete(t) && |Line(t)| < l <= |t|
    ensures var m, p, e := FirstWord(Line(t)), SecondWord(Line(t)).value, HeaderEnd(t, 0).value;
            ParseText(t[..l]) ==
              if l < e + 4 then Done(Err(ParseError)) else Done(Ok(HttpRequest(m, p, t[e + 4..l])))
  {
    LinePrefix(t, l);
    ParseByLine(t[..l]);
    HeaderEndPrefix(t, l, 0);
    var e := HeaderEnd(t, 0).value;
    hide ParseText, Line, FirstWord, SecondWord, Supported, EndsAt, HeaderEnd;
    if l >= e + 4 {
      DropOfTake(t, l, e + 4);
    }
  }

  /** Every prefix of a complete request: it panics exactly when cut before its first character or between the
      method and the first character of the path; it fails as unsupported while the method is cut short, fails to
      parse until the blank line is complete, and from then on parses with the one method and path and the body
      received so far. */
  lemma PrefixParses(t: seq<scalar>, l: nat)
    requires Complete(t) && l <= |t|
    ensures ParseText(t[..l]).Panic? <==> BadCut(t, l)
    ensures !BadCut(t, l) ==>
              ParseText(t[..l]).value ==
                if l < WordEnd(Line(t)) then Err(Unsupported)
                else if l < HeaderLength(t) then Err(ParseError)
                else Ok(Received(t, l))
    ensures NextStart(Line(t)) < HeaderLength(t)
  {
    LineBeforeHeaderEnd(t);
    if l > |Line(t)| {
      PastLine(t, l);
    } else if l > 0 {
      WithinLine(t, l);
    }
  }

  // ----- what more text does to a complete request

  lemma {:induction false} HeaderEndStays(t: seq<scalar>, more: seq<scalar>, i: nat)
    requires i <= |t| && HeaderEnd(t, i).Some?
    ensures HeaderEnd(t + more, i) == HeaderEnd(t, i)
    decreases |t| - i
  {
    if |t| < i + 4 {
      NoHeaderEndInTail(t, i);
    } else if !EndsAt(t, i) {
      HeaderEndStays(t, more, i + 1);
    }
  }

  /** A complete request stays complete, with the same headers, whatever follows it. */
  lemma CompleteStays(t: seq<scalar>, more: seq<scalar>)
    requires Complete(t)
    ensures Complete(t + more) && Line(t + more) == Line(t) && HeaderLength(t + more) == HeaderLength(t)
  {
    var u := t + more;
    LineBeforeHeaderEnd(t);
    assert u[..|t|] == t;
    LinePrefix(u, |t|);
    HeaderEndStays(t, more, 0);
  }

  // ----- ASCII requests

  predicate Ascii(b: seq<byte>)
  {
    forall i :: 0 <= i < |b| ==> b[i] < 0x80
  }

  function Text(b: seq<byte>): (t: seq<scalar>)
    ensures |t| == |b|
  {
    seq(|b|, i requires 0 <= i < |b| => b[i] as int)
  }

  lemma {:induction false} AsciiDecodes(b: seq<byte>)
    requires Ascii(b)
    ensures DecodeUtf8(b) == Some(Text(b))
  {
    if b != [] {
      AsciiDecodes(b[1..]);
      assert Width(b) == 1 && CharAt(b, 1) == b[0];
      assert [CharAt(b, 1)] + Text(b[1..]) == Text(b);
    }
  }

  lemma AsciiPrefix(b: seq<byte>, l: nat)
    requires Ascii(b) && l <= |b|
    ensures ParseRequest(b[..l]) == ParseText(Text(b)[..l])
  {
    AsciiDecodes(b[..l]);
    assert Text(b[..l]) == Text(b)[..l];
  }

  lemma TextConcat(a: seq<byte>, b: seq<byte>)
    ensures Text(a + b) == Text(a) + Text(b)
  {}
}
