/** The two HTTP handlers, as far as they decide whether the firmware goes on. */
module Handlers {
  import opened Wire
  import opened Http
  import opened Server
  import opened WebRequests

  const RGB: seq<scalar> := [47, 114, 103, 98] // "/rgb"

  function CharBytes(s: string): seq<byte>
  {
    seq(|s|, i requires 0 <= i < |s| => s[i] as int % 0x100)
  }

  /** `gen_http_header(None, Text, None)`. */
  const EMPTY_RESPONSE: seq<byte> :=
    CharBytes("HTTP/1.1 200 OK\r\n")
    + CharBytes("Content-Type: text/html\r\nContent-Length: 0\r\nConnection: close\r\n\r\n")

  const NOT_FOUND: seq<byte> :=
    CharBytes("HTTP/1.1 404 Not Found\r\n")
    + CharBytes("Content-Type: text/plain\r\nContent-Length: 13\r\nConnection: close\r\n\r\n404 Not Found")

  /** The value of a hexadecimal digit. */
  function HexDigit(c: scalar): Option<nat>
  {
    if 48 <= c <= 57 then Some(c - 48)
    else if 65 <= c <= 70 then Some(c - 55)
    else if 97 <= c <= 102 then Some(c - 87)
    else None
  }

  /** `u8::from_str_radix(s, 16)` on two characters: a plus sign may stand for the first digit. */
  function HexPair(c: scalar, d: scalar): Option<byte>
  {
    if HexDigit(d).None? then None
    else if c == 43 then Some(HexDigit(d).value)
    else if HexDigit(c).None? then None
    else Some(16 * HexDigit(c).value + HexDigit(d).value)
  }

  datatype Rgb = Rgb(r: byte, g: byte, b: byte)

  /** The colour in a body: one character of one byte, then three pairs of digits. None stands for a panic: a slice
      beyond the body or inside a character, or a pair that is no number. */
  function Colour(body: seq<scalar>): Option<Rgb>
  {
    if |body| < 7 || body[0] >= 0x80 then None
    else
      match (HexPair(body[1], body[2]), HexPair(body[3], body[4]), HexPair(body[5], body[6]))
      case (Some(r), Some(g), Some(b)) => Some(Rgb(r, g, b))
      case _ => None
  }

  /** `HttpPostHandle`. */
  function PostHandle(request: HttpRequest): Outcome<seq<byte>>
  {
    if request.path == RGB then
      if Colour(request.body).Some? then Done(EMPTY_RESPONSE) else Panic
    else Done(NOT_FOUND)
  }

  /** The choice of handler by method. The GET handler serves fixed files and statistics and cannot panic; it is any
      function from requests to responses. */
  function Callbacks(get: HttpRequest -> seq<byte>): Respond
  {
    (request: HttpRequest) => if request.method_ == POST then PostHandle(request) else Done(get(request))
  }

  /** Only the first seven characters of a body matter. */
  lemma ColourOfPrefix(body: seq<scalar>, k: nat)
    requires k <= |body|
    ensures Colour(body[..k]) == if k < 7 then None else Colour(body)
  {}

  // ----- colours and responses, character by character

  /** The digits in lower or upper case. */
  predicate IsHex(c: scalar)
  {
    '0' as int <= c <= '9' as int || 'a' as int <= c <= 'f' as int || 'A' as int <= c <= 'F' as int
  }

  /** The digit for a value. */
  function Digit(n: nat, upper: bool): scalar
    requires n < 16
  {
    if n < 10 then '0' as int + n else (if upper then 'A' as int else 'a' as int) + n - 10
  }

  /** A pair of digits, the first of which may be a plus sign. */
  predicate IsPair(c: scalar, d: scalar)
  {
    (IsHex(c) || c == '+' as int) && IsHex(d)
  }

  /** Which bodies have a colour. */
  lemma ColourExactly(body: seq<scalar>)
    ensures Colour(body).Some? <==>
            && |body| >= 7 && body[0] < 0x80
            && IsPair(body[1], body[2]) && IsPair(body[3], body[4]) && IsPair(body[5], body[6])
  {}

  /** A colour component in two digits. */
  function TwoDigits(n: byte, upper: bool): (t: seq<scalar>)
    ensures |t| == 2
  {
    [Digit(n / 16, upper), Digit(n % 16, upper)]
  }

  lemma PairValue(n: byte, upper: bool)
    ensures HexPair(TwoDigits(n, upper)[0], TwoDigits(n, upper)[1]) == Some(n)
  {}

  /** Writing a colour in either case and reading it gives the colour, whatever one-byte character comes first and
      whatever follows. */
  lemma ColourRoundTrip(mark: scalar, c: Rgb, upper: bool, rest: seq<scalar>)
    requires mark < 0x80
    ensures Colour([mark] + TwoDigits(c.r, upper) + TwoDigits(c.g, upper) + TwoDigits(c.b, upper) + rest) == Some(c)
  {
    PairValue(c.r, upper);
    PairValue(c.g, upper);
    PairValue(c.b, upper);
    hide HexPair, TwoDigits;
  }

  /** The status in a response. */
  function Status(response: seq<byte>): seq<byte>
  {
    if |response| < 12 then [] else response[9..12]
  }

  lemma StatusBytes()
    ensures Status(EMPTY_RESPONSE) == ['2' as int, '0' as int, '0' as int]
    ensures Status(NOT_FOUND) == ['4' as int, '0' as int, '4' as int]
  {
    var ok, missing := "HTTP/1.1 200 OK\r\n", "HTTP/1.1 404 Not Found\r\n";
    assert ok[9] == '2' && ok[10] == '0' && ok[11] == '0';
    assert missing[9] == '4' && missing[10] == '0' && missing[11] == '4';
    assert |ok| >= 12 && |missing| >= 12;
  }

  /** The answer to a POST: to "/rgb" a panic without a colour and a response of status 200 with one, to every other
      path one of status 404. */
  lemma PostAnswers(method_: seq<scalar>, path: seq<scalar>, body: seq<scalar>)
    ensures var r := PostHandle(HttpRequest(method_, path, body));
            if path == ['/' as int, 'r' as int, 'g' as int, 'b' as int] then
              && (r.Panic? <==> Colour(body).None?)
              && (r.Done? ==> Status(r.value) == ['2' as int, '0' as int, '0' as int])
            else r.Done? && Status(r.value) == ['4' as int, '0' as int, '4' as int]
  {
    StatusBytes();
    hide Colour, EMPTY_RESPONSE, NOT_FOUND;
  }

  /** The choice by method: "POST" goes to that handler, everything else to the other. */
  lemma CallbackByMethod(get: HttpRequest -> seq<byte>, request: HttpRequest)
    ensures Callbacks(get)(request)
            == if request.method_ == ['P' as int, 'O' as int, 'S' as int, 'T' as int] then PostHandle(request)
               else Done(get(request))
  {
    hide PostHandle;
  }

  /** The request sets a colour. */
  predicate PostsColour(request: seq<byte>)
    requires IsRequest(request)
  {
    var r := RequestSoFar(request, |request|);
    r.method_ == POST && r.path == RGB
  }

  lemma BodySoFar(request: seq<byte>, l: nat)
    requires IsRequest(request) && HeaderBytes(request) <= l <= |request|
    ensures var whole, r := RequestSoFar(request, |request|), RequestSoFar(request, l);
            && r.method_ == whole.method_ && r.path == whole.path
            && l - HeaderBytes(request) <= |whole.body| && r.body == whole.body[..l - HeaderBytes(request)]
  {}

  /** Which cuts of a request the handlers do not survive: those of a colour request that bring fewer than seven bytes
      of its body with the headers, and all of them if the body has no colour. */
  lemma HandlerPanicsExactly(get: HttpRequest -> seq<byte>, request: seq<byte>, l: nat)
    requires IsRequest(request) && HeaderBytes(request) <= l <= |request|
    ensures Callbacks(get)(RequestSoFar(request, l)).Panic?
            <==> PostsColour(request)
                 && (l < HeaderBytes(request) + 7 || Colour(RequestSoFar(request, |request|).body).None?)
  {
    BodySoFar(request, l);
    hide RequestSoFar, HeaderBytes, IsRequest, Colour, EMPTY_RESPONSE, NOT_FOUND;
    ColourOfPrefix(RequestSoFar(request, |request|).body, l - HeaderBytes(request));
  }

  /** The receives of an ASCII request that halt the firmware: one that ends between method and path; and, of a
      request that sets a colour, the one that completes the headers, unless it also brings the first seven bytes
      of a body with a colour. */
  lemma FatalExactly(get: HttpRequest -> seq<byte>, request: seq<byte>, l: nat)
    requires IsRequest(request) && l <= |request|
    ensures Fatal(request, l, Callbacks(get))
            <==> || CutsBadly(request, l)
                 || (HeaderBytes(request) <= l && PostsColour(request)
                     && (l < HeaderBytes(request) + 7 || Colour(RequestSoFar(request, |request|).body).None?))
  {
    hide RequestSoFar, HeaderBytes, IsRequest, CutsBadly, Callbacks, PostsColour, Colour;
    if HeaderBytes(request) <= l {
      HandlerPanicsExactly(get, request, l);
    }
  }

  /** `POST /rgb` with a blank line after it. */
  const BARE_POST: seq<byte> := [80, 79, 83, 84, 32, 47, 114, 103, 98, 13, 10, 13, 10]

  lemma BarePostHeader()
    ensures HeaderEnd(Text(BARE_POST), 0) == Some(9)
  {
    var t := Text(BARE_POST);
    assert HeaderEnd(t, 9) == Some(9);
    assert HeaderEnd(t, 5) == HeaderEnd(t, 6) == HeaderEnd(t, 7) == HeaderEnd(t, 8) == HeaderEnd(t, 9);
    assert HeaderEnd(t, 2) == HeaderEnd(t, 3) == HeaderEnd(t, 4) == HeaderEnd(t, 5);
    assert HeaderEnd(t, 0) == HeaderEnd(t, 1) == HeaderEnd(t, 2);
  }

  lemma BarePostLine()
    ensures Line(Text(BARE_POST)) == Text(BARE_POST[..10])
  {
    var t := Text(BARE_POST);
    assert Newline(t, 10) == 10;
    assert Newline(t, 5) == Newline(t, 6) == Newline(t, 7) == Newline(t, 8) == Newline(t, 9) == Newline(t, 10);
    assert Newline(t, 0) == Newline(t, 1) == Newline(t, 2) == Newline(t, 3) == Newline(t, 4) == Newline(t, 5);
  }

  lemma BarePostWords()
    ensures FirstWord(Text(BARE_POST[..10])) == POST && SecondWord(Text(BARE_POST[..10])) == Some(RGB)
  {
    var u := Text(BARE_POST[..10]);
    assert SkipSpace(u, 0) == 0;
    assert SkipWord(u, 4) == 4 == SkipWord(u, 3) == SkipWord(u, 2) == SkipWord(u, 1) == SkipWord(u, 0);
    assert SkipSpace(u, 5) == 5 == SkipSpace(u, 4);
    assert SkipWord(u, 9) == 9 == SkipWord(u, 8) == SkipWord(u, 7) == SkipWord(u, 6) == SkipWord(u, 5);
    assert u[0..4] == POST && u[5..9] == RGB;
  }

  lemma BarePostIsRequest()
    ensures IsRequest(BARE_POST) && HeaderBytes(BARE_POST) == |BARE_POST| && PostsColour(BARE_POST)
  {
    BarePostHeader();
    BarePostLine();
    BarePostWords();
    hide Text, Line, FirstWord, SecondWord, HeaderEnd;
    assert |Text(BARE_POST)| == |BARE_POST|;
  }

  lemma HeaderNotEmpty(request: seq<byte>)
    requires IsRequest(request)
    ensures 0 < HeaderBytes(request) && StartsWith(request, [] + request)
  {
    assert [] + request == request;
  }

  lemma NothingSince(ps: seq<Poll>)
    requires Run(ps).Done?
    ensures ps + [] == ps && Since(ps, []) == [] && Data([]) == []
  {
    assert ps + [] == ps;
  }

  /** A request received alone and nothing pending: the receive is fatal or not, whatever ran before. */
  lemma ReceivedAlone(request: seq<byte>, ps: seq<Poll>, p: Poll)
    requires Run(ps).Done? && Run(ps).value.web.rxbytes == [] && Receives(Run(ps).value.web, p)
    requires IsRequest(request) && p.recv.value == request
    ensures Run(ps + [p]).Panic? <==> Fatal(request, |request|, p.respond)
  {
    hide Run, Since, Fatal, IsRequest, HeaderBytes, Receives, Data, StartsWith, View, AnswerTo;
    NothingSince(ps);
    HeaderNotEmpty(request);
    SegmentationIndependence(request, ps, [], p);
  }

  /** The bare post received alone halts the firmware. */
  lemma BarePostHalts(get: HttpRequest -> seq<byte>, ps: seq<Poll>, p: Poll)
    requires Run(ps).Done? && Run(ps).value.web.rxbytes == [] && Receives(Run(ps).value.web, p)
    requires p.recv.value == BARE_POST && p.respond == Callbacks(get)
    ensures Run(ps + [p]).Panic?
  {
    BarePostIsRequest();
    hide BARE_POST, Callbacks, IsRequest, HeaderBytes, PostsColour, Run, Fatal, Receives;
    ReceivedAlone(BARE_POST, ps, p);
    FatalExactly(get, BARE_POST, |BARE_POST|);
  }
}
