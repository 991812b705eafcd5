/** Bytes after which the web server never answers again. */
module WebStuck {
  import opened Wire
  import opened Http
  import opened Server
  import opened WebRequests

  // ----- text

  /** The beginning of a supported method. */
  predicate Begins(w: seq<scalar>)
  {
    w <= GET || w <= POST
  }

  /** The first word of the first line is complete and no method, or is no beginning of one. */
  predicate Hopeless(t: seq<scalar>)
  {
    var w := FirstWord(Line(t));
    !Supported(w) && (WordEnd(Line(t)) < |t| || !Begins(w))
  }

  /** How the first line and its first word grow. */
  lemma LineGrows(t: seq<scalar>, more: seq<scalar>)
    ensures WordEnd(Line(t)) < |t| ==> FirstWord(Line(t + more)) == FirstWord(Line(t))
    ensures WordEnd(Line(t)) < |t| ==> WordEnd(Line(t + more)) == WordEnd(Line(t))
    ensures WordEnd(Line(t)) == |t| && WordStart(Line(t)) < |t| ==>
              FirstWord(Line(t)) <= FirstWord(Line(t + more))
  {
    var u := t + more;
    assert u[..|t|] == t;
    LinePrefix(u, |t|);
    if |t| <= |Line(u)| {
      WordsPrefix(Line(u), |t|);
      var a, b := WordStart(Line(u)), WordEnd(Line(u));
      if WordEnd(Line(t)) < |t| {
        SliceOfTake(Line(u), |t|, a, b);
      } else if WordStart(Line(t)) < |t| {
        SliceOfTake(Line(u), |t|, a, |t|);
        SliceSplit(Line(u), a, b, |t| - a);
      }
    }
  }

  lemma LineWithin(t: seq<scalar>)
    ensures WordStart(Line(t)) <= WordEnd(Line(t)) <= |t|
    ensures FirstWord(Line(t)) != [] ==> WordStart(Line(t)) < |t|
    ensures WordEnd(Line(t)) == |t| ==> Line(t) == t
  {}

  lemma HopelessStays(t: seq<scalar>, more: seq<scalar>)
    requires Hopeless(t)
    ensures Hopeless(t + more)
  {
    LineGrows(t, more);
    hide Line, WordEnd, WordStart;
    var v, w := FirstWord(Line(t)), FirstWord(Line(t + more));
    if WordEnd(Line(t)) >= |t| {
      LineWithin(t);
      assert v != [];
      assert v <= w;
      assert w <= GET ==> v <= GET;
      assert w <= POST ==> v <= POST;
    }
  }

  lemma HopelessFails(t: seq<scalar>)
    requires Hopeless(t)
    ensures t != [] && ParseText(t) == Done(Err(Unsupported))
  {
    assert t == [] ==> Line(t) == [] && FirstWord(Line(t)) == [];
    ParseByLine(t);
  }

  // ----- bytes

  lemma WidthStays(b: seq<byte>, more: seq<byte>)
    requires Width(b) > 0
    ensures Width(b + more) == Width(b) && CharAt(b + more, Width(b)) == CharAt(b, Width(b))
  {}

  lemma DecodeFirst(b: seq<byte>)
    requires Width(b) > 0
    ensures DecodeUtf8(b).Some? <==> DecodeUtf8(b[Width(b)..]).Some?
    ensures DecodeUtf8(b).Some? ==> DecodeUtf8(b).value == [CharAt(b, Width(b))] + DecodeUtf8(b[Width(b)..]).value
  {
    hide Width, CharAt;
  }

  lemma ConsConcat<T>(c: T, x: seq<T>, y: seq<T>)
    ensures [c] + x + y == [c] + (x + y)
  {}

  /** Bytes that decode go on decoding to the same text, followed by what comes after them, if that decodes. */
  lemma {:induction false} DecodeConcat(b: seq<byte>, more: seq<byte>)
    requires DecodeUtf8(b).Some?
    ensures DecodeUtf8(b + more).Some? <==> DecodeUtf8(more).Some?
    ensures DecodeUtf8(more).Some? ==> DecodeUtf8(b + more).value == DecodeUtf8(b).value + DecodeUtf8(more).value
  {
    if b == [] {
      DropOfConcat(b, more, 0);
      if DecodeUtf8(more).Some? { assert [] + DecodeUtf8(more).value == DecodeUtf8(more).value; }
    } else {
      var w := Width(b);
      assert w > 0;
      hide Width, CharAt, DecodeUtf8;
      WidthStays(b, more);
      DecodeFirst(b);
      DecodeFirst(b + more);
      DropOfConcat(b, more, w);
      DecodeConcat(b[w..], more);
      if DecodeUtf8(more).Some? {
        ConsConcat(CharAt(b, w), DecodeUtf8(b[w..]).value, DecodeUtf8(more).value);
      }
    }
  }

  /** The character that starts `b`, if one does, makes the text `t` hopeless. */
  predicate SpoiledBy(t: seq<scalar>, b: seq<byte>)
  {
    Width(b) > 0 ==> Hopeless(t + [CharAt(b, Width(b))])
  }

  /** No character begins with the bytes `v`, or every one that does makes the text `t` hopeless. */
  ghost predicate Spoils(t: seq<scalar>, v: seq<byte>)
  {
    v != [] && forall c: seq<byte> :: SpoiledBy(t, v + c)
  }

  ghost predicate StuckAt(rx: seq<byte>, k: nat)
    requires k <= |rx|
  {
    && DecodeUtf8(rx[..k]).Some?
    && (Hopeless(DecodeUtf8(rx[..k]).value) || Spoils(DecodeUtf8(rx[..k]).value, rx[k..]))
  }

  /** The bytes start with a hopeless text, or with a text that what follows it spoils. */
  ghost predicate Stuck(rx: seq<byte>)
  {
    exists k :: 0 <= k <= |rx| && StuckAt(rx, k)
  }

  lemma Regrouped<T>(a: seq<T>, b: seq<T>, c: seq<T>)
    ensures a + b + c == a + (b + c)
  {}

  lemma SpoilsStays(t: seq<scalar>, v: seq<byte>, more: seq<byte>)
    requires Spoils(t, v)
    ensures Spoils(t, v + more)
  {
    hide SpoiledBy;
    forall c: seq<byte>
      ensures SpoiledBy(t, v + more + c)
    {
      Regrouped(v, more, c);
      assert SpoiledBy(t, v + (more + c));
    }
  }

  lemma StuckStays(rx: seq<byte>, more: seq<byte>)
    requires Stuck(rx)
    ensures Stuck(rx + more)
  {
    hide Hopeless, Spoils, DecodeUtf8;
    var k :| 0 <= k <= |rx| && StuckAt(rx, k);
    assert (rx + more)[..k] == rx[..k];
    DropOfConcat(rx, more, k);
    if Spoils(DecodeUtf8(rx[..k]).value, rx[k..]) {
      SpoilsStays(DecodeUtf8(rx[..k]).value, rx[k..], more);
    }
    assert StuckAt(rx + more, k);
  }

  lemma HopelessBytes(rx: seq<byte>, k: nat)
    requires k <= |rx| && DecodeUtf8(rx[..k]).Some? && Hopeless(DecodeUtf8(rx[..k]).value)
    ensures ParseRequest(rx).Done? && ParseRequest(rx).value.Err?
  {
    var t := DecodeUtf8(rx[..k]).value;
    hide Hopeless, DecodeUtf8;
    TakeDrop(rx, k);
    DecodeConcat(rx[..k], rx[k..]);
    if DecodeUtf8(rx[k..]).Some? {
      HopelessStays(t, DecodeUtf8(rx[k..]).value);
      HopelessFails(t + DecodeUtf8(rx[k..]).value);
    }
  }

  /** The bytes of a first character decode to it. */
  lemma DecodeOne(v: seq<byte>)
    requires Width(v) > 0
    ensures DecodeUtf8(v[..Width(v)]) == Some([CharAt(v, Width(v))])
  {
    var w := Width(v);
    var x := v[..w];
    assert Width(x) == w && CharAt(x, w) == CharAt(v, w);
    assert x[w..] == [] && DecodeUtf8(x[w..]) == Some([]);
    DecodeFirst(x);
    assert [CharAt(x, w)] + [] == [CharAt(x, w)];
  }

  lemma SpoilsSelf(t: seq<scalar>, v: seq<byte>)
    requires Spoils(t, v)
    ensures SpoiledBy(t, v)
  {
    assert v + [] == v;
    assert SpoiledBy(t, v + []);
  }

  lemma NoCharacter(v: seq<byte>)
    requires v != [] && Width(v) == 0
    ensures DecodeUtf8(v).None?
  {}

  lemma BrokenBytes(rx: seq<byte>, k: nat)
    requires k < |rx| && DecodeUtf8(rx[..k]).Some? && Width(rx[k..]) == 0
    ensures ParseRequest(rx) == Done(Err(ParseError))
  {
    NoCharacter(rx[k..]);
    hide DecodeUtf8, Width;
    TakeDrop(rx, k);
    DecodeConcat(rx[..k], rx[k..]);
  }

  lemma TakeMoreOf<T>(s: seq<T>, k: nat, n: nat)
    requires k + n <= |s|
    ensures s[..k + n] == s[..k] + s[k..][..n]
  {}

  lemma SpoiledBytes(rx: seq<byte>, k: nat)
    requires k <= |rx| && DecodeUtf8(rx[..k]).Some? && Spoils(DecodeUtf8(rx[..k]).value, rx[k..])
    ensures ParseRequest(rx).Done? && ParseRequest(rx).value.Err?
  {
    var t, v := DecodeUtf8(rx[..k]).value, rx[k..];
    SpoilsSelf(t, v);
    assert v != [];
    hide Hopeless, CharAt, DecodeUtf8, Width, Spoils, ParseRequest;
    if Width(v) > 0 {
      var w := Width(v);
      DecodeOne(v);
      DecodeConcat(rx[..k], v[..w]);
      TakeMoreOf(rx, k, w);
      HopelessBytes(rx, k + w);
    } else {
      BrokenBytes(rx, k);
    }
  }

  /** Stuck bytes are never parsed. */
  lemma StuckFails(rx: seq<byte>)
    requires Stuck(rx)
    ensures ParseRequest(rx).Done? && ParseRequest(rx).value.Err?
  {
    hide Hopeless, Spoils, DecodeUtf8, ParseRequest;
    var k :| 0 <= k <= |rx| && StuckAt(rx, k);
    if Hopeless(DecodeUtf8(rx[..k]).value) {
      HopelessBytes(rx, k);
    } else {
      SpoiledBytes(rx, k);
    }
  }

  /** A receive on stuck bytes is kept and not answered. */
  lemma TakeStuck(a: Acc, v: Receive)
    requires Stuck(a.rx)
    ensures Take(a, v) == Done(Acc(a.rx + v.data, a.answered)) && Stuck(a.rx + v.data)
  {
    StuckStays(a.rx, v.data);
    StuckFails(a.rx + v.data);
    hide ParseRequest;
  }

  predicate Extends(b: seq<byte>, a: seq<byte>) { a <= b }

  lemma StuckStep(r: WebRun, p: Poll)
    requires Stuck(r.web.rxbytes)
    ensures Step(r.web, p).Done?
    ensures var r' := Later(r, Step(r.web, p).value);
            Stuck(r'.web.rxbytes) && r'.answered == r.answered && Extends(r'.web.rxbytes, r.web.rxbytes)
  {
    StepTakes(r, p);
    hide Step, Stuck, Take, Later;
    if Receives(r.web, p) {
      TakeStuck(View(r), Receive(p.recv.value, p.respond));
    }
  }

  /** Once the pending bytes are stuck, no later call is ever answered, whatever arrives, and none panics. */
  lemma {:induction false} StuckForEver(ps: seq<Poll>, more: seq<Poll>)
    requires Run(ps).Done? && Stuck(Run(ps).value.web.rxbytes)
    ensures Run(ps + more).Done?
    ensures var r, r' := Run(ps).value, Run(ps + more).value;
            Stuck(r'.web.rxbytes) && r'.answered == r.answered && Extends(r'.web.rxbytes, r.web.rxbytes)
    decreases |more|
  {
    hide Run, Step, Stuck, Later;
    if more == [] {
      assert ps + more == ps;
    } else {
      var init, p := more[..|more| - 1], more[|more| - 1];
      assert ps + more == (ps + init) + [p];
      StuckForEver(ps, init);
      StuckStep(Run(ps + init).value, p);
      RunSnoc(ps + init, p);
    }
  }

  // ----- exactly when the bytes are stuck

  /** What ends a header. */
  const BLANK: seq<byte> := [13, 10, 13, 10]

  lemma {:induction false} HeaderEndExists(t: seq<scalar>, i: nat, k: nat)
    requires i <= k && EndsAt(t, k)
    ensures i <= |t| && HeaderEnd(t, i).Some?
    decreases k - i
  {
    if i < k && !EndsAt(t, i) { HeaderEndExists(t, i + 1, k); }
  }

  /** A blank line after a text with both words makes it complete. */
  lemma BlankCompletes(t: seq<scalar>)
    requires Supported(FirstWord(Line(t))) && SecondWord(Line(t)).Some?
    ensures Complete(t + Text(BLANK))
  {
    var u, x := t + Text(BLANK), t + [CR];
    assert u[..|t|] == t && u[|t|] == CR && u[|t| + 1] == LF;
    HeaderEndExists(u, 0, |t|);
    NewlinePrefix(u, |t|, 0);
    NewlineFirst(u, 0, |t| + 1);
    if Newline(t, 0) < |t| {
      assert Line(u) == Line(t);
    } else {
      assert Line(t) == t && Line(u) == x && x[..|x| - 1] == t;
      TrailingSpaceIrrelevant(x);
    }
  }

  lemma {:induction false} SkipSpaceFirst(t: seq<scalar>, i: nat, k: nat)
    requires i <= k < |t| && !IsSpace(t[k])
    ensures SkipSpace(t, i) <= k
    decreases k - i
  {
    if IsSpace(t[i]) { SkipSpaceFirst(t, i + 1, k); }
  }

  lemma {:induction false} SkipWordAll(t: seq<scalar>, i: nat)
    requires i <= |t| && forall j :: i <= j < |t| ==> !IsSpace(t[j])
    ensures SkipWord(t, i) == |t|
    decreases |t| - i
  {
    if i < |t| { SkipWordAll(t, i + 1); }
  }

  /** Completing the first word of a line to a word `m` without spaces. */
  lemma WordCompleted(t: seq<scalar>, m: seq<scalar>)
    requires m != [] && (forall j :: 0 <= j < |m| ==> !IsSpace(m[j]))
    requires WordEnd(t) == |t| && FirstWord(t) <= m
    ensures var u := t + m[|FirstWord(t)|..];
            WordStart(u) == WordStart(t) < |u| && u[WordStart(t)..] == m && WordEnd(u) == |u|
  {
    var w, a := FirstWord(t), WordStart(t);
    var u := t + m[|w|..];
    assert u[..|t|] == t && t[a..] == w;
    assert u[a..] == w + m[|w|..] == m;
    assert u[a] == m[0];
    SkipSpacePrefix(u, |t|, 0);
    SkipSpaceFirst(u, 0, a);
    assert forall j :: a <= j < |u| ==> u[j] == m[j - a];
    SkipWordAll(u, a);
  }

  /** A second word after it. */
  lemma SecondWordAdded(u: seq<scalar>)
    requires WordStart(u) < |u| && SecondWord(u).None?
    ensures FirstWord(u + [0x20, 0x2F]) == FirstWord(u) && SecondWord(u + [0x20, 0x2F]).Some?
  {
    var v := u + [0x20, 0x2F];
    assert v[..|u|] == u;
    WordsPrefix(v, |u|);
    SkipWordFirst(v, WordStart(u), |u|);
    SliceOfTake(v, |u|, WordStart(u), WordEnd(u));
    SkipSpaceFirst(v, WordEnd(v), |u| + 1);
  }

  lemma {:induction false} NoLineFeed(t: seq<scalar>, i: nat)
    requires i <= |t| && forall j :: i <= j < |t| ==> t[j] != LF
    ensures Newline(t, i) == |t|
    decreases |t| - i
  {
    if i < |t| { NoLineFeed(t, i + 1); }
  }

  lemma {:induction false} BeforeNewline(t: seq<scalar>, i: nat, j: nat)
    requires i <= j < |t| && j < Newline(t, i)
    ensures t[j] != LF
    decreases j - i
  {
    if i < j { BeforeNewline(t, i + 1, j); }
  }

  function Method(w: seq<scalar>): (m: seq<scalar>)
    requires Begins(w)
    ensures Supported(m) && w <= m && m != [] && |m| <= 4 && forall j :: 0 <= j < |m| ==> !IsSpace(m[j]) && m[j] < 0x80
  {
    if w <= GET then GET else POST
  }

  /** A line that has only begun its method, completed. */
  lemma LineCompleted(t: seq<scalar>)
    requires Line(t) == t && WordEnd(t) == |t| && Begins(FirstWord(t))
    ensures var u := t + Method(FirstWord(t))[|FirstWord(t)|..] + [0x20, 0x2F];
            Line(u) == u && Supported(FirstWord(u)) && SecondWord(u).Some?
  {
    var m := Method(FirstWord(t));
    var v := t + m[|FirstWord(t)|..];
    WordCompleted(t, m);
    assert SkipSpace(v, |v|) == |v|;
    SecondWordAdded(v);
    var u := v + [0x20, 0x2F];
    forall j | 0 <= j < |u| ensures u[j] != LF {
      if j < |t| { BeforeNewline(t, 0, j); }
    }
    NoLineFeed(u, 0);
  }

  /** The first line has ended with a method and no second word: every text that goes on from it panics. */
  predicate DeadEnd(t: seq<scalar>)
  {
    Newline(t, 0) < |t| && Supported(FirstWord(Line(t))) && SecondWord(Line(t)).None?
  }

  lemma DeadEndNever(t: seq<scalar>, more: seq<scalar>)
    requires DeadEnd(t)
    ensures !Complete(t + more)
  {
    assert (t + more)[..|t|] == t;
    LinePrefix(t + more, |t|);
  }

  predicate AsciiText(t: seq<scalar>)
  {
    forall j :: 0 <= j < |t| ==> t[j] < 0x80
  }

  lemma AsciiTexts(m: seq<scalar>, blank: seq<scalar>)
    requires AsciiText(m) && AsciiText(blank)
    ensures AsciiText(m + [0x20, 0x2F] + blank)
  {}

  lemma Regroup<T>(a: seq<T>, b: seq<T>, c: seq<T>, d: seq<T>)
    ensures a + b + c + d == a + ((b + c) + d)
  {}

  lemma BegunCompleted(t: seq<scalar>) returns (y: seq<scalar>)
    requires Line(t) == t && WordEnd(t) == |t| && Begins(FirstWord(t))
    ensures Complete(t + y) && |y| <= 10 && AsciiText(y)
  {
    hide Line, FirstWord, SecondWord, Complete, WordEnd, Supported, Begins;
    var m := Method(FirstWord(t))[|FirstWord(t)|..];
    LineCompleted(t);
    BlankCompletes(t + m + [0x20, 0x2F]);
    Regroup(t, m, [0x20, 0x2F], Text(BLANK));
    y := m + [0x20, 0x2F] + Text(BLANK);
    AsciiTexts(m, Text(BLANK));
  }

  lemma OpenLineOfOneMore(t: seq<scalar>, s: scalar)
    requires Line(t) == t && s != LF
    ensures Line(t + [s]) == t + [s]
  {
    var u := t + [s];
    assert u[..|t|] == t;
    NewlinePrefix(u, |t|, 0);
  }

  lemma OpenLineCompleted(t: seq<scalar>) returns (y: seq<scalar>)
    requires Line(t) == t && Supported(FirstWord(t)) && SecondWord(t).None?
    ensures Complete(t + y) && |y| <= 10 && AsciiText(y)
  {
    assert WordStart(t) < |t|;
    hide FirstWord, SecondWord, Complete, WordStart;
    SecondWordAdded(t);
    OpenLineOfOneMore(t, 0x20);
    OpenLineOfOneMore(t + [0x20], 0x2F);
    assert t + [0x20] + [0x2F] == t + [0x20, 0x2F];
    hide Line;
    BlankCompletes(t + [0x20, 0x2F]);
    y := [0x20, 0x2F] + Text(BLANK);
    Regrouped(t, [0x20, 0x2F], Text(BLANK));
  }

  /** What completes a text, if anything does. */
  lemma TextCompleted(t: seq<scalar>) returns (y: seq<scalar>)
    requires !Hopeless(t) && !DeadEnd(t)
    ensures Complete(t + y) && |y| <= 10 && AsciiText(y)
  {
    LineWithin(t);
    hide FirstWord, SecondWord, Complete, WordEnd;
    if !Supported(FirstWord(Line(t))) {
      y := BegunCompleted(t);
    } else if SecondWord(Line(t)).Some? {
      y := Text(BLANK);
      BlankCompletes(t);
    } else {
      assert Line(t) == t;
      y := OpenLineCompleted(t);
    }
  }

  /** Bytes that go on with `rx` to a request. */
  predicate Rescues(rx: seq<byte>, x: seq<byte>)
  {
    ParseRequest(rx + x).Done? && ParseRequest(rx + x).value.Ok?
  }

  /** The bytes of an ASCII text. */
  function Spelled(t: seq<scalar>): (b: seq<byte>)
    requires AsciiText(t)
    ensures |b| == |t| && Ascii(b) && Text(b) == t
  {
    seq(|t|, i requires 0 <= i < |t| => t[i] as int)
  }

  /** Bytes that decode to a text that is neither hopeless nor a dead end can be completed. */
  lemma DecodedRescued(rx: seq<byte>) returns (x: seq<byte>)
    requires DecodeUtf8(rx).Some? && !Hopeless(DecodeUtf8(rx).value) && !DeadEnd(DecodeUtf8(rx).value)
    ensures Rescues(rx, x) && |x| <= 10
  {
    hide Hopeless, DeadEnd, DecodeUtf8, Complete;
    var y := TextCompleted(DecodeUtf8(rx).value);
    x := Spelled(y);
    AsciiDecodes(x);
    DecodeConcat(rx, x);
    CompleteExactly(DecodeUtf8(rx).value + y);
    hide ParseText;
  }

  /** The longest beginning that decodes. */
  lemma {:induction false} DecodeSplit(b: seq<byte>) returns (k: nat)
    ensures k <= |b| && DecodeUtf8(b[..k]).Some? && (k < |b| ==> Width(b[k..]) == 0)
  {
    if b == [] || Width(b) == 0 {
      k := 0;
      assert b[..0] == [] && b[0..] == b;
    } else {
      var w := Width(b);
      var i := DecodeSplit(b[w..]);
      k := w + i;
      DecodeOne(b);
      DecodeConcat(b[..w], b[w..][..i]);
      hide Width, DecodeUtf8;
      assert b[..k] == b[..w] + b[w..][..i] && b[k..] == b[w..][i..];
    }
  }

  lemma WidthOfPrefix(b: seq<byte>, n: nat)
    requires Width(b) > 0 && Width(b) <= n <= |b|
    ensures Width(b[..n]) == Width(b)
  {}

  /** The bytes missing from a character, and no more. */
  lemma CharacterCompleted(v: seq<byte>, c: seq<byte>) returns (d: seq<byte>)
    requires v != [] && Width(v) == 0 && Width(v + c) > 0
    ensures |d| <= 4 && DecodeUtf8(v + d) == Some([CharAt(v + c, Width(v + c))])
    ensures CharAt(v + c, Width(v + c)) >= 0x80
  {
    var b := v + c;
    var w := Width(b);
    assert b[..|v|] == v;
    if w <= |v| {
      WidthOfPrefix(b, |v|);
    }
    assert w > |v|;
    d := c[..w - |v|];
    assert v + d == b[..w];
    DecodeOne(b);
    assert b[0] == v[0] >= 0x80;
  }

  lemma DeadEndNotByCharacter(t: seq<scalar>, s: scalar)
    requires !DeadEnd(t) && s != LF
    ensures !DeadEnd(t + [s])
  {
    var u := t + [s];
    assert u[..|t|] == t;
    NewlinePrefix(u, |t|, 0);
    LinePrefix(u, |t|);
  }

  /** The bytes start with a text that is a dead end. */
  ghost predicate DeadEndBytes(rx: seq<byte>)
  {
    exists k :: 0 <= k <= |rx| && DecodeUtf8(rx[..k]).Some? && DeadEnd(DecodeUtf8(rx[..k]).value)
  }

  lemma DeadEndFails(rx: seq<byte>, x: seq<byte>)
    requires DeadEndBytes(rx)
    ensures !Rescues(rx, x)
  {
    var k :| 0 <= k <= |rx| && DecodeUtf8(rx[..k]).Some? && DeadEnd(DecodeUtf8(rx[..k]).value);
    hide DeadEnd, DecodeUtf8, Complete;
    var rest := rx[k..] + x;
    TakeDrop(rx, k);
    assert rx + x == rx[..k] + rest;
    DecodeConcat(rx[..k], rest);
    if DecodeUtf8(rest).Some? {
      var t := DecodeUtf8(rx[..k]).value;
      DeadEndNever(t, DecodeUtf8(rest).value);
      CompleteExactly(t + DecodeUtf8(rest).value);
    }
    hide ParseText;
  }

  /** The server waits on these bytes. */
  predicate Waiting(rx: seq<byte>)
  {
    rx == [] || (ParseRequest(rx).Done? && ParseRequest(rx).value.Err?)
  }

  lemma WaitingIsNoDeadEnd(rx: seq<byte>)
    requires Waiting(rx) && DecodeUtf8(rx).Some?
    ensures !DeadEnd(DecodeUtf8(rx).value)
  {
    var t := DecodeUtf8(rx).value;
    if t != [] { ParseByLine(t); }
  }

  lemma NotStuckAt(rx: seq<byte>, k: nat)
    requires !Stuck(rx) && k <= |rx| && DecodeUtf8(rx[..k]).Some?
    ensures !Hopeless(DecodeUtf8(rx[..k]).value) && !Spoils(DecodeUtf8(rx[..k]).value, rx[k..])
  {
    assert !StuckAt(rx, k);
  }

  lemma RescuesConcat(rx: seq<byte>, d: seq<byte>, y: seq<byte>)
    requires Rescues(rx + d, y)
    ensures Rescues(rx, d + y)
  {
    assert rx + d + y == rx + (d + y);
  }

  lemma SpelledOn(rx: seq<byte>, k: nat) returns (x: seq<byte>)
    requires k < |rx| && DecodeUtf8(rx[..k]).Some? && Width(rx[k..]) == 0
    requires var t := DecodeUtf8(rx[..k]).value; !Hopeless(t) && !DeadEnd(t) && !Spoils(t, rx[k..])
    ensures Rescues(rx, x) && |x| <= RINGBUFSIZE
  {
    var t, v := DecodeUtf8(rx[..k]).value, rx[k..];
    var c: seq<byte> :| !SpoiledBy(t, v + c);
    hide Hopeless, DeadEnd, DecodeUtf8, Rescues, Width, CharAt, Spoils;
    var d := CharacterCompleted(v, c);
    DeadEndNotByCharacter(t, CharAt(v + c, Width(v + c)));
    TakeDrop(rx, k);
    Regrouped(rx[..k], v, d);
    DecodeConcat(rx[..k], v + d);
    var y := DecodedRescued(rx + d);
    x := d + y;
    RescuesConcat(rx, d, y);
  }

  /** Waiting bytes that are neither stuck nor a dead end can be completed by one receive. */
  lemma WaitingRescued(rx: seq<byte>) returns (x: seq<byte>)
    requires Waiting(rx) && !Stuck(rx) && !DeadEndBytes(rx)
    ensures Rescues(rx, x) && |x| <= RINGBUFSIZE
  {
    var k := DecodeSplit(rx);
    NotStuckAt(rx, k);
    var t, v := DecodeUtf8(rx[..k]).value, rx[k..];
    if k == |rx| {
      assert rx[..k] == rx;
      WaitingIsNoDeadEnd(rx);
      hide Hopeless, DeadEnd, DecodeUtf8, Rescues;
      x := DecodedRescued(rx);
    } else {
      assert !DeadEnd(t);
      x := SpelledOn(rx, k);
    }
  }

  /** For all bytes on which the server waits: nothing that can follow makes them a request exactly when they are stuck
      or a dead end; otherwise one receive is enough. */
  lemma StuckExactly(rx: seq<byte>)
    requires Waiting(rx)
    ensures !Stuck(rx) && !DeadEndBytes(rx) <==> exists x :: |x| <= RINGBUFSIZE && Rescues(rx, x)
    ensures !Stuck(rx) && !DeadEndBytes(rx) <==> exists x :: Rescues(rx, x)
  {
    hide Stuck, DeadEndBytes, Waiting;
    if Stuck(rx) || DeadEndBytes(rx) {
      forall x: seq<byte> ensures !Rescues(rx, x) {
        if Stuck(rx) {
          StuckStays(rx, x);
          StuckFails(rx + x);
        } else {
          DeadEndFails(rx, x);
        }
      }
    } else {
      var x := WaitingRescued(rx);
    }
  }

  lemma AsciiSpoils(t: seq<scalar>, v: seq<byte>)
    requires Spoils(t, v) && Ascii(v)
    ensures Hopeless(t + Text(v))
  {
    assert v + [] == v && Width(v) == 1;
    hide Hopeless;
    assert Text(v) == [CharAt(v, 1)] + Text(v[1..]);
    assert t + Text(v) == (t + [CharAt(v, 1)]) + Text(v[1..]);
    HopelessStays(t + [CharAt(v, 1)], Text(v[1..]));
  }

  /** On ASCII bytes, in terms of their text. */
  lemma HopelessExactly(rx: seq<byte>)
    requires Ascii(rx)
    ensures Stuck(rx) <==> Hopeless(Text(rx))
  {
    if Hopeless(Text(rx)) {
      AsciiDecodes(rx);
      assert rx[..|rx|] == rx;
      assert StuckAt(rx, |rx|);
    }
    if Stuck(rx) {
      var k :| 0 <= k <= |rx| && StuckAt(rx, k);
      AsciiDecodes(rx[..k]);
      hide DecodeUtf8, Hopeless, Spoils;
      TakeDrop(rx, k);
      TextConcat(rx[..k], rx[k..]);
      if Hopeless(Text(rx[..k])) {
        HopelessStays(Text(rx[..k]), Text(rx[k..]));
      } else {
        AsciiSpoils(Text(rx[..k]), rx[k..]);
      }
    }
  }

  // ----- which bytes spoil a text

  /** The second byte of a character that starts with `a`. */
  predicate Second(a: byte, b: byte)
  {
    && Continuation(b)
    && !(a == 0xE0 && b < 0xA0) && !(a == 0xED && b >= 0xA0) && !(a == 0xF0 && b < 0x90) && !(a == 0xF4 && b >= 0x90)
  }

  /** The beginning of a character. */
  predicate Incomplete(v: seq<byte>)
  {
    || (|v| == 1 && 0xC2 <= v[0] < 0xF5)
    || (|v| == 2 && 0xE0 <= v[0] < 0xF5 && Second(v[0], v[1]))
    || (|v| == 3 && 0xF0 <= v[0] < 0xF5 && Second(v[0], v[1]) && Continuation(v[2]))
  }

  /** The beginning of a space outside ASCII. */
  predicate BeginsSpace(v: seq<byte>)
  {
    v == [0xC2] || v == [0xE1] || v == [0xE1, 0x9A] || v == [0xE2] || v == [0xE2, 0x80] || v == [0xE2, 0x81]
    || v == [0xE3] || v == [0xE3, 0x80]
  }

  lemma IncompleteWhen(v: seq<byte>, c: seq<byte>)
    requires v != [] && Width(v) == 0 && Width(v + c) > 0
    ensures Incomplete(v)
    ensures IsSpace(CharAt(v + c, Width(v + c))) ==> BeginsSpace(v)
  {}

  lemma IncompleteCompleted(v: seq<byte>) returns (c: seq<byte>)
    requires Incomplete(v)
    ensures Width(v + c) > 0
  {
    var last: byte := 0x80;
    var second: byte := if v[0] == 0xE0 then 0xA0 else if v[0] == 0xF0 then 0x90 else 0x80;
    if |v| == 3 {
      c := [last];
    } else if |v| == 2 {
      c := if v[0] < 0xF0 then [last] else [last, last];
    } else {
      c := if v[0] < 0xE0 then [last] else if v[0] < 0xF0 then [second, last] else [second, last, last];
    }
  }

  lemma SpaceCompleted(v: seq<byte>) returns (c: seq<byte>)
    requires BeginsSpace(v)
    ensures Width(v + c) > 0 && IsSpace(CharAt(v + c, Width(v + c)))
  {
    if v == [0xC2] { c := [0x85]; }
    else if v == [0xE1] { c := [0x9A, 0x80]; }
    else if v == [0xE2] { c := [0x80, 0x80]; }
    else if v == [0xE2, 0x81] { c := [0x9F]; }
    else if v == [0xE3] { c := [0x80, 0x80]; }
    else { c := [0x80]; }
  }

  /** The first word is still open to a space: it is a method, or has not begun. */
  predicate TakesSpace(t: seq<scalar>)
  {
    FirstWord(Line(t)) == [] || Supported(FirstWord(Line(t)))
  }

  lemma SpaceAdded(t: seq<scalar>, s: scalar)
    requires WordEnd(t) == |t| && IsSpace(s)
    ensures FirstWord(t + [s]) == FirstWord(t)
    ensures WordEnd(t + [s]) == if FirstWord(t) == [] then |t| + 1 else |t|
  {
    var u := t + [s];
    assert u[..|u| - 1] == t && u[..|t|] == t;
    TrailingSpaceIrrelevant(u);
    WordsPrefix(u, |t|);
    if WordStart(t) < |t| { SkipWordFirst(u, WordStart(t), |t|); }
  }

  lemma LetterAdded(t: seq<scalar>, s: scalar)
    requires WordEnd(t) == |t| && !IsSpace(s)
    ensures FirstWord(t + [s]) == FirstWord(t) + [s]
    ensures WordEnd(t + [s]) == |t| + 1
  {
    var u, a := t + [s], WordStart(t);
    assert u[..|t|] == t;
    WordsPrefix(u, |t|);
    SkipSpaceFirst(u, 0, if a < |t| then a else |t|);
    assert WordStart(u) == a;
    SkipWordPrefix(u, |t|, a);
    assert u[a..] == t[a..] + [s];
  }

  lemma OpenLineGrows(t: seq<scalar>, s: scalar)
    requires Line(t) == t && WordEnd(t) == |t| && s >= 0x80
    ensures Hopeless(t + [s]) <==> !(IsSpace(s) && TakesSpace(t))
  {
    OpenLineOfOneMore(t, s);
    hide Line, FirstWord, WordEnd, IsSpace;
    var w := FirstWord(t);
    if IsSpace(s) {
      SpaceAdded(t, s);
    } else {
      LetterAdded(t, s);
      assert (w + [s])[|w|] == s;
    }
  }

  /** What one more character outside ASCII does. */
  lemma CharacterHopeless(t: seq<scalar>, s: scalar)
    requires !Hopeless(t) && s >= 0x80
    ensures Hopeless(t + [s]) <==> WordEnd(Line(t)) == |t| && !(IsSpace(s) && TakesSpace(t))
  {
    LineWithin(t);
    if WordEnd(Line(t)) < |t| {
      LineGrows(t, [s]);
    } else {
      OpenLineGrows(t, s);
    }
  }

  /** The same for bytes that do not decode, after a text that is not hopeless: they spoil it exactly when they begin no
      character, or the first word is not complete and they begin no space after it. */
  lemma SpoilsExactly(t: seq<scalar>, v: seq<byte>)
    requires !Hopeless(t) && v != [] && Width(v) == 0
    ensures Spoils(t, v) <==> !Incomplete(v) || (WordEnd(Line(t)) == |t| && !(BeginsSpace(v) && TakesSpace(t)))
  {
    LineWithin(t);
    hide Hopeless, TakesSpace, Line, WordEnd, Width, CharAt, IsSpace, Incomplete, BeginsSpace;
    if Incomplete(v) && (WordEnd(Line(t)) < |t| || (BeginsSpace(v) && TakesSpace(t))) {
      var c;
      if BeginsSpace(v) { c := SpaceCompleted(v); } else { c := IncompleteCompleted(v); }
      var d := CharacterCompleted(v, c);
      CharacterHopeless(t, CharAt(v + c, Width(v + c)));
      assert !SpoiledBy(t, v + c);
    } else {
      forall c: seq<byte>
        ensures SpoiledBy(t, v + c)
      {
        if Width(v + c) > 0 {
          IncompleteWhen(v, c);
          var d := CharacterCompleted(v, c);
          CharacterHopeless(t, CharAt(v + c, Width(v + c)));
        }
      }
    }
  }

  /** Two bytes are enough: a letter that starts no method, and a space. */
  lemma TwoBytesStick(more: seq<byte>)
    ensures Stuck([0x41, 0x20] + more)
  {
    var rx: seq<byte> := [0x41, 0x20];
    var t := Text(rx);
    assert Newline(t, 2) == 2 && Newline(t, 1) == 2 && Line(t) == t;
    assert SkipSpace(t, 0) == 0 && SkipWord(t, 1) == 1 && SkipWord(t, 0) == 1;
    assert t[0..1] == [0x41];
    assert Hopeless(t);
    HopelessExactly(rx);
    StuckStays(rx, more);
  }

  /** So is the beginning of a character that is not gone on with. */
  lemma BrokenCharacterSticks(more: seq<byte>)
    ensures Stuck([0xC2, 0x41] + more)
  {
    var rx: seq<byte> := [0xC2, 0x41];
    assert rx[..0] == [] && rx[0..] == rx;
    forall c: seq<byte>
      ensures SpoiledBy([], rx + c)
    {
      assert Width(rx + c) == 0;
    }
    assert StuckAt(rx, 0);
    StuckStays(rx, more);
  }

  lemma TakeAlone(xs: seq<Exchange>, v: Receive)
    requires ParseRequest(v.data).Done? && ParseRequest(v.data).value.Err?
    ensures Take(Acc([], xs), v) == Done(Acc(v.data, xs))
  {
    hide ParseRequest;
    assert [] + v.data == v.data;
  }

  /** So a body, or any other bytes, that arrives when its request has been answered can silence the server. */
  lemma LateBytesStick(ps: seq<Poll>, p: Poll, more: seq<Poll>)
    requires Run(ps).Done? && Run(ps).value.web.rxbytes == []
    requires Receives(Run(ps).value.web, p) && Stuck(p.recv.value)
    ensures Run(ps + [p] + more).Done? && Run(ps + [p] + more).value.answered == Run(ps).value.answered
  {
    var r := Run(ps).value;
    var v := Receive(p.recv.value, p.respond);
    hide Run, Step, Stuck, Take, Later;
    StuckFails(p.recv.value);
    TakeAlone(r.answered, v);
    StepTakes(r, p);
    RunSnoc(ps, p);
    StuckForEver(ps + [p], more);
  }
}
