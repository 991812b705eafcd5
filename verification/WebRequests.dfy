/** What the web server makes of its receives: where requests may be cut, when it waits for ever, and when a sequence
    of requests is answered one for one. */
module WebRequests {
  import opened Wire
  import opened Http
  import opened Server

  // ----- runs as folds over receives

  /** What receives change: the bytes kept and the requests answered. */
  datatype Acc = Acc(rx: seq<byte>, answered: seq<Exchange>)

  function Take(a: Acc, v: Receive): Outcome<Acc>
  {
    var rx := a.rx + v.data;
    var parsed :- ParseRequest(rx);
    match parsed
    case Ok(request) =>
      var response :- v.respond(request);
      Done(Acc([], a.answered + [Exchange(rx, response)]))
    case Err(_) => Done(Acc(rx, a.answered))
  }

  function Accumulate(a: Acc, vs: seq<Receive>): Outcome<Acc>
    decreases |vs|
  {
    if vs == [] then Done(a)
    else
      var b :- Take(a, vs[0]);
      Accumulate(b, vs[1..])
  }

  lemma {:induction false} AccumulateSnoc(a: Acc, vs: seq<Receive>, v: Receive)
    ensures Accumulate(a, vs).Panic? ==> Accumulate(a, vs + [v]).Panic?
    ensures Accumulate(a, vs).Done? ==> Accumulate(a, vs + [v]) == Take(Accumulate(a, vs).value, v)
    decreases |vs|
  {
    hide Take;
    if vs == [] {
      assert vs + [v] == [v] && [v][1..] == [];
      if Take(a, v).Done? { assert Accumulate(Take(a, v).value, []) == Take(a, v); }
    } else {
      assert (vs + [v])[0] == vs[0] && (vs + [v])[1..] == vs[1..] + [v];
      if Take(a, vs[0]).Done? { AccumulateSnoc(Take(a, vs[0]).value, vs[1..], v); }
    }
  }

  /** The call makes a receive: one is possible and the response, if any, has been sent. */
  predicate Receives(w: Web, p: Poll)
  {
    p.recv.Some? && w.msgtosend[Sent(w, p)..] == []
  }

  function View(r: WebRun): Acc
  {
    Acc(r.web.rxbytes, r.answered)
  }

  /** A call that makes no receive never panics and leaves the request under way alone; the others are one `Take`. */
  lemma StepTakes(r: WebRun, p: Poll)
    ensures !Receives(r.web, p) ==>
              && Step(r.web, p).Done?
              && View(Later(r, Step(r.web, p).value)) == View(r)
              && Later(r, Step(r.web, p).value).received == r.received
    ensures Receives(r.web, p) ==>
              var v := Receive(p.recv.value, p.respond);
              && (Step(r.web, p).Panic? <==> Take(View(r), v).Panic?)
              && (Step(r.web, p).Done? ==>
                    && Take(View(r), v) == Done(View(Later(r, Step(r.web, p).value)))
                    && Later(r, Step(r.web, p).value).received == r.received + [v])
  {
    hide ParseRequest;
    assert r.answered + [] == r.answered && r.received + [] == r.received;
  }

  ghost function After(before: seq<Receive>, all: seq<Receive>): seq<Receive>
  {
    if before <= all then all[|before|..] else []
  }

  /** The receives made by the calls `more` after the run `ps`. */
  ghost function Since(ps: seq<Poll>, more: seq<Poll>): seq<Receive>
    requires Run(ps).Done? && Run(ps + more).Done?
  {
    After(Run(ps).value.received, Run(ps + more).value.received)
  }

  lemma AfterGrows(before: seq<Receive>, all: seq<Receive>, v: Receive)
    requires before <= all
    ensures before <= all + [v] && After(before, all + [v]) == After(before, all) + [v]
    ensures After(before, before) == []
  {}

  lemma AccumulatesMore(before: WebRun, r: WebRun, p: Poll)
    requires before.received <= r.received && Step(r.web, p).Done?
    requires Accumulate(View(before), After(before.received, r.received)) == Done(View(r))
    ensures var r' := Later(r, Step(r.web, p).value);
            && before.received <= r'.received
            && Accumulate(View(before), After(before.received, r'.received)) == Done(View(r'))
  {
    StepTakes(r, p);
    hide Take, Step, View, Later, After, Accumulate;
    if p.recv.Some? {
      var v := Receive(p.recv.value, p.respond);
      AfterGrows(before.received, r.received, v);
      AccumulateSnoc(View(before), After(before.received, r.received), v);
    }
  }

  lemma NothingAfter(r: WebRun)
    ensures Accumulate(View(r), After(r.received, r.received)) == Done(View(r))
  {}

  /** Whatever else the calls do, sending or nothing, the outcome of a run is decided by its receives. */
  lemma {:induction false} RunAccumulates(ps: seq<Poll>, more: seq<Poll>)
    requires Run(ps + more).Done?
    ensures Run(ps).Done? && Run(ps).value.received <= Run(ps + more).value.received
    ensures Accumulate(View(Run(ps).value), Since(ps, more)) == Done(View(Run(ps + more).value))
    decreases |more|
  {
    hide Run, Step, Later, Take, View;
    if more == [] {
      assert ps + more == ps;
      hide Accumulate;
      NothingAfter(Run(ps).value);
    } else {
      hide After, Accumulate;
      var init, p := more[..|more| - 1], more[|more| - 1];
      assert ps + more == (ps + init) + [p];
      RunSnoc(ps + init, p);
      RunAccumulates(ps, init);
      AccumulatesMore(Run(ps).value, Run(ps + init).value, p);
    }
  }

  // ----- segmentation of one request

  /** An ASCII request that parses. */
  predicate IsRequest(b: seq<byte>) { Ascii(b) && Complete(Text(b)) }

  /** Cut at `l`, the request ends between its method and its path, or before its first byte. */
  predicate CutsBadly(b: seq<byte>, l: nat) { BadCut(Text(b), l) }

  function HeaderBytes(b: seq<byte>): nat
    requires IsRequest(b)
  {
    HeaderLength(Text(b))
  }

  /** The request as parsed when `l` bytes of it have arrived. */
  function RequestSoFar(b: seq<byte>, l: nat): HttpRequest
    requires IsRequest(b) && HeaderBytes(b) <= l <= |b|
  {
    Received(Text(b), l)
  }

  /** What one prefix of a request does. */
  lemma PrefixOutcome(request: seq<byte>, l: nat)
    requires IsRequest(request) && l <= |request|
    ensures ParseRequest(request[..l]).Panic? <==> CutsBadly(request, l)
    ensures !CutsBadly(request, l) ==>
              (if l < HeaderBytes(request) then ParseRequest(request[..l]).value.Err?
               else ParseRequest(request[..l]) == Done(Ok(RequestSoFar(request, l))))
    ensures l >= HeaderBytes(request) ==> !CutsBadly(request, l)
    ensures 0 < HeaderBytes(request) <= |request|
  {
    PrefixParses(Text(request), l);
    hide ParseText, ParseRequest, Text, Complete, Received, Ascii, Line, EndsAt;
    AsciiPrefix(request, l);
  }

  /** The receive that brings the request to `l` bytes halts the firmware: it ends at a bad place, or it completes the
      headers and the handler panics on what has arrived. */
  predicate Fatal(request: seq<byte>, l: nat, respond: Respond)
    requires IsRequest(request) && l <= |request|
  {
    CutsBadly(request, l) || (l >= HeaderBytes(request) && respond(RequestSoFar(request, l)).Panic?)
  }

  /** The answer to the request when the headers are completed by the receive that brings it to `l` bytes. */
  function AnswerTo(request: seq<byte>, l: nat, respond: Respond): (x: Exchange)
    requires IsRequest(request) && HeaderBytes(request) <= l <= |request| && !Fatal(request, l, respond)
    ensures x.request == request[..l]
  {
    Exchange(request[..l], respond(RequestSoFar(request, l)).value)
  }

  /** One more receive, the first `l0` bytes having arrived without completing the headers. */
  lemma TakeMore(request: seq<byte>, l0: nat, v: Receive, xs: seq<Exchange>)
    requires IsRequest(request) && l0 + |v.data| <= |request| && v.data == request[l0..l0 + |v.data|]
    ensures var l := l0 + |v.data|;
            && (Take(Acc(request[..l0], xs), v).Panic? <==> Fatal(request, l, v.respond))
            && (!Fatal(request, l, v.respond) ==>
                  Take(Acc(request[..l0], xs), v)
                  == Done(if l < HeaderBytes(request) then Acc(request[..l], xs)
                          else Acc([], xs + [AnswerTo(request, l, v.respond)])))
  {
    hide ParseRequest, IsRequest, CutsBadly, HeaderBytes, RequestSoFar;
    SliceJoin(request, l0, l0 + |v.data|);
    PrefixOutcome(request, l0 + |v.data|);
  }

  lemma DataPrefix(request: seq<byte>, vs: seq<Receive>, v: Receive)
    requires StartsWith(request, Data(vs + [v]))
    ensures StartsWith(request, Data(vs)) && |Data(vs)| + |v.data| == |Data(vs + [v])| <= |request|
    ensures v.data == request[|Data(vs)|..|Data(vs)| + |v.data|]
  {
    DataSnoc(vs, v);
    hide Data;
    StartsWithSplit(request, Data(vs), v.data);
  }

  /** None of the receives that bring the request piece by piece is fatal. */
  predicate NoneFatal(request: seq<byte>, vs: seq<Receive>)
    requires IsRequest(request)
  {
    vs == [] ||
    (NoneFatal(request, vs[..|vs| - 1])
     && |Data(vs)| <= |request| && !Fatal(request, |Data(vs)|, vs[|vs| - 1].respond))
  }

  lemma NoneFatalSnoc(request: seq<byte>, vs: seq<Receive>, v: Receive)
    requires IsRequest(request) && |Data(vs + [v])| <= |request|
    ensures NoneFatal(request, vs + [v]) <==> NoneFatal(request, vs) && !Fatal(request, |Data(vs + [v])|, v.respond)
  {
    hide Data, Fatal, IsRequest;
    assert (vs + [v])[..|vs|] == vs;
  }

  /** What remains of a request that arrives piece by piece. */
  function Pending(request: seq<byte>, vs: seq<Receive>, xs: seq<Exchange>): Acc
    requires IsRequest(request) && NoneFatal(request, vs) && |Data(vs)| <= |request|
  {
    if |Data(vs)| < HeaderBytes(request) || vs == [] then Acc(request[..|Data(vs)|], xs)
    else Acc([], xs + [AnswerTo(request, |Data(vs)|, vs[|vs| - 1].respond)])
  }

  lemma DataShrinks(vs: seq<Receive>)
    requires vs != []
    ensures |Data(vs[..|vs| - 1])| <= |Data(vs)|
  {}

  lemma PendingBefore(request: seq<byte>, vs: seq<Receive>, xs: seq<Exchange>)
    requires IsRequest(request) && NoneFatal(request, vs)
    requires |Data(vs)| <= |request| && |Data(vs)| < HeaderBytes(request)
    ensures Pending(request, vs, xs) == Acc(request[..|Data(vs)|], xs)
  {}

  lemma PendingSnoc(request: seq<byte>, vs: seq<Receive>, v: Receive, xs: seq<Exchange>)
    requires IsRequest(request) && |Data(vs + [v])| <= |request| && NoneFatal(request, vs + [v])
    ensures !Fatal(request, |Data(vs + [v])|, v.respond)
    ensures var l := |Data(vs + [v])|;
            Pending(request, vs + [v], xs)
            == if l < HeaderBytes(request) then Acc(request[..l], xs)
               else Acc([], xs + [AnswerTo(request, l, v.respond)])
  {
    hide Data, HeaderBytes, IsRequest, Fatal;
  }

  /** The receives `vs` do to the request what `SegmentsExactly` says. */
  predicate AsCut(request: seq<byte>, vs: seq<Receive>, xs: seq<Exchange>)
    requires IsRequest(request) && |Data(vs)| <= |request|
  {
    if NoneFatal(request, vs) then Accumulate(Acc([], xs), vs) == Done(Pending(request, vs, xs))
    else Accumulate(Acc([], xs), vs).Panic?
  }

  lemma OneMoreSegment(request: seq<byte>, vs: seq<Receive>, v: Receive, xs: seq<Exchange>)
    requires IsRequest(request) && StartsWith(request, Data(vs + [v]))
    requires |Data(vs)| < HeaderBytes(request) && |Data(vs)| <= |request| && AsCut(request, vs, xs)
    ensures |Data(vs + [v])| <= |request| && AsCut(request, vs + [v], xs)
  {
    hide IsRequest, HeaderBytes, Take, Fatal, Accumulate, Data, StartsWith, NoneFatal, AnswerTo, Pending;
    DataPrefix(request, vs, v);
    AccumulateSnoc(Acc([], xs), vs, v);
    NoneFatalSnoc(request, vs, v);
    if NoneFatal(request, vs) {
      PendingBefore(request, vs, xs);
      TakeMore(request, |Data(vs)|, v, xs);
      if NoneFatal(request, vs + [v]) { PendingSnoc(request, vs, v, xs); }
    }
  }

  lemma NoSegment(request: seq<byte>, xs: seq<Exchange>)
    requires IsRequest(request)
    ensures Data([]) == [] && AsCut(request, [], xs)
  {
    assert request[..0] == [];
  }

  /** Every way of cutting a request up to the receive that completes its headers: it halts the firmware exactly when
      one of the receives is fatal; otherwise there is no answer before that receive and one at it. */
  lemma {:induction false} SegmentsExactly(request: seq<byte>, vs: seq<Receive>, xs: seq<Exchange>)
    requires IsRequest(request) && StartsWith(request, Data(vs))
    requires vs != [] ==> |Data(vs[..|vs| - 1])| < HeaderBytes(request)
    ensures Accumulate(Acc([], xs), vs).Panic? <==> !NoneFatal(request, vs)
    ensures NoneFatal(request, vs) ==> Accumulate(Acc([], xs), vs) == Done(Pending(request, vs, xs))
    decreases |vs|
  {
    hide IsRequest, HeaderBytes, Accumulate, Data, NoneFatal, Pending;
    if vs == [] {
      NoSegment(request, xs);
    } else {
      var init, v := vs[..|vs| - 1], vs[|vs| - 1];
      assert vs == init + [v];
      DataPrefix(request, init, v);
      if init != [] { DataShrinks(init); }
      SegmentsExactly(request, init, xs);
      hide StartsWith;
      OneMoreSegment(request, init, v, xs);
    }
  }

  /** As long as the headers are incomplete, the server keeps all it has received and answers nothing. */
  lemma Waits(request: seq<byte>, vs: seq<Receive>, xs: seq<Exchange>)
    requires IsRequest(request) && StartsWith(request, Data(vs)) && |Data(vs)| < HeaderBytes(request)
    requires Accumulate(Acc([], xs), vs).Done?
    ensures Accumulate(Acc([], xs), vs) == Done(Acc(Data(vs), xs))
  {
    if vs != [] { DataShrinks(vs); }
    hide IsRequest, HeaderBytes, Take, Fatal, Accumulate, Data;
    SegmentsExactly(request, vs, xs);
  }

  /** Segmentation independence. Take any run that has just answered a request, or none, and any calls after it: sends,
      idle calls, and receives that bring an ASCII request piece by piece without completing its headers. Then the
      server has kept exactly these bytes and answered nothing; and the next receive halts the firmware exactly when
      it ends between the method and the first byte of the path, or completes the headers and the handler panics on
      what has arrived; otherwise it is answered, with the one method and path, exactly if it completes the headers. */
  lemma SegmentationIndependence(request: seq<byte>, ps: seq<Poll>, more: seq<Poll>, p: Poll)
    requires Run(ps + more).Done? && Run(ps).Done? && Run(ps).value.web.rxbytes == []
    requires Receives(Run(ps + more).value.web, p)
    requires IsRequest(request) && StartsWith(request, Data(Since(ps, more)) + p.recv.value)
    requires |Data(Since(ps, more))| < HeaderBytes(request)
    ensures var l := |Data(Since(ps, more))| + |p.recv.value|;
            var before, r := Run(ps).value, Run(ps + more).value;
            && l <= |request|
            && r.web.rxbytes == Data(Since(ps, more)) && r.answered == before.answered
            && (Run(ps + more + [p]).Panic? <==> Fatal(request, l, p.respond))
            && (!Fatal(request, l, p.respond) ==>
                  View(Run(ps + more + [p]).value)
                  == if l < HeaderBytes(request) then Acc(request[..l], before.answered)
                     else Acc([], before.answered + [AnswerTo(request, l, p.respond)]))
  {
    hide Run, IsRequest, HeaderBytes, Take, Fatal, Step, Accumulate, Since;
    var vs := Since(ps, more);
    RunAccumulates(ps, more);
    StartsWithSplit(request, Data(vs), p.recv.value);
    Waits(request, vs, Run(ps).value.answered);
    TakeMore(request, |Data(vs)|, Receive(p.recv.value, p.respond), Run(ps).value.answered);
    StepTakes(Run(ps + more).value, p);
    RunSnoc(ps + more, p);
  }

  /** The body, unlike the method and the path, does depend on segmentation: it is whole exactly when the receive that
      completes the headers also brings the last byte of the request. */
  lemma BodyIsWholeExactly(request: seq<byte>, l: nat)
    requires IsRequest(request) && HeaderBytes(request) <= l <= |request|
    ensures RequestSoFar(request, l).method_ == RequestSoFar(request, |request|).method_
    ensures RequestSoFar(request, l).path == RequestSoFar(request, |request|).path
    ensures RequestSoFar(request, l).body == RequestSoFar(request, |request|).body <==> l == |request|
  {
    assert |RequestSoFar(request, l).body| == l - HeaderBytes(request);
  }

  // ----- sequences of requests

  predicate AreRequests(rs: seq<seq<byte>>)
  {
    forall i :: 0 <= i < |rs| ==> IsRequest(rs[i])
  }

  function Joined(rs: seq<seq<byte>>): seq<byte>
  {
    if rs == [] then [] else rs[0] + Joined(rs[1..])
  }

  /** The requests answered, as the bytes they were parsed from. */
  function Asked(xs: seq<Exchange>): (rs: seq<seq<byte>>)
    ensures |rs| == |xs|
  {
    seq(|xs|, i requires 0 <= i < |xs| => xs[i].request)
  }

  /** Where receives may end, when `at` bytes of the first request have arrived: no receive goes beyond the request
      under way; one that ends before the end of the request ends before the end of its headers; and none is fatal. */
  predicate WellCut(rs: seq<seq<byte>>, at: nat, vs: seq<Receive>)
    requires AreRequests(rs)
    decreases |vs|
  {
    if vs == [] then rs == []
    else
      rs != [] &&
      var l := at + |vs[0].data|;
      && l <= |rs[0]|
      && !Fatal(rs[0], l, vs[0].respond)
      && (if l == |rs[0]| then WellCut(rs[1..], 0, vs[1..]) else l < HeaderBytes(rs[0]) && WellCut(rs, l, vs[1..]))
  }

  lemma DataFirst(vs: seq<Receive>)
    requires vs != []
    ensures Data(vs) == vs[0].data + Data(vs[1..])
    decreases |vs|
  {
    var init, last := vs[..|vs| - 1], vs[|vs| - 1];
    if init == [] {
      assert vs == [last] && Data(vs) == Data(init) + last.data;
    } else {
      DataFirst(init);
      assert vs[1..] == init[1..] + [last];
      DataSnoc(init[1..], last);
    }
  }

  lemma TakeAsks(a: Acc, v: Receive)
    requires Take(a, v).Done?
    ensures Asked(a.answered) <= Asked(Take(a, v).value.answered)
  {}

  lemma {:induction false} AskedGrows(a: Acc, vs: seq<Receive>)
    requires Accumulate(a, vs).Done?
    ensures Asked(a.answered) <= Asked(Accumulate(a, vs).value.answered)
    decreases |vs|
  {
    if vs != [] {
      TakeAsks(a, vs[0]);
      hide Take;
      AskedGrows(Take(a, vs[0]).value, vs[1..]);
    }
  }

  lemma AskedSnoc(xs: seq<Exchange>, x: Exchange)
    ensures Asked(xs + [x]) == Asked(xs) + [x.request]
  {}

  lemma RequestGrows(r: seq<byte>, more: seq<byte>)
    requires IsRequest(r) && Ascii(more)
    ensures IsRequest(r + more) && HeaderBytes(r + more) == HeaderBytes(r)
  {
    TextConcat(r, more);
    CompleteStays(Text(r), Text(more));
  }

  lemma {:induction false} JoinedAscii(rs: seq<seq<byte>>)
    requires AreRequests(rs)
    ensures Ascii(Joined(rs))
  {
    if rs != [] {
      JoinedAscii(rs[1..]);
      assert IsRequest(rs[0]);
    }
  }

  /** What the receives still to come carry, after `at` bytes of the first request. */
  predicate Carry(rs: seq<seq<byte>>, at: nat, vs: seq<Receive>)
    requires AreRequests(rs)
  {
    if rs == [] then at == 0 && Data(vs) == []
    else at < HeaderBytes(rs[0]) <= |rs[0]| && Data(vs) == rs[0][at..] + Joined(rs[1..])
  }

  function Begun(rs: seq<seq<byte>>, at: nat): seq<byte>
  {
    if rs == [] || at > |rs[0]| then [] else rs[0][..at]
  }

  lemma FirstHeader(rs: seq<seq<byte>>)
    requires AreRequests(rs) && rs != []
    ensures IsRequest(rs[0]) && AreRequests(rs[1..]) && 0 < HeaderBytes(rs[0]) <= |rs[0]|
  {
    PrefixOutcome(rs[0], 0);
  }

  lemma CutInFirst(r: seq<byte>, at: nat, x: seq<byte>, y: seq<byte>, z: seq<byte>)
    requires at + |x| <= |r| && x + y == r[at..] + z
    ensures x == r[at..at + |x|] && y == r[at + |x|..] + z
  {
    assert x == (r[at..] + z)[..|x|];
    assert y == (r[at..] + z)[|x|..];
  }

  /** A receive inside the first request, and what is left to carry. */
  lemma WithinFirst(rs: seq<seq<byte>>, at: nat, vs: seq<Receive>)
    requires AreRequests(rs) && rs != [] && vs != [] && Carry(rs, at, vs) && at + |vs[0].data| <= |rs[0]|
    ensures var l := at + |vs[0].data|;
            && vs[0].data == rs[0][at..l]
            && Data(vs[1..]) == rs[0][l..] + Joined(rs[1..])
  {
    DataFirst(vs);
    hide Data, Joined, HeaderBytes, IsRequest;
    CutInFirst(rs[0], at, vs[0].data, Data(vs[1..]), Joined(rs[1..]));
  }

  lemma BeyondFirst(r: seq<byte>, at: nat, x: seq<byte>, y: seq<byte>, z: seq<byte>)
    requires at <= |r| < at + |x| && x + y == r[at..] + z
    ensures at + |x| - |r| <= |z|
    ensures var more := z[..at + |x| - |r|]; x == (r + more)[at..at + |x|] && |r + more| == at + |x|
  {
    assert x == (r[at..] + z)[..|x|];
  }

  lemma JoinedFirst(rs: seq<seq<byte>>)
    requires rs != []
    ensures rs[0][|rs[0]|..] + Joined(rs[1..]) == Joined(rs[1..])
    ensures rs[1..] != [] ==> Joined(rs[1..]) == rs[1..][0][0..] + Joined(rs[1..][1..])
  {}

  lemma CarryNext(rs: seq<seq<byte>>, vs: seq<Receive>)
    requires AreRequests(rs) && rs != [] && Data(vs) == Joined(rs[1..])
    ensures AreRequests(rs[1..]) && Carry(rs[1..], 0, vs) && Begun(rs[1..], 0) == []
  {
    if rs[1..] != [] {
      FirstHeader(rs[1..]);
      JoinedFirst(rs);
    }
  }

  lemma AccumulateFirst(a: Acc, vs: seq<Receive>)
    requires vs != []
    ensures Take(a, vs[0]).Panic? ==> Accumulate(a, vs).Panic?
    ensures Take(a, vs[0]).Done? ==> Accumulate(a, vs) == Accumulate(Take(a, vs[0]).value, vs[1..])
  {
    hide Take;
  }

  lemma WellCutFirst(rs: seq<seq<byte>>, at: nat, vs: seq<Receive>)
    requires AreRequests(rs) && rs != [] && vs != [] && at + |vs[0].data| <= |rs[0]|
    ensures AreRequests(rs[1..]) && IsRequest(rs[0])
    ensures var l := at + |vs[0].data|;
            WellCut(rs, at, vs)
            <==> && !Fatal(rs[0], l, vs[0].respond)
                 && if l == |rs[0]| then WellCut(rs[1..], 0, vs[1..])
                    else l < HeaderBytes(rs[0]) && WellCut(rs, l, vs[1..])
  {
    hide IsRequest, Fatal, HeaderBytes;
  }

  /** The first receive takes the first request wrongly: it is answered too early or together with what follows. */
  lemma AnsweredWrongly(a: Acc, vs: seq<Receive>, xs: seq<Exchange>, x: Exchange, rs: seq<seq<byte>>)
    requires vs != [] && rs != [] && Take(a, vs[0]) == Done(Acc([], xs + [x])) && x.request != rs[0]
    ensures Accumulate(a, vs).Done? ==> Asked(Accumulate(a, vs).value.answered) != Asked(xs) + rs
  {
    hide Take;
    if Accumulate(a, vs).Done? {
      AskedGrows(Acc([], xs + [x]), vs[1..]);
      AskedSnoc(xs, x);
      var all := Asked(Accumulate(a, vs).value.answered);
      assert all[|xs|] == x.request;
      assert (Asked(xs) + rs)[|xs|] == rs[0];
    }
  }

  lemma NothingPanics(v: Receive, xs: seq<Exchange>)
    requires v.data == []
    ensures Take(Acc([], xs), v).Panic?
  {}

  lemma TakeAll(q: seq<byte>, at: nat, v: Receive, xs: seq<Exchange>)
    requires IsRequest(q) && at + |v.data| == |q| && v.data == q[at..|q|]
    ensures var t := Take(Acc(q[..at], xs), v); t.Done? ==> exists x :: t == Done(Acc([], xs + [x])) && x.request == q
  {
    hide IsRequest, HeaderBytes, Take, Fatal, AnswerTo;
    PrefixOutcome(q, |q|);
    TakeMore(q, at, v, xs);
    if Take(Acc(q[..at], xs), v).Done? {
      var x := AnswerTo(q, |q|, v.respond);
      assert q[..|q|] == q;
      assert Take(Acc(q[..at], xs), v) == Done(Acc([], xs + [x]));
    }
  }

  lemma TakeBeyond(r: seq<byte>, at: nat, v: Receive, more: seq<byte>, xs: seq<Exchange>)
    requires IsRequest(r) && Ascii(more) && more != [] && at <= |r|
    requires |r + more| == at + |v.data| && v.data == (r + more)[at..at + |v.data|]
    ensures var t := Take(Acc(r[..at], xs), v);
            t.Done? ==> exists x :: t == Done(Acc([], xs + [x])) && x.request == r + more != r
  {
    hide IsRequest, Ascii, HeaderBytes, Take;
    RequestGrows(r, more);
    assert (r + more)[..at] == r[..at];
    TakeAll(r + more, at, v, xs);
    assert |r + more| != |r|;
  }

  /** The receives are taken, and the requests answered are `rs`. */
  predicate OneForOne(rs: seq<seq<byte>>, at: nat, vs: seq<Receive>, xs: seq<Exchange>)
  {
    var r := Accumulate(Acc(Begun(rs, at), xs), vs);
    r.Done? && Asked(r.value.answered) == Asked(xs) + rs
  }

  /** What a receive that goes beyond the first request brings after it. */
  lemma BeyondBytes(rs: seq<seq<byte>>, at: nat, vs: seq<Receive>) returns (more: seq<byte>)
    requires AreRequests(rs) && rs != [] && vs != [] && Carry(rs, at, vs) && at + |vs[0].data| > |rs[0]|
    ensures IsRequest(rs[0]) && Ascii(more) && more != []
    ensures at <= |rs[0]| && |rs[0] + more| == at + |vs[0].data|
    ensures vs[0].data == (rs[0] + more)[at..at + |vs[0].data|] && Begun(rs, at) == rs[0][..at]
  {
    FirstHeader(rs);
    DataFirst(vs);
    JoinedAscii(rs[1..]);
    hide Data, Joined, IsRequest, HeaderBytes;
    BeyondFirst(rs[0], at, vs[0].data, Data(vs[1..]), Joined(rs[1..]));
    more := Joined(rs[1..])[..at + |vs[0].data| - |rs[0]|];
  }

  lemma TakenBeyond(rs: seq<seq<byte>>, at: nat, vs: seq<Receive>, xs: seq<Exchange>)
    requires AreRequests(rs) && rs != [] && vs != [] && Carry(rs, at, vs) && at + |vs[0].data| > |rs[0]|
    ensures !OneForOne(rs, at, vs, xs) && !WellCut(rs, at, vs)
  {
    hide Carry, Data, Joined, IsRequest, HeaderBytes, Accumulate, Take, Asked, Begun, AreRequests, Ascii;
    var a := Acc(Begun(rs, at), xs);
    var more := BeyondBytes(rs, at, vs);
    TakeBeyond(rs[0], at, vs[0], more, xs);
    AccumulateFirst(a, vs);
    if Take(a, vs[0]).Done? {
      var x :| Take(a, vs[0]) == Done(Acc([], xs + [x])) && x.request == rs[0] + more != rs[0];
      AnsweredWrongly(a, vs, xs, x, rs);
    }
  }

  lemma AskedNext(xs: seq<Exchange>, x: Exchange, rs: seq<seq<byte>>)
    requires rs != [] && x.request == rs[0]
    ensures Asked(xs + [x]) + rs[1..] == Asked(xs) + rs
  {
    AskedSnoc(xs, x);
  }

  /** The first receive ends within the first request, at byte `l`. */
  predicate EndsWithin(rs: seq<seq<byte>>, at: nat, vs: seq<Receive>, l: nat)
    requires AreRequests(rs)
  {
    rs != [] && vs != [] && Carry(rs, at, vs) && l == at + |vs[0].data| <= |rs[0]|
  }

  lemma WithinBytes(rs: seq<seq<byte>>, at: nat, vs: seq<Receive>, l: nat)
    requires AreRequests(rs) && EndsWithin(rs, at, vs, l)
    ensures rs != [] && vs != [] && IsRequest(rs[0]) && 0 < HeaderBytes(rs[0]) <= |rs[0]|
    ensures at <= l <= |rs[0]| && l == at + |vs[0].data| && vs[0].data == rs[0][at..l]
    ensures Begun(rs, at) == rs[0][..at] && Begun(rs, l) == rs[0][..l]
  {
    FirstHeader(rs);
    WithinFirst(rs, at, vs);
    hide Data, Joined, IsRequest, HeaderBytes;
  }

  /** What that receive does. */
  lemma FirstTaken(rs: seq<seq<byte>>, at: nat, vs: seq<Receive>, xs: seq<Exchange>, l: nat)
    requires AreRequests(rs) && EndsWithin(rs, at, vs, l)
    ensures IsRequest(rs[0]) && 0 < HeaderBytes(rs[0])
    ensures var t, respond := Take(Acc(Begun(rs, at), xs), vs[0]), vs[0].respond;
            && (t.Panic? <==> Fatal(rs[0], l, respond))
            && (!Fatal(rs[0], l, respond) ==>
                  t == Done(if l < HeaderBytes(rs[0]) then Acc(Begun(rs, l), xs)
                            else Acc([], xs + [AnswerTo(rs[0], l, respond)])))
  {
    hide Take, Fatal, IsRequest, HeaderBytes, AnswerTo, AreRequests, EndsWithin, Begun;
    WithinBytes(rs, at, vs, l);
    TakeMore(rs[0], at, vs[0], xs);
  }

  lemma CarryPart(rs: seq<seq<byte>>, at: nat, vs: seq<Receive>, l: nat)
    requires AreRequests(rs) && EndsWithin(rs, at, vs, l) && IsRequest(rs[0]) && l < HeaderBytes(rs[0])
    ensures Carry(rs, l, vs[1..])
  {
    hide Data, Joined, IsRequest, HeaderBytes, AreRequests, Begun;
    WithinBytes(rs, at, vs, l);
    WithinFirst(rs, at, vs);
  }

  lemma CarryWhole(rs: seq<seq<byte>>, at: nat, vs: seq<Receive>, l: nat)
    requires AreRequests(rs) && EndsWithin(rs, at, vs, l) && l == |rs[0]|
    ensures AreRequests(rs[1..]) && Carry(rs[1..], 0, vs[1..]) && Begun(rs[1..], 0) == []
  {
    WithinFirst(rs, at, vs);
    JoinedFirst(rs);
    hide Data, Joined, IsRequest, HeaderBytes, Carry, AreRequests;
    CarryNext(rs, vs[1..]);
  }

  lemma FatalWithin(rs: seq<seq<byte>>, at: nat, vs: seq<Receive>, xs: seq<Exchange>, l: nat)
    requires AreRequests(rs) && EndsWithin(rs, at, vs, l) && IsRequest(rs[0]) && Fatal(rs[0], l, vs[0].respond)
    ensures !OneForOne(rs, at, vs, xs) && !WellCut(rs, at, vs)
  {
    hide Take, Fatal, Asked, IsRequest, HeaderBytes, WellCut, Accumulate, AnswerTo, AreRequests, EndsWithin, Begun;
    WithinBytes(rs, at, vs, l);
    FirstTaken(rs, at, vs, xs, l);
    WellCutFirst(rs, at, vs);
    AccumulateFirst(Acc(Begun(rs, at), xs), vs);
  }

  lemma PartWithin(rs: seq<seq<byte>>, at: nat, vs: seq<Receive>, xs: seq<Exchange>, l: nat)
    requires AreRequests(rs) && EndsWithin(rs, at, vs, l) && IsRequest(rs[0]) && !Fatal(rs[0], l, vs[0].respond)
    requires l < HeaderBytes(rs[0])
    ensures OneForOne(rs, at, vs, xs) <==> OneForOne(rs, l, vs[1..], xs)
    ensures WellCut(rs, at, vs) <==> WellCut(rs, l, vs[1..])
  {
    hide Take, Fatal, Asked, IsRequest, HeaderBytes, WellCut, Accumulate, AnswerTo, AreRequests, EndsWithin, Begun;
    WithinBytes(rs, at, vs, l);
    FirstTaken(rs, at, vs, xs, l);
    WellCutFirst(rs, at, vs);
    AccumulateFirst(Acc(Begun(rs, at), xs), vs);
  }

  lemma TakeWholeSlice<T>(s: seq<T>, l: nat)
    requires l == |s|
    ensures s[..l] == s
  {}

  lemma EarlyWithin(rs: seq<seq<byte>>, at: nat, vs: seq<Receive>, xs: seq<Exchange>, l: nat)
    requires AreRequests(rs) && EndsWithin(rs, at, vs, l) && IsRequest(rs[0]) && !Fatal(rs[0], l, vs[0].respond)
    requires HeaderBytes(rs[0]) <= l < |rs[0]|
    ensures !OneForOne(rs, at, vs, xs) && !WellCut(rs, at, vs)
  {
    hide Take, Fatal, Asked, IsRequest, HeaderBytes, WellCut, Accumulate, AnswerTo, AreRequests, EndsWithin, Begun;
    WithinBytes(rs, at, vs, l);
    FirstTaken(rs, at, vs, xs, l);
    WellCutFirst(rs, at, vs);
    var x := AnswerTo(rs[0], l, vs[0].respond);
    assert |x.request| == l;
    AnsweredWrongly(Acc(Begun(rs, at), xs), vs, xs, x, rs);
  }

  lemma WholeWithin(rs: seq<seq<byte>>, at: nat, vs: seq<Receive>, xs: seq<Exchange>, l: nat)
    requires AreRequests(rs) && EndsWithin(rs, at, vs, l) && IsRequest(rs[0]) && !Fatal(rs[0], l, vs[0].respond)
    requires HeaderBytes(rs[0]) <= l == |rs[0]|
    ensures AreRequests(rs[1..])
    ensures OneForOne(rs, at, vs, xs)
            <==> OneForOne(rs[1..], 0, vs[1..], xs + [AnswerTo(rs[0], l, vs[0].respond)])
    ensures WellCut(rs, at, vs) <==> WellCut(rs[1..], 0, vs[1..])
  {
    hide Take, Fatal, Asked, IsRequest, HeaderBytes, WellCut, Accumulate, AnswerTo, AreRequests, EndsWithin, Begun;
    WithinBytes(rs, at, vs, l);
    var x := AnswerTo(rs[0], l, vs[0].respond);
    TakeWholeSlice(rs[0], l);
    AskedNext(xs, x, rs);
    FirstTaken(rs, at, vs, xs, l);
    WellCutFirst(rs, at, vs);
    CarryWhole(rs, at, vs, l);
    AccumulateFirst(Acc(Begun(rs, at), xs), vs);
  }

  lemma SomethingCarried(rs: seq<seq<byte>>, at: nat, vs: seq<Receive>)
    requires AreRequests(rs) && Carry(rs, at, vs) && rs != []
    ensures Data(vs) != []
  {
    assert |rs[0][at..] + Joined(rs[1..])| >= |rs[0][at..]| > 0;
  }

  lemma NothingCarried(rs: seq<seq<byte>>, at: nat, xs: seq<Exchange>)
    requires AreRequests(rs) && Carry(rs, at, [])
    ensures rs == [] && OneForOne(rs, at, [], xs)
  {
    if rs != [] {
      SomethingCarried(rs, at, []);
    }
    assert Asked(xs) + [] == Asked(xs);
  }

  /** Exactly when a sequence of requests is answered one for one. */
  lemma {:induction false} AnsweredOneForOne(rs: seq<seq<byte>>, at: nat, vs: seq<Receive>, xs: seq<Exchange>)
    requires AreRequests(rs) && Carry(rs, at, vs)
    ensures OneForOne(rs, at, vs, xs) <==> WellCut(rs, at, vs)
    decreases |vs|
  {
    if vs == [] {
      NothingCarried(rs, at, xs);
    } else if rs == [] {
      DataFirst(vs);
      NothingPanics(vs[0], xs);
    } else if at + |vs[0].data| > |rs[0]| {
      TakenBeyond(rs, at, vs, xs);
    } else {
      var l := at + |vs[0].data|;
      FirstHeader(rs);
      hide OneForOne, WellCut, Carry, AreRequests, IsRequest, HeaderBytes, Fatal, AnswerTo;
      if Fatal(rs[0], l, vs[0].respond) {
        FatalWithin(rs, at, vs, xs, l);
      } else if l < HeaderBytes(rs[0]) {
        PartWithin(rs, at, vs, xs, l);
        CarryPart(rs, at, vs, l);
        AnsweredOneForOne(rs, l, vs[1..], xs);
      } else if l < |rs[0]| {
        EarlyWithin(rs, at, vs, xs, l);
      } else {
        WholeWithin(rs, at, vs, xs, l);
        CarryWhole(rs, at, vs, l);
        AnsweredOneForOne(rs[1..], 0, vs[1..], xs + [AnswerTo(rs[0], l, vs[0].respond)]);
      }
    }
  }

  /** Over every run from a moment without pending bytes, with sends and idle calls anywhere: if the receives carry the
      requests `rs` and nothing else, each is answered, whole and in order, exactly when the receives end where
      `WellCut` says. */
  lemma RequestsAnswered(rs: seq<seq<byte>>, ps: seq<Poll>, more: seq<Poll>)
    requires AreRequests(rs) && Run(ps + more).Done?
    requires Run(ps).Done? && Run(ps).value.web.rxbytes == [] && Data(Since(ps, more)) == Joined(rs)
    ensures Asked(Run(ps + more).value.answered) == Asked(Run(ps).value.answered) + rs
            <==> WellCut(rs, 0, Since(ps, more))
  {
    if rs != [] {
      FirstHeader(rs);
      assert rs[0][0..] == rs[0] && rs[0][..0] == [];
    }
    hide Run, Since, Accumulate, WellCut, AreRequests, Data, IsRequest, HeaderBytes, Asked, Joined;
    RunAccumulates(ps, more);
    AnsweredOneForOne(rs, 0, Since(ps, more), Run(ps).value.answered);
  }
}
