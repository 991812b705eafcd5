/** The lease table over every history of messages. */
module DhcpLeases {
  import opened Wire
  import opened DhcpCodec
  import opened Dhcp

  /** A server as it starts. */
  predicate Fresh(s: Server)
  {
    s.addrcnt == 0 && s.clients == []
  }

  datatype Served = Served(server: Server, replies: seq<Option<seq<byte>>>)

  /** A history of messages, answered in order. */
  function Serve(s: Server, bufs: seq<seq<byte>>): (r: Outcome<Served>)
    ensures r.Done? ==> |r.value.replies| == |bufs|
  {
    if bufs == [] then Done(Served(s, []))
    else
      var r :- Serve(s, bufs[..|bufs| - 1]);
      var a :- Recv(r.server, bufs[|bufs| - 1]);
      Done(Served(a.server, r.replies + [a.reply]))
  }

  lemma {:induction false} ServePrefix(s: Server, bufs: seq<seq<byte>>, k: nat)
    requires k <= |bufs| && Serve(s, bufs).Done?
    ensures Serve(s, bufs[..k]).Done?
    decreases |bufs|
  {
    hide Recv;
    if k == |bufs| {
      assert bufs[..k] == bufs;
    } else {
      ServePrefix(s, bufs[..|bufs| - 1], k);
      assert bufs[..|bufs| - 1][..k] == bufs[..k];
    }
  }

  /** The messages `run_dhcpserver` hands to the server, one after the other. */
  method ServeAll(server: DhcpServer, bufs: seq<seq<byte>>) returns (replies: seq<Option<seq<byte>>>)
    requires Serve(server.View(), bufs).Done?
    modifies server
    ensures Serve(old(server.View()), bufs) == Done(Served(server.View(), replies))
  {
    hide Recv;
    ghost var s := server.View();
    replies := [];
    for i := 0 to |bufs|
      invariant Serve(s, bufs[..i]) == Done(Served(server.View(), replies))
    {
      ServePrefix(s, bufs, i + 1);
      assert bufs[..i + 1][..i] == bufs[..i];
      var reply := server.Receive(bufs[i]);
      replies := replies + [reply];
    }
    assert bufs[..|bufs|] == bufs;
  }

  // ----- the specification: order of first appearance

  predicate NoDuplicates(xs: seq<Mac>)
  {
    forall i, j :: 0 <= i < j < |xs| ==> xs[i] != xs[j]
  }

  /** The clients in order of first appearance. */
  function Distinct(cs: seq<Mac>): (ds: seq<Mac>)
    ensures forall c :: c in ds <==> c in cs
  {
    if cs == [] then []
    else
      var ds, c := Distinct(cs[..|cs| - 1]), cs[|cs| - 1];
      assert cs == cs[..|cs| - 1] + [c];
      if c in ds then ds else ds + [c]
  }

  function IndexOf(xs: seq<Mac>, x: Mac): (i: nat)
    requires x in xs
    ensures i < |xs| && xs[i] == x
    ensures forall j :: 0 <= j < i ==> xs[j] != x
  {
    if xs[0] == x then 0 else 1 + IndexOf(xs[1..], x)
  }

  /** The clients that asked for a lease, in order, with repetitions. */
  function Askers(bufs: seq<seq<byte>>): seq<Mac>
  {
    if bufs == [] then []
    else
      var buf := bufs[|bufs| - 1];
      Askers(bufs[..|bufs| - 1]) + (if AsksForLease(buf) then [ClientOf(buf)] else [])
  }

  /** How many clients can be given an address before one-byte arithmetic overflows. */
  function Capacity(addrstart: byte): nat
  {
    Min(0x100 - addrstart, 0xFF)
  }

  /** The address of a client among those that asked. */
  function AddressOf(s: Server, cs: seq<Mac>, c: Mac): Ipv4
    requires c in cs && |Distinct(cs)| <= Capacity(s.addrstart)
  {
    s.serverip[3 := s.addrstart + IndexOf(Distinct(cs), c)]
  }

  /** `s` is the fresh server `s0` after the clients `cs` have asked. */
  predicate Represents(s0: Server, s: Server, cs: seq<Mac>)
  {
    && Fresh(s0)
    && |Distinct(cs)| <= Capacity(s0.addrstart)
    && s == s0.(addrcnt := |Distinct(cs)|, clients := Distinct(cs))
  }

  lemma {:induction false} PositionsAbsent(xs: seq<Mac>, x: Mac)
    requires x !in xs
    ensures Positions(xs, x) == []
  {
    if xs != [] {
      PositionsAbsent(xs[..|xs| - 1], x);
    }
  }

  lemma {:induction false} PositionsOnce(xs: seq<Mac>, x: Mac, i: nat)
    requires i < |xs| && xs[i] == x
    requires NoDuplicates(xs)
    ensures Positions(xs, x) == [i]
  {
    var init := xs[..|xs| - 1];
    if i == |init| {
      PositionsAbsent(init, x);
    } else {
      assert init[i] == x;
      PositionsOnce(init, x, i);
    }
  }

  lemma DistinctSnoc(cs: seq<Mac>, c: Mac)
    ensures Distinct(cs + [c]) == if c in cs then Distinct(cs) else Distinct(cs) + [c]
  {
    assert (cs + [c])[..|cs|] == cs;
  }

  lemma {:induction false} DistinctHasNoDuplicates(cs: seq<Mac>)
    ensures NoDuplicates(Distinct(cs))
  {
    if cs != [] {
      DistinctHasNoDuplicates(cs[..|cs| - 1]);
    }
  }

  lemma IndexUnique(xs: seq<Mac>, x: Mac, i: nat)
    requires i < |xs| && xs[i] == x && NoDuplicates(xs)
    ensures x in xs && IndexOf(xs, x) == i
  {}

  /** A client that has a lease gets it again. */
  lemma KnownClient(s0: Server, s: Server, cs: seq<Mac>, c: Mac)
    requires Represents(s0, s, cs) && c in cs
    ensures CreateLease(s, c) == Done(Leased(s, AddressOf(s0, cs, c)))
  {
    hide Distinct;
    var i := IndexOf(Distinct(cs), c);
    DistinctHasNoDuplicates(cs);
    PositionsOnce(Distinct(cs), c, i);
  }

  /** A new client gets the next address, if there is one. */
  lemma NewClient(s0: Server, s: Server, cs: seq<Mac>, c: Mac)
    requires Represents(s0, s, cs) && c !in cs
    ensures CreateLease(s, c).Panic? <==> |Distinct(cs)| == Capacity(s0.addrstart)
    ensures CreateLease(s, c).Done? ==>
              && CreateLease(s, c).value.server
                 == s.(addrcnt := |Distinct(cs)| + 1, clients := Distinct(cs) + [c])
              && CreateLease(s, c).value.ip == s0.serverip[3 := s0.addrstart + |Distinct(cs)|]
  {
    hide Distinct;
    assert c !in Distinct(cs);
    PositionsAbsent(Distinct(cs), c);
  }

  lemma NewIndex(cs: seq<Mac>, c: Mac)
    requires c !in cs
    ensures IndexOf(Distinct(cs + [c]), c) == |Distinct(cs)|
  {
    DistinctSnoc(cs, c);
    DistinctHasNoDuplicates(cs + [c]);
    hide Distinct, NoDuplicates;
    IndexUnique(Distinct(cs + [c]), c, |Distinct(cs)|);
  }

  /** Earlier leases are not moved by later requests. */
  lemma AddressStable(s0: Server, cs: seq<Mac>, c: Mac, more: Mac)
    requires c in cs && |Distinct(cs + [more])| <= Capacity(s0.addrstart)
    ensures |Distinct(cs)| <= Capacity(s0.addrstart)
    ensures AddressOf(s0, cs + [more], c) == AddressOf(s0, cs, c)
  {
    hide Distinct, NoDuplicates, IndexOf;
    DistinctSnoc(cs, more);
    DistinctHasNoDuplicates(cs + [more]);
    var i := IndexOf(Distinct(cs), c);
    assert Distinct(cs + [more])[i] == c;
    IndexUnique(Distinct(cs + [more]), c, i);
  }

  lemma AddressNew(s0: Server, cs: seq<Mac>, c: Mac)
    requires c !in cs && |Distinct(cs + [c])| <= Capacity(s0.addrstart)
    ensures AddressOf(s0, cs + [c], c) == s0.serverip[3 := s0.addrstart + |Distinct(cs)|]
  {
    hide Distinct, IndexOf;
    NewIndex(cs, c);
  }

  /** One request: the table stays the map of first appearances, the address is the client's, and it fails
      exactly when a new client finds no address left. */
  lemma LeaseRefines(s0: Server, s: Server, cs: seq<Mac>, c: Mac)
    requires Represents(s0, s, cs)
    ensures CreateLease(s, c).Panic? <==> c !in cs && |Distinct(cs)| == Capacity(s0.addrstart)
    ensures CreateLease(s, c).Done? ==>
              && Represents(s0, CreateLease(s, c).value.server, cs + [c])
              && CreateLease(s, c).value.ip == AddressOf(s0, cs + [c], c)
  {
    DistinctSnoc(cs, c);
    hide Distinct, CreateLease, AddressOf;
    if c in cs {
      KnownClient(s0, s, cs, c);
      AddressStable(s0, cs, c, c);
    } else {
      NewClient(s0, s, cs, c);
      if CreateLease(s, c).Done? {
        AddressNew(s0, cs, c);
      }
    }
  }

  /** What the k-th reply of a history must be: present exactly for requests, with the client's address. */
  predicate ReplyFor(s0: Server, cs: seq<Mac>, buf: seq<byte>, reply: Option<seq<byte>>)
    requires |Distinct(cs)| <= Capacity(s0.addrstart)
  {
    && Readable(buf)
    && (reply.Some? <==> AsksForLease(buf))
    && (reply.Some? ==>
          && ClientOf(buf) in cs
          && IsReply(buf, reply.value, AddressOf(s0, cs, ClientOf(buf)),
                     ReplyArea(s0.subnet, s0.serverip, MessageCode(ReplyType(buf)))))
  }

  lemma ReplyStable(s0: Server, cs: seq<Mac>, more: Mac, buf: seq<byte>, reply: Option<seq<byte>>)
    requires |Distinct(cs)| <= Capacity(s0.addrstart) && |Distinct(cs + [more])| <= Capacity(s0.addrstart)
    requires ReplyFor(s0, cs, buf, reply)
    ensures ReplyFor(s0, cs + [more], buf, reply)
  {
    hide AddressOf, Distinct, Readable, AsksForLease, ClientOf, IsReply, ReplyArea;
    if reply.Some? {
      AddressStable(s0, cs, ClientOf(buf), more);
    }
  }

  lemma RepresentsFits(s0: Server, s: Server, cs: seq<Mac>)
    requires Represents(s0, s, cs)
    ensures |Distinct(cs)| <= Capacity(s0.addrstart)
    ensures s.subnet == s0.subnet && s.serverip == s0.serverip
  {}

  lemma AskersAreReadable(buf: seq<byte>)
    requires AsksForLease(buf)
    ensures Readable(buf)
  {}

  lemma LeasedReply(s0: Server, s: Server, cs: seq<Mac>, buf: seq<byte>)
    requires Represents(s0, s, cs) && AsksForLease(buf) && Recv(s, buf).Done?
    ensures |Distinct(cs + [ClientOf(buf)])| <= Capacity(s0.addrstart)
    ensures ReplyFor(s0, cs + [ClientOf(buf)], buf, Recv(s, buf).value.reply)
  {
    RepresentsFits(s0, s, cs);
    AskersAreReadable(buf);
    hide Recv, CreateLease, Readable, AsksForLease, KindOf, Distinct, AddressOf, Represents, ReplyArea, DecodeMany,
         IsReply, ReplyType, MessageCode, ReplyOptions;
    ReplyChangesOnly(s, buf);
    LeaseRefines(s0, s, cs, ClientOf(buf));
    RepresentsFits(s0, CreateLease(s, ClientOf(buf)).value.server, cs + [ClientOf(buf)]);
  }

  /** One message. */
  lemma RecvRefines(s0: Server, s: Server, cs: seq<Mac>, buf: seq<byte>)
    requires Represents(s0, s, cs)
    ensures Recv(s, buf).Panic? <==>
            !Readable(buf)
            || (AsksForLease(buf) && ClientOf(buf) !in cs && |Distinct(cs)| == Capacity(s0.addrstart))
    ensures Recv(s, buf).Done? ==>
              var cs' := cs + (if AsksForLease(buf) then [ClientOf(buf)] else []);
              && Represents(s0, Recv(s, buf).value.server, cs')
              && ReplyFor(s0, cs', buf, Recv(s, buf).value.reply)
  {
    RecvCases(s, buf);
    RepresentsFits(s0, s, cs);
    assert cs + [] == cs;
    if AsksForLease(buf) {
      AskersAreReadable(buf);
      hide Recv, CreateLease, Readable, AsksForLease, Distinct, Represents, ReplyFor;
      LeaseRefines(s0, s, cs, ClientOf(buf));
      if Recv(s, buf).Done? {
        LeasedReply(s0, s, cs, buf);
      }
    }
  }

  lemma DistinctOfNone()
    ensures Distinct([]) == []
  {}

  /** Over every history: the table is the list of clients in order of first appearance with its count, and every
      reply -- there is one exactly for each request -- carries its client's address in the final table. So
      leases are stable, and the firmware's "two ips to 1 mac" cannot be reached. */
  lemma {:induction false} LeaseMapRefinement(s0: Server, bufs: seq<seq<byte>>)
    requires Fresh(s0) && Serve(s0, bufs).Done?
    ensures Represents(s0, Serve(s0, bufs).value.server, Askers(bufs))
    ensures forall i :: 0 <= i < |bufs| ==> ReplyFor(s0, Askers(bufs), bufs[i], Serve(s0, bufs).value.replies[i])
  {
    hide Recv, ReplyFor, AsksForLease, Distinct, AddressOf, ClientOf, Readable;
    if bufs == [] {
      DistinctOfNone();
    } else {
      var init, buf := bufs[..|bufs| - 1], bufs[|bufs| - 1];
      LeaseMapRefinement(s0, init);
      var r := Serve(s0, init).value;
      RecvRefines(s0, r.server, Askers(init), buf);
      forall i | 0 <= i < |init|
        ensures ReplyFor(s0, Askers(bufs), bufs[i], r.replies[i])
      {
        assert bufs[i] == init[i];
        assert Askers(init) + [] == Askers(init);
        if AsksForLease(buf) {
          ReplyStable(s0, Askers(init), ClientOf(buf), init[i], r.replies[i]);
        }
      }
    }
  }

  /** Different clients have different addresses, and one client has one. */
  lemma AddressesIdentifyClients(s0: Server, cs: seq<Mac>, c: Mac, d: Mac)
    requires c in cs && d in cs && |Distinct(cs)| <= Capacity(s0.addrstart)
    ensures AddressOf(s0, cs, c) == AddressOf(s0, cs, d) <==> c == d
  {
    hide Distinct;
    assert AddressOf(s0, cs, c)[3] == s0.addrstart + IndexOf(Distinct(cs), c);
    assert AddressOf(s0, cs, d)[3] == s0.addrstart + IndexOf(Distinct(cs), d);
  }

  lemma AreaTellsCode(subnet: Ipv4, serverip: Ipv4, c: byte, d: byte)
    ensures ReplyArea(subnet, serverip, c) == ReplyArea(subnet, serverip, d) <==> c == d
  {
    assert ReplyArea(subnet, serverip, c)[2] == c && ReplyArea(subnet, serverip, d)[2] == d;
  }

  /** Over every history, in any interleaving: two replies carry the same address exactly when they answer the same
      client. In particular an Ack carries the address of every earlier Offer to that client. */
  lemma OfferAckAgreement(s0: Server, bufs: seq<seq<byte>>, i: nat, j: nat)
    requires Fresh(s0) && i < |bufs| && j < |bufs|
    ensures Serve(s0, bufs).Done? && AsksForLease(bufs[i]) && AsksForLease(bufs[j]) ==>
              var replies := Serve(s0, bufs).value.replies;
              && replies[i].Some? && |replies[i].value| == MSG_LEN
              && replies[j].Some? && |replies[j].value| == MSG_LEN
              && (replies[i].value[16..20] == replies[j].value[16..20] <==> ClientOf(bufs[i]) == ClientOf(bufs[j]))
              && (replies[i].value[240..] == ReplyArea(s0.subnet, s0.serverip, 2) <==> KindOf(bufs[i]).Discover?)
              && (replies[j].value[240..] == ReplyArea(s0.subnet, s0.serverip, 5) <==> KindOf(bufs[j]).Request?)
  {
    hide Serve, AddressOf, Distinct, Readable, KindOf, ReplyArea;
    if Serve(s0, bufs).Done? && AsksForLease(bufs[i]) && AsksForLease(bufs[j]) {
      LeaseMapRefinement(s0, bufs);
      var replies := Serve(s0, bufs).value.replies;
      assert ReplyFor(s0, Askers(bufs), bufs[i], replies[i]) && ReplyFor(s0, Askers(bufs), bufs[j], replies[j]);
      AddressesIdentifyClients(s0, Askers(bufs), ClientOf(bufs[i]), ClientOf(bufs[j]));
      AreaTellsCode(s0.subnet, s0.serverip, 2, 5);
    }
  }

  /** Over every history of readable messages: the server halts exactly when more clients have asked than there are
      addresses. */
  lemma {:induction false} HaltsExactlyWhenFull(s0: Server, bufs: seq<seq<byte>>)
    requires Fresh(s0) && forall i :: 0 <= i < |bufs| ==> Readable(bufs[i])
    ensures Serve(s0, bufs).Panic? <==> |Distinct(Askers(bufs))| > Capacity(s0.addrstart)
  {
    hide Recv, Readable, AsksForLease, Distinct, ReplyFor;
    if bufs == [] {
      DistinctOfNone();
    } else {
      var init, buf := bufs[..|bufs| - 1], bufs[|bufs| - 1];
      assert forall i :: 0 <= i < |init| ==> Readable(init[i]) by {
        assert forall i :: 0 <= i < |init| ==> init[i] == bufs[i];
      }
      HaltsExactlyWhenFull(s0, init);
      assert Askers(init) + [] == Askers(init);
      if AsksForLease(buf) {
        AskersAreReadable(buf);
        DistinctSnoc(Askers(init), ClientOf(buf));
      }
      if Serve(s0, init).Done? {
        LeaseMapRefinement(s0, init);
        RecvRefines(s0, Serve(s0, init).value.server, Askers(init), buf);
      }
    }
  }

  /** `maxaddr` is never consulted: all addresses given out stay at or below it exactly when no more clients have
      asked than the range from `addrstart` to `maxaddr` holds. */
  lemma MaxaddrHoldsExactly(s0: Server, cs: seq<Mac>)
    requires |Distinct(cs)| <= Capacity(s0.addrstart)
    ensures (forall c :: c in cs ==> AddressOf(s0, cs, c)[3] <= s0.maxaddr)
            <==> |Distinct(cs)| <= (if s0.maxaddr < s0.addrstart then 0 else s0.maxaddr - s0.addrstart + 1)
  {
    var ds := Distinct(cs);
    DistinctHasNoDuplicates(cs);
    hide Distinct, NoDuplicates;
    if ds != [] {
      var last := ds[|ds| - 1];
      assert last in cs;
      IndexUnique(ds, last, |ds| - 1);
      assert AddressOf(s0, cs, last)[3] == s0.addrstart + |ds| - 1;
      forall c | c in cs
        ensures AddressOf(s0, cs, c)[3] <= s0.addrstart + |ds| - 1
      {
      }
    } else {
      assert forall c :: c in cs ==> c in ds;
    }
  }
}
