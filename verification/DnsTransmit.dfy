/** dns_transmit: send a query to up to 16 servers by UDP, four rounds with growing
    timeouts, and by TCP when an answer does not fit. */
module DnsTransmit {
  import opened Bytes
  import opened Wrappers
  import opened DnsDomain
  import opened DnsPacket

  const ROUNDS: nat := 4
  const SERVERS: nat := 16
  const IN: seq<byte> := [0, 1]
  const NOADDRESS: seq<byte> := [0, 0, 0, 0]

  /** One more than the rank of the last attempt a run can make. */
  const LAST: nat := ROUNDS * SERVERS + SERVERS

  // ---- what an answer must look like ----------------------------------------

  /** The answer carries the question that was asked: one question, with the
      query's id, name (letter case aside), type and class. */
  ghost predicate Relevant(query: seq<byte>, q: seq<Label>, qtype: seq<byte>, p: seq<byte>)
  {
    && |query| >= 14
    && |p| >= 12 && p[0..2] == query[2..4] && p[4] == 0 && p[5] == 1
    && (match Limited(p, 12)
        case None => false
        case Some(labels) =>
          && LowerLabels(labels) == LowerLabels(q)
          && var end := NameEnd(p, 12).GetOr(0);
             end + 4 <= |p| && p[end..end + 2] == qtype && p[end + 2..end + 4] == IN)
  }

  /** The answer is not marked as cut short. */
  predicate Complete(p: seq<byte>) { |p| >= 12 && p[2] / 2 % 2 == 0 }

  /** The answer reports success or that the name does not exist. */
  predicate Succeeded(p: seq<byte>) { |p| >= 12 && (p[3] % 16 == 0 || p[3] % 16 == 3) }

  ghost predicate Answers(query: seq<byte>, q: seq<Label>, qtype: seq<byte>, p: seq<byte>)
  {
    Relevant(query, q, qtype, p) && Complete(p) && Succeeded(p)
  }

  /** serverwantstcp. */
  method ServerWantsTcp(buf: seq<byte>) returns (r: bool)
    ensures r <==> !Complete(buf)
  {
    var pos, out := PacketCopy(buf, 0, 12);
    if pos == 0 {
      return true;
    }
    return out[2] / 2 % 2 == 1;
  }

  /** serverfailed. */
  method ServerFailed(buf: seq<byte>) returns (r: bool)
    ensures r <==> !Succeeded(buf)
  {
    var pos, out := PacketCopy(buf, 0, 12);
    if pos == 0 {
      return true;
    }
    var rcode := out[3] % 16;
    return rcode != 0 && rcode != 3;
  }

  /** irrelevant. */
  method Irrelevant(query: seq<byte>, qtype: seq<byte>, buf: seq<byte>, ghost q: seq<Label>) returns (r: bool)
    requires |qtype| == 2 && LabelsOk(q) && |query| >= 14 && Wire(q) <= query[14..]
    ensures r <==> !Relevant(query, q, qtype, buf)
  {
    var pos, out := PacketCopy(buf, 0, 12);
    if pos == 0 { return true; }
    assert buf[0..2] == out[..2];
    if out[..2] != query[2..4] { return true; }
    if out[4] != 0 { return true; }
    if out[5] != 1 { return true; }
    var dn;
    pos, dn := GetName(buf, pos);
    if pos == 0 { return true; }
    LimitedLabels(buf, 12);
    var eq := DomainEqual(dn, query[14..], Limited(buf, 12).value, q);
    if !eq { return true; }
    ghost var end := pos;
    pos, out := PacketCopy(buf, pos, 4);
    if pos == 0 { return true; }
    assert out[..2] == buf[end..end + 2] && out[2..] == buf[end + 2..end + 4];
    if out[..2] != qtype { return true; }
    if out[2..] != IN { return true; }
    return false;
  }

  /** A query: two length bytes, a header that announces one question, the question. */
  ghost predicate IsQuery(query: seq<byte>, q: seq<Label>, qtype: seq<byte>)
    requires LabelsOk(q)
  {
    && |query| >= 14 && query[14..] == Wire(q) + qtype + IN
    && query[0] as int * 256 + query[1] as int == (|query| - 2) % 0x1_0000
    && (query[4..14] == Header(true) || query[4..14] == Header(false))
  }

  function Header(recursive: bool): seq<byte> {
    [if recursive then 1 else 0, 0, 0, 1, 0, 0, 0, 0, 0, 0]
  }

  // ---- attempts -------------------------------------------------------------

  /** One query sent out: by TCP or in which UDP round, to which server, and with which id. */
  datatype Attempt = Attempt(tcp: bool, round: nat, server: nat, id: seq<byte>)

  /** The order in which servers have their turns. */
  function Turn(tcp: bool, round: nat, server: nat): nat {
    if tcp then ROUNDS * SERVERS + server else SERVERS * round + server
  }

  function Rank(a: Attempt): nat { Turn(a.tcp, a.round, a.server) }

  ghost predicate AttemptOk(a: Attempt) { a.server < SERVERS && (a.tcp || a.round < ROUNDS) }

  /** Every attempt comes later in the order than the one before, and before limit. */
  ghost predicate InOrder(as_: seq<Attempt>, limit: nat) {
    && (forall i | 0 <= i < |as_| :: AttemptOk(as_[i]) && Rank(as_[i]) < limit)
    && (forall i, j | 0 <= i < j < |as_| :: Rank(as_[i]) < Rank(as_[j]))
  }

  /** The query carries the id of the last attempt. */
  ghost predicate NamesLast(query: seq<byte>, as_: seq<Attempt>) {
    |query| >= 4 && as_ != [] && query[2..4] == as_[|as_| - 1].id
  }

  function CountTcp(as_: seq<Attempt>): nat {
    if as_ == [] then 0 else CountTcp(as_[..|as_| - 1]) + if as_[|as_| - 1].tcp then 1 else 0
  }

  /** No run makes more than 64 attempts by UDP and 16 by TCP. */
  lemma {:induction false} AttemptsBounded(as_: seq<Attempt>, limit: nat)
    requires InOrder(as_, limit)
    ensures CountTcp(as_) <= |as_| <= limit
    ensures |as_| - CountTcp(as_) <= ROUNDS * SERVERS && CountTcp(as_) <= SERVERS
    ensures CountTcp(as_) > 0 ==> CountTcp(as_) + ROUNDS * SERVERS <= limit
    decreases |as_|
  {
    if as_ != [] {
      var k := |as_| - 1;
      AttemptsBounded(as_[..k], Rank(as_[k]));
    }
  }

  lemma InOrderMore(as_: seq<Attempt>, a: Attempt)
    requires InOrder(as_, Rank(a)) && AttemptOk(a)
    ensures forall id :: InOrder(as_ + [a.(id := id)], Rank(a) + 1)
  {
  }

  lemma InOrderLater(as_: seq<Attempt>, limit: nat, later: nat)
    requires InOrder(as_, limit) && limit <= later
    ensures InOrder(as_, later)
  {
  }

  /** Server s has an address. */
  predicate HasAddress(servers: seq<byte>, s: nat) {
    4 * s + 4 <= |servers| && servers[4 * s..4 * s + 4] != NOADDRESS
  }

  /** The server has been tried, in that round if by UDP. */
  ghost predicate Made(as_: seq<Attempt>, tcp: bool, round: nat, server: nat) {
    exists i :: 0 <= i < |as_| && as_[i].tcp == tcp && as_[i].round == round && as_[i].server == server
  }

  lemma MadeStays(as_: seq<Attempt>, more: seq<Attempt>, tcp: bool, round: nat, server: nat)
    requires as_ <= more && Made(as_, tcp, round, server)
    ensures Made(more, tcp, round, server)
  {
    var i :| 0 <= i < |as_| && as_[i].tcp == tcp && as_[i].round == round && as_[i].server == server;
    assert more[i] == as_[i];
  }

  lemma MadeLast(as_: seq<Attempt>, a: Attempt)
    ensures Made(as_ + [a], a.tcp, a.round, a.server)
  {
    assert (as_ + [a])[|as_|] == a;
  }

  /** Every server with an address has been tried by UDP in the rounds from `first` on, as far
      as the order of attempts goes before limit. */
  ghost predicate TriedUdp(as_: seq<Attempt>, servers: seq<byte>, first: nat, limit: nat) {
    forall round: nat, s: nat {:trigger Made(as_, false, round, s)} |
      first <= round < ROUNDS && s < SERVERS && HasAddress(servers, s) && Turn(false, round, s) < limit ::
      Made(as_, false, round, s)
  }

  /** Every server with an address has been tried by TCP, up to the limit. */
  ghost predicate TriedTcp(as_: seq<Attempt>, servers: seq<byte>, limit: nat) {
    forall s: nat {:trigger Made(as_, true, 0, s)} | s < limit && s < SERVERS && HasAddress(servers, s) ::
      Made(as_, true, 0, s)
  }

  lemma TriedNextUdp(as_: seq<Attempt>, more: seq<Attempt>, servers: seq<byte>, first: nat, round: nat, s: nat)
    requires as_ <= more && s < SERVERS && TriedUdp(as_, servers, first, Turn(false, round, s))
    requires HasAddress(servers, s) ==> Made(more, false, round, s)
    ensures TriedUdp(more, servers, first, Turn(false, round, s) + 1)
  {
    hide Made;
    forall r: nat, k: nat | first <= r < ROUNDS && k < SERVERS && HasAddress(servers, k)
                            && Turn(false, r, k) < Turn(false, round, s) + 1
      ensures Made(more, false, r, k)
    {
      if Turn(false, r, k) < Turn(false, round, s) {
        MadeStays(as_, more, false, r, k);
      } else {
        assert r == round && k == s;
      }
    }
  }

  lemma TriedNextTcp(as_: seq<Attempt>, more: seq<Attempt>, servers: seq<byte>, s: nat)
    requires as_ <= more && TriedTcp(as_, servers, s)
    requires HasAddress(servers, s) ==> Made(more, true, 0, s)
    ensures TriedTcp(more, servers, s + 1)
  {
    hide Made;
    forall k: nat | k < s + 1 && k < SERVERS && HasAddress(servers, k) ensures Made(more, true, 0, k) {
      if k < s {
        MadeStays(as_, more, true, 0, k);
      }
    }
  }

  lemma AllTried(as_: seq<Attempt>, servers: seq<byte>, first: nat, limit: nat)
    requires TriedUdp(as_, servers, first, limit) && limit >= ROUNDS * SERVERS
    ensures TriedUdp(as_, servers, first, ROUNDS * SERVERS)
  {
  }

  lemma NothingTried(servers: seq<byte>, first: nat, as_: seq<Attempt>)
    ensures TriedUdp(as_, servers, first, SERVERS * first) && TriedTcp(as_, servers, 0)
  {
  }

  function WithId(query: seq<byte>, id0: byte, id1: byte): seq<byte>
    requires |query| >= 14
  {
    query[2 := id0][3 := id1]
  }

  /** A new id does not change what is asked. */
  lemma NewId(query: seq<byte>, q: seq<Label>, qtype: seq<byte>)
    requires LabelsOk(q) && IsQuery(query, q, qtype)
    ensures |query| >= 14
    ensures forall id0, id1 :: IsQuery(WithId(query, id0, id1), q, qtype)
  {
    forall id0, id1 ensures IsQuery(WithId(query, id0, id1), q, qtype) {
      var w := WithId(query, id0, id1);
      assert w[14..] == query[14..] && w[4..14] == query[4..14];
    }
  }

  // ---- the transmission -----------------------------------------------------

  datatype Connected = Now | InProgress | Refused

  /** struct dns_transmit. A pointer that may be 0 is an Option; s1 is 0 or one more
      than an open descriptor. The ghost fields count open descriptors and
      allocated blocks, and record the name asked for, the first UDP round, the attempts
      made, and whether the system refused a socket or memory. */
  class Transmit {
    var query: Option<seq<byte>>
    var packet: Option<seq<byte>>
    var packetlen: nat
    var s1: nat
    var tcpstate: nat
    var udploop: nat
    var curserver: nat
    var pos: nat
    var servers: seq<byte>
    var qtype: seq<byte>
    ghost var fds: int
    ghost var blocks: int
    ghost var q: seq<Label>
    ghost var attempts: seq<Attempt>
    ghost var first: nat
    ghost var broken: bool

    /** Descriptors and blocks are exactly those the fields refer to. */
    ghost predicate Accounted()
      reads this
    {
      && InOrder(attempts, LAST)
      && fds == (if s1 > 0 then 1 else 0)
      && blocks == (if query.Some? then 1 else 0) + (if packet.Some? then 1 else 0)
    }

    /** Nothing is held. */
    ghost predicate Idle()
      reads this
    {
      s1 == 0 && query == None && packet == None && fds == 0 && blocks == 0 && InOrder(attempts, LAST)
    }

    /** What has been tried, when the current server is the next one or has had its turn. */
    ghost predicate Tried(tcp: bool, turn: nat)
      reads this
    {
      if tcp then TriedTcp(attempts, servers, curserver + turn)
      else TriedUdp(attempts, servers, first, Turn(false, udploop, curserver) + turn)
    }

    /** The query has failed, and nothing is held: the system refused something, or every
        server with an address has been tried in all UDP rounds, or by TCP. */
    ghost predicate Failed()
      reads this
    {
      && Idle()
      && (broken || TriedUdp(attempts, servers, first, ROUNDS * SERVERS) || TriedTcp(attempts, servers, SERVERS))
    }

    /** The stored query asks for q. */
    ghost predicate Asking()
      reads this
    {
      && query.Some? && LabelsOk(q) && |qtype| == 2 && |servers| == 4 * SERVERS
      && IsQuery(query.value, q, qtype)
    }

    /** Waiting for the network: a socket and the query are held. */
    ghost predicate Waiting()
      reads this
    {
      && Accounted() && Asking() && s1 > 0 && curserver < SERVERS && tcpstate <= 5
      && (tcpstate == 0 ==> udploop < ROUNDS)
      && (tcpstate < 5 ==> packet == None)
      && (tcpstate == 5 ==> packet.Some? && |packet.value| == packetlen && pos <= packetlen)
      && InOrder(attempts, Current() + 1)
      && Tried(tcpstate > 0, 1) && Tagged()
    }

    /** The turn of the current server. */
    function Current(): nat
      reads this
    {
      Turn(tcpstate > 0, if tcpstate > 0 then 0 else udploop, curserver)
    }

    /** The query carries the id of the last attempt. */
    ghost predicate Tagged()
      reads this
    {
      query.Some? && NamesLast(query.value, attempts)
    }

    /** Between two attempts: no socket and no packet are held. */
    ghost predicate Trying(tcp: bool)
      reads this
    {
      && Accounted() && Asking() && s1 == 0 && packet == None
      && InOrder(attempts, if tcp then ROUNDS * SERVERS + curserver else SERVERS * udploop + curserver)
      && Tried(tcp, 0)
    }

    constructor ()
      ensures Idle()
    {
      query, packet, packetlen, s1, tcpstate, udploop, curserver, pos := None, None, 0, 0, 0, 0, 0, 0;
      servers, qtype := [], [];
      fds, blocks, q, attempts, first, broken := 0, 0, [], [], 0, false;
    }

    method PacketFree()
      modifies this`packet, this`blocks
      ensures packet == None && blocks == old(blocks) - if old(packet).Some? then 1 else 0
    {
      if packet == None { return; }
      packet := None;
      blocks := blocks - 1;
    }

    method QueryFree()
      modifies this`query, this`blocks
      ensures query == None && blocks == old(blocks) - if old(query).Some? then 1 else 0
    {
      if query == None { return; }
      query := None;
      blocks := blocks - 1;
    }

    method SocketFree()
      modifies this`s1, this`fds
      ensures s1 == 0 && fds == old(fds) - if old(s1) > 0 then 1 else 0
    {
      if s1 == 0 { return; }
      s1 := 0;
      fds := fds - 1;
    }

    method Free()
      requires Accounted()
      modifies this`query, this`packet, this`s1, this`fds, this`blocks
      ensures Idle()
    {
      QueryFree();
      SocketFree();
      PacketFree();
    }

    /** The attempt at the current server. */
    ghost function This(tcp: bool, id: seq<byte>): Attempt
      reads this
    {
      Attempt(tcp, if tcp then 0 else udploop, curserver, id)
    }

    /** Open a socket with a random id in the query; false: everything was freed. */
    method OpenSocket(tcp: bool) returns (ok: bool)
      requires Trying(tcp)
      requires curserver < SERVERS && (!tcp ==> udploop < ROUNDS)
      modifies this
      ensures unchanged(this`packet, this`packetlen, this`tcpstate, this`udploop, this`curserver)
      ensures unchanged(this`servers, this`qtype, this`q, this`first)
      ensures if ok then Accounted() && Asking() && s1 > 0 else Idle() && broken
      ensures first == old(first)
      ensures if ok then Tagged() && attempts == old(attempts) + [This(tcp, query.value[2..4])]
              else attempts == old(attempts)
      ensures ok ==> InOrder(attempts, Turn(tcp, if tcp then 0 else udploop, curserver) + 1)
    {
      hide IsQuery;
      hide InOrder;
      hide TriedUdp;
      hide TriedTcp;
      hide LabelsOk;
      NewId(query.value, q, qtype);
      InOrderMore(attempts, This(tcp, []));
      var r0: int := *;
      var r1: int := *;
      var id0: byte, id1: byte := r0 % 256, r1 % 256;
      query := Some(WithId(query.value, id0, id1));
      var fd: int := *;
      if fd < 0 {
        broken := true;
        Free();
        return false;
      }
      s1 := 1 + fd;
      fds := fds + 1;
      var bound: bool := *;
      if !bound {
        broken := true;
        Free();
        return false;
      }
      attempts := attempts + [This(tcp, [id0, id1])];
      assert query.value[2..4] == [id0, id1];
      InOrderLater(attempts, Turn(tcp, if tcp then 0 else udploop, curserver) + 1, LAST);
      ok := true;
    }

    /** The current server has had its turn. */
    lemma NextTried(tcp: bool, before: seq<Attempt>)
      requires curserver < SERVERS && before <= attempts
      requires if tcp then TriedTcp(before, servers, curserver)
               else TriedUdp(before, servers, first, Turn(false, udploop, curserver))
      requires HasAddress(servers, curserver) ==>
                 attempts != [] && attempts[|attempts| - 1] == This(tcp, attempts[|attempts| - 1].id)
      ensures Tried(tcp, 1)
    {
      hide TriedUdp;
      hide TriedTcp;
      hide LabelsOk;
      if HasAddress(servers, curserver) {
        assert attempts == attempts[..|attempts| - 1] + [attempts[|attempts| - 1]];
        MadeLast(attempts[..|attempts| - 1], attempts[|attempts| - 1]);
      }
      hide Made;
      if tcp {
        TriedNextTcp(before, attempts, servers, curserver);
      } else {
        TriedNextUdp(before, attempts, servers, first, udploop, curserver);
      }
    }

    /** Try the current server. 0: waiting for it; 1: to be skipped; -1: failed. */
    method TryServer(tcp: bool) returns (r: int)
      requires Trying(tcp) && curserver < SERVERS && (!tcp ==> udploop < ROUNDS)
      modifies this
      ensures -1 <= r <= 1
      ensures r == 0 ==> Waiting() && (tcpstate > 0 <==> tcp) && tcpstate <= 2 && attempts != old(attempts)
      ensures r == 1 ==> Accounted() && Asking() && s1 == 0 && packet == None
                         && InOrder(attempts, (if tcp then ROUNDS * SERVERS else SERVERS * udploop) + curserver + 1)
                         && Tried(tcp, 1)
      ensures r == -1 ==> Failed()
      ensures old(attempts) <= attempts
      ensures unchanged(this`servers, this`qtype, this`q, this`udploop, this`curserver, this`first)
    {
      hide IsQuery;
      hide InOrder;
      hide TriedUdp;
      hide TriedTcp;
      hide LabelsOk;
      ghost var rank := (if tcp then ROUNDS * SERVERS else SERVERS * udploop) + curserver;
      ghost var before := attempts;
      var ip := servers[4 * curserver..4 * curserver + 4];
      if ip == NOADDRESS {
        NextTried(tcp, before);
        InOrderLater(attempts, rank, rank + 1);
        return 1;
      }
      var ok := OpenSocket(tcp);
      if !ok { return -1; }
      NextTried(tcp, before);
      var connected: Connected := *;
      var sent: bool := *;
      if !tcp && connected == Now && sent {
        tcpstate := 0;
        return 0;
      }
      if tcp && connected != Refused {
        tcpstate := if connected == Now then 2 else 1;
        return 0;
      }
      SocketFree();
      return 1;
    }

    /** thisudp: from the current round and server on, find a server to which the
        query can be sent. 0: sent; -1: none left, everything freed. */
    method ThisUdp() returns (r: int)
      requires Accounted() && Asking() && packet == None && udploop <= ROUNDS && curserver <= SERVERS
      requires InOrder(attempts, SERVERS * udploop + curserver) && Tried(false, 0)
      modifies this
      ensures r == 0 || r == -1
      ensures if r == 0 then Waiting() && tcpstate == 0 else Failed()
      ensures old(attempts) <= attempts && unchanged(this`servers, this`qtype, this`q, this`first)
      ensures r == 0 ==> attempts != old(attempts)
    {
      hide IsQuery;
      hide InOrder;
      hide TriedUdp;
      hide TriedTcp;
      hide LabelsOk;
      SocketFree();
      while udploop < ROUNDS
        invariant Trying(false) && udploop <= ROUNDS && curserver <= SERVERS
        invariant old(attempts) <= attempts && unchanged(this`servers, this`qtype, this`q, this`first)
        decreases ROUNDS - udploop
      {
        ghost var round := udploop;
        while curserver < SERVERS
          invariant Trying(false) && udploop == round && curserver <= SERVERS
          invariant old(attempts) <= attempts && unchanged(this`servers, this`qtype, this`q, this`first)
          decreases SERVERS - curserver
        {
          r := TryServer(false);
          if r <= 0 { return; }
          curserver := curserver + 1;
        }
        udploop := udploop + 1;
        curserver := 0;
      }
      AllTried(attempts, servers, first, SERVERS * udploop + curserver);
      Free();
      return -1;
    }

    method FirstUdp() returns (r: int)
      requires Accounted() && Asking() && packet == None && udploop <= ROUNDS && attempts == [] && first == udploop
      modifies this
      ensures r == 0 || r == -1
      ensures if r == 0 then Waiting() && tcpstate == 0 else Failed()
      ensures unchanged(this`servers, this`qtype, this`q, this`first)
    {
      NothingTried(servers, first, attempts);
      curserver := 0;
      r := ThisUdp();
    }

    /** The next server, by UDP. */
    method NextUdp() returns (r: int)
      requires Waiting() && tcpstate == 0
      modifies this
      ensures r == 0 || r == -1
      ensures if r == 0 then Waiting() && tcpstate == 0 && attempts != old(attempts) else Failed()
      ensures old(attempts) <= attempts && unchanged(this`servers, this`qtype, this`q, this`first)
    {
      curserver := curserver + 1;
      r := ThisUdp();
    }

    /** thistcp: from the current server on, find one that accepts a connection. */
    method ThisTcp() returns (r: int)
      requires Accounted() && Asking() && curserver <= SERVERS
      requires InOrder(attempts, ROUNDS * SERVERS + curserver) && Tried(true, 0)
      modifies this
      ensures r == 0 || r == -1
      ensures if r == 0 then Waiting() && 1 <= tcpstate <= 2 && attempts != old(attempts) else Failed()
      ensures old(attempts) <= attempts && unchanged(this`servers, this`qtype, this`q, this`first)
    {
      hide IsQuery;
      hide InOrder;
      hide TriedUdp;
      hide TriedTcp;
      hide LabelsOk;
      SocketFree();
      PacketFree();
      while curserver < SERVERS
        invariant Trying(true) && curserver <= SERVERS
        invariant old(attempts) <= attempts && unchanged(this`servers, this`qtype, this`q, this`first)
        decreases SERVERS - curserver
      {
        r := TryServer(true);
        if r <= 0 { return; }
        curserver := curserver + 1;
      }
      Free();
      return -1;
    }

    /** Give up UDP and start over with the first server by TCP. */
    method FirstTcp() returns (r: int)
      requires Accounted() && Asking() && (attempts == [] || (Waiting() && tcpstate == 0))
      modifies this
      ensures r == 0 || r == -1
      ensures if r == 0 then Waiting() && 1 <= tcpstate <= 2 && attempts != old(attempts) else Failed()
      ensures old(attempts) <= attempts && unchanged(this`servers, this`qtype, this`q, this`first)
    {
      curserver := 0;
      NothingTried(servers, first, attempts);
      r := ThisTcp();
    }

    method NextTcp() returns (r: int)
      requires Waiting() && tcpstate > 0
      modifies this
      ensures r == 0 || r == -1
      ensures if r == 0 then Waiting() && 1 <= tcpstate <= 2 && attempts != old(attempts) else Failed()
      ensures old(attempts) <= attempts && unchanged(this`servers, this`qtype, this`q, this`first)
    {
      curserver := curserver + 1;
      r := ThisTcp();
    }

    /** Build the query and remember what is asked for, and whom to ask. */
    method Ask(servers_: seq<byte>, len: nat, recursive: bool, dn: seq<byte>, qtype_: seq<byte>, ghost labels: seq<Label>)
      returns (ok: bool)
      requires Idle() && |servers_| == 4 * SERVERS && |qtype_| == 2
      requires LabelsOk(labels) && Wire(labels) <= dn && len == |Wire(labels)|
      modifies this
      ensures if ok then Accounted() && Asking() && packet == None && attempts == [] else Failed()
      ensures ok ==> q == labels && qtype == qtype_ && servers == servers_
      ensures ok ==> first == udploop == if recursive then 1 else 0
      ensures broken == !ok
    {
      hide IsQuery;
      hide InOrder;
      hide TriedUdp;
      hide TriedTcp;
      hide LabelsOk;
      hide Wire;
      ok := *;
      broken := !ok;
      if !ok { return; }
      var buf := BuildQuery(dn, len, recursive, qtype_, labels);
      query, blocks := Some(buf), blocks + 1;
      qtype, servers, q, attempts := qtype_, servers_, labels, [];
      NoAttempts();
      udploop := if recursive then 1 else 0;
      first := udploop;
    }

    /** dns_transmit_start: forget everything held, build the query for the name at
        the front of dn and send it to the first server. */
    method Start(servers_: seq<byte>, recursive: bool, dn: seq<byte>, qtype_: seq<byte>, ghost labels: seq<Label>)
      returns (r: int)
      requires Accounted() && |servers_| == 4 * SERVERS && |qtype_| == 2 && LabelsOk(labels) && Wire(labels) <= dn
      modifies this
      ensures r == 0 || r == -1
      ensures if r == 0 then Waiting() && q == labels && qtype == qtype_ else Failed()
      ensures r == 0 || !broken ==> servers == servers_ && first == if recursive then 1 else 0
    {
      hide IsQuery;
      hide InOrder;
      hide TriedUdp;
      hide TriedTcp;
      hide LabelsOk;
      Free();
      var len := DomainLength(dn, labels);
      var ok := Ask(servers_, len, recursive, dn, qtype_, labels);
      if !ok { return -1; }
      if len + 16 > 512 {
        r := FirstTcp();
      } else {
        r := FirstUdp();
      }
    }

    /** Take what has been received as the answer, provided it is one: then only the
        packet is held. 0: it is none, nothing has changed. */
    method UdpAnswer(p: seq<byte>) returns (r: int)
      requires Waiting() && tcpstate == 0
      modifies this
      ensures -1 <= r <= 1
      ensures r == 0 ==> Waiting() && old(attempts) <= attempts
      ensures r == 1 ==> Accounted() && s1 == 0 && query == None && packet == Some(p) && packetlen == |p|
                         && attempts == old(attempts) && Answers(old(query.value), q, qtype, p)
      ensures Answers(old(query.value), q, qtype, p) ==> r == 1 || broken
      ensures !Relevant(old(query.value), q, qtype, p) ==> r == 0 && unchanged(this)
      ensures r == -1 ==> Failed()
      ensures unchanged(this`servers, this`qtype, this`q, this`first)
    {
      hide IsQuery;
      hide Relevant;
      hide InOrder;
      hide TriedUdp;
      hide TriedTcp;
      hide LabelsOk;
      hide Wire;
      QuestionInside(query.value, q, qtype);
      var b := Irrelevant(query.value, qtype, p, q);
      if b { return 0; }
      b := ServerWantsTcp(p);
      if b {
        r := FirstTcp();
        return;
      }
      b := ServerFailed(p);
      if b {
        if udploop == 2 { return 0; }
        r := NextUdp();
        return;
      }
      r := TakeAnswer(p);
    }

    /** Keep the answer, and nothing else. */
    method TakeAnswer(p: seq<byte>) returns (r: int)
      requires Waiting() && tcpstate == 0
      modifies this
      ensures if r == 1 then Accounted() && s1 == 0 && query == None && packet == Some(p) && packetlen == |p|
              else r == -1 && broken && Failed()
      ensures unchanged(this`servers, this`qtype, this`q, this`first, this`attempts)
    {
      hide InOrder;
      hide TriedUdp;
      hide TriedTcp;
      hide LabelsOk;
      hide IsQuery;
      SocketFree();
      packetlen := |p|;
      var haveMemory: bool := *;
      if !haveMemory {
        broken := true;
        Free();
        return -1;
      }
      packet, blocks := Some(p), blocks + 1;
      QueryFree();
      return 1;
    }

    /** The whole packet has arrived by TCP. */
    method TcpAnswer() returns (r: int)
      requires Waiting() && tcpstate == 5 && pos == packetlen
      modifies this
      ensures -1 <= r <= 1
      ensures r == 0 ==> Waiting() && old(attempts) <= attempts
      ensures r == 1 ==> Accounted() && s1 == 0 && query == None && packet == old(packet)
                         && attempts == old(attempts) && Answers(old(query.value), q, qtype, packet.value)
      ensures Answers(old(query.value), q, qtype, old(packet.value)) ==> r == 1
      ensures r == -1 ==> Failed()
      ensures unchanged(this`servers, this`qtype, this`q, this`first)
    {
      hide Relevant;
      hide InOrder;
      hide TriedUdp;
      hide TriedTcp;
      hide LabelsOk;
      hide Wire;
      QuestionInside(query.value, q, qtype);
      SocketFree();
      var b := Irrelevant(query.value, qtype, packet.value, q);
      if !b {
        b := ServerWantsTcp(packet.value);
      }
      if !b {
        b := ServerFailed(packet.value);
      }
      if b {
        curserver := curserver + 1;
        r := ThisTcp();
        return;
      }
      QueryFree();
      return 1;
    }

    /** dns_transmit_get: react to the socket (revents) or to the deadline (expired).
        0: wait on; 1: the answer is in packet, and nothing else is held; -1: the
        query has failed and nothing is held. */
    method Get(revents: bool, expired: bool) returns (r: int)
      requires Waiting()
      modifies this
      ensures -1 <= r <= 1
      ensures r == 0 ==> Waiting() && old(attempts) <= attempts
      ensures r == 1 ==> Accounted() && s1 == 0 && query == None && packet.Some? && attempts == old(attempts)
                         && Answers(old(query.value), q, qtype, packet.value)
      ensures !revents && expired ==> r == -1 || attempts != old(attempts)
      ensures !revents && !expired ==> r == 0 && unchanged(this)
      ensures r == -1 ==> Failed()
      ensures unchanged(this`servers, this`qtype, this`q, this`first)
    {
      hide Relevant;
      hide InOrder;
      hide TriedUdp;
      hide TriedTcp;
      hide LabelsOk;
      hide Wire;
      if !revents {
        if !expired { return 0; }
        if tcpstate == 0 {
          r := NextUdp();
        } else {
          r := NextTcp();
        }
        return;
      }
      if tcpstate == 0 {
        r := ReceiveUdp();
        return;
      }
      r := GetTcp();
    }

    /** tcpstate 1 to 5: the TCP socket is ready. */
    method GetTcp() returns (r: int)
      requires Waiting() && tcpstate > 0
      modifies this
      ensures -1 <= r <= 1
      ensures r == 0 ==> Waiting() && old(attempts) <= attempts
      ensures r == 1 ==> Accounted() && s1 == 0 && query == None && packet.Some? && attempts == old(attempts)
                         && Answers(old(query.value), q, qtype, packet.value)
      ensures r == -1 ==> Failed()
      ensures unchanged(this`servers, this`qtype, this`q, this`first)
    {
      hide Answers;
      hide InOrder;
      hide TriedUdp;
      hide TriedTcp;
      hide LabelsOk;
      hide IsQuery;
      var n: int := *;
      if tcpstate == 1 {
        if n <= 0 {  // not connected
          r := NextTcp();
          return;
        }
        pos := 0;
        tcpstate := 2;
        return 0;
      }
      if n <= 0 {  // error or end of file
        r := NextTcp();
        return;
      }
      if tcpstate == 2 {
        pos := pos + n;
        if pos == |query.value| {
          tcpstate := 3;
        }
        return 0;
      }
      if tcpstate < 5 {
        r := ReceiveLength(n % 256);
        return;
      }
      r := ReceiveTcp(n);
    }

    /** tcpstate 3 and 4: a byte of the packet length has arrived. */
    method ReceiveLength(ch: byte) returns (r: int)
      requires Waiting() && 3 <= tcpstate <= 4
      modifies this
      ensures if r == 0 then Waiting() else r == -1 && Failed()
      ensures unchanged(this`servers, this`qtype, this`q, this`first, this`attempts)
    {
      hide NamesLast;
      hide InOrder;
      hide TriedUdp;
      hide TriedTcp;
      hide LabelsOk;
      hide IsQuery;
      if tcpstate == 3 {
        packetlen := ch;
        tcpstate := 4;
        return 0;
      }
      packetlen := packetlen * 256;
      packetlen := packetlen + ch;
      r := PacketAlloc();
    }

    /** Both bytes of the length are known: get memory for the packet. */
    method PacketAlloc() returns (r: int)
      requires Waiting() && tcpstate == 4
      modifies this
      ensures if r == 0 then Waiting() else r == -1 && Failed()
      ensures unchanged(this`servers, this`qtype, this`q, this`first, this`attempts)
    {
      hide NamesLast;
      hide InOrder;
      hide TriedUdp;
      hide TriedTcp;
      hide LabelsOk;
      hide IsQuery;
      tcpstate := 5;
      pos := 0;
      var haveMemory: bool := *;
      if !haveMemory {
        broken := true;
        Free();
        return -1;
      }
      packet, blocks := Some(seq(packetlen, _ => 0)), blocks + 1;
      return 0;
    }

    /** tcpstate 0: an answer, or an error, has arrived by UDP. */
    method ReceiveUdp() returns (r: int)
      requires Waiting() && tcpstate == 0
      modifies this
      ensures -1 <= r <= 1
      ensures r == 0 ==> Waiting() && old(attempts) <= attempts
      ensures r == 1 ==> Accounted() && s1 == 0 && query == None && packet.Some? && attempts == old(attempts)
                         && Answers(old(query.value), q, qtype, packet.value)
      ensures r == -1 ==> Failed()
      ensures unchanged(this`servers, this`qtype, this`q, this`first)
    {
      hide Relevant;
      hide InOrder;
      hide TriedUdp;
      hide TriedTcp;
      hide LabelsOk;
      hide Wire;
      var udpbuf: array<byte> := new byte[513](_ => 0);
      var n: int := *;
      if n <= 0 {
        if udploop == 2 { return 0; }
        r := NextUdp();
        return;
      }
      if n + 1 > udpbuf.Length { return 0; }
      Scramble(udpbuf);
      QuestionInside(query.value, q, qtype);
      r := UdpAnswer(udpbuf[..n]);
    }

    /** tcpstate 5: n more bytes of the packet. */
    method ReceiveTcp(n: int) returns (r: int)
      requires Waiting() && tcpstate == 5 && n > 0
      modifies this
      ensures -1 <= r <= 1
      ensures r == 0 ==> Waiting() && old(attempts) <= attempts
      ensures r == 1 ==> Accounted() && s1 == 0 && query == None && packet.Some? && attempts == old(attempts)
                         && Answers(old(query.value), q, qtype, packet.value)
      ensures r == -1 ==> Failed()
      ensures unchanged(this`servers, this`qtype, this`q, this`first)
    {
      hide Relevant;
      hide InOrder;
      hide TriedUdp;
      hide TriedTcp;
      hide LabelsOk;
      hide Wire;
      if packetlen == pos {  // a read of no bytes returns 0
        r := NextTcp();
        return;
      }
      var got := if n <= packetlen - pos then n else packetlen - pos;
      var data := new byte[got](_ => 0);
      Scramble(data);
      packet := Some(packet.value[..pos] + data[..] + packet.value[pos + got..]);
      pos := pos + got;
      if pos < packetlen { return 0; }
      QuestionInside(query.value, q, qtype);
      r := TcpAnswer();
    }
  }

  /** The packet answers the question as it was sent in that attempt: it carries the attempt's
      id, and in all else the question and an acceptable outcome. */
  ghost predicate AnsweredBy(a: Attempt, q: seq<Label>, qtype: seq<byte>, p: seq<byte>)
    requires LabelsOk(q)
  {
    && |p| >= 12 && p[0..2] == a.id
    && exists query :: IsQuery(query, q, qtype) && query[2..4] == a.id && Answers(query, q, qtype, p)
  }

  lemma AnswerNamesAttempt(query: seq<byte>, a: Attempt, q: seq<Label>, qtype: seq<byte>)
    requires LabelsOk(q) && IsQuery(query, q, qtype) && |query| >= 4 && query[2..4] == a.id
    ensures forall p :: Answers(query, q, qtype, p) ==> AnsweredBy(a, q, qtype, p)
  {
    hide IsQuery;
    hide Limited;
  }

  /** A whole run: start a query and react to any sequence of events. At most 64
      queries go out by UDP and 16 by TCP, no server twice in a round, and the
      outcome is one of: still waiting; answered, with a packet that answers the
      question; failed, after every server has been tried. Nothing is held beyond
      what that outcome needs. */
  method Run(d: Transmit, servers: seq<byte>, recursive: bool, dn: seq<byte>, qtype: seq<byte>, events: seq<(bool, bool)>,
             ghost labels: seq<Label>)
    returns (r: int)
    requires d.Accounted() && |servers| == 4 * SERVERS && |qtype| == 2 && LabelsOk(labels) && Wire(labels) <= dn
    modifies d
    ensures -1 <= r <= 1 && d.Accounted()
    ensures r == 0 ==> d.Waiting()
    ensures r == -1 ==> d.Failed()
    ensures !d.broken ==> d.servers == servers && d.first == if recursive then 1 else 0
    ensures r == 1 ==> d.s1 == 0 && d.query == None && d.packet.Some?
                       && d.attempts != [] && AnsweredBy(d.attempts[|d.attempts| - 1], labels, qtype, d.packet.value)
    ensures |d.attempts| - CountTcp(d.attempts) <= 64 && CountTcp(d.attempts) <= 16
  {
    hide Answers;
    hide IsQuery;
    r := d.Start(servers, recursive, dn, qtype, labels);
    var i := 0;
    while i < |events| && r == 0
      invariant -1 <= r <= 1 && d.Accounted()
      invariant r == 0 ==> d.Waiting() && d.q == labels && d.qtype == qtype
      invariant r == -1 ==> d.Failed()
      invariant r == 0 || !d.broken ==> d.servers == servers && d.first == if recursive then 1 else 0
      invariant r == 1 ==> d.s1 == 0 && d.query == None && d.packet.Some?
                           && d.attempts != [] && AnsweredBy(d.attempts[|d.attempts| - 1], labels, qtype, d.packet.value)
    {
      ghost var query := d.query.value;
      AnswerNamesAttempt(query, d.attempts[|d.attempts| - 1], labels, qtype);
      r := d.Get(events[i].0, events[i].1);
      i := i + 1;
    }
    AttemptsBounded(d.attempts, LAST);
  }

  /** The network writes whatever it likes into a buffer. */
  method Scramble(a: array<byte>)
    modifies a
  {
    for i := 0 to a.Length {
      var v: int := *;
      a[i] := v % 256;
    }
  }

  method BuildQuery(dn: seq<byte>, len: nat, recursive: bool, qtype: seq<byte>, ghost labels: seq<Label>)
    returns (buf: seq<byte>)
    requires LabelsOk(labels) && Wire(labels) <= dn && len == |Wire(labels)| && |qtype| == 2
    ensures IsQuery(buf, labels, qtype)
  {
    hide Wire;
    var length: nat := (len + 16) % 0x1_0000;
    var head := [length / 256, length % 256] + [0, 0] + Header(recursive);
    buf := head + (dn[..len] + qtype + IN);
    assert head[4..14] == Header(recursive);
    assert buf[4..14] == head[4..14] && buf[14..] == dn[..len] + qtype + IN;
    assert dn[..len] == Wire(labels);
  }

  lemma NoAttempts()
    ensures forall limit :: InOrder([], limit)
  {
  }

  lemma QuestionInside(query: seq<byte>, q: seq<Label>, qtype: seq<byte>)
    requires LabelsOk(q) && IsQuery(query, q, qtype)
    ensures |query| >= 14 && Wire(q) <= query[14..]
  {
    assert query[14..] == Wire(q) + (qtype + IN);
  }
}
