/**
 What the select loop of ServerTCP/server_tcp.c does to its clients, as functions of a state and of what the operating
 system reports: which sockets are ready, what accept, recv and send return, and what the clock says.
 */
module SelectLoop {
  import opened LinkedList
  import opened Sequences
  import opened Wire
  import opened ChatState

  const CLIENTS_LIMIT: nat := 1000

  datatype Client = Client(sock: int, expiry: int)

  /** How serving one ready client goes, the time at which it happens, and the message received, if any. */
  datatype Service = Service(received: int, sent: int, time: int, message: seq<byte>, request: Request) {
    predicate Ok() {
      received > 0 && sent >= 0
    }
  }

  datatype Accept = Refused | Accepted(sock: int, time: int)

  /** One turn of the loop: select fails, or runs into its timeout, or reports ready sockets. */
  datatype Turn =
    | SelectFailed
    | TimedOut(time: int)
    | Activity(ready: set<int>, accept: Accept, services: seq<Service>)

  /** A request that has reached the application, and the socket it came from. */
  datatype Ask = Ask(sock: int, request: Request)

  /**
   open and now belong to the operating system: the descriptors in use and the last time read. asked is the history of
   the application.
   */
  datatype State = State(master: int, wait: int, clients: seq<Client>, fds: set<int>, maxSock: int, open: set<int>,
                         now: int, asked: seq<Ask>)

  // ------------------------------------------------------------------------------------------------
  // Serving the ready clients

  ghost function CountReady(cs: seq<Client>, ready: set<int>): (n: nat)
    ensures n <= |cs|
  {
    if cs == [] then 0 else CountReady(Front(cs), ready) + if Last(cs).sock in ready then 1 else 0
  }

  ghost predicate Succeeds(services: seq<Service>, j: nat) {
    j < |services| && services[j].Ok()
  }

  /** The ready clients whose service goes well, in the order of service, with their new expiry times. */
  ghost function Kept(cs: seq<Client>, ready: set<int>, services: seq<Service>, wait: int): (r: seq<Client>) {
    if cs == [] then []
    else
      var before := Kept(Front(cs), ready, services, wait);
      var c, j := Last(cs), CountReady(Front(cs), ready);
      if c.sock in ready && Succeeds(services, j) then before + [Client(c.sock, services[j].time + wait)] else before
  }

  /** The sockets of the ready clients whose service fails. */
  ghost function Lost(cs: seq<Client>, ready: set<int>, services: seq<Service>): (r: set<int>) {
    if cs == [] then {}
    else
      var before := Lost(Front(cs), ready, services);
      var c, j := Last(cs), CountReady(Front(cs), ready);
      if c.sock in ready && !Succeeds(services, j) then before + {c.sock} else before
  }

  /** What the j-th service asks of the application: nothing if no message was received. */
  ghost function AskedBy(services: seq<Service>, j: nat, sock: int): seq<Ask> {
    if j < |services| && services[j].received > 0 then [Ask(sock, services[j].request)] else []
  }

  /** What the ready clients ask of the application, in the order of service. An answer may still fail to be sent. */
  ghost function Asked(cs: seq<Client>, ready: set<int>, services: seq<Service>): (r: seq<Ask>) {
    if cs == [] then []
    else
      var before := Asked(Front(cs), ready, services);
      var c, j := Last(cs), CountReady(Front(cs), ready);
      if c.sock in ready then before + AskedBy(services, j, c.sock) else before
  }

  /** The clients that are not ready, in their old order. */
  ghost function Idle(cs: seq<Client>, ready: set<int>): (r: seq<Client>) {
    if cs == [] then []
    else if Last(cs).sock in ready then Idle(Front(cs), ready)
    else Idle(Front(cs), ready) + [Last(cs)]
  }

  /** The list after the pass: those served, last served first, before those not ready. */
  ghost function Served(cs: seq<Client>, ready: set<int>, services: seq<Service>, wait: int): seq<Client> {
    Reversed(Kept(cs, ready, services, wait)) + Idle(cs, ready)
  }

  ghost function TimeAfter(now: int, services: seq<Service>, served: nat): int {
    if 0 < served <= |services| then services[served - 1].time else now
  }

  ghost function ServeReady(s: State, ready: set<int>, services: seq<Service>): State {
    var lost := Lost(s.clients, ready, services);
    s.(clients := Served(s.clients, ready, services, s.wait), fds := s.fds - lost, open := s.open - lost,
       now := TimeAfter(s.now, services, CountReady(s.clients, ready)),
       asked := s.asked + Asked(s.clients, ready, services))
  }

  // ------------------------------------------------------------------------------------------------
  // Accepting a client, removing clients whose time is up

  /** Beyond the limit the new connection is closed at once. */
  ghost function AcceptClient(s: State, a: Accept): State {
    match a
    case Refused => s
    case Accepted(sock, time) =>
      if |s.clients| > CLIENTS_LIMIT then s.(now := time)
      else s.(clients := s.clients + [Client(sock, time + s.wait)], fds := s.fds + {sock}, open := s.open + {sock},
              maxSock := if sock > s.maxSock then sock else s.maxSock, now := time)
  }

  ghost function SockSet(cs: seq<Client>): set<int> {
    set i | 0 <= i < |cs| :: cs[i].sock
  }

  /** How many clients stand before the first one whose time is not up. */
  ghost function ExpiredPrefix(cs: seq<Client>, now: int): (n: nat)
    ensures n <= |cs|
    ensures forall i :: 0 <= i < n ==> cs[i].expiry < now
    ensures n < |cs| ==> cs[n].expiry >= now
  {
    if cs == [] || cs[0].expiry >= now then 0 else 1 + ExpiredPrefix(cs[1..], now)
  }

  ghost function ExpireClients(s: State, time: int): State {
    var n := ExpiredPrefix(s.clients, time);
    var gone := SockSet(s.clients[..n]);
    s.(clients := s.clients[n..], fds := s.fds - gone, open := s.open - gone, now := time)
  }

  // ------------------------------------------------------------------------------------------------
  // The loop

  ghost function AfterAccept(s: State, t: Turn): State
    requires t.Activity?
  {
    if s.master in t.ready then AcceptClient(s, t.accept) else s
  }

  ghost predicate InOrder(now: int, services: seq<Service>) {
    && (forall j :: 0 <= j < |services| ==> services[j].time >= now)
    && (forall i, j :: 0 <= i < j < |services| ==> services[i].time <= services[j].time)
  }

  /** What the operating system can report in a state. */
  ghost predicate Possible(s: State, t: Turn) {
    match t
    case SelectFailed => true
    case TimedOut(time) => time >= s.now
    case Activity(ready, accept, services) =>
      && ready != {} && ready <= s.fds && |ready| <= |services|
      && (accept.Accepted? ==> accept.sock !in s.open && accept.time >= s.now)
      && InOrder(AfterAccept(s, t).now, services)
  }

  ghost function Step(s: State, t: Turn): State {
    match t
    case SelectFailed => s
    case TimedOut(time) => ExpireClients(s, time)
    case Activity(ready, accept, services) => ServeReady(AfterAccept(s, t), ready, services)
  }

  // ------------------------------------------------------------------------------------------------
  // The invariant

  /** Client j does not outlast both client i and client k. */
  ghost predicate NoPeak(cs: seq<Client>, i: nat, j: nat, k: nat)
    requires i < j < k < |cs|
  {
    cs[j].expiry <= cs[i].expiry || cs[j].expiry <= cs[k].expiry
  }

  /** Read from head to tail the expiry times first fall and then rise (ValleyShape below). */
  ghost predicate Valley(cs: seq<Client>) {
    forall i, j, k :: 0 <= i < j < k < |cs| ==> NoPeak(cs, i, j, k)
  }

  ghost predicate DistinctSocks(cs: seq<Client>) {
    forall i, j :: 0 <= i < j < |cs| ==> cs[i].sock != cs[j].sock
  }

  ghost predicate ExpireBy(cs: seq<Client>, bound: int) {
    forall i :: 0 <= i < |cs| ==> cs[i].expiry <= bound
  }

  ghost predicate Inv(s: State) {
    && Valley(s.clients) && ExpireBy(s.clients, s.now + s.wait)
    && DistinctSocks(s.clients) && s.master !in SockSet(s.clients)
    && s.fds == s.open == SockSet(s.clients) + {s.master}
    && (forall f :: f in s.fds ==> f <= s.maxSock)
    && |s.clients| <= CLIENTS_LIMIT + 1
  }

  ghost predicate Initial(s: State) {
    s.clients == [] && s.fds == s.open == {s.master} && s.maxSock == s.master && s.asked == []
  }

  // ------------------------------------------------------------------------------------------------
  // Counting

  /** Select counted the master socket and every ready client once, so the count lasts for all of them. */
  lemma {:induction false} ReadyCounted(cs: seq<Client>, ready: set<int>)
    requires DistinctSocks(cs)
    ensures CountReady(cs, ready) == |ready * SockSet(cs)|
  {
    if cs != [] {
      var front, sock := Front(cs), Last(cs).sock;
      ReadyCounted(front, ready);
      SockSetSnoc(cs);
      assert sock !in SockSet(front);
      if sock in ready {
        assert ready * SockSet(cs) == ready * SockSet(front) + {sock};
      } else {
        assert ready * SockSet(cs) == ready * SockSet(front);
      }
    }
  }

  lemma SockSetSnoc(cs: seq<Client>)
    requires cs != []
    ensures SockSet(cs) == SockSet(Front(cs)) + {Last(cs).sock}
  {
    forall x | x in SockSet(Front(cs)) + {Last(cs).sock}
      ensures x in SockSet(cs)
    {
      if x == Last(cs).sock {
        assert cs[|cs| - 1].sock == x;
      } else {
        var i :| 0 <= i < |cs| - 1 && Front(cs)[i].sock == x;
        assert cs[i].sock == x;
      }
    }
    forall x | x in SockSet(cs)
      ensures x in SockSet(Front(cs)) + {Last(cs).sock}
    {
      var i :| 0 <= i < |cs| && cs[i].sock == x;
      assert i < |cs| - 1 ==> Front(cs)[i].sock == x;
    }
  }

  // ------------------------------------------------------------------------------------------------
  // The serving pass, one client at a time

  /** A moment of the pass: the list, the iterator's place in it, how many were served, the sockets lost, the asked. */
  datatype Pass = Pass(list: seq<Client>, pos: nat, count: nat, lost: set<int>, asked: seq<Ask>)

  /** The moment when the clients front have been looked at and the clients rest have not. */
  ghost function PassOf(front: seq<Client>, rest: seq<Client>, ready: set<int>, services: seq<Service>, wait: int): Pass
  {
    var served := Served(front, ready, services, wait);
    Pass(served + rest, |served|, CountReady(front, ready), Lost(front, ready, services), Asked(front, ready, services))
  }

  ghost function PassAt(cs: seq<Client>, n: nat, ready: set<int>, services: seq<Service>, wait: int): Pass
    requires n <= |cs|
  {
    PassOf(cs[..n], cs[n..], ready, services, wait)
  }

  /** What the loop body does to the client under the iterator. */
  ghost function Look(p: Pass, ready: set<int>, services: seq<Service>, wait: int): Pass
    requires p.pos < |p.list|
  {
    var sock := p.list[p.pos].sock;
    var rest := RemoveAt(p.list, p.pos);
    var asked := p.asked + AskedBy(services, p.count, sock);
    if sock !in ready then p.(pos := p.pos + 1)
    else if Succeeds(services, p.count) then
      Pass([Client(sock, services[p.count].time + wait)] + rest, p.pos + 1, p.count + 1, p.lost, asked)
    else Pass(rest, p.pos, p.count + 1, p.lost + {sock}, asked)
  }

  lemma PassStep(cs: seq<Client>, n: nat, ready: set<int>, services: seq<Service>, wait: int)
    requires n < |cs|
    ensures var p := PassAt(cs, n, ready, services, wait);
            && p.pos < |p.list| && p.list[p.pos] == cs[n]
            && PassAt(cs, n + 1, ready, services, wait) == Look(p, ready, services, wait)
  {
    assert cs[..n + 1] == cs[..n] + [cs[n]] && cs[n..] == [cs[n]] + cs[n + 1..];
    LookMovesOn(cs[..n], cs[n], cs[n + 1..], ready, services, wait);
  }

  lemma LookMovesOn(front: seq<Client>, c: Client, rest: seq<Client>, ready: set<int>, services: seq<Service>,
                    wait: int)
    ensures var p := PassOf(front, [c] + rest, ready, services, wait);
            && p.pos < |p.list| && p.list[p.pos] == c
            && PassOf(front + [c], rest, ready, services, wait) == Look(p, ready, services, wait)
  {
    hide Served, CountReady, Lost, Asked;
    LookAt(Served(front, ready, services, wait), c, rest, CountReady(front, ready), Lost(front, ready, services),
        Asked(front, ready, services),
        ready, services, wait);
    ServedSnoc(front, c, ready, services, wait);
  }

  /** The loop body on a client c that comes after the clients served and before the clients rest. */
  lemma LookAt(served: seq<Client>, c: Client, rest: seq<Client>, count: nat, lost: set<int>, asked: seq<Ask>,
               ready: set<int>, services: seq<Service>, wait: int)
    ensures var p := Pass(served + ([c] + rest), |served|, count, lost, asked);
            var p', more := Look(p, ready, services, wait), asked + AskedBy(services, count, c.sock);
            && p.list[p.pos] == c
            && (c.sock !in ready ==> p' == Pass((served + [c]) + rest, |served| + 1, count, lost, asked))
            && (c.sock in ready && Succeeds(services, count) ==>
                  p' == Pass(([Client(c.sock, services[count].time + wait)] + served) + rest, |served| + 1,
                      count + 1, lost, more))
            && (c.sock in ready && !Succeeds(services, count) ==>
                  p' == Pass(served + rest, |served|, count + 1, lost + {c.sock}, more))
  {
    Associative(served, [c], rest);
    assert RemoveAt(served + ([c] + rest), |served|) == served + rest;
    if Succeeds(services, count) {
      Associative([Client(c.sock, services[count].time + wait)], served, rest);
    }
  }

  /** What one more client adds to the served list. */
  lemma ServedSnoc(front: seq<Client>, c: Client, ready: set<int>, services: seq<Service>, wait: int)
    ensures var all, j, served := front + [c], CountReady(front, ready), Served(front, ready, services, wait);
            && (c.sock !in ready ==>
                  CountReady(all, ready) == j && Lost(all, ready, services) == Lost(front, ready, services)
                  && Served(all, ready, services, wait) == served + [c])
            && (c.sock in ready && Succeeds(services, j) ==>
                  CountReady(all, ready) == j + 1 && Lost(all, ready, services) == Lost(front, ready, services)
                  && Served(all, ready, services, wait) == [Client(c.sock, services[j].time + wait)] + served)
            && (c.sock in ready && !Succeeds(services, j) ==>
                  CountReady(all, ready) == j + 1
                      && Lost(all, ready, services) == Lost(front, ready, services) + {c.sock}
                  && Served(all, ready, services, wait) == served)
            && (c.sock !in ready ==> Asked(all, ready, services) == Asked(front, ready, services))
            && (c.sock in ready ==>
                  Asked(all, ready, services) == Asked(front, ready, services) + AskedBy(services, j, c.sock))
  {
    FrontLastSnoc(front, c);
    if c.sock !in ready {
      IdleSnoc(front, c, ready, services, wait);
    } else if Succeeds(services, CountReady(front, ready)) {
      KeptSnoc(front, c, ready, services, wait);
    }
  }

  lemma IdleSnoc(front: seq<Client>, c: Client, ready: set<int>, services: seq<Service>, wait: int)
    requires c.sock !in ready
    ensures Served(front + [c], ready, services, wait) == Served(front, ready, services, wait) + [c]
  {
    FrontLastSnoc(front, c);
    var k, idle := Kept(front, ready, services, wait), Idle(front, ready);
    assert Kept(front + [c], ready, services, wait) == k && Idle(front + [c], ready) == idle + [c];
    Associative(Reversed(k), idle, [c]);
  }

  lemma KeptSnoc(front: seq<Client>, c: Client, ready: set<int>, services: seq<Service>, wait: int)
    requires c.sock in ready && Succeeds(services, CountReady(front, ready))
    ensures var c' := Client(c.sock, services[CountReady(front, ready)].time + wait);
            Served(front + [c], ready, services, wait) == [c'] + Served(front, ready, services, wait)
  {
    FrontLastSnoc(front, c);
    var k, idle := Kept(front, ready, services, wait), Idle(front, ready);
    var c' := Client(c.sock, services[CountReady(front, ready)].time + wait);
    assert Kept(front + [c], ready, services, wait) == k + [c'] && Idle(front + [c], ready) == idle;
    ReversedSnoc(k, c');
    Associative([c'], Reversed(k), idle);
  }

  lemma PassEnds(cs: seq<Client>, ready: set<int>, services: seq<Service>, wait: int)
    ensures PassAt(cs, 0, ready, services, wait) == Pass(cs, 0, 0, {}, [])
    ensures PassAt(cs, |cs|, ready, services, wait).list == Served(cs, ready, services, wait)
    ensures PassAt(cs, |cs|, ready, services, wait).lost == Lost(cs, ready, services)
    ensures PassAt(cs, |cs|, ready, services, wait).count == CountReady(cs, ready)
    ensures PassAt(cs, |cs|, ready, services, wait).asked == Asked(cs, ready, services)
  {
    assert cs[..|cs|] == cs;
  }

  /** Once no client further on is ready, the rest of the pass changes nothing. */
  lemma {:induction false} PassSettled(cs: seq<Client>, n: nat, ready: set<int>, services: seq<Service>, wait: int)
    requires n <= |cs| && CountReady(cs[..n], ready) == CountReady(cs, ready)
    ensures PassAt(cs, n, ready, services, wait).list == Served(cs, ready, services, wait)
    ensures PassAt(cs, n, ready, services, wait).lost == Lost(cs, ready, services)
    ensures PassAt(cs, n, ready, services, wait).asked == Asked(cs, ready, services)
    decreases |cs| - n
  {
    if n == |cs| {
      PassEnds(cs, ready, services, wait);
    } else {
      PassStep(cs, n, ready, services, wait);
      CountGrows(cs, n + 1, ready);
      PassSettled(cs, n + 1, ready, services, wait);
    }
  }

  lemma {:induction false} CountGrows(cs: seq<Client>, n: nat, ready: set<int>)
    requires n <= |cs|
    ensures CountReady(cs[..n], ready) <= CountReady(cs, ready)
    ensures CountReady(cs[..n], ready) == CountReady(cs, ready) ==> forall i :: n <= i < |cs| ==> cs[i].sock !in ready
    decreases |cs| - n
  {
    if n == |cs| {
      assert cs[..n] == cs;
    } else {
      assert Front(cs[..n + 1]) == cs[..n];
      CountGrows(cs, n + 1, ready);
    }
  }

  /** One turn of the pass: the iterator is inside the list, and if its client is ready there is a service left. */
  ghost predicate Follows(p: Pass, next: Pass, bound: nat, ready: set<int>, services: seq<Service>, wait: int) {
    && p.pos < |p.list| && next == Look(p, ready, services, wait)
    && (p.list[p.pos].sock in ready ==> p.count < bound)
  }

  /** The moments of a whole pass over a list with bound ready clients. */
  ghost predicate IsTrace(trace: seq<Pass>, cs: seq<Client>, bound: nat, ready: set<int>, services: seq<Service>,
                          wait: int)
  {
    && |trace| == |cs| + 1 && trace[0] == Pass(cs, 0, 0, {}, [])
    && (forall n: nat {:trigger TurnAt(trace, n, bound, ready, services, wait)} :: n < |cs| ==>
          TurnAt(trace, n, bound, ready, services, wait))
    && trace[|cs|].pos == |trace[|cs|].list|
  }

  ghost predicate TurnAt(trace: seq<Pass>, n: nat, bound: nat, ready: set<int>, services: seq<Service>, wait: int) {
    n + 1 < |trace| && Follows(trace[n], trace[n + 1], bound, ready, services, wait)
  }

  /** The pass runs through these moments; once all ready clients are served, each of them is the final one. */
  lemma TraceOf(cs: seq<Client>, ready: set<int>, services: seq<Service>, wait: int) returns (trace: seq<Pass>)
    ensures IsTrace(trace, cs, CountReady(cs, ready), ready, services, wait)
    ensures forall n :: 0 <= n < |trace| && (n == |cs| || trace[n].count >= CountReady(cs, ready)) ==>
              && trace[n].list == Served(cs, ready, services, wait) && trace[n].lost == Lost(cs, ready, services)
              && trace[n].count == CountReady(cs, ready) && trace[n].asked == Asked(cs, ready, services)
  {
    trace := seq(|cs| + 1, n requires 0 <= n <= |cs| => PassAt(cs, n, ready, services, wait));
    PassEnds(cs, ready, services, wait);
    forall n: nat | n < |cs|
      ensures TurnAt(trace, n, CountReady(cs, ready), ready, services, wait)
    {
      PassStep(cs, n, ready, services, wait);
      CountGrows(cs, n + 1, ready);
    }
    forall n | 0 <= n < |trace| && (n == |cs| || trace[n].count >= CountReady(cs, ready))
      ensures trace[n].list == Served(cs, ready, services, wait) && trace[n].lost == Lost(cs, ready, services)
      ensures trace[n].count == CountReady(cs, ready) && trace[n].asked == Asked(cs, ready, services)
    {
      CountGrows(cs, n, ready);
      assert n == |cs| ==> cs[..n] == cs;
      PassSettled(cs, n, ready, services, wait);
    }
  }

  lemma TraceBound(trace: seq<Pass>, cs: seq<Client>, bound: nat, bound': nat, ready: set<int>,
                   services: seq<Service>, wait: int)
    requires IsTrace(trace, cs, bound, ready, services, wait) && bound <= bound'
    ensures IsTrace(trace, cs, bound', ready, services, wait)
  {
    forall n: nat | n < |cs|
      ensures TurnAt(trace, n, bound', ready, services, wait)
    {
      assert TurnAt(trace, n, bound, ready, services, wait);
    }
  }

  // ------------------------------------------------------------------------------------------------
  // The three changes to the list keep its shape

  ghost predicate ListOk(cs: seq<Client>, bound: int) {
    Valley(cs) && ExpireBy(cs, bound) && DistinctSocks(cs)
  }

  lemma RemoveKeeps(cs: seq<Client>, pos: nat, bound: int)
    requires ListOk(cs, bound) && pos < |cs|
    ensures ListOk(RemoveAt(cs, pos), bound)
    ensures SockSet(RemoveAt(cs, pos)) == SockSet(cs) - {cs[pos].sock}
  {
    var r := RemoveAt(cs, pos);
    assert forall i :: 0 <= i < |r| ==> r[i] == cs[if i < pos then i else i + 1];
    forall i, j, k | 0 <= i < j < k < |r|
      ensures NoPeak(r, i, j, k)
    {
      assert NoPeak(cs, if i < pos then i else i + 1, if j < pos then j else j + 1, if k < pos then k else k + 1);
    }
    RemovedSocks(cs, pos);
  }

  lemma RemovedSocks(cs: seq<Client>, pos: nat)
    requires DistinctSocks(cs) && pos < |cs|
    ensures SockSet(RemoveAt(cs, pos)) == SockSet(cs) - {cs[pos].sock}
  {
    var r := RemoveAt(cs, pos);
    forall x | x in SockSet(r)
      ensures x in SockSet(cs) && x != cs[pos].sock
    {
      var i :| 0 <= i < |r| && r[i].sock == x;
      assert cs[if i < pos then i else i + 1] == r[i];
    }
    forall x | x in SockSet(cs) && x != cs[pos].sock
      ensures x in SockSet(r)
    {
      var i :| 0 <= i < |cs| && cs[i].sock == x;
      assert r[if i < pos then i else i - 1] == cs[i];
    }
  }

  lemma PushFrontKeeps(cs: seq<Client>, c: Client, bound: int)
    requires ListOk(cs, bound) && c.expiry >= bound && c.sock !in SockSet(cs)
    ensures ListOk([c] + cs, c.expiry)
    ensures SockSet([c] + cs) == SockSet(cs) + {c.sock}
  {
    var r := [c] + cs;
    assert forall i :: 1 <= i < |r| ==> r[i] == cs[i - 1];
    forall i, j, k | 0 <= i < j < k < |r|
      ensures NoPeak(r, i, j, k)
    {
      if i > 0 {
        assert NoPeak(cs, i - 1, j - 1, k - 1);
      }
    }
    forall x
      ensures x in SockSet(r) <==> x in SockSet(cs) || x == c.sock
    {
      if x in SockSet(cs) {
        var i :| 0 <= i < |cs| && cs[i].sock == x;
        assert r[i + 1].sock == x;
      }
      assert r[0] == c;
    }
  }

  lemma PushBackKeeps(cs: seq<Client>, c: Client, bound: int)
    requires ListOk(cs, bound) && c.expiry >= bound && c.sock !in SockSet(cs)
    ensures ListOk(cs + [c], c.expiry)
    ensures SockSet(cs + [c]) == SockSet(cs) + {c.sock}
  {
    var r := cs + [c];
    assert Front(r) == cs;
    SockSetSnoc(r);
    forall i, j, k | 0 <= i < j < k < |r|
      ensures NoPeak(r, i, j, k)
    {
      if k < |cs| {
        assert NoPeak(cs, i, j, k);
      }
    }
  }

  lemma DropKeeps(cs: seq<Client>, n: nat, bound: int)
    requires ListOk(cs, bound) && n <= |cs|
    ensures ListOk(cs[n..], bound)
    ensures SockSet(cs[n..]) == SockSet(cs) - SockSet(cs[..n])
  {
    var front, rest := cs[..n], cs[n..];
    forall i, j, k | 0 <= i < j < k < |rest|
      ensures NoPeak(rest, i, j, k)
    {
      assert NoPeak(cs, i + n, j + n, k + n);
    }
    forall x
      ensures x in SockSet(rest) <==> x in SockSet(cs) && x !in SockSet(front)
    {
      if x in SockSet(cs) {
        var i :| 0 <= i < |cs| && cs[i].sock == x;
        if i < n {
          assert front[i].sock == x;
        } else {
          assert rest[i - n].sock == x;
        }
      }
    }
  }

  // ------------------------------------------------------------------------------------------------
  // Every turn keeps the invariant

  /** The list is in order and has lost from all exactly the sockets that failed. */
  ghost predicate PassOk(p: Pass, all: set<int>, services: seq<Service>, wait: int, now: int) {
    var time := TimeAfter(now, services, p.count);
    ListOk(p.list, time + wait) && time >= now && SockSet(p.list) == all - p.lost
  }

  lemma LookKeeps(p: Pass, all: set<int>, ready: set<int>, services: seq<Service>, wait: int, now: int)
    requires PassOk(p, all, services, wait, now) && InOrder(now, services) && p.pos < |p.list|
    requires p.list[p.pos].sock in ready ==> p.count < |services|
    ensures PassOk(Look(p, ready, services, wait), all, services, wait, now)
    ensures |Look(p, ready, services, wait).list| <= |p.list|
  {
    if p.list[p.pos].sock in ready {
      var expiry := services[p.count].time + wait;
      ServeOneKeeps(p.list, p.pos, TimeAfter(now, services, p.count) + wait, expiry);
      MinusMinus(all, p.lost, {p.list[p.pos].sock});
      assert ListOk(Look(p, ready, services, wait).list, expiry);
    }
  }

  lemma {:induction false} PassKeeps(cs: seq<Client>, n: nat, ready: set<int>, services: seq<Service>, wait: int,
                                     now: int)
    requires ListOk(cs, now + wait) && InOrder(now, services) && n <= |cs| && CountReady(cs, ready) <= |services|
    ensures var p := PassAt(cs, n, ready, services, wait);
            PassOk(p, SockSet(cs), services, wait, now) && |p.list| <= |cs|
  {
    if n == 0 {
      PassEnds(cs, ready, services, wait);
    } else {
      hide Served, Lost, Asked, AskedBy, ListOk;
      var p, q := PassAt(cs, n - 1, ready, services, wait), PassAt(cs, n, ready, services, wait);
      assert p.pos < |p.list| && q == Look(p, ready, services, wait) by {
        PassStep(cs, n - 1, ready, services, wait);
      }
      assert q.count <= |services| by {
        CountGrows(cs, n, ready);
      }
      PassKeeps(cs, n - 1, ready, services, wait, now);
      LookKeeps(p, SockSet(cs), ready, services, wait, now);
    }
  }

  lemma MinusMinus(a: set<int>, b: set<int>, c: set<int>)
    ensures a - b - c == a - (b + c)
  {
  }

  lemma ServeOneKeeps(l: seq<Client>, pos: nat, bound: int, expiry: int)
    requires ListOk(l, bound) && pos < |l| && expiry >= bound
    ensures var rest := RemoveAt(l, pos);
            && ListOk(rest, expiry) && SockSet(rest) == SockSet(l) - {l[pos].sock}
            && ListOk([Client(l[pos].sock, expiry)] + rest, expiry)
            && SockSet([Client(l[pos].sock, expiry)] + rest) == SockSet(l)
  {
    RemoveKeeps(l, pos, bound);
    PushFrontKeeps(RemoveAt(l, pos), Client(l[pos].sock, expiry), bound);
    assert l[pos].sock in SockSet(l);
  }

  lemma ServeKeepsInv(s: State, ready: set<int>, services: seq<Service>)
    requires Inv(s) && InOrder(s.now, services) && CountReady(s.clients, ready) <= |services|
    ensures Inv(ServeReady(s, ready, services))
    ensures ServeReady(s, ready, services).now >= s.now
  {
    var cs := s.clients;
    PassKeeps(cs, |cs|, ready, services, s.wait, s.now);
    PassEnds(cs, ready, services, s.wait);
    assert cs[..|cs|] == cs;
    LostInside(cs, ready, services);
  }

  lemma {:induction false} LostInside(cs: seq<Client>, ready: set<int>, services: seq<Service>)
    ensures Lost(cs, ready, services) <= SockSet(cs) * ready
  {
    if cs != [] {
      LostInside(Front(cs), ready, services);
      SockSetSnoc(cs);
    }
  }

  lemma AcceptKeepsInv(s: State, a: Accept)
    requires Inv(s) && (a.Accepted? ==> a.sock !in s.open && a.time >= s.now)
    ensures Inv(AcceptClient(s, a)) && AcceptClient(s, a).now >= s.now
  {
    if a.Accepted? && |s.clients| <= CLIENTS_LIMIT {
      PushBackKeeps(s.clients, Client(a.sock, a.time + s.wait), s.now + s.wait);
    }
  }

  lemma ExpireKeepsInv(s: State, time: int)
    requires Inv(s) && time >= s.now
    ensures Inv(ExpireClients(s, time))
  {
    var n := ExpiredPrefix(s.clients, time);
    DropKeeps(s.clients, n, s.now + s.wait);
    assert s.master !in SockSet(s.clients[..n]);
  }

  /** Select reports no more ready clients than it counts, even after the accepted one has joined the list. */
  lemma ActivitySuffices(s: State, t: Turn)
    requires Inv(s) && Possible(s, t) && t.Activity?
    ensures var s1 := AfterAccept(s, t);
            CountReady(s1.clients, t.ready) == |t.ready - {s.master}| <= |t.ready|
  {
    var s1 := AfterAccept(s, t);
    assert Inv(s1) by {
      AcceptKeepsInv(s, t.accept);
    }
    ReadyCounted(s1.clients, t.ready);
    ReadyClients(t.ready, SockSet(s1.clients), s.master);
    Smaller(t.ready, s.master);
  }

  lemma ReadyClients(ready: set<int>, socks: set<int>, master: int)
    requires ready <= socks + {master} && master !in socks
    ensures ready * socks == ready - {master}
  {
  }

  lemma Smaller(a: set<int>, x: int)
    ensures |a - {x}| <= |a|
  {
    if x in a {
      assert |a| == |a - {x}| + 1;
    } else {
      assert a - {x} == a;
    }
  }

  /** Enough is counted, and enough is known of the services, for every ready client. */
  ghost predicate Counted(s: State, t: Turn) {
    t.Activity? ==> t.ready != {} && CountReady(AfterAccept(s, t).clients, t.ready) <= |t.ready| <= |t.services|
  }

  lemma PossibleIsCounted(s: State, t: Turn)
    requires Inv(s) && Possible(s, t)
    ensures Counted(s, t)
  {
    if t.Activity? {
      ActivitySuffices(s, t);
    }
  }

  lemma StepKeepsInv(s: State, t: Turn)
    requires Inv(s) && Possible(s, t)
    ensures Inv(Step(s, t)) && Step(s, t).now >= s.now
  {
    match t
    case SelectFailed =>
    case TimedOut(time) => ExpireKeepsInv(s, time);
    case Activity(ready, accept, services) =>
      if s.master in ready {
        AcceptKeepsInv(s, accept);
      }
      ActivitySuffices(s, t);
      ServeKeepsInv(AfterAccept(s, t), ready, services);
  }

  ghost function Run(s: State, turns: seq<Turn>): State {
    if turns == [] then s else Step(Run(s, Front(turns)), Last(turns))
  }

  ghost predicate PossibleRun(s: State, turns: seq<Turn>) {
    turns == [] || (PossibleRun(s, Front(turns)) && Possible(Run(s, Front(turns)), Last(turns)))
  }

  lemma {:induction false} PossiblePrefix(s: State, turns: seq<Turn>, i: nat)
    requires PossibleRun(s, turns) && i < |turns|
    ensures Possible(Run(s, turns[..i]), turns[i])
    ensures Run(s, turns[..i + 1]) == Step(Run(s, turns[..i]), turns[i])
    decreases |turns|
  {
    assert Front(turns[..i + 1]) == turns[..i] && Last(turns[..i + 1]) == turns[i];
    if i == |turns| - 1 {
      assert turns[..i + 1] == turns;
    } else {
      assert Front(turns)[..i] == turns[..i] && Front(turns)[..i + 1] == turns[..i + 1];
      PossiblePrefix(s, Front(turns), i);
    }
  }

  /** In every state the loop can reach, the invariant holds. */
  lemma {:induction false} RunKeepsInv(s: State, turns: seq<Turn>)
    requires Initial(s) && PossibleRun(s, turns)
    ensures Inv(Run(s, turns)) && |Run(s, turns).clients| <= 1001
    ensures Run(s, turns).fds == Run(s, turns).open == SockSet(Run(s, turns).clients) + {Run(s, turns).master}
  {
    if turns != [] {
      RunKeepsInv(s, Front(turns));
      StepKeepsInv(Run(s, Front(turns)), Last(turns));
    }
  }

  // ------------------------------------------------------------------------------------------------
  // What the shape of the list means

  ghost predicate FallsTo(cs: seq<Client>, p: nat)
    requires p <= |cs|
  {
    forall i, j :: 0 <= i < j < p ==> cs[i].expiry >= cs[j].expiry
  }

  ghost predicate RisesFrom(cs: seq<Client>, p: nat) {
    forall i, j :: p <= i < j < |cs| ==> cs[i].expiry <= cs[j].expiry
  }

  /** A valley is exactly a list whose expiry times first do not rise and then do not fall. */
  lemma ValleyShape(cs: seq<Client>)
    ensures Valley(cs) <==> exists p :: 0 <= p <= |cs| && FallsTo(cs, p) && RisesFrom(cs, p)
  {
    if Valley(cs) && cs != [] {
      var p := FirstMinimum(cs, |cs|);
      forall i, j | 0 <= i < j < p
        ensures cs[i].expiry >= cs[j].expiry
      {
        assert NoPeak(cs, i, j, p);
      }
      forall i, j | p < i < j < |cs|
        ensures cs[i].expiry <= cs[j].expiry
      {
        assert NoPeak(cs, p, i, j);
      }
      assert FallsTo(cs, p) && RisesFrom(cs, p);
    } else if cs == [] {
      assert FallsTo(cs, 0) && RisesFrom(cs, 0);
    }
    if p :| 0 <= p <= |cs| && FallsTo(cs, p) && RisesFrom(cs, p) {
      forall i, j, k | 0 <= i < j < k < |cs|
        ensures NoPeak(cs, i, j, k)
      {
      }
    }
  }

  lemma FirstMinimum(cs: seq<Client>, n: nat) returns (p: nat)
    requires 0 < n <= |cs|
    ensures p < n && (forall i :: 0 <= i < n ==> cs[p].expiry <= cs[i].expiry)
    ensures forall i :: 0 <= i < p ==> cs[p].expiry < cs[i].expiry
  {
    if n == 1 {
      p := 0;
    } else {
      p := FirstMinimum(cs, n - 1);
      if cs[n - 1].expiry < cs[p].expiry {
        p := n - 1;
      }
    }
  }

  /** In a valley the head outlives nobody exactly when the list only rises, as it does before anyone is served. */
  lemma HeadIsOldestIff(cs: seq<Client>)
    requires Valley(cs) && cs != []
    ensures (forall i :: 0 <= i < |cs| ==> cs[0].expiry <= cs[i].expiry) <==> RisesFrom(cs, 0)
  {
    if forall i :: 0 <= i < |cs| ==> cs[0].expiry <= cs[i].expiry {
      forall i, j | 0 < i < j < |cs|
        ensures cs[i].expiry <= cs[j].expiry
      {
        assert NoPeak(cs, 0, i, j);
      }
    }
  }

  // ------------------------------------------------------------------------------------------------
  // The expiry check

  /** The clients whose time is not up, in their order. */
  ghost function Live(cs: seq<Client>, now: int): (r: seq<Client>)
    ensures forall c :: c in r <==> c in cs && c.expiry >= now
  {
    if cs == [] then []
    else if cs[0].expiry < now then Live(cs[1..], now)
    else [cs[0]] + Live(cs[1..], now)
  }

  lemma {:induction false} AllLive(cs: seq<Client>, now: int)
    requires forall i :: 0 <= i < |cs| ==> cs[i].expiry >= now
    ensures Live(cs, now) == cs
  {
    if cs != [] {
      AllLive(cs[1..], now);
    }
  }

  lemma {:induction false} LiveAfterPrefix(cs: seq<Client>, n: nat, now: int)
    requires n <= |cs| && forall i :: 0 <= i < n ==> cs[i].expiry < now
    ensures Live(cs, now) == Live(cs[n..], now)
  {
    if n > 0 {
      LiveAfterPrefix(cs[1..], n - 1, now);
      assert cs[1..][n - 1..] == cs[n..];
    }
  }

  /**
   The check stops at the first client whose time is not up, yet it is all or nothing: it keeps everybody if the
   head is live, and otherwise it keeps exactly the live clients.
   */
  lemma ExpiryAllOrNothing(s: State, time: int)
    requires Valley(s.clients)
    ensures ExpireClients(s, time).clients ==
            if s.clients == [] || s.clients[0].expiry >= time then s.clients else Live(s.clients, time)
  {
    var cs, n := s.clients, ExpiredPrefix(s.clients, time);
    if cs != [] && cs[0].expiry < time {
      forall i | n <= i < |cs|
        ensures cs[i].expiry >= time
      {
        if i > n {
          assert NoPeak(cs, 0, n, i);
        }
      }
      LiveAfterPrefix(cs, n, time);
      AllLive(cs[n..], time);
    }
  }

  /** So it clears out everybody whose time is up exactly when the head's is, or nobody's is. */
  lemma ExpiryCompleteIff(s: State, time: int)
    requires Valley(s.clients)
    ensures ExpireClients(s, time).clients == Live(s.clients, time) <==>
            (s.clients != [] && s.clients[0].expiry < time) || forall c :: c in s.clients ==> c.expiry >= time
  {
    var cs, live := s.clients, Live(s.clients, time);
    ExpiryAllOrNothing(s, time);
    if forall c :: c in cs ==> c.expiry >= time {
      AllLive(cs, time);
    } else if cs[0].expiry >= time {
      var c :| c in cs && c.expiry < time;
      assert c !in live;
    }
  }

  /**
   From every start there is a run in which the oldest client is not the head and outstays its time: clients a and b
   connect, b is served, and then the time of a passes. The timeout finds b at the head, still live, and stops there.
   */
  lemma OldestOutstays(s: State) returns (turns: seq<Turn>, time: int)
    requires Initial(s) && s.wait >= 0
    ensures PossibleRun(s, turns) && Possible(Run(s, turns), TimedOut(time))
    ensures var cs := Run(s, turns).clients;
            && |cs| == 2 && cs[1].expiry < cs[0].expiry && cs[1].expiry < time
            && ExpireClients(Run(s, turns), time).clients == cs
  {
    var b, now := s.master + 2, s.now;
    var turns2 := TwoConnect(s);
    var s2 := Run(s, turns2);
    var t := Activity({b}, Refused, [Service(1, 1, now + 2, [0], Login("", ""))]);
    turns := turns2 + [t];
    RunSnoc(s, turns2, t, Step(s2, t));
    ServeSecond(s2, t);
    time := now + 2 + s.wait;
    assert ExpiredPrefix(Run(s, turns).clients, time) == 0;
  }

  lemma TwoConnect(s: State) returns (turns: seq<Turn>)
    requires Initial(s)
    ensures PossibleRun(s, turns)
    ensures var a, b := s.master + 1, s.master + 2;
            Run(s, turns) == s.(clients := [Client(a, s.now + s.wait), Client(b, s.now + 1 + s.wait)],
                                fds := {s.master, a, b}, open := {s.master, a, b}, maxSock := b, now := s.now + 1)
  {
    var before := Connects(s, [], s.master + 1, s.now);
    var now := Run(s, before);
    assert now.clients == [Client(s.master + 1, s.now + s.wait)];
    turns := Connects(s, before, s.master + 2, s.now + 1);
  }

  /** The list can hold any number of clients up to one more than the limit. */
  lemma {:induction false} FullHouse(s: State, n: nat) returns (turns: seq<Turn>)
    requires Initial(s) && n <= 1001
    ensures PossibleRun(s, turns) && |Run(s, turns).clients| == n
  {
    if n == 0 {
      turns := [];
    } else {
      var before := FullHouse(s, n - 1);
      RunKeepsInv(s, before);
      var now := Run(s, before);
      turns := Connects(s, before, now.maxSock + 1, now.now);
    }
  }

  /** One more connection at the end of a run. */
  lemma Connects(s: State, turns: seq<Turn>, sock: int, time: int) returns (turns': seq<Turn>)
    requires PossibleRun(s, turns)
    requires var now := Run(s, turns);
             && now.master in now.fds && now.master !in SockSet(now.clients) && |now.clients| <= CLIENTS_LIMIT
             && sock !in now.open && sock != now.master && time >= now.now
    ensures PossibleRun(s, turns') && Run(s, turns') == AcceptClient(Run(s, turns), Accepted(sock, time))
  {
    var now := Run(s, turns);
    var t := Activity({now.master}, Accepted(sock, time), [Service(0, 0, time, [], Login("", ""))]);
    OnlyAccept(now, t);
    turns' := turns + [t];
    RunSnoc(s, turns, t, AcceptClient(now, t.accept));
  }

  lemma RunSnoc(s: State, turns: seq<Turn>, t: Turn, after: State)
    requires PossibleRun(s, turns) && Possible(Run(s, turns), t) && after == Step(Run(s, turns), t)
    ensures PossibleRun(s, turns + [t]) && Run(s, turns + [t]) == after
  {
    assert Front(turns + [t]) == turns;
  }

  /** A turn in which nothing but a connection comes in. */
  lemma OnlyAccept(s: State, t: Turn)
    requires t.Activity? && t.ready == {s.master} && s.master !in SockSet(s.clients)
    requires t.accept.Accepted? && t.accept.sock != s.master && |s.clients| <= CLIENTS_LIMIT
    ensures Step(s, t) == AcceptClient(s, t.accept)
  {
    var cs := AcceptClient(s, t.accept).clients;
    forall i | 0 <= i < |cs|
      ensures cs[i].sock != s.master
    {
      if i < |s.clients| {
        assert s.clients[i].sock in SockSet(s.clients);
      }
    }
    NobodyReady(cs, t.ready, t.services, s.wait);
  }

  lemma {:induction false} NobodyReady(cs: seq<Client>, ready: set<int>, services: seq<Service>, wait: int)
    requires forall i :: 0 <= i < |cs| ==> cs[i].sock !in ready
    ensures CountReady(cs, ready) == 0 && Lost(cs, ready, services) == {} && Asked(cs, ready, services) == []
    ensures Kept(cs, ready, services, wait) == [] && Idle(cs, ready) == cs
  {
    if cs != [] {
      NobodyReady(Front(cs), ready, services, wait);
    }
  }

  lemma SecondServed(a: Client, b: Client, ready: set<int>, services: seq<Service>, wait: int)
    requires a.sock != b.sock && ready == {b.sock} && |services| == 1 && services[0].Ok()
    ensures CountReady([a, b], ready) == 1 && Lost([a, b], ready, services) == {}
    ensures Served([a, b], ready, services, wait) == [Client(b.sock, services[0].time + wait), a]
    ensures Asked([a, b], ready, services) == [Ask(b.sock, services[0].request)]
  {
    NobodyReady([a], ready, services, wait);
    assert Reversed<Client>([]) == [];
    ServedSnoc([a], b, ready, services, wait);
    assert [a, b] == [a] + [b];
  }

  /** A turn that serves the second of two clients. */
  lemma ServeSecond(s: State, t: Turn)
    requires |s.clients| == 2 && s.clients[0].sock != s.clients[1].sock && s.master != s.clients[1].sock
    requires t.Activity? && t.ready == {s.clients[1].sock} && |t.services| == 1 && t.services[0].Ok()
    ensures Step(s, t) ==
      s.(clients := [Client(s.clients[1].sock, t.services[0].time + s.wait), s.clients[0]], now := t.services[0].time,
         asked := s.asked + [Ask(s.clients[1].sock, t.services[0].request)])
  {
    hide Kept, Lost, Idle, Asked, Reversed;
    SecondServed(s.clients[0], s.clients[1], t.ready, t.services, s.wait);
    assert s.clients == [s.clients[0], s.clients[1]];
    assert s.fds - {} == s.fds && s.open - {} == s.open;
  }

  // ------------------------------------------------------------------------------------------------
  // The serving pass

  /**
   Each ready client is served exactly once, by the service whose number is its rank among the ready ones: it is in
   the list afterwards with its expiry time renewed, or gone if the service failed. The others are untouched.
   */
  lemma ServedExactly(cs: seq<Client>, ready: set<int>, services: seq<Service>, wait: int, i: nat)
    requires DistinctSocks(cs) && CountReady(cs, ready) <= |services| && i < |cs|
    ensures var after, c, j := Served(cs, ready, services, wait), cs[i], CountReady(cs[..i], ready);
            && (c.sock !in ready ==> c in after)
            && (c.sock in ready ==> j == |ready * SockSet(cs[..i])| < |ready * SockSet(cs)| <= |services|)
            && (c.sock in ready && services[j].received > 0 && services[j].sent >= 0 ==>
                  Client(c.sock, services[j].time + wait) in after)
            && (c.sock in ready && (services[j].received <= 0 || services[j].sent < 0) ==>
                  c.sock in Lost(cs, ready, services) && c.sock !in SockSet(after))
            && (c.sock in ready && services[j].received > 0 ==>
                  Ask(c.sock, services[j].request) in Asked(cs, ready, services))
  {
    assert cs[..|cs|] == cs;
    ReadyCounted(cs, ready);
    ReadyCounted(cs[..i], ready);
    ServedPrefix(cs, |cs|, ready, services, wait, i);
    var kept, idle, c := Kept(cs, ready, services, wait), Idle(cs, ready), cs[i];
    forall x
      ensures x in Served(cs, ready, services, wait) <==> x in kept || x in idle
    {
      ReversedKeeps(kept, x);
    }
    if c.sock in SockSet(Served(cs, ready, services, wait)) {
      var x :| x in Served(cs, ready, services, wait) && x.sock == c.sock;
      if x in kept {
        var k := KeptOrigin(cs, ready, services, wait, x);
        assert k == i;
      } else {
        IdleOrigin(cs, ready, x);
      }
    }
  }

  /** Whoever is kept was ready and its service went well. */
  lemma {:induction false} KeptOrigin(cs: seq<Client>, ready: set<int>, services: seq<Service>, wait: int, x: Client)
    returns (k: nat)
    requires x in Kept(cs, ready, services, wait)
    ensures k < |cs| && cs[k].sock == x.sock && x.sock in ready && Succeeds(services, CountReady(cs[..k], ready))
  {
    if x in Kept(Front(cs), ready, services, wait) {
      k := KeptOrigin(Front(cs), ready, services, wait, x);
      assert Front(cs)[..k] == cs[..k];
    } else {
      k := |cs| - 1;
    }
  }

  lemma {:induction false} IdleOrigin(cs: seq<Client>, ready: set<int>, x: Client)
    requires x in Idle(cs, ready)
    ensures x.sock !in ready
  {
    if x in Idle(Front(cs), ready) {
      IdleOrigin(Front(cs), ready, x);
    }
  }

  lemma {:induction false} ServedPrefix(cs: seq<Client>, n: nat, ready: set<int>, services: seq<Service>, wait: int,
                                        i: nat)
    requires i < n <= |cs| && CountReady(cs[..n], ready) <= |services|
    ensures var c, j, front := cs[i], CountReady(cs[..i], ready), cs[..n];
            && (c.sock !in ready ==> c in Idle(front, ready))
            && (c.sock in ready ==> j < CountReady(front, ready))
            && (c.sock in ready && services[j].received > 0 && services[j].sent >= 0 ==>
                  Client(c.sock, services[j].time + wait) in Kept(front, ready, services, wait))
            && (c.sock in ready && (services[j].received <= 0 || services[j].sent < 0) ==>
                  c.sock in Lost(front, ready, services))
            && (c.sock in ready && services[j].received > 0 ==>
                  Ask(c.sock, services[j].request) in Asked(front, ready, services))
  {
    assert Front(cs[..n]) == cs[..n - 1] && Last(cs[..n]) == cs[n - 1];
    if i < n - 1 {
      ServedPrefix(cs, n - 1, ready, services, wait, i);
    }
  }

  /** Somewhere in the list socket a stands before socket b. */
  ghost predicate Before(l: seq<Client>, a: int, b: int) {
    exists p, q :: 0 <= p < q < |l| && l[p].sock == a && l[q].sock == b
  }

  /** Client i is not ready, or its service goes well. */
  ghost predicate Stays(cs: seq<Client>, i: nat, ready: set<int>, services: seq<Service>)
    requires i < |cs|
  {
    var j := CountReady(cs[..i], ready);
    cs[i].sock in ready ==> j < |services| && services[j].received > 0 && services[j].sent >= 0
  }

  /**
   The order after the pass: whoever was served stands before all who stood before it; whoever was not ready stands
   behind them still.
   */
  lemma ServedOrder(cs: seq<Client>, ready: set<int>, services: seq<Service>, wait: int, i: nat, j: nat)
    requires i < j < |cs| && CountReady(cs, ready) <= |services|
    requires Stays(cs, i, ready, services) && Stays(cs, j, ready, services)
    ensures cs[j].sock in ready ==> Before(Served(cs, ready, services, wait), cs[j].sock, cs[i].sock)
    ensures cs[j].sock !in ready ==> Before(Served(cs, ready, services, wait), cs[i].sock, cs[j].sock)
  {
    assert cs[..|cs|] == cs;
    ServedOrderPrefix(cs, |cs|, ready, services, wait, i, j);
  }

  lemma {:induction false} ServedOrderPrefix(cs: seq<Client>, n: nat, ready: set<int>, services: seq<Service>,
                                             wait: int, i: nat, j: nat)
    requires i < j < n <= |cs| && CountReady(cs[..n], ready) <= |services|
    requires Stays(cs, i, ready, services) && Stays(cs, j, ready, services)
    ensures cs[j].sock in ready ==> Before(Served(cs[..n], ready, services, wait), cs[j].sock, cs[i].sock)
    ensures cs[j].sock !in ready ==> Before(Served(cs[..n], ready, services, wait), cs[i].sock, cs[j].sock)
  {
    hide Served, Stays;
    assert cs[..n] == cs[..n - 1] + [cs[n - 1]];
    CountGrows(cs[..n], n - 1, ready);
    assert cs[..n][..n - 1] == cs[..n - 1];
    var served := Served(cs[..n - 1], ready, services, wait);
    ServedSnoc(cs[..n - 1], cs[n - 1], ready, services, wait);
    if n == j + 1 {
      StandsIn(cs, j, ready, services, wait, i);
      var p :| 0 <= p < |served| && served[p].sock == cs[i].sock;
      StaysMeans(cs, j, ready, services);
      if cs[j].sock in ready {
        var c := Client(cs[j].sock, services[CountReady(cs[..j], ready)].time + wait);
        assert ([c] + served)[0].sock == cs[j].sock && ([c] + served)[p + 1].sock == cs[i].sock;
      } else {
        assert (served + [cs[j]])[p].sock == cs[i].sock && (served + [cs[j]])[|served|].sock == cs[j].sock;
      }
    } else {
      ServedOrderPrefix(cs, n - 1, ready, services, wait, i, j);
      StillBefore(served, cs[n - 1], cs[i].sock, cs[j].sock);
      StillBefore(served, cs[n - 1], cs[j].sock, cs[i].sock);
      if Succeeds(services, CountReady(cs[..n - 1], ready)) {
        var c := Client(cs[n - 1].sock, services[CountReady(cs[..n - 1], ready)].time + wait);
        StillBefore(served, c, cs[i].sock, cs[j].sock);
        StillBefore(served, c, cs[j].sock, cs[i].sock);
      }
    }
  }

  lemma StaysMeans(cs: seq<Client>, j: nat, ready: set<int>, services: seq<Service>)
    requires j < |cs| && Stays(cs, j, ready, services)
    ensures cs[j].sock in ready ==> Succeeds(services, CountReady(cs[..j], ready))
  {
  }

  lemma StillBefore(l: seq<Client>, c: Client, a: int, b: int)
    ensures Before(l, a, b) ==> Before([c] + l, a, b) && Before(l + [c], a, b)
  {
    if p, q :| 0 <= p < q < |l| && l[p].sock == a && l[q].sock == b {
      assert ([c] + l)[p + 1].sock == a && ([c] + l)[q + 1].sock == b;
      assert (l + [c])[p].sock == a && (l + [c])[q].sock == b;
    }
  }

  lemma StandsIn(cs: seq<Client>, n: nat, ready: set<int>, services: seq<Service>, wait: int, i: nat)
    requires i < n <= |cs| && CountReady(cs[..n], ready) <= |services| && Stays(cs, i, ready, services)
    ensures exists p :: 0 <= p < |Served(cs[..n], ready, services, wait)|
                        && Served(cs[..n], ready, services, wait)[p].sock == cs[i].sock
  {
    ServedPrefix(cs, n, ready, services, wait, i);
    var c, j := cs[i], CountReady(cs[..i], ready);
    var x := if c.sock in ready then Client(c.sock, services[j].time + wait) else c;
    ReversedKeeps(Kept(cs[..n], ready, services, wait), x);
    assert x in Served(cs[..n], ready, services, wait);
  }

  /** What is asked, client by client: each ready client from whom a message is received asks for what it says. */
  lemma AskedGrows(cs: seq<Client>, n: nat, ready: set<int>, services: seq<Service>)
    requires n < |cs|
    ensures Asked([], ready, services) == []
    ensures var c, j := cs[n], CountReady(cs[..n], ready);
            Asked(cs[..n + 1], ready, services) == Asked(cs[..n], ready, services)
              + (if c.sock in ready && j < |services| && services[j].received > 0
                 then [Ask(c.sock, services[j].request)] else [])
  {
    assert Front(cs[..n + 1]) == cs[..n];
  }

  // ------------------------------------------------------------------------------------------------
  // What a turn does

  /** A timeout removes nobody if the head is live, and otherwise exactly the clients whose time is up. */
  lemma TimeoutExactly(s: State, time: int)
    requires Inv(s) && time >= s.now
    ensures var after := Step(s, TimedOut(time));
            && after.clients == (if s.clients == [] || s.clients[0].expiry >= time then s.clients
                                 else Live(s.clients, time))
            && after.fds == after.open == SockSet(after.clients) + {s.master}
            && after.now == time && after.asked == s.asked && after.maxSock == s.maxSock
    ensures Step(s, SelectFailed) == s
  {
    ExpiryAllOrNothing(s, time);
    ExpireKeepsInv(s, time);
  }

  /** A turn with activity serves every ready client that was listed, whether or not a new one is accepted in it. */
  lemma ActivityExactly(s: State, t: Turn, i: nat)
    requires Inv(s) && Possible(s, t) && t.Activity? && i < |s.clients|
    ensures var after, c, j := Step(s, t), s.clients[i], |t.ready * SockSet(s.clients[..i])|;
            && (c.sock !in t.ready ==> c in after.clients)
            && (c.sock in t.ready ==> j < |t.services|)
            && (c.sock in t.ready && t.services[j].received > 0 && t.services[j].sent >= 0 ==>
                  Client(c.sock, t.services[j].time + s.wait) in after.clients)
            && (c.sock in t.ready && (t.services[j].received <= 0 || t.services[j].sent < 0) ==>
                  c.sock !in SockSet(after.clients) && c.sock !in after.fds && c.sock !in after.open)
            && (c.sock in t.ready && t.services[j].received > 0 ==>
                  Ask(c.sock, t.services[j].request) in after.asked)
  {
    hide Inv, Step, Possible, Served, Asked, ServeReady, AcceptClient;
    var s1 := AfterAccept(s, t);
    ActivityIs(s, t);
    assert s1.clients[..i] == s.clients[..i] && s1.clients[i] == s.clients[i];
    ServedExactly(s1.clients, t.ready, t.services, s.wait, i);
    NotMaster(s1, i);
  }

  /** The state with the accepted client, and the state after the turn. */
  lemma ActivityIs(s: State, t: Turn)
    requires Inv(s) && Possible(s, t) && t.Activity?
    ensures var s1, after := AfterAccept(s, t), Step(s, t);
            && Inv(s1) && Inv(after) && s1.wait == s.wait && s1.master == after.master == s.master
            && s1.asked == s.asked && after.maxSock == s1.maxSock
            && s.clients <= s1.clients && DistinctSocks(s1.clients) && CountReady(s1.clients, t.ready) <= |t.services|
            && after.clients == Served(s1.clients, t.ready, t.services, s.wait)
            && after.asked == s.asked + Asked(s1.clients, t.ready, t.services)
            && after.fds == after.open == SockSet(after.clients) + {s.master}
  {
    if s.master in t.ready {
      AcceptKeepsInv(s, t.accept);
    }
    ActivitySuffices(s, t);
    StepKeepsInv(s, t);
  }

  lemma NotMaster(s: State, i: nat)
    requires Inv(s) && i < |s.clients|
    ensures s.clients[i].sock != s.master && s.clients[i].sock in s.open
  {
    assert s.clients[i].sock in SockSet(s.clients);
  }

  /** The connection that comes in with the turn joins the list in it, unless the list is beyond the limit. */
  lemma AcceptedExactly(s: State, t: Turn)
    requires Inv(s) && Possible(s, t) && t.Activity?
    ensures var after := Step(s, t);
            && (s.master in t.ready && t.accept.Accepted? && |s.clients| <= 1000 ==>
                  && Client(t.accept.sock, t.accept.time + s.wait) in after.clients
                  && t.accept.sock in after.fds && t.accept.sock in after.open
                  && after.maxSock == if t.accept.sock > s.maxSock then t.accept.sock else s.maxSock)
            && (s.master !in t.ready || t.accept.Refused? || |s.clients| > 1000 ==>
                  SockSet(after.clients) <= SockSet(s.clients) && after.maxSock == s.maxSock)
  {
    hide Inv, Step, Served, Asked, ServeReady;
    var s1 := AfterAccept(s, t);
    ActivityIs(s, t);
    if s.master in t.ready && t.accept.Accepted? && |s.clients| <= 1000 {
      InvFds(s);
      ServedExactly(s1.clients, t.ready, t.services, s.wait, |s.clients|);
      InSocks(Step(s, t).clients, s1.clients[|s.clients|]);
    } else {
      NobodyElse(s1.clients, t.ready, t.services, s.wait);
    }
  }

  lemma InvFds(s: State)
    requires Inv(s)
    ensures s.fds == s.open
  {
  }

  /** A pass brings no new socket into the list. */
  lemma NobodyElse(cs: seq<Client>, ready: set<int>, services: seq<Service>, wait: int)
    ensures SockSet(Served(cs, ready, services, wait)) <= SockSet(cs)
  {
    var kept, after := Kept(cs, ready, services, wait), Served(cs, ready, services, wait);
    forall x | x in after
      ensures x.sock in SockSet(cs)
    {
      ReversedKeeps(kept, x);
      if x in kept {
        var k := KeptOrigin(cs, ready, services, wait, x);
        assert cs[k].sock in SockSet(cs);
      } else {
        IdleInside(cs, ready, x);
        InSocks(cs, x);
      }
    }
  }

  lemma {:induction false} IdleInside(cs: seq<Client>, ready: set<int>, x: Client)
    requires x in Idle(cs, ready)
    ensures x in cs
  {
    if x in Idle(Front(cs), ready) {
      IdleInside(Front(cs), ready, x);
      assert cs == Front(cs) + [Last(cs)];
    }
  }

  lemma InSocks(cs: seq<Client>, c: Client)
    requires c in cs
    ensures c.sock in SockSet(cs)
  {
  }

  /** One more client of the expiry check. */
  lemma ExpireOne(cs: seq<Client>, m: nat, time: int, fds: set<int>)
    requires m <= ExpiredPrefix(cs, time) && m < |cs| && cs[m].expiry < time
    ensures m < ExpiredPrefix(cs, time) && cs[m..][1..] == cs[m + 1..]
    ensures fds - SockSet(cs[..m]) - {cs[m].sock} == fds - SockSet(cs[..m + 1])
  {
    assert Front(cs[..m + 1]) == cs[..m];
    SockSetSnoc(cs[..m + 1]);
  }
}
