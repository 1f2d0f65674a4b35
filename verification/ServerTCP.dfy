/**
 The server object of ServerTCP/server_tcp.c: the select loop over a sentinel list of client records whose expiry times
 are updated in place. Its methods are proved against the functions of module SelectLoop; what the operating system
 reports in a turn is the argument of the turn.
 */
module ServerTCP {
  import opened Options
  import opened LinkedList
  import opened ListItr
  import opened SelectLoop
  import A = Application
  import ChatState
  import ServerApp

  class ClientData {
    const clientSock: int
    var clientTimeout: int

    constructor (clientSock: int)
      ensures this.clientSock == clientSock
    {
      this.clientSock := clientSock;
    }
  }

  /** Every message received is whole and is a request that the application serves. */
  ghost predicate Readable(services: seq<Service>) {
    forall j :: 0 <= j < |services| && services[j].received > 0 ==> CanServe(services[j])
  }

  ghost predicate CanServe(service: Service) {
    service.received == |service.message| <= A.SERVER_BUFF_SIZE && ServerApp.ReadAs(service.message, service.request)
  }

  ghost function Records(items: seq<ClientData>): (r: seq<Client>)
    reads items
    ensures |r| == |items|
    ensures forall i :: 0 <= i < |items| ==> r[i] == Client(items[i].clientSock, items[i].clientTimeout)
  {
    seq(|items|, i requires 0 <= i < |items| reads items => Client(items[i].clientSock, items[i].clientTimeout))
  }

  lemma StillDistinct(s: seq<ClientData>, pos: nat)
    requires pos < |s| && (forall i, j :: 0 <= i < j < |s| ==> s[i] != s[j])
    ensures var r := RemoveAt(s, pos); forall i, j :: 0 <= i < j < |r| ==> r[i] != r[j]
    ensures var r := [s[pos]] + RemoveAt(s, pos); forall i, j :: 0 <= i < j < |r| ==> r[i] != r[j]
    ensures forall c :: c in RemoveAt(s, pos) ==> c in s
    ensures forall c :: c in [s[pos]] + RemoveAt(s, pos) ==> c in s
  {
    var r := RemoveAt(s, pos);
    assert forall i :: 0 <= i < |r| ==> r[i] == s[if i < pos then i else i + 1];
  }

  /** Takes the element under the iterator out of the list and moves on. */
  method TakeOut<T(==)>(l: List<T>, ghost pos: nat, itr: Node<T>) returns (next: Node<T>, item: T)
    requires l.Valid() && pos < |l.items| && l.At(pos + 1, itr)
    modifies l.Repr
    ensures l.Valid() && l.Repr == old(l.Repr)
    ensures l.items == RemoveAt(old(l.items), pos) && item == old(l.items)[pos]
    ensures l.At(pos + 1, next)
  {
    next := Next(l, pos + 1, itr);
    var data := Remove(l, pos + 1, Prev(l, pos + 2, next));
    item := data.value;
  }

  /** Moves the element under the iterator to the head of the list and moves on. */
  method MoveToHead<T(==)>(l: List<T>, ghost pos: nat, itr: Node<T>) returns (next: Node<T>)
    requires l.Valid() && pos < |l.items| && l.At(pos + 1, itr)
    modifies l.Repr
    ensures l.Valid() && fresh(l.Repr - old(l.Repr))
    ensures l.items == [old(l.items)[pos]] + RemoveAt(old(l.items), pos)
    ensures l.At(pos + 2, next)
  {
    var item;
    next, item := TakeOut(l, pos, itr);
    var res := l.PushHead(Some(item));
  }

  class Server {
    const masterSocket: int
    const maxWaitTime: int
    const connectedClients: List<ClientData>
    const app: A.Application
    var forSelectFds: set<int>
    var masterFds: set<int>
    var activity: int
    var maxSocket: int

    // The records of all clients accepted so far.
    ghost var clients: set<ClientData>
    // The descriptors in use in the process and the last time read from the clock.
    ghost var open: set<int>
    ghost var now: int

    ghost predicate Valid()
      reads `clients, connectedClients, connectedClients.Repr, app, app.Repr
      ensures Valid() ==> this !in app.Repr && this !in connectedClients.Repr && app !in connectedClients.Repr
    {
      && app.Valid() && app.Repr !! connectedClients.Repr && this !in app.Repr
      && (forall c <- clients :: c !in app.Repr)
      && connectedClients.Valid() && this !in connectedClients.Repr
      && (forall c <- connectedClients.items :: c in clients)
      && (forall c <- clients :: c !in connectedClients.Repr)
      && (forall i, j :: 0 <= i < j < |connectedClients.items| ==>
            connectedClients.items[i] != connectedClients.items[j])
    }

    ghost function View(): State
      reads `masterFds, `maxSocket, `open, `now, connectedClients`items, connectedClients.items, app`asked
    {
      State(masterSocket, maxWaitTime, Records(connectedClients.items), masterFds, maxSocket, open, now, app.asked)
    }

    /** The state in which the loop starts. */
    constructor (masterSocket: int, maxWaitTime: int, app: A.Application, ghost time: int)
      requires app.Valid() && app.asked == []
      ensures this.app == app
      ensures Valid() && fresh(connectedClients) && fresh(connectedClients.Repr)
      ensures Initial(View()) && View().master == masterSocket && View().wait == maxWaitTime && now == time
    {
      hide A.Application.Valid;
      this.masterSocket, this.maxWaitTime, this.app := masterSocket, maxWaitTime, app;
      connectedClients := new List<ClientData>();
      forSelectFds, masterFds := {}, {masterSocket};
      activity, maxSocket := 0, masterSocket;
      clients, open, now := {}, {masterSocket}, time;
    }

    method UpdateTimeForClient(client: ClientData, time: int)
      modifies client
      ensures client.clientTimeout == time + maxWaitTime
    {
      hide A.Application.Valid;
      client.clientTimeout := time + maxWaitTime;
    }

    /** Receives a request, has the application answer it and renews the expiry time, or closes the socket. */
    method ActionFuncSndRcv(client: ClientData, service: Service) returns (res: int)
      requires app.Valid() && client !in app.Repr && this !in app.Repr && (service.received > 0 ==> CanServe(service))
      modifies client, `open, `now, app.Repr
      ensures app.Valid() && fresh(app.Repr - old(app.Repr))
      ensures res == 0 || res == -1
      ensures res == -1 <==> service.received <= 0 || service.sent < 0
      ensures now == service.time
      ensures open ==
              if service.received > 0 && service.sent >= 0 then old(open) else old(open) - {client.clientSock}
      ensures client.clientTimeout ==
              if service.received > 0 && service.sent >= 0 then service.time + maxWaitTime
              else old(client.clientTimeout)
      ensures app.asked ==
              old(app.asked) + if service.received > 0 then [Ask(client.clientSock, service.request)] else []
    {
      hide A.Application.Valid;
      now := service.time;
      if 0 >= service.received {
        open := open - {client.clientSock};
        return -1;
      }
      var serverMessage := app.Serve(client.clientSock, service.message, service.request);
      if 0 > service.sent {
        open := open - {client.clientSock};
        return -1;
      }
      UpdateTimeForClient(client, service.time);
      return 0;
    }

    /** Takes the client under the iterator out of the list and out of the descriptor set. */
    method DropClient(ghost pos: nat, itr: Node<ClientData>) returns (next: Node<ClientData>)
      requires Valid() && pos < |connectedClients.items| && connectedClients.At(pos + 1, itr)
      modifies `masterFds, connectedClients.Repr
      ensures Valid() && connectedClients.Repr == old(connectedClients.Repr)
      ensures connectedClients.items == RemoveAt(old(connectedClients.items), pos)
      ensures Records(connectedClients.items) == RemoveAt(old(Records(connectedClients.items)), pos)
      ensures connectedClients.At(pos + 1, next)
      ensures masterFds == old(masterFds) - {old(connectedClients.items)[pos].clientSock}
    {
      hide A.Application.Valid, List.Valid;
      ghost var items := connectedClients.items;
      var client;
      next, client := TakeOut(connectedClients, pos, itr);
      masterFds := masterFds - {client.clientSock};
      StillDistinct(items, pos);
    }

    /** Moves the client under the iterator to the head of the list. */
    method PromoteClient(ghost pos: nat, itr: Node<ClientData>) returns (next: Node<ClientData>)
      requires Valid() && pos < |connectedClients.items| && connectedClients.At(pos + 1, itr)
      modifies connectedClients.Repr
      ensures Valid() && fresh(connectedClients.Repr - old(connectedClients.Repr))
      ensures connectedClients.items == [old(connectedClients.items)[pos]] + RemoveAt(old(connectedClients.items), pos)
      ensures var cs := old(Records(connectedClients.items));
              Records(connectedClients.items) == [cs[pos]] + RemoveAt(cs, pos)
      ensures connectedClients.At(pos + 2, next)
    {
      hide A.Application.Valid, List.Valid;
      ghost var items := connectedClients.items;
      next := MoveToHead(connectedClients, pos, itr);
      StillDistinct(items, pos);
    }

    /** The loop body for a ready client. */
    method ServeClient(ghost pos: nat, itr: Node<ClientData>, service: Service) returns (next: Node<ClientData>)
      requires Valid() && pos < |connectedClients.items| && connectedClients.At(pos + 1, itr)
      requires service.received > 0 ==> CanServe(service)
      modifies `activity, `masterFds, `open, `now, connectedClients.Repr, clients, app.Repr
      ensures Valid() && fresh(connectedClients.Repr - old(connectedClients.Repr)) && fresh(app.Repr - old(app.Repr))
      ensures var sock := old(connectedClients.items)[pos].clientSock;
              app.asked == old(app.asked) + if service.received > 0 then [Ask(sock, service.request)] else []
      ensures activity == old(activity) - 1 && now == service.time
      ensures var cs := old(Records(connectedClients.items)); var rest := RemoveAt(cs, pos); var sock := cs[pos].sock;
              if service.received > 0 && service.sent >= 0 then
                && Records(connectedClients.items) == [Client(sock, service.time + maxWaitTime)] + rest
                && connectedClients.At(pos + 2, next) && masterFds == old(masterFds) && open == old(open)
              else
                && Records(connectedClients.items) == rest && connectedClients.At(pos + 1, next)
                && masterFds == old(masterFds) - {sock} && open == old(open) - {sock}
    {
      hide A.Application.Valid, CanServe, List.Valid;
      activity := activity - 1;
      var client := Get(connectedClients, pos + 1, itr).value;
      ghost var items := connectedClients.items;
      ghost var cs := Records(items);
      assert items[pos] == client && client in items;
      var res := ActionFuncSndRcv(client, service);
      assert connectedClients.Valid();
      ghost var renewed := Client(client.clientSock, service.time + maxWaitTime);
      ghost var cs' := if service.received > 0 && service.sent >= 0 then cs[pos := renewed] else cs;
      assert Records(connectedClients.items) == cs';
      assert RemoveAt(cs', pos) == RemoveAt(cs, pos);
      if res == -1 {
        next := DropClient(pos, itr);
      } else {
        next := PromoteClient(pos, itr);
      }
    }

    /** What ties the object to moment p of a pass that began in the state before. */
    ghost predicate AtMoment(p: Pass, before: State, services: seq<Service>, itr: Node<ClientData>)
      reads this, connectedClients, connectedClients.items, app`asked
    {
      && Records(connectedClients.items) == p.list && connectedClients.At(p.pos + 1, itr)
      && masterFds == before.fds - p.lost && open == before.open - p.lost
      && now == TimeAfter(before.now, services, p.count) && app.asked == before.asked + p.asked
    }

    /** The loop's end test asks whether the iterator has left the list. */
    lemma InsideIff(p: Pass, before: State, services: seq<Service>, itr: Node<ClientData>)
      requires Valid() && AtMoment(p, before, services, itr)
      ensures p.pos <= |p.list|
      ensures !Equals(itr, connectedClients.tail) <==> p.pos < |p.list|
    {
      EndTestExact(connectedClients, p.pos + 1);
    }

    /** The loop body of the pass for a ready client. */
    method LookAtReady(ghost p: Pass, ghost before: State, itr: Node<ClientData>, served: nat, services: seq<Service>)
      returns (next: Node<ClientData>, ghost p': Pass)
      requires Readable(services)
      requires Valid() && p.pos < |p.list| && AtMoment(p, before, services, itr)
      requires p.list[p.pos].sock in forSelectFds && served == p.count < |services|
      modifies `activity, `masterFds, `open, `now, connectedClients.Repr, clients, app.Repr
      ensures Valid() && fresh(connectedClients.Repr - old(connectedClients.Repr)) && fresh(app.Repr - old(app.Repr))
      ensures p' == Look(p, forSelectFds, services, maxWaitTime) && AtMoment(p', before, services, next)
      ensures activity == old(activity) - 1
    {
      hide A.Application.Valid, CanServe, Valid, RemoveAt;
      ghost var sock := p.list[p.pos].sock;
      p' := Look(p, forSelectFds, services, maxWaitTime);
      MinusMinus(before.fds, p.lost, {sock});
      MinusMinus(before.open, p.lost, {sock});
      assert TimeAfter(before.now, services, p'.count) == services[served].time;
      next := ServeClient(p.pos, itr, services[served]);
      assert connectedClients.At(p'.pos + 1, next);
    }

    /** The loop body of the pass. */
    method LookAtClient(ghost p: Pass, ghost before: State, itr: Node<ClientData>, served: nat, services: seq<Service>)
      returns (next: Node<ClientData>, served': nat, ghost p': Pass)
      requires Readable(services)
      requires Valid() && p.pos < |p.list| && AtMoment(p, before, services, itr)
      requires served == p.count && (p.list[p.pos].sock in forSelectFds ==> served < |services|)
      modifies `activity, `masterFds, `open, `now, connectedClients.Repr, clients, app.Repr
      ensures Valid() && fresh(connectedClients.Repr - old(connectedClients.Repr)) && fresh(app.Repr - old(app.Repr))
      ensures p' == Look(p, forSelectFds, services, maxWaitTime) && AtMoment(p', before, services, next)
      ensures served' == p'.count && activity + served' == old(activity) + served
    {
      hide A.Application.Valid, CanServe;
      var client := Get(connectedClients, p.pos + 1, itr).value;
      if client.clientSock in forSelectFds {
        next, p' := LookAtReady(p, before, itr, served, services);
        served' := served + 1;
      } else {
        p' := Look(p, forSelectFds, services, maxWaitTime);
        next := Next(connectedClients, p.pos + 1, itr);
        served' := served;
      }
    }

    /** The loop body of the pass, from the n-th moment of trace to the next. */
    method PassTurn(services: seq<Service>, ghost trace: seq<Pass>, ghost n: nat, ghost before: State,
                    itr: Node<ClientData>, served: nat) returns (next: Node<ClientData>, served': nat)
      requires Readable(services)
      requires Valid() && n < |trace|
      requires IsTrace(trace, before.clients, |services|, forSelectFds, services, maxWaitTime)
      requires AtMoment(trace[n], before, services, itr) && !Equals(itr, connectedClients.tail)
      requires served == trace[n].count
      modifies `activity, `masterFds, `open, `now, connectedClients.Repr, clients, app.Repr
      ensures Valid() && fresh(connectedClients.Repr - old(connectedClients.Repr)) && fresh(app.Repr - old(app.Repr))
      ensures n + 1 < |trace| && AtMoment(trace[n + 1], before, services, next)
      ensures served' == trace[n + 1].count && activity + served' == old(activity) + served
    {
      hide A.Application.Valid;
      InsideIff(trace[n], before, services, itr);
      assert TurnAt(trace, n, |services|, forSelectFds, services, maxWaitTime);
      ghost var p';
      next, served', p' := LookAtClient(trace[n], before, itr, served, services);
    }

    /** The loop of the pass, through the moments of trace; it ends at the n-th. */
    method PassLoop(services: seq<Service>, ghost trace: seq<Pass>) returns (ghost n: nat)
      requires Valid() && Readable(services)
      requires IsTrace(trace, Records(connectedClients.items), |services|, forSelectFds, services, maxWaitTime)
      modifies `activity, `masterFds, `open, `now, connectedClients.Repr, clients, app.Repr
      ensures Valid() && fresh(connectedClients.Repr - old(connectedClients.Repr)) && fresh(app.Repr - old(app.Repr))
      ensures n < |trace| && (n == |trace| - 1 || activity <= 0)
      ensures Records(connectedClients.items) == trace[n].list && activity == old(activity) - trace[n].count
      ensures masterFds == old(masterFds) - trace[n].lost && open == old(open) - trace[n].lost
      ensures now == TimeAfter(old(now), services, trace[n].count) && app.asked == old(app.asked) + trace[n].asked
    {
      hide A.Application.Valid;
      ghost var before := View();
      var served := 0;
      n := 0;
      var itr, itrEnd := Begin(connectedClients), End(connectedClients);
      while !Equals(itr, itrEnd) && activity > 0
        invariant Valid() && fresh(connectedClients.Repr - old(connectedClients.Repr))
        invariant fresh(app.Repr - old(app.Repr))
        invariant n < |trace| && AtMoment(trace[n], before, services, itr)
        invariant served == trace[n].count && activity + served == old(activity)
        decreases |trace| - n
      {
        itr, served := PassTurn(services, trace, n, before, itr, served);
        n := n + 1;
      }
      assert n == |trace| - 1 || activity <= 0 by {
        InsideIff(trace[n], before, services, itr);
        assert n < |trace| - 1 ==> TurnAt(trace, n, |services|, forSelectFds, services, maxWaitTime);
      }
    }

    /**
     Serves the ready clients. The loop stops early when the count of ready sockets is used up; that count covers every
     ready client, so none is missed.
     */
    method ReceiveAndSend(services: seq<Service>)
      requires Valid() && Readable(services)
      requires CountReady(Records(connectedClients.items), forSelectFds) <= activity
      requires CountReady(Records(connectedClients.items), forSelectFds) <= |services|
      modifies `activity, `masterFds, `open, `now, connectedClients.Repr, clients, app.Repr
      ensures Valid() && fresh(connectedClients.Repr - old(connectedClients.Repr)) && fresh(app.Repr - old(app.Repr))
      ensures View() == ServeReady(old(View()), forSelectFds, services)
      ensures activity == old(activity) - CountReady(old(Records(connectedClients.items)), forSelectFds)
    {
      hide A.Application.Valid;
      ghost var cs := Records(connectedClients.items);
      ghost var trace := TraceOf(cs, forSelectFds, services, maxWaitTime);
      TraceBound(trace, cs, CountReady(cs, forSelectFds), |services|, forSelectFds, services, maxWaitTime);
      ghost var n := PassLoop(services, trace);
    }

    /** Accepts a connection; the new client has no expiry time and is not in the list yet. */
    method AcceptClient(accept: Accept) returns (newClient: ClientData?)
      requires Valid()
      modifies `masterFds, `maxSocket, `open, `now, `clients
      ensures Valid() && fresh(clients - old(clients))
      ensures newClient == null <==> accept.Refused? || |connectedClients.items| > CLIENTS_LIMIT
      ensures newClient == null ==> View() == SelectLoop.AcceptClient(old(View()), accept)
      ensures newClient != null ==> fresh(newClient) && newClient in clients && newClient.clientSock == accept.sock
      ensures newClient != null ==>
                View() == SelectLoop.AcceptClient(old(View()), accept).(clients := old(Records(connectedClients.items)))
    {
      hide A.Application.Valid, List.Valid;
      if accept.Refused? {
        return null;
      }
      now := accept.time;
      var numOfClient := connectedClients.Size();
      if CLIENTS_LIMIT < numOfClient {
        return null;
      }
      masterFds, open := masterFds + {accept.sock}, open + {accept.sock};
      if accept.sock > maxSocket {
        maxSocket := accept.sock;
      }
      newClient := new ClientData(accept.sock);
      clients := clients + {newClient};
    }

    method AddClientToTheList(accept: Accept)
      requires Valid()
      modifies `masterFds, `maxSocket, `open, `now, `clients, connectedClients.Repr
      ensures Valid() && fresh(connectedClients.Repr - old(connectedClients.Repr)) && fresh(clients - old(clients))
      ensures View() == SelectLoop.AcceptClient(old(View()), accept)
      ensures var cs := old(Records(connectedClients.items));
              Records(connectedClients.items) ==
                if accept.Accepted? && |cs| <= 1000 then cs + [Client(accept.sock, accept.time + maxWaitTime)] else cs
    {
      hide A.Application.Valid;
      ghost var cs := Records(connectedClients.items);
      var newClient := AcceptClient(accept);
      if newClient != null {
        assert newClient !in connectedClients.items;
        UpdateTimeForClient(newClient, accept.time);
        assert Records(connectedClients.items) == cs;
        EnlistClient(newClient);
      }
    }

    /** The new client goes to the tail of the list. */
    method EnlistClient(client: ClientData)
      requires Valid() && client in clients && client !in connectedClients.items
      modifies connectedClients.Repr
      ensures Valid() && fresh(connectedClients.Repr - old(connectedClients.Repr))
      ensures Records(connectedClients.items) ==
              old(Records(connectedClients.items)) + [Client(client.clientSock, client.clientTimeout)]
    {
      hide A.Application.Valid;
      var res := connectedClients.PushTail(Some(client));
    }

    /** Closes the client under the iterator and takes it out of the list and the descriptor set. */
    method RemoveClientOnTimeout(client: ClientData, itr: Node<ClientData>) returns (next: Node<ClientData>)
      requires Valid() && connectedClients.items != [] && client == connectedClients.items[0]
      requires connectedClients.At(1, itr)
      modifies `masterFds, `open, connectedClients.Repr
      ensures Valid() && connectedClients.Repr == old(connectedClients.Repr)
      ensures Records(connectedClients.items) == old(Records(connectedClients.items))[1..]
      ensures connectedClients.At(1, next)
      ensures masterFds == old(masterFds) - {client.clientSock} && open == old(open) - {client.clientSock}
    {
      hide A.Application.Valid;
      open := open - {client.clientSock};
      next := DropClient(0, itr);
    }

    /** What ties the object to the moment of the expiry check when the first m of the clients cs are gone. */
    ghost predicate Expiring(cs: seq<Client>, m: nat, fds: set<int>, inUse: set<int>, itr: Node<ClientData>)
      requires m <= |cs|
      reads this, connectedClients, connectedClients.items
    {
      && Records(connectedClients.items) == cs[m..] && connectedClients.At(1, itr)
      && masterFds == fds - SockSet(cs[..m]) && open == inUse - SockSet(cs[..m])
    }

    /** The loop body of the expiry check; it goes on if it has removed the client under the iterator. */
    method ExpireTurn(time: int, ghost cs: seq<Client>, ghost m: nat, ghost fds: set<int>, ghost inUse: set<int>,
                      itr: Node<ClientData>) returns (next: Node<ClientData>, goOn: bool)
      requires Valid() && m <= ExpiredPrefix(cs, time) && Expiring(cs, m, fds, inUse, itr)
      requires !Equals(itr, connectedClients.tail)
      modifies `masterFds, `open, connectedClients.Repr
      ensures Valid() && connectedClients.Repr == old(connectedClients.Repr)
      ensures goOn <==> m < ExpiredPrefix(cs, time)
      ensures Expiring(cs, if goOn then m + 1 else m, fds, inUse, next)
    {
      hide A.Application.Valid;
      EndTestExact(connectedClients, 1);
      var client := Get(connectedClients, 1, itr).value;
      goOn := time > client.clientTimeout;
      if goOn {
        ExpireOne(cs, m, time, fds);
        ExpireOne(cs, m, time, inUse);
        next := RemoveClientOnTimeout(client, itr);
      } else {
        next := itr;
      }
    }

    /** Where the loop of the expiry check ends because no client is left. */
    lemma ExpiryEnds(time: int, cs: seq<Client>, m: nat, fds: set<int>, inUse: set<int>, itr: Node<ClientData>)
      requires Valid() && m <= ExpiredPrefix(cs, time) && Expiring(cs, m, fds, inUse, itr)
      requires Equals(itr, connectedClients.tail)
      ensures m == ExpiredPrefix(cs, time)
    {
      EndTestExact(connectedClients, 1);
    }

    /** The loop of the expiry check over the clients cs. */
    method ExpiryLoop(time: int, begin: Node<ClientData>, itrEnd: Node<ClientData>,
                      ghost cs: seq<Client>, ghost fds: set<int>, ghost inUse: set<int>)
      returns (ghost last: Node<ClientData>)
      requires Valid() && Expiring(cs, 0, fds, inUse, begin) && itrEnd == connectedClients.tail
      modifies `masterFds, `open, connectedClients.Repr
      ensures Valid() && connectedClients.Repr == old(connectedClients.Repr)
      ensures Expiring(cs, ExpiredPrefix(cs, time), fds, inUse, last)
    {
      hide A.Application.Valid, Valid, Expiring, ExpiredPrefix;
      ghost var m := 0;
      var goOn, itr := true, begin;
      while !Equals(itr, itrEnd)
        invariant Valid() && connectedClients.Repr == old(connectedClients.Repr)
        invariant m <= ExpiredPrefix(cs, time) && Expiring(cs, m, fds, inUse, itr)
        decreases |cs| - m
      {
        itr, goOn := ExpireTurn(time, cs, m, fds, inUse, itr);
        if !goOn {
          return itr;
        }
        m := m + 1;
      }
      ExpiryEnds(time, cs, m, fds, inUse, itr);
      return itr;
    }

    /** Removes clients from the head on until it meets one whose time is not up. */
    method CheckExpiryOfClients(time: int)
      requires Valid()
      modifies `masterFds, `open, `now, connectedClients.Repr
      ensures Valid() && connectedClients.Repr == old(connectedClients.Repr)
      ensures View() == ExpireClients(old(View()), time)
    {
      hide A.Application.Valid;
      ghost var cs, fds, inUse := Records(connectedClients.items), masterFds, open;
      now := time;
      ghost var last :=
        ExpiryLoop(time, Begin(connectedClients), End(connectedClients), cs, fds, inUse);
    }

    /** Accepts a connection if the master socket is ready. */
    method HandleMaster(t: Turn)
      requires Valid() && t.Activity? && forSelectFds == t.ready
      modifies `masterFds, `maxSocket, `open, `now, `clients, connectedClients.Repr
      ensures Valid() && fresh(connectedClients.Repr - old(connectedClients.Repr)) && fresh(clients - old(clients))
      ensures View() == AfterAccept(old(View()), t)
    {
      hide A.Application.Valid;
      if masterSocket in forSelectFds {
        AddClientToTheList(t.accept);
      }
    }

    /** Serves the ready clients, if any socket was counted. */
    method ServeActivity(t: Turn, ghost before: State)
      requires Valid() && t.Activity? && Readable(t.services) && View() == before
      requires forSelectFds == t.ready && activity == |t.ready|
      requires t.ready != {} && CountReady(before.clients, t.ready) <= |t.ready| <= |t.services|
      modifies `activity, `masterFds, `open, `now, connectedClients.Repr, clients, app.Repr
      ensures Valid() && fresh(connectedClients.Repr - old(connectedClients.Repr)) && fresh(app.Repr - old(app.Repr))
      ensures View() == ServeReady(before, t.ready, t.services)
    {
      hide A.Application.Valid, ServeReady, Valid;
      if 0 < activity {
        ReceiveAndSend(t.services);
      }
    }

    /** Select has reported some ready sockets: accept, then serve. */
    method HandleActivity(t: Turn)
      requires Valid() && t.Activity? && Counted(View(), t) && Readable(t.services)
      modifies this, connectedClients.Repr, clients, app.Repr
      ensures Valid() && fresh(connectedClients.Repr - old(connectedClients.Repr)) && fresh(clients - old(clients))
      ensures fresh(app.Repr - old(app.Repr))
      ensures View() == Step(old(View()), t)
    {
      hide A.Application.Valid, ServeReady, SelectLoop.AcceptClient, Readable, CountReady, Valid;
      ghost var s1 := AfterAccept(View(), t);
      forSelectFds, activity := t.ready, |t.ready|;
      HandleMaster(t);
      ServeActivity(t, s1);
    }

    /** One turn of the loop: wait in select, then expire, or accept and serve. */
    method TurnOfLoop(t: Turn)
      requires Valid() && Counted(View(), t) && (t.Activity? ==> Readable(t.services))
      modifies this, connectedClients.Repr, clients, app.Repr
      ensures Valid() && fresh(connectedClients.Repr - old(connectedClients.Repr)) && fresh(clients - old(clients))
      ensures fresh(app.Repr - old(app.Repr))
      ensures View() == Step(old(View()), t)
      ensures t.TimedOut? && Inv(old(View())) && t.time >= old(now) ==>
                var cs := old(Records(connectedClients.items));
                && Records(connectedClients.items) ==
                   (if cs == [] || cs[0].expiry >= t.time then cs else Live(cs, t.time))
                && masterFds == open == SockSet(Records(connectedClients.items)) + {masterSocket} && now == t.time
      ensures t.SelectFailed? ==> View() == old(View())
    {
      hide A.Application.Valid, Valid, Inv, ExpireClients, Live, SockSet, Counted, Readable;
      ghost var s := View();
      if t.TimedOut? && Inv(s) && t.time >= now {
        TimeoutExactly(s, t.time);
      }
      forSelectFds := masterFds;
      match t
      case SelectFailed =>
        activity := -1;
        assert View() == s;
      case TimedOut(time) =>
        activity := 0;
        assert View() == s;
        CheckExpiryOfClients(time);
      case Activity(_, _, _) =>
        assert View() == s;
        HandleActivity(t);
    }

    /**
     The loop runs until the stop signal comes, after the given turns. By then the database is as after serving the
     requests received, in the order of service, and each was answered as the database answers it at that point.
     */
    method RunServer(turns: seq<Turn>)
      requires Valid() && Initial(View()) && PossibleRun(View(), turns)
      requires forall i :: 0 <= i < |turns| && turns[i].Activity? ==> Readable(turns[i].services)
      modifies this, connectedClients.Repr, clients, app.Repr
      ensures Valid() && View() == Run(old(View()), turns) && Inv(View())
      ensures var reqs := A.Requests(Run(old(View()), turns).asked);
              && app.dataBase.Valid() && ChatState.Ready(app.start)
              && app.dataBase.View() == ChatState.After(app.start, reqs) && A.Told(app.told, app.start, reqs)
    {
      hide A.Application.Valid;
      ghost var start := View();
      RunKeepsInv(start, []);
      var i := 0;
      while i < |turns|
        invariant i <= |turns| && Valid() && Inv(View()) && View() == Run(start, turns[..i])
        invariant fresh(connectedClients.Repr - old(connectedClients.Repr)) && fresh(clients - old(clients))
        invariant fresh(app.Repr - old(app.Repr))
      {
        PossiblePrefix(start, turns, i);
        StepKeepsInv(View(), turns[i]);
        PossibleIsCounted(View(), turns[i]);
        TurnOfLoop(turns[i]);
        i := i + 1;
      }
      assert turns[..i] == turns;
      AppHistory(app);
    }
  }

  lemma AppHistory(app: A.Application)
    requires app.Valid()
    ensures app.dataBase.Valid() && ChatState.Ready(app.start)
    ensures app.dataBase.View() == ChatState.After(app.start, A.Requests(app.asked))
    ensures A.Told(app.told, app.start, A.Requests(app.asked))
  {
  }
}
