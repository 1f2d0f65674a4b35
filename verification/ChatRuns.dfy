/**
 What holds of the chat database over every run: passwords, memberships, participant counts, addresses.
 */
module ChatRuns {
  import opened Options
  import opened Sequences
  import opened AddressPool
  import opened ChatState

  // ------------------------------------------------------------------------------------------------
  // The history of a run, read off its requests and answers alone

  /** The password of the first registration of the name. */
  ghost function FirstPassword(reqs: seq<Request>, name: string): Option<string> {
    if reqs == [] then None
    else if FirstPassword(Front(reqs), name).Some? then FirstPassword(Front(reqs), name)
    else if Last(reqs).Register? && Last(reqs).userName == name then Some(Last(reqs).password)
    else None
  }

  /** The names of the groups created, in the order of their creation. */
  ghost function Created(db: DB, reqs: seq<Request>): seq<string>
    requires Ready(db)
  {
    if reqs == [] then []
    else
      var before := Created(db, Front(reqs));
      if Last(reqs).Create? && Answer(db, Front(reqs), Last(reqs)).res == DBGroupSuccessfullyInsert
      then before + [Last(reqs).groupName] else before
  }

  /** How many joins of the group have succeeded. */
  ghost function Joins(db: DB, reqs: seq<Request>, group: string): nat
    requires Ready(db)
  {
    if reqs == [] then 0
    else
      Joins(db, Front(reqs), group) +
      if Last(reqs).Join? && Last(reqs).groupName == group
         && Answer(db, Front(reqs), Last(reqs)).res == DBGroupJoinSuccessfully then 1 else 0
  }

  /** How many leaves of the group have succeeded. */
  ghost function Leaves(db: DB, reqs: seq<Request>, group: string): nat
    requires Ready(db)
  {
    if reqs == [] then 0
    else
      Leaves(db, Front(reqs), group) +
      if Last(reqs).Leave? && Last(reqs).groupName == group
         && Answer(db, Front(reqs), Last(reqs)).res == DBGroupRemoveSuccessfully then 1 else 0
  }

  // ------------------------------------------------------------------------------------------------
  // The invariants

  ghost predicate Holds(db: DB, user: string, group: string) {
    user in db.users && group in db.users[user].myGroups
  }

  /** Users are those registered, with the first password given, and none is marked connected. */
  ghost predicate UsersOk(db: DB, reqs: seq<Request>) {
    && (forall u :: u in db.users <==> FirstPassword(reqs, u).Some?)
    && (forall u :: u in db.users ==> db.users[u].status == DISCONNECT)
    && (forall u :: u in db.users ==> db.users[u].psw == FirstPassword(reqs, u).value)
  }

  /** A held group exists and has one holder. */
  ghost predicate HoldersOk(db: DB) {
    && (forall u, g :: Holds(db, u, g) ==> g in db.groups)
    && (forall u, v, g :: Holds(db, u, g) && Holds(db, v, g) ==> u == v)
  }

  /** A group is left at most once, and not while it is held. */
  ghost predicate CountsOk(now: DB, db: DB, reqs: seq<Request>)
    requires Ready(db)
  {
    && (forall g :: g in now.groups ==> now.groups[g].numOfPartic == 1 + Joins(db, reqs, g) - Leaves(db, reqs, g))
    && (forall g :: Leaves(db, reqs, g) <= 1)
    && (forall u, g :: Holds(now, u, g) ==> Leaves(db, reqs, g) == 0)
    && (forall g :: g !in now.groups ==> Joins(db, reqs, g) == 0 && Leaves(db, reqs, g) == 0)
  }

  /** The groups are those created, each once, and the k-th has address k modulo 50. */
  ghost predicate Listed(groups: map<string, Group>, created: seq<string>) {
    && Distinct(created)
    && (forall g :: g in groups ==> g in created && groups[g].groupName == g)
    && (forall k :: 0 <= k < |created| ==> Addressed(groups, created[k], k))
  }

  ghost predicate Distinct(created: seq<string>) {
    forall i, j :: 0 <= i < j < |created| ==> created[i] != created[j]
  }

  /** The group exists and has the address of the k-th. */
  ghost predicate Addressed(groups: map<string, Group>, g: string, k: nat) {
    g in groups && groups[g].ipAddGroup == AddressAt(k % CAPACITY)
  }

  ghost predicate GroupsOk(db: DB, created: seq<string>) {
    Cycling(db.pool, |created|) && Listed(db.groups, created)
  }

  lemma UsersStep(db: DB, reqs: seq<Request>, next: Request)
    requires Ready(db) && UsersOk(db, reqs)
    ensures UsersOk(Serve(db, next).0, reqs + [next])
  {
    var all := reqs + [next];
    assert Front(all) == reqs && Last(all) == next;
    var db' := Serve(db, next).0;
    forall u
      ensures u in db'.users <==> FirstPassword(all, u).Some?
      ensures u in db'.users ==> db'.users[u].psw == FirstPassword(all, u).value && db'.users[u].status == DISCONNECT
    {
    }
  }

  lemma HoldersStep(db: DB, next: Request)
    requires Ready(db) && HoldersOk(db)
    ensures HoldersOk(Serve(db, next).0)
  {
    var db' := Serve(db, next).0;
    forall u, g | Holds(db', u, g)
      ensures Holds(db, u, g) || (next == Create(g, u) && g !in db.groups)
    {
    }
  }

  lemma GroupsStep(db: DB, created: seq<string>, next: Request)
    requires Ready(db) && GroupsOk(db, created) && HoldersOk(db)
    ensures var (db', out) := Serve(db, next);
            GroupsOk(db', if next.Create? && out.res == DBGroupSuccessfullyInsert
                          then created + [next.groupName] else created)
  {
    if next.Create? && next.groupName !in db.groups {
      CreateStep(db, created, next.groupName, next.userName);
    } else if (next.Join? || next.Leave?) && next.groupName in db.groups {
      CountChangeStep(db, created, next);
    }
  }

  lemma CountChangeStep(db: DB, created: seq<string>, next: Request)
    requires Ready(db) && GroupsOk(db, created) && (next.Join? || next.Leave?) && next.groupName in db.groups
    ensures GroupsOk(Serve(db, next).0, created)
  {
    hide AddressAt, Distinct;
    var value, db' := db.groups[next.groupName], Serve(db, next).0;
    if db'.groups != db.groups {
      var n := if next.Join? then value.numOfPartic + 1 else value.numOfPartic - 1;
      assert db'.groups == db.groups[next.groupName := value.(numOfPartic := n)];
      ListedKept(db.groups, created, value.(numOfPartic := n));
    }
  }

  lemma ListedKept(groups: map<string, Group>, created: seq<string>, value: Group)
    requires Listed(groups, created) && value.groupName in groups
    requires value.ipAddGroup == groups[value.groupName].ipAddGroup
    ensures Listed(groups[value.groupName := value], created)
  {
  }

  lemma CreateStep(db: DB, created: seq<string>, group: string, user: string)
    requires Ready(db) && GroupsOk(db, created) && group !in db.groups
    ensures GroupsOk(DoCreate(db, group, user).0, created + [group])
    ensures DoCreate(db, group, user).2 == Some(AddressAt(|created| % CAPACITY))
  {
    GetCycles(db.pool, |created|);
    ListedGrows(db.groups, created, Group(1, group, AddressAt(|created| % CAPACITY)));
  }

  lemma DistinctGrows(created: seq<string>, name: string)
    requires Distinct(created) && forall k :: 0 <= k < |created| ==> created[k] != name
    ensures Distinct(created + [name])
  {
  }

  lemma ListedGrows(groups: map<string, Group>, created: seq<string>, value: Group)
    requires Listed(groups, created) && value.groupName !in groups
    requires value.ipAddGroup == AddressAt(|created| % CAPACITY)
    ensures Listed(groups[value.groupName := value], created + [value.groupName])
  {
    var name, more := value.groupName, groups[value.groupName := value];
    var all := created + [name];
    forall k | 0 <= k < |created|
      ensures created[k] != name
    {
      assert Addressed(groups, created[k], k);
    }
    DistinctGrows(created, name);
    forall g | g in more
      ensures g in all && more[g].groupName == g
    {
      if g != name {
        var i :| 0 <= i < |created| && created[i] == g;
        assert all[i] == g;
      } else {
        assert all[|created|] == g;
      }
    }
    forall k | 0 <= k < |all|
      ensures Addressed(more, all[k], k)
    {
      if k < |created| {
        assert Addressed(groups, created[k], k);
      }
    }
  }

  /** How the counters of a group take one more request. */
  lemma CountersStep(db: DB, reqs: seq<Request>, next: Request, g: string)
    requires Ready(db)
    ensures var res := Answer(db, reqs, next);
            && Joins(db, reqs + [next], g) == Joins(db, reqs, g)
               + (if next.Join? && next.groupName == g && res.res == DBGroupJoinSuccessfully then 1 else 0)
            && Leaves(db, reqs + [next], g) == Leaves(db, reqs, g)
               + (if next.Leave? && next.groupName == g && res.res == DBGroupRemoveSuccessfully then 1 else 0)
  {
    assert Front(reqs + [next]) == reqs && Last(reqs + [next]) == next;
  }

  lemma CountsStep(now: DB, db: DB, reqs: seq<Request>, next: Request)
    requires Ready(db) && now == After(db, reqs)
    requires CountsOk(now, db, reqs) && HoldersOk(now) && forall g :: g in now.groups ==> now.groups[g].groupName == g
    ensures CountsOk(Serve(now, next).0, db, reqs + [next])
  {
    var all, now' := reqs + [next], Serve(now, next).0;
    forall g
      ensures Leaves(db, all, g) <= 1
      ensures g in now'.groups ==> now'.groups[g].numOfPartic == 1 + Joins(db, all, g) - Leaves(db, all, g)
      ensures g !in now'.groups ==> Joins(db, all, g) == 0 && Leaves(db, all, g) == 0
      ensures forall u :: Holds(now', u, g) ==> Leaves(db, all, g) == 0
    {
      CountersStep(db, reqs, next, g);
      GroupCountsStep(now, next, g, Leaves(db, reqs, g), Joins(db, reqs, g));
    }
  }

  /** The effect of one request on one group that has seen so many joins and leaves. */
  lemma GroupCountsStep(now: DB, next: Request, g: string, leaves: nat, joins: nat)
    requires Ready(now) && HoldersOk(now) && (g in now.groups ==> now.groups[g].groupName == g)
    requires leaves <= 1 && (forall u :: Holds(now, u, g) ==> leaves == 0)
    requires if g in now.groups then now.groups[g].numOfPartic == 1 + joins - leaves else joins == 0 && leaves == 0
    ensures var (now', res) := Serve(now, next);
            var joined := next.Join? && next.groupName == g && res.res == DBGroupJoinSuccessfully;
            var left := next.Leave? && next.groupName == g && res.res == DBGroupRemoveSuccessfully;
            var joins', leaves' := joins + if joined then 1 else 0, leaves + if left then 1 else 0;
            && leaves' <= 1
            && (forall u :: Holds(now', u, g) ==> leaves' == 0)
            && (if g in now'.groups then now'.groups[g].numOfPartic == 1 + joins' - leaves'
                else joins' == 0 && leaves' == 0)
  {
    var now' := Serve(now, next).0;
    if next.Leave? && next.groupName == g && Holds(now, next.userName, g) {
      forall u
        ensures !Holds(now', u, g)
      {
        assert Holds(now, u, g) ==> u == next.userName;
      }
    } else {
      forall u | Holds(now', u, g)
        ensures leaves == 0
      {
        assert Holds(now, u, g) || g !in now.groups;
      }
    }
  }

  // ------------------------------------------------------------------------------------------------
  // Every reachable state

  lemma {:induction false} RunInvariant(db: DB, reqs: seq<Request>)
    requires Initial(db)
    ensures UsersOk(After(db, reqs), reqs) && HoldersOk(After(db, reqs))
    ensures GroupsOk(After(db, reqs), Created(db, reqs)) && CountsOk(After(db, reqs), db, reqs)
    decreases |reqs|
  {
    if reqs == [] {
      FilledCycles(db.pool);
    } else {
      var before, next := Front(reqs), Last(reqs);
      assert reqs == before + [next];
      RunInvariant(db, before);
      var now := After(db, before);
      UsersStep(now, before, next);
      HoldersStep(now, next);
      GroupsStep(now, Created(db, before), next);
      CountsStep(now, db, before, next);
    }
  }

  /**
   Login answers by the first registration of the name alone. It leaves the state as it was, so nobody is ever
   connected and no login is ever turned away for that.
   */
  lemma {:induction false} LoginExact(db: DB, reqs: seq<Request>, name: string, psw: string)
    requires Initial(db)
    ensures Answer(db, reqs, Login(name, psw)) == LoggedIn(
      match FirstPassword(reqs, name)
      case None => DBWrongUserName
      case Some(first) => if first == psw then DBConnectSuccessfully else DBWrongPsw)
    ensures After(db, reqs + [Login(name, psw)]) == After(db, reqs)
  {
    RunInvariant(db, reqs);
    assert Front(reqs + [Login(name, psw)]) == reqs;
  }

  /** A name can be registered exactly once. */
  lemma {:induction false} RegisterExact(db: DB, reqs: seq<Request>, name: string, psw: string)
    requires Initial(db)
    ensures Answer(db, reqs, Register(name, psw)) == Registered(FirstPassword(reqs, name).None?)
  {
    RunInvariant(db, reqs);
  }

  ghost function HoldersOf(db: DB, g: string): (holders: set<string>)
    ensures forall u :: u in holders <==> Holds(db, u, g)
  {
    set u | u in db.users && g in db.users[u].myGroups
  }

  /** The participant count is exact and covers the holders; at most one leave ever succeeds. */
  lemma ParticipantsExact(db: DB, reqs: seq<Request>, g: string)
    requires Initial(db) && g in After(db, reqs).groups
    ensures After(db, reqs).groups[g].numOfPartic == 1 + Joins(db, reqs, g) - Leaves(db, reqs, g)
    ensures After(db, reqs).groups[g].numOfPartic >= |HoldersOf(After(db, reqs), g)| >= 0
    ensures Leaves(db, reqs, g) <= 1 && |HoldersOf(After(db, reqs), g)| <= 1
  {
    RunInvariant(db, reqs);
    var now := After(db, reqs);
    var holders := HoldersOf(now, g);
    if holders != {} {
      var u :| u in holders;
      assert holders == {u};
    }
  }

  /** Two groups share an address exactly when their numbers in the order of creation agree modulo 50. */
  lemma SharedAddressIff(db: DB, reqs: seq<Request>, i: nat, j: nat)
    requires Initial(db) && i < |Created(db, reqs)| && j < |Created(db, reqs)|
    ensures var created, groups := Created(db, reqs), After(db, reqs).groups;
            && created[i] in groups && created[j] in groups
            && (groups[created[i]].ipAddGroup == groups[created[j]].ipAddGroup <==> i % 50 == j % 50)
  {
    RunInvariant(db, reqs);
    AddressInjective(i % CAPACITY, j % CAPACITY);
  }

  /** A new group gets the next address of the pool, whether or not the pool has run out of unused ones. */
  lemma CreateExact(db: DB, reqs: seq<Request>, g: string, user: string)
    requires Initial(db)
    ensures Answer(db, reqs, Create(g, user)) ==
            if g in Created(db, reqs) then Grouped(DBGroupNameAlreadyExist, None)
            else Grouped(DBGroupSuccessfullyInsert, Some(AddressAt(|Created(db, reqs)| % 50)))
  {
    RunInvariant(db, reqs);
    if g !in Created(db, reqs) {
      CreateStep(After(db, reqs), Created(db, reqs), g, user);
    }
  }

  /** Joining succeeds exactly for the groups created, and tells the k-th of them its address. */
  lemma {:induction false} JoinExact(db: DB, reqs: seq<Request>, g: string, user: string)
    requires Initial(db)
    ensures g !in Created(db, reqs) ==> Answer(db, reqs, Join(g, user)) == Grouped(DBGroupNameNotExist, None)
    ensures forall k :: 0 <= k < |Created(db, reqs)| && Created(db, reqs)[k] == g ==>
              Answer(db, reqs, Join(g, user)) == Grouped(DBGroupJoinSuccessfully, Some(AddressAt(k % 50)))
  {
    RunInvariant(db, reqs);
    forall k | 0 <= k < |Created(db, reqs)| && Created(db, reqs)[k] == g
      ensures Answer(db, reqs, Join(g, user)) == Grouped(DBGroupJoinSuccessfully, Some(AddressAt(k % CAPACITY)))
    {
      assert Addressed(After(db, reqs).groups, g, k);
    }
  }

  /** A group never loses its address. */
  lemma {:induction false} AddressStays(db: DB, reqs: seq<Request>, more: seq<Request>, g: string)
    requires Initial(db) && g in After(db, reqs).groups
    ensures g in After(db, reqs + more).groups
    ensures After(db, reqs + more).groups[g].ipAddGroup == After(db, reqs).groups[g].ipAddGroup
    decreases |more|
  {
    if more == [] {
      assert reqs + more == reqs;
    } else {
      assert Front(reqs + more) == reqs + Front(more);
      AddressStays(db, reqs, Front(more), g);
    }
  }

  /** Whoever joins a group, at any later time, is told the address its creator was told. */
  lemma JoinGetsCreatorsAddress(db: DB, reqs: seq<Request>, more: seq<Request>, g: string, creator: string,
                                user: string)
    requires Initial(db) && g !in Created(db, reqs)
    ensures var told := Answer(db, reqs, Create(g, creator)).ip;
            && told.Some?
            && Answer(db, reqs + [Create(g, creator)] + more, Join(g, user)) == Grouped(DBGroupJoinSuccessfully, told)
  {
    var now := reqs + [Create(g, creator)];
    assert Front(now) == reqs && Last(now) == Create(g, creator);
    RunInvariant(db, reqs);
    CreateExact(db, reqs, g, creator);
    AddressStays(db, now, more, g);
    RunInvariant(db, now + more);
  }

  /** The user who may leave the group: its creator, if registered when creating it, until that one leave. */
  ghost function MayLeave(db: DB, reqs: seq<Request>, g: string): Option<string>
    requires Ready(db)
  {
    if reqs == [] then None
    else
      var before, next := Front(reqs), Last(reqs);
      if next.Create? && next.groupName == g && g !in Created(db, before) then
        if FirstPassword(before, next.userName).Some? then Some(next.userName) else None
      else if next.Leave? && next.groupName == g && MayLeave(db, before, g) == Some(next.userName) then None
      else MayLeave(db, before, g)
  }

  lemma {:induction false} HoldersExact(db: DB, reqs: seq<Request>, u: string, g: string)
    requires Initial(db)
    ensures Holds(After(db, reqs), u, g) <==> MayLeave(db, reqs, g) == Some(u)
    decreases |reqs|
  {
    if reqs != [] {
      var before, next := Front(reqs), Last(reqs);
      HoldersExact(db, before, u, g);
      RunInvariant(db, before);
      HolderStep(After(db, before), next, u, g);
    }
  }

  /** Who holds a group after one more request. */
  lemma HolderStep(now: DB, next: Request, u: string, g: string)
    requires Ready(now) && HoldersOk(now)
    ensures Holds(Serve(now, next).0, u, g) <==>
            if next.Create? && next.groupName == g && g !in now.groups then u == next.userName && u in now.users
            else if next.Leave? && next.groupName == g && next.userName == u then false
            else Holds(now, u, g)
  {
    assert Holds(now, u, g) ==> g in now.groups;
  }

  /** Leaving succeeds exactly for that user, who is then told the address of the group. */
  lemma LeaveExact(db: DB, reqs: seq<Request>, g: string, user: string)
    requires Initial(db)
    ensures var out := Answer(db, reqs, Leave(g, user));
            if MayLeave(db, reqs, g) == Some(user)
            then g in After(db, reqs).groups
                 && out == Grouped(DBGroupRemoveSuccessfully, Some(After(db, reqs).groups[g].ipAddGroup))
            else out == Grouped(DBGroupNameNotExist, None)
  {
    HoldersExact(db, reqs, user, g);
    RunInvariant(db, reqs);
    assert Holds(After(db, reqs), user, g) ==> g in After(db, reqs).groups;
  }

  // ------------------------------------------------------------------------------------------------
  // The history, read off the requests alone

  /** The first password is that of the first registration of the name. */
  lemma {:induction false} FirstPasswordIs(reqs: seq<Request>, name: string, psw: string)
    ensures FirstPassword(reqs, name) == Some(psw) <==>
            exists i :: 0 <= i < |reqs| && reqs[i] == Register(name, psw)
                        && forall j :: 0 <= j < i ==> !(reqs[j].Register? && reqs[j].userName == name)
    ensures FirstPassword(reqs, name) == None <==>
            forall j :: 0 <= j < |reqs| ==> !(reqs[j].Register? && reqs[j].userName == name)
  {
    if reqs != [] {
      var before := Front(reqs);
      FirstPasswordIs(before, name, psw);
      assert forall j :: 0 <= j < |before| ==> before[j] == reqs[j];
      if FirstPassword(before, name) == None && Last(reqs) == Register(name, psw) {
        assert reqs[|before|] == Register(name, psw);
      }
    }
  }

  /** A group is created by the first request to create it. */
  lemma {:induction false} CreatedIff(db: DB, reqs: seq<Request>, g: string)
    requires Initial(db)
    ensures g in Created(db, reqs) <==> exists i :: 0 <= i < |reqs| && reqs[i].Create? && reqs[i].groupName == g
    decreases |reqs|
  {
    if reqs != [] {
      var before, next := Front(reqs), Last(reqs);
      CreatedIff(db, before, g);
      assert forall j :: 0 <= j < |before| ==> before[j] == reqs[j];
      if next.Create? {
        CreateExact(db, before, next.groupName, next.userName);
        assert reqs[|before|] == next;
        CreatedKeeps(db, reqs, g);
      }
    }
  }

  lemma CreatedKeeps(db: DB, reqs: seq<Request>, g: string)
    requires Initial(db) && reqs != [] && Last(reqs).Create?
    ensures g in Created(db, reqs) <==> g in Created(db, Front(reqs)) || g == Last(reqs).groupName
  {
    CreateExact(db, Front(reqs), Last(reqs).groupName, Last(reqs).userName);
    var created, more := Created(db, Front(reqs)), Created(db, reqs);
    if Last(reqs).groupName !in created {
      assert more == created + [Last(reqs).groupName];
      assert more[|created|] == Last(reqs).groupName;
    }
  }

  /** So the groups come in the order of their first requests. */
  lemma CreatedGrows(db: DB, reqs: seq<Request>, next: Request)
    requires Initial(db)
    ensures Created(db, []) == []
    ensures Created(db, reqs + [next]) == Created(db, reqs) +
            if next.Create? && forall i :: 0 <= i < |reqs| ==> !(reqs[i].Create? && reqs[i].groupName == next.groupName)
            then [next.groupName] else []
  {
    FrontLastSnoc(reqs, next);
    if next.Create? {
      CreateExact(db, reqs, next.groupName, next.userName);
      CreatedIff(db, reqs, next.groupName);
    }
  }

  /** The joins that count are those of groups created before, the leaves those of the user who may leave. */
  lemma CountsGrow(db: DB, reqs: seq<Request>, next: Request, g: string)
    requires Initial(db)
    ensures Joins(db, [], g) == Leaves(db, [], g) == 0
    ensures Joins(db, reqs + [next], g) == Joins(db, reqs, g) +
            if next.Join? && next.groupName == g && g in Created(db, reqs) then 1 else 0
    ensures Leaves(db, reqs + [next], g) == Leaves(db, reqs, g) +
            if next.Leave? && next.groupName == g && MayLeave(db, reqs, g) == Some(next.userName) then 1 else 0
  {
    CountersStep(db, reqs, next, g);
    if next.Join? {
      JoinExact(db, reqs, next.groupName, next.userName);
    } else if next.Leave? {
      LeaveExact(db, reqs, next.groupName, next.userName);
    }
  }

  /** Request i creates the group for the user, who has registered before and has not left it since. */
  ghost predicate CreatorAt(reqs: seq<Request>, i: nat, g: string, user: string) {
    && i < |reqs| && reqs[i] == Create(g, user)
    && (forall j :: 0 <= j < i ==> !(reqs[j].Create? && reqs[j].groupName == g))
    && (exists j :: 0 <= j < i && reqs[j].Register? && reqs[j].userName == user)
    && (forall k :: i < k < |reqs| ==> reqs[k] != Leave(g, user))
  }

  lemma {:induction false} MayLeaveIff(db: DB, reqs: seq<Request>, g: string, user: string)
    requires Initial(db)
    ensures MayLeave(db, reqs, g) == Some(user) <==> exists i: nat :: CreatorAt(reqs, i, g, user)
    decreases |reqs|
  {
    if reqs != [] {
      var before, next := Front(reqs), Last(reqs);
      assert reqs == before + [next];
      MayLeaveIff(db, before, g, user);
      CreatedIff(db, before, g);
      FirstPasswordIs(before, user, "");
      if i: nat :| CreatorAt(before, i, g, user) && next != Leave(g, user) {
        assert CreatorAt(reqs, i, g, user);
      }
      if i: nat :| CreatorAt(reqs, i, g, user) && i < |before| {
        assert CreatorAt(before, i, g, user) && next == reqs[|before|];
      }
      if next == Create(g, user) && g !in Created(db, before) && FirstPassword(before, user).Some? {
        assert CreatorAt(reqs, |before|, g, user);
      }
    }
  }

  /** Leaving succeeds exactly for the registered creator of the group who has not left it yet. */
  lemma LeaveSucceedsIff(db: DB, reqs: seq<Request>, g: string, user: string)
    requires Initial(db)
    ensures var out := Answer(db, reqs, Leave(g, user));
            && out.Grouped? && (out.res == DBGroupRemoveSuccessfully <==> exists i: nat :: CreatorAt(reqs, i, g, user))
            && (out.res != DBGroupRemoveSuccessfully ==> out == Grouped(DBGroupNameNotExist, None))
  {
    LeaveExact(db, reqs, g, user);
    MayLeaveIff(db, reqs, g, user);
  }
}
