/**
 The users of ServerDB/DataBase.c: a hash map from names to records, each of which has a hash map of groups of its own.
 */
module UserDatabase {
  import opened HashTable
  import opened GenericHash
  import opened DatabaseKeys
  import opened Footprints
  import opened ChatState

  class UserValue {
    var status: int
    var psw: string
    var myGroups: HashMap?<string, string>

    constructor (status: int)
      ensures this.status == status
    {
      this.status, psw, myGroups := status, "", null;
    }
  }

  /** The record and its hash map are made of the objects foot and hold the user v. */
  ghost predicate UserIs(user: UserValue, v: User, foot: set<object>)
    reads foot
  {
    && user in foot && user.myGroups != null && user.myGroups in foot && user.myGroups.Repr == foot - {user}
    && user.status == v.status && user.psw == v.psw && MapIs(user.myGroups, v.myGroups)
  }

  /** The record of each user, what it holds, and the objects it is made of. */
  datatype Book = Book(records: map<string, UserValue>, users: map<string, User>, feet: map<string, set<object>>) {
    ghost predicate SameNames() {
      records.Keys == users.Keys == feet.Keys
    }
  }

  /** Inserts the group into the hash map of one record, unless it is there already. */
  method InsertInto(user: UserValue, ghost v: User, ghost foot: set<object>, group: string)
    returns (ghost v': User, ghost foot': set<object>)
    requires UserIs(user, v, foot)
    modifies foot
    ensures UserIs(user, v', foot') && fresh(foot' - foot)
    ensures v' == if group in v.myGroups then v else v.(myGroups := v.myGroups[group := group])
  {
    hide MapIs;
    var res := InsertIn(user.myGroups, v.myGroups, group, group);
    v' := if group in v.myGroups then v else v.(myGroups := v.myGroups[group := group]);
    foot' := user.myGroups.Repr + {user};
  }

  /** Removes the group from the hash map of one record. */
  method TakeFrom(user: UserValue, ghost v: User, ghost foot: set<object>, group: string)
    returns (found: bool, ghost v': User, ghost foot': set<object>)
    requires UserIs(user, v, foot)
    modifies foot
    ensures UserIs(user, v', foot') && fresh(foot' - foot)
    ensures found <==> group in v.myGroups
    ensures v' == if found then v.(myGroups := v.myGroups - {group}) else v
  {
    hide MapIs;
    var item := RemoveFrom(user.myGroups, v.myGroups, group);
    found := item.Some?;
    v' := if found then v.(myGroups := v.myGroups - {group}) else v;
    foot' := user.myGroups.Repr + {user};
  }

  class UsersDB {
    const userNames: HashMap<string, UserValue>

    ghost var book: Book
    ghost var Repr: set<object>

    ghost predicate Valid()
      reads this, Repr
      ensures Valid() ==> this in Repr
    {
      && this in Repr && userNames in Repr && userNames.Repr <= Repr && this !in userNames.Repr
      && MapIs(userNames, book.records)
      && book.SameNames()
      && Separate(book.feet, {this} + userNames.Repr, Repr)
      && (forall n :: n in book.records ==> UserIs(book.records[n], book.users[n], book.feet[n]))
    }

    constructor ()
      ensures Valid() && fresh(Repr) && book.users == map[]
    {
      var created := CreateMap<UserValue>(CAPACITY);
      userNames := created;
      book := Book(map[], map[], map[]);
      Repr := {this} + created.Repr;
    }

    method FindUser(name: string) returns (user: UserValue?)
      requires Valid()
      ensures user == null <==> name !in book.users
      ensures user != null ==> user == book.records[name] && UserIs(user, book.users[name], book.feet[name])
    {
      var found := FindIn(userNames, book.records, name);
      match found
      case None => user := null;
      case Some(record) => user := record;
    }

    /** Puts a new record, with a hash map of its own, under the name, unless the name is taken. */
    method AddUser(name: string, user: UserValue, ghost v: User, ghost foot: set<object>) returns (res: MapResult)
      requires Valid() && UserIs(user, v, foot) && foot !! Repr
      modifies Repr
      ensures Valid() && fresh(Repr - old(Repr) - foot)
      ensures name in old(book.users) ==> res == MapKeyDuplicateError && book.users == old(book.users)
      ensures name !in old(book.users) ==> res == MapSuccess && book.users == old(book.users)[name := v]
    {
      hide MapIs, UserIs;
      ghost var own := {this} + userNames.Repr;
      res := InsertIn(userNames, book.records, name, user);
      OwnGrows(book.feet, own, Repr, {this} + userNames.Repr);
      assert forall n :: n in book.records ==> UserIs(book.records[n], book.users[n], book.feet[n]);
      if name in book.users {
        Repr := Repr + ({this} + userNames.Repr);
      } else {
        Enter(name, user, v, foot);
      }
    }

    /** Books a new user, whose record is in the hash map already. */
    ghost method Enter(name: string, user: UserValue, v: User, foot: set<object>)
      requires name !in book.records && book.SameNames()
      requires this in Repr && userNames in Repr && this !in userNames.Repr
          && MapIs(userNames, book.records[name := user])
      requires Separate(book.feet, {this} + userNames.Repr, Repr + ({this} + userNames.Repr))
      requires UserIs(user, v, foot) && foot !! Repr + ({this} + userNames.Repr)
      requires forall n :: n in book.records ==> UserIs(book.records[n], book.users[n], book.feet[n])
      modifies `book, `Repr
      ensures Valid() && Repr == old(Repr) + userNames.Repr + foot
      ensures book.users == old(book.users)[name := v]
    {
      hide MapIs, UserIs;
      SeparateGrows(book.feet, {this} + userNames.Repr, Repr + ({this} + userNames.Repr), name, foot);
      book := Book(book.records[name := user], book.users[name := v], book.feet[name := foot]);
      Repr := Repr + userNames.Repr + foot;
      assert Repr == old(Repr) + ({this} + userNames.Repr) + foot;
    }

    /** Books what the record of one user has become. */
    ghost method Record(name: string, v: User, foot: set<object>)
      requires name in book.records && book.SameNames()
      requires this in Repr && userNames in Repr && userNames.Repr <= Repr && this !in userNames.Repr
      requires MapIs(userNames, book.records) && Separate(book.feet, {this} + userNames.Repr, Repr)
      requires UserIs(book.records[name], v, foot) && foot - book.feet[name] !! Repr
      requires forall n :: n in book.records && n != name ==> UserIs(book.records[n], book.users[n], book.feet[n])
      modifies `book, `Repr
      ensures Valid() && Repr == old(Repr) + foot
      ensures book.users == old(book.users)[name := v]
    {
      hide MapIs, UserIs;
      SeparateGrows(book.feet, {this} + userNames.Repr, Repr, name, foot);
      var next := Book(book.records, book.users[name := v], book.feet[name := foot]);
      assert forall n :: n in next.records ==> UserIs(next.records[n], next.users[n], next.feet[n]);
      assert next.SameNames();
      book, Repr := next, Repr + foot;
    }

    /** Inserts the group into the hash map of the user's record, unless it is there already. */
    method InsertGroup(name: string, user: UserValue, group: string)
      requires Valid() && name in book.users && user == book.records[name]
      modifies Repr
      ensures Valid() && fresh(Repr - old(Repr))
      ensures book.users == AddToUser(old(book.users), name, group)
    {
      hide MapIs, UserIs;
      ghost var v, foot := InsertInto(user, book.users[name], book.feet[name], group);
      assert forall n :: n in book.records && n != name ==> UserIs(book.records[n], book.users[n], book.feet[n]);
      Record(name, v, foot);
    }

    /** Removes the group from the hash map of the user's record. */
    method RemoveGroup(name: string, user: UserValue, group: string) returns (found: bool)
      requires Valid() && name in book.users && user == book.records[name]
      modifies Repr
      ensures Valid() && fresh(Repr - old(Repr))
      ensures found <==> group in old(book.users)[name].myGroups
      ensures !found ==> book.users == old(book.users)
      ensures found ==>
                var v := old(book.users)[name];
                book.users == old(book.users)[name := v.(myGroups := v.myGroups - {group})]
    {
      hide MapIs, UserIs;
      ghost var v, foot;
      found, v, foot := TakeFrom(user, book.users[name], book.feet[name], group);
      assert forall n :: n in book.records && n != name ==> UserIs(book.records[n], book.users[n], book.feet[n]);
      Record(name, v, foot);
    }
  }
}
