/**
 What the database of ServerDB/DataBase.c computes: one function per request on a state of users, groups and the
 address pool. Names are strings, and the hash maps of records are maps of values here; module DataBase proves this of
 the hash map objects and the records that are changed in place.
 */
module ChatState {
  import opened Options
  import opened Sequences
  import opened AddressPool

  const CONNECT := 1
  const DISCONNECT := 0

  datatype DBErr =
    | DBConnectSuccessfully
    | DBAlreadyConnected
    | DBWrongUserName
    | DBWrongPsw
    | DBGroupSuccessfullyInsert
    | DBGroupNameAlreadyExist
    | DBGroupNameNotExist
    | DBGroupJoinSuccessfully
    | DBGroupRemoveSuccessfully

  datatype User = User(status: int, psw: string, myGroups: map<string, string>)

  datatype Group = Group(numOfPartic: int, groupName: string, ipAddGroup: string)

  datatype DB = DB(users: map<string, User>, groups: map<string, Group>, pool: Pool)

  datatype Request =
    | Register(userName: string, password: string)
    | Login(userName: string, password: string)
    | Create(groupName: string, userName: string)
    | Join(groupName: string, userName: string)
    | Leave(groupName: string, userName: string)

  /** What the database tells the application; ip is None where the address buffer is not written. */
  datatype Outcome =
    | Registered(unique: bool)
    | LoggedIn(res: DBErr)
    | Grouped(res: DBErr, ip: Option<string>)

  ghost predicate Ready(db: DB) {
    db.pool.ring.head < |db.pool.ring.cells|
  }

  function DoRegister(db: DB, name: string, psw: string): (DB, bool) {
    if name in db.users then (db, false)
    else (db.(users := db.users[name := User(DISCONNECT, psw, map[])]), true)
  }

  /** A successful login allocates a new user record and drops it: the state stays as it was. */
  function DoLogin(db: DB, name: string, psw: string): DBErr {
    if name !in db.users then DBWrongUserName
    else if db.users[name].status == CONNECT then DBAlreadyConnected
    else if db.users[name].psw != psw then DBWrongPsw
    else DBConnectSuccessfully
  }

  /** The creator holds the group, if registered. */
  function AddToUser(users: map<string, User>, name: string, group: string): map<string, User> {
    if name !in users || group in users[name].myGroups then users
    else users[name := users[name].(myGroups := users[name].myGroups[group := group])]
  }

  function DoCreate(db: DB, group: string, user: string): (DB, DBErr, Option<string>)
    requires Ready(db)
  {
    if group in db.groups then (db, DBGroupNameAlreadyExist, None)
    else
      var (pool', addr) := db.pool.Get();
      var ip := match addr case Some(a) => a case None => "";
      (DB(AddToUser(db.users, user, group), db.groups[group := Group(1, group, ip)], pool'),
          DBGroupSuccessfullyInsert, addr)
  }

  function DoJoin(db: DB, group: string): (DB, DBErr, Option<string>) {
    if group !in db.groups then (db, DBGroupNameNotExist, None)
    else
      var value := db.groups[group];
      if value.groupName == group then
        (db.(groups := db.groups[group := value.(numOfPartic := value.numOfPartic + 1)]),
         DBGroupJoinSuccessfully, Some(value.ipAddGroup))
      else (db, DBGroupSuccessfullyInsert, None)
  }

  function DoLeave(db: DB, group: string, user: string): (DB, DBErr, Option<string>) {
    if user !in db.users || group !in db.users[user].myGroups then (db, DBGroupNameNotExist, None)
    else
      var users' := db.users[user := db.users[user].(myGroups := db.users[user].myGroups - {group})];
      if group in db.groups && db.groups[group].groupName == group then
        var value := db.groups[group];
        (DB(users', db.groups[group := value.(numOfPartic := value.numOfPartic - 1)], db.pool),
         DBGroupRemoveSuccessfully, Some(value.ipAddGroup))
      else (db.(users := users'), DBGroupRemoveSuccessfully, None)
  }

  function Serve(db: DB, req: Request): (r: (DB, Outcome))
    requires Ready(db)
    ensures Ready(r.0)
  {
    match req
    case Register(name, psw) => var (db', unique) := DoRegister(db, name, psw); (db', Registered(unique))
    case Login(name, psw) => (db, LoggedIn(DoLogin(db, name, psw)))
    case Create(group, user) => var (db', res, ip) := DoCreate(db, group, user); (db', Grouped(res, ip))
    case Join(group, user) => var (db', res, ip) := DoJoin(db, group); (db', Grouped(res, ip))
    case Leave(group, user) => var (db', res, ip) := DoLeave(db, group, user); (db', Grouped(res, ip))
  }

  ghost predicate Initial(db: DB) {
    db.users == map[] && db.groups == map[] && Filled(db.pool, CAPACITY)
  }

  /** The state after serving all the requests in order. */
  ghost function After(db: DB, reqs: seq<Request>): (r: DB)
    requires Ready(db)
    ensures Ready(r)
  {
    if reqs == [] then db else Serve(After(db, Front(reqs)), Last(reqs)).0
  }

  /** The answer to the next request. */
  ghost function Answer(db: DB, reqs: seq<Request>, next: Request): Outcome
    requires Ready(db)
  {
    Serve(After(db, reqs), next).1
  }
}
