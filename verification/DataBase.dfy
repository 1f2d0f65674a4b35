/**
 The database object of ServerDB/DataBase.c: hash maps of user and group records that are changed in place, and the
 address pool. Its methods are proved against the request functions of module ChatState.
 */
module DataBase {
  import opened Options
  import opened HashTable
  import opened PoolAddr
  import opened ChatState
  import opened DatabaseKeys
  import opened UserDatabase
  import opened GroupDatabase
  import AddressPool

  class ChatDataBase {
    const userDB: UsersDB
    const groupDB: GroupsDB
    const addIPPool: IPPoolAddr

    ghost var Repr: set<object>

    ghost function PoolRepr(): set<object> {
      {addIPPool, addIPPool.queueAddr, addIPPool.queueAddr.queueArray}
    }

    ghost predicate Valid()
      reads this, Repr
      ensures Valid() ==> this in Repr
    {
      && this in Repr && userDB in Repr && groupDB in Repr && userDB.Repr <= Repr && groupDB.Repr <= Repr
      && PoolRepr() <= Repr && this !in userDB.Repr && this !in groupDB.Repr && this !in PoolRepr()
      && userDB.Repr !! groupDB.Repr && userDB.Repr !! PoolRepr() && groupDB.Repr !! PoolRepr()
      && userDB.Valid() && groupDB.Valid() && addIPPool.Valid()
    }

    ghost function View(): (db: DB)
      requires Valid()
      reads this, Repr
      ensures Ready(db)
    {
      DB(userDB.book.users, groupDB.groups, addIPPool.View())
    }

    constructor ()
      ensures Valid() && fresh(Repr) && Initial(View())
    {
      hide UsersDB.Valid, GroupsDB.Valid, MapIs;
      userDB := new UsersDB();
      groupDB := new GroupsDB();
      addIPPool := new IPPoolAddr(AddressPool.CAPACITY);
      new;
      Repr := {this} + userDB.Repr + groupDB.Repr + PoolRepr();
    }

    /** Builds a record; only with status DISCONNECT does it reach the hash map. The result false is DB_INSERT_FAIL. */
    method InsertUserToList(userName: string, password: string, status: int) returns (ok: bool)
      requires Valid()
      modifies Repr
      ensures Valid() && fresh(Repr - old(Repr))
      ensures View() == if status == DISCONNECT then DoRegister(old(View()), userName, password).0 else old(View())
      ensures ok <==> status != DISCONNECT || userName !in old(View()).users
    {
      hide UsersDB.Valid, GroupsDB.Valid, MapIs, IPPoolAddr.Valid, IPPoolAddr.View;
      var value := new UserValue(status);
      ok := true;
      if status == DISCONNECT {
        value.psw := password;
        var myGroups := CreateMap<string>(USER_GROUPS_CAPACITY);
        value.myGroups := myGroups;
        var rcv := EnterUser(userName, value, User(status, password, map[]), {value} + myGroups.Repr);
        ok := rcv == MapSuccess;
      }
    }

    /** Inserts a new user record. */
    method EnterUser(userName: string, value: UserValue, ghost v: User, ghost foot: set<object>)
      returns (rcv: MapResult)
      requires Valid() && UserIs(value, v, foot) && foot !! Repr
      modifies Repr
      ensures Valid() && fresh(Repr - old(Repr) - foot)
      ensures userName in old(View()).users ==> rcv == MapKeyDuplicateError && View() == old(View())
      ensures userName !in old(View()).users ==>
                rcv == MapSuccess && View() == old(View()).(users := old(View()).users[userName := v])
    {
      hide UsersDB.Valid, GroupsDB.Valid, MapIs, UserIs, IPPoolAddr.Valid, IPPoolAddr.View;
      rcv := userDB.AddUser(userName, value, v, foot);
      Repr := Repr + userDB.Repr;
    }

    method IsUserNameUnique(userName: string, password: string) returns (unique: bool)
      requires Valid()
      modifies Repr
      ensures Valid() && fresh(Repr - old(Repr))
      ensures (View(), unique) == DoRegister(old(View()), userName, password)
    {
      hide UsersDB.Valid, GroupsDB.Valid, MapIs, UserIs, IPPoolAddr.Valid, IPPoolAddr.View;
      var found := userDB.FindUser(userName);
      if found == null {
        var res := InsertUserToList(userName, password, DISCONNECT);
        return true;
      }
      return false;
    }

    method CheckClientStatusAndConnect(userName: string, password: string) returns (res: DBErr)
      requires Valid()
      modifies Repr
      ensures Valid() && fresh(Repr - old(Repr))
      ensures View() == old(View()) && res == DoLogin(old(View()), userName, password)
    {
      hide UsersDB.Valid, GroupsDB.Valid, MapIs, IPPoolAddr.Valid, IPPoolAddr.View;
      var user := userDB.FindUser(userName);
      if user == null {
        return DBWrongUserName;
      }
      if user.status == CONNECT {
        return DBAlreadyConnected;
      }
      if user.psw != password {
        return DBWrongPsw;
      }
      var ok := InsertUserToList(userName, password, CONNECT);
      return DBConnectSuccessfully;
    }

    method UpdateGroupDetailsForUser(userName: string, groupToAdd: string)
      requires Valid()
      modifies Repr
      ensures Valid() && fresh(Repr - old(Repr))
      ensures View() == old(View()).(users := AddToUser(old(View()).users, userName, groupToAdd))
    {
      hide UsersDB.Valid, GroupsDB.Valid, MapIs, UserIs, IPPoolAddr.Valid, IPPoolAddr.View;
      var user := userDB.FindUser(userName);
      if user == null {
        return;
      }
      userDB.InsertGroup(userName, user, groupToAdd);
      Repr := Repr + userDB.Repr;
    }

    /** The insertion into the hash map succeeds, for the name was not found there. */
    method CheckGroupNameAndInsert(groupName: string, userName: string) returns (res: DBErr, ipAddress: Option<string>)
      requires Valid()
      modifies Repr
      ensures Valid() && fresh(Repr - old(Repr))
      ensures (View(), res, ipAddress) == DoCreate(old(View()), groupName, userName)
    {
      hide UsersDB.Valid, GroupsDB.Valid, MapIs, UserIs, IPPoolAddr.Valid, IPPoolAddr.View;
      var value := new GroupValue(groupName);
      var found := groupDB.FindGroup(groupName);
      if found != null {
        return DBGroupNameAlreadyExist, None;
      }
      ipAddress := addIPPool.GetIPAddress();
      value.ipAddGroup := match ipAddress case Some(a) => a case None => "";
      EnterGroup(groupName, value);
      UpdateGroupDetailsForUser(userName, groupName);
      return DBGroupSuccessfullyInsert, ipAddress;
    }

    /** Inserts a new group record. */
    method EnterGroup(groupName: string, value: GroupValue)
      requires Valid() && groupName !in View().groups && value !in Repr
      modifies Repr
      ensures Valid() && fresh(Repr - old(Repr) - {value})
      ensures var v := Group(old(value.numOfPartic), old(value.groupName), old(value.ipAddGroup));
              View() == old(View()).(groups := old(View()).groups[groupName := v])
    {
      hide UsersDB.Valid, GroupsDB.Valid, MapIs, UserIs, IPPoolAddr.Valid, IPPoolAddr.View;
      var inserted := groupDB.AddGroup(groupName, value);
      Repr := Repr + groupDB.Repr;
    }

    method TryToJoinToGroup(groupName: string) returns (res: DBErr, ipJoinGroup: Option<string>)
      requires Valid()
      modifies Repr
      ensures Valid() && fresh(Repr - old(Repr))
      ensures (View(), res, ipJoinGroup) == DoJoin(old(View()), groupName)
    {
      hide UsersDB.Valid, GroupsDB.Valid, MapIs, UserIs, IPPoolAddr.Valid, IPPoolAddr.View;
      var groupValue := groupDB.FindGroup(groupName);
      if groupValue == null {
        return DBGroupNameNotExist, None;
      }
      if groupName == groupValue.groupName {
        ipJoinGroup := Some(groupValue.ipAddGroup);
        groupDB.AddToCount(groupName, groupValue, 1);
        return DBGroupJoinSuccessfully, ipJoinGroup;
      }
      return DBGroupSuccessfullyInsert, None;
    }

    /** Removes a group from the user's own hash map. */
    method TakeGroup(userName: string, userLeave: UserValue, groupName: string) returns (removed: bool)
      requires Valid() && userName in View().users && userLeave == userDB.book.records[userName]
      modifies Repr
      ensures Valid() && fresh(Repr - old(Repr))
      ensures removed <==> groupName in old(View()).users[userName].myGroups
      ensures !removed ==> View() == old(View())
      ensures removed ==>
                var v := old(View()).users[userName];
                View() == old(View()).(users := old(View()).users[userName := v.(myGroups := v.myGroups - {groupName})])
    {
      hide UsersDB.Valid, GroupsDB.Valid, MapIs, UserIs, IPPoolAddr.Valid, IPPoolAddr.View;
      removed := userDB.RemoveGroup(userName, userLeave, groupName);
      Repr := Repr + userDB.Repr;
    }

    method TryToLeaveToGroup(groupName: string, userName: string) returns (res: DBErr, ipRemoveGroup: Option<string>)
      requires Valid()
      modifies Repr
      ensures Valid() && fresh(Repr - old(Repr))
      ensures (View(), res, ipRemoveGroup) == DoLeave(old(View()), groupName, userName)
    {
      hide UsersDB.Valid, GroupsDB.Valid, MapIs, UserIs, IPPoolAddr.Valid, IPPoolAddr.View;
      var userLeave := userDB.FindUser(userName);
      if userLeave == null {
        return DBGroupNameNotExist, None;
      }
      var removed := TakeGroup(userName, userLeave, groupName);
      if !removed {
        return DBGroupNameNotExist, None;
      }
      ipRemoveGroup := None;
      var groupValue := groupDB.FindGroup(groupName);
      if groupValue != null && groupName == groupValue.groupName {
        ipRemoveGroup := Some(groupValue.ipAddGroup);
        groupDB.AddToCount(groupName, groupValue, -1);
      }
      return DBGroupRemoveSuccessfully, ipRemoveGroup;
    }
  }
}
