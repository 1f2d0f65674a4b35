/**
 The groups of ServerDB/DataBase.c: a hash map from names to records whose participant counts change in place.
 */
module GroupDatabase {
  import opened HashTable
  import opened GenericHash
  import opened DatabaseKeys
  import opened ChatState

  class GroupValue {
    var numOfPartic: int
    var groupName: string
    var ipAddGroup: string

    constructor (groupName: string)
      ensures this.numOfPartic == 1 && this.groupName == groupName && this.ipAddGroup == ""
    {
      numOfPartic, this.groupName, ipAddGroup := 1, groupName, "";
    }
  }

  ghost predicate GroupIs(group: GroupValue, v: Group)
    reads group
  {
    group.numOfPartic == v.numOfPartic && group.groupName == v.groupName && group.ipAddGroup == v.ipAddGroup
  }

  lemma GroupHolds(group: GroupValue)
    ensures GroupIs(group, Group(group.numOfPartic, group.groupName, group.ipAddGroup))
  {
  }

  class GroupsDB {
    const groupNames: HashMap<string, GroupValue>

    // The record of each group and what it holds.
    ghost var records: map<string, GroupValue>
    ghost var groups: map<string, Group>
    ghost var Repr: set<object>

    ghost predicate Valid()
      reads this, Repr
      ensures Valid() ==> this in Repr
    {
      && this in Repr && groupNames in Repr && groupNames.Repr <= Repr && this !in groupNames.Repr
      && MapIs(groupNames, records)
      && records.Keys == groups.Keys
      && (forall g :: g in records ==> records[g] in Repr && records[g] !in groupNames.Repr)
      && (forall g :: g in records ==> GroupIs(records[g], groups[g]))
      && (forall f, g :: f in records && g in records && f != g ==> records[f] != records[g])
    }

    constructor ()
      ensures Valid() && fresh(Repr) && groups == map[]
    {
      var created := CreateMap<GroupValue>(CAPACITY);
      groupNames := created;
      records, groups := map[], map[];
      Repr := {this} + created.Repr;
    }

    method FindGroup(name: string) returns (group: GroupValue?)
      requires Valid()
      ensures group == null <==> name !in groups
      ensures group != null ==> group == records[name] && group in Repr && GroupIs(group, groups[name])
    {
      var found := FindIn(groupNames, records, name);
      match found
      case None => group := null;
      case Some(record) => group := record;
    }

    /** Puts a new record under a new name. */
    method AddGroup(name: string, group: GroupValue) returns (res: MapResult)
      requires Valid() && name !in groups && group !in Repr
      modifies Repr
      ensures Valid() && fresh(Repr - old(Repr) - {group}) && group in Repr && res == MapSuccess
      ensures groups == old(groups)[name := Group(group.numOfPartic, group.groupName, group.ipAddGroup)]
    {
      hide MapIs, GroupIs;
      ghost var v := Group(group.numOfPartic, group.groupName, group.ipAddGroup);
      GroupHolds(group);
      assert records[name := group].Keys == groups[name := v].Keys;
      res := InsertIn(groupNames, records, name, group);
      assert forall g :: g in records ==> GroupIs(records[g], groups[g]);
      records, groups, Repr := records[name := group], groups[name := v], Repr + groupNames.Repr + {group};
    }

    /** Adds to the count in the record, which stays where it is. */
    method AddToCount(name: string, group: GroupValue, n: int)
      requires Valid() && name in groups && group == records[name]
      modifies `groups, group`numOfPartic
      ensures Valid()
      ensures groups == old(groups)[name := old(groups)[name].(numOfPartic := old(groups)[name].numOfPartic + n)]
    {
      hide MapIs;
      group.numOfPartic := group.numOfPartic + n;
      groups := groups[name := groups[name].(numOfPartic := groups[name].numOfPartic + n)];
    }
  }
}
