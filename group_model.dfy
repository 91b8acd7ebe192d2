/** The occupancy of a group: its students against its optional capacity. */
module GroupModel {
  import opened Wrappers
  import opened Records

  /** `current_capacity`: how many students are in the group. */
  function CurrentCapacity(users: map<Id, User>, group: Id): (n: nat)
    ensures n == |StudentsOfGroup(users, group)|
    ensures n <= |users.Keys|
  {
    var s := StudentsOfGroup(users, group);
    assert s <= users.Keys;
    SubsetCard(s, users.Keys);
    |s|
  }

  lemma SubsetCard<T>(a: set<T>, b: set<T>)
    requires a <= b
    ensures |a| <= |b|
  {
    assert b == a + (b - a);
  }

  /** `hasAvailableSpots`: a group without capacity is never full. */
  predicate HasAvailableSpots(users: map<Id, User>, g: Group)
  {
    g.capacity.None? || CurrentCapacity(users, g.id) < g.capacity.value
  }

  /** A new student placed in a group takes exactly one of its spots. */
  lemma JoiningTakesOneSpot(users: map<Id, User>, id: Id, u: User, group: Id)
    requires id !in users && u.role == Student && u.groupId == Some(group)
    ensures CurrentCapacity(users[id := u], group) == CurrentCapacity(users, group) + 1
  {
    assert StudentsOfGroup(users[id := u], group) == StudentsOfGroup(users, group) + {id};
  }

  /** Users outside the group (other group, or not students) do not change its occupancy. */
  lemma OutsiderLeavesOccupancy(users: map<Id, User>, id: Id, u: User, group: Id)
    requires id !in users && (u.role != Student || u.groupId != Some(group))
    ensures CurrentCapacity(users[id := u], group) == CurrentCapacity(users, group)
  {
    assert StudentsOfGroup(users[id := u], group) == StudentsOfGroup(users, group);
  }

  /** Admitting a student only while the group has a spot never takes it past its capacity. */
  lemma AdmitWithinCapacity(users: map<Id, User>, id: Id, u: User, g: Group)
    requires id !in users && u.role == Student && u.groupId == Some(g.id)
    requires HasAvailableSpots(users, g)
    ensures g.capacity.Some? ==> CurrentCapacity(users[id := u], g.id) <= g.capacity.value
  {
    JoiningTakesOneSpot(users, id, u, g.id);
  }
}
