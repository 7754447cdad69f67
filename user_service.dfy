/**
 * `UserService`: an in-memory registry of users keyed by id, seeded with two
 * users, that hands out the id `size() + 1` to each user it creates.
 */
module UserServices {
  import opened Wrappers
  import opened JavaLang
  import opened Users

  const JOHN := User(1, "john.doe@example.com", "John Doe")
  const JANE := User(2, "jane.doe@example.com", "Jane Doe")

  /**
   * The registry invariant: the keys are exactly 1..n, where n is the number of
   * entries, and every user is stored under its own id.
   */
  ghost predicate DenseRegistry(m: map<Long, User>) {
    && (forall k: Long :: k in m <==> 1 <= k as int <= |m|)
    && (forall k :: k in m ==> m[k].id == k)
  }

  /** The map after `createUser` stores `u` under the next id. */
  ghost function Registered(m: map<Long, User>, email: string, name: string): (m': map<Long, User>)
    requires |m| < INT_MAX
  {
    m[(|m| + 1) as Long := User((|m| + 1) as Long, email, name)]
  }

  /** The next id is never a key of a dense registry: `createUser` never overwrites. */
  lemma NextIdIsFresh(m: map<Long, User>)
    requires DenseRegistry(m) && |m| < INT_MAX
    ensures (|m| + 1) as Long !in m
  {
  }

  /** Registering a user keeps the registry dense, grows it by one and keeps every old entry. */
  lemma RegisteredIsDense(m: map<Long, User>, email: string, name: string)
    requires DenseRegistry(m) && |m| < INT_MAX
    ensures |Registered(m, email, name)| == |m| + 1
    ensures DenseRegistry(Registered(m, email, name))
    ensures forall k :: k in m ==> k in Registered(m, email, name) && Registered(m, email, name)[k] == m[k]
  {
  }

  class UserService {
    var users: map<Long, User>

    ghost predicate Valid()
      reads this
    {
      DenseRegistry(users)
    }

    /** The seeding constructor: John Doe under 1, Jane Doe under 2. */
    constructor ()
      ensures Valid()
      ensures users == map[1 := JOHN, 2 := JANE]
    {
      users := map[];
      new;
      users := users[1 := JOHN];
      users := users[2 := JANE];
      assert users.Keys == {1, 2};
    }

    /** `findById`: the user stored under the id, or null; nothing changes. */
    method FindById(userId: Long) returns (r: Option<User>)
      ensures userId in users ==> r == Some(users[userId])
      ensures userId !in users ==> r == None
      ensures Valid() ==> (r.Some? <==> 1 <= userId as int <= |users|)
      ensures Valid() && r.Some? ==> r.value.id == userId
    {
      if userId in users {
        r := Some(users[userId]);
      } else {
        r := None;
      }
    }

    /**
     * `findAll`: a new list holding each stored user once per key. The order is
     * that of the map's iteration, which is not specified, so the loop takes the
     * remaining keys in an arbitrary order; `keys` records that order.
     */
    method FindAll() returns (all: seq<User>, ghost keys: seq<Long>)
      ensures |all| == |users|
      ensures |keys| == |all| && forall i :: 0 <= i < |keys| ==> keys[i] in users && all[i] == users[keys[i]]
      ensures forall i, j :: 0 <= i < j < |keys| ==> keys[i] != keys[j]
      ensures forall i :: 0 <= i < |all| ==> all[i] in users.Values
      ensures forall k :: k in users ==> users[k] in all
      ensures Valid() ==> forall i, j :: 0 <= i < j < |all| ==> all[i] != all[j]
    {
      all := [];
      var remaining := users.Keys;
      ghost var order: seq<Long> := [];
      while remaining != {}
        invariant remaining <= users.Keys
        invariant |order| == |all|
        invariant |order| + |remaining| == |users|
        invariant forall i :: 0 <= i < |order| ==> order[i] in users && all[i] == users[order[i]]
        invariant forall i :: 0 <= i < |order| ==> order[i] !in remaining
        invariant forall k :: k in users && k !in remaining ==> k in order
        invariant forall i, j :: 0 <= i < j < |order| ==> order[i] != order[j]
        decreases remaining
      {
        var k :| k in remaining;
        all := all + [users[k]];
        order := order + [k];
        remaining := remaining - {k};
      }
      forall k | k in users
        ensures users[k] in all
      {
        var i :| 0 <= i < |order| && order[i] == k;
        assert all[i] == users[k];
      }
      keys := order;
    }

    /**
     * `createUser`: builds `User(size() + 1, email, name)` and stores it. A null
     * email or name throws before the map is touched.
     */
    method CreateUser(email: Option<string>, name: Option<string>)
      returns (r: Result<User, NullPointerException>)
      requires Valid()
      requires |users| < INT_MAX
      modifies this
      ensures Valid()
      ensures email.None? ==> r == Err(NullPointerException(EMAIL_NULL)) && users == old(users)
      ensures email.Some? && name.None? ==> r == Err(NullPointerException(NAME_NULL)) && users == old(users)
      ensures email.Some? && name.Some? ==>
                && r == Ok(User((old(|users|) + 1) as Long, email.value, name.value))
                && users == Registered(old(users), email.value, name.value)
                && |users| == old(|users|) + 1
    {
      var id := (|users| + 1) as Long;
      var created := NewUser(Some(id), email, name);
      if created.Ok? {
        RegisteredIsDense(users, email.value, name.value);
        users := users[id := created.value];
      }
      r := created;
    }
  }

  /**
   * A caller's view: on a fresh service the seeded users are found, the first
   * created user gets id 3 and is found under it, and id 4 is still unknown.
   */
  method SeededServiceScenario() returns (first: Option<User>, created: Result<User, NullPointerException>,
                                         found: Option<User>, missing: Option<User>)
    ensures first == Some(JOHN)
    ensures created == Ok(User(3, "ann@example.com", "Ann"))
    ensures found == Some(created.value)
    ensures missing == None
  {
    var service := new UserService();
    first := service.FindById(1);
    created := service.CreateUser(Some("ann@example.com"), Some("Ann"));
    found := service.FindById(3);
    missing := service.FindById(4);
  }
}
