/**
 The registry itself: the ordered list of user records and the identifier
 counter that the server keeps as process-wide state, and the create, find,
 update and delete operations that the request handlers run on them once the
 request has been decoded. Each operation returns the outcome the handler
 turns into a response; a refused operation leaves the state as it was.
 */
module UserRegistry {
  import opened Email
  import opened Users

  class Registry {
    /** The records, in insertion order (also the order in which they are listed). */
    var users: seq<User>
    /** The identifier the next successful create assigns. */
    var currentID: int
    /** Every identifier a create has handed out, those of deleted records included. */
    ghost var issued: set<int>

    /** The list satisfies the registry invariant, every identifier handed out so far
        is below the counter, and every listed record carries one of them. */
    ghost predicate Valid()
      reads this
    {
      && Inv(users, currentID)
      && (forall x :: x in issued ==> x < currentID)
      && (forall k :: 0 <= k < |users| ==> users[k].id in issued)
    }

    /** The state the server starts with: no records, counter at 1. */
    constructor ()
      ensures users == [] && currentID == 1 && issued == {}
      ensures Valid()
    {
      users := [];
      currentID := 1;
      issued := {};
    }

    /** findUserByID: the position of the record with identifier id, or -1. */
    method FindUserByID(id: int) returns (idx: int)
      ensures idx == IndexOf(users, id)
      ensures -1 <= idx < |users|
      ensures idx >= 0 ==> users[idx].id == id
      ensures idx == -1 <==> forall k :: 0 <= k < |users| ==> users[k].id != id
    {
      var i := 0;
      while i < |users|
        invariant 0 <= i <= |users|
        invariant forall k :: 0 <= k < i ==> users[k].id != id
      {
        if users[i].id == id {
          return i;
        }
        i := i + 1;
      }
      return -1;
    }

    /** The conflict scan shared by create and update: the first record in list
        order that conflicts, and with what. */
    method ScanConflicts(q: Probe) returns (e: Option<Error>)
      ensures e == FirstClash(users, q)
    {
      var i := 0;
      while i < |users|
        invariant 0 <= i <= |users|
        invariant FirstClash(users, q) == FirstClash(users[i..], q)
      {
        assert users[i..][0] == users[i] && users[i..][1..] == users[i + 1..];
        var c := Clash(users[i], q);
        if c.Some? {
          return c;
        }
        i := i + 1;
      }
      return None;
    }

    /** createUser, after decoding: check the fields, the e-mail and the conflicts,
        then store the candidate under the next identifier with the given creation time. */
    method CreateUser(candidate: User, now: string) returns (r: Result<User>)
      modifies this
      ensures old(Valid()) ==> Valid()
      ensures CreateCheck(old(users), candidate).Some? ==>
                && r == Err(CreateCheck(old(users), candidate).value)
                && users == old(users) && currentID == old(currentID) && issued == old(issued)
      ensures CreateCheck(old(users), candidate).None? ==>
                && r == Ok(Stamp(candidate, old(currentID), now))
                && users == old(users) + [r.value] && currentID == old(currentID) + 1
                && issued == old(issued) + {r.value.id}
      ensures old(Valid()) && r.Ok? ==> forall x :: x in old(issued) ==> x < r.value.id
    {
      if candidate.username == "" || candidate.firstName == "" || candidate.lastName == ""
         || candidate.email == "" {
        return Err(MissingField);
      }
      if !IsEmailValid(candidate.email) {
        return Err(InvalidEmail);
      }
      var conflict := ScanConflicts(ForCreate(candidate));
      if conflict.Some? {
        return Err(conflict.value);
      }
      if Valid() {
        CreateKeepsInv(users, currentID, candidate, now);
      }
      var user := Stamp(candidate, currentID, now);
      currentID := currentID + 1;
      users := users + [user];
      issued := issued + {user.id};
      return Ok(user);
    }

    /** updateUser, after decoding: the record must exist, a non-empty e-mail must be
        well formed, and no other record may hold a non-empty patch username or
        e-mail; then every non-empty patch field overwrites the record's. */
    method UpdateUser(id: int, patch: User) returns (r: Result<User>)
      modifies this
      ensures old(Valid()) ==> Valid()
      ensures currentID == old(currentID) && issued == old(issued)
      ensures UpdateCheck(old(users), id, patch).Some? ==>
                r == Err(UpdateCheck(old(users), id, patch).value) && users == old(users)
      ensures UpdateCheck(old(users), id, patch).None? ==>
                var i := IndexOf(old(users), id);
                && 0 <= i < |old(users)|
                && r == Ok(Merge(old(users)[i], patch))
                && users == old(users)[i := r.value]
    {
      var idx := FindUserByID(id);
      if idx == -1 {
        return Err(NotFound);
      }
      if patch.email != "" && !IsEmailValid(patch.email) {
        return Err(InvalidEmail);
      }
      var conflict := ScanConflicts(ForUpdate(users[idx].id, patch));
      if conflict.Some? {
        return Err(conflict.value);
      }
      if Valid() {
        UpdateKeepsInv(users, currentID, id, patch);
      }
      var user := Merge(users[idx], patch);
      users := users[idx := user];
      return Ok(user);
    }

    /** deleteUser: remove the record with identifier id, keeping the others in order. */
    method DeleteUser(id: int) returns (r: Result<()>)
      modifies this
      ensures old(Valid()) ==> Valid()
      ensures currentID == old(currentID) && issued == old(issued)
      ensures IndexOf(old(users), id) == -1 ==> r == Err(NotFound) && users == old(users)
      ensures IndexOf(old(users), id) >= 0 ==>
                r == Ok(()) && users == RemoveAt(old(users), IndexOf(old(users), id))
    {
      var idx := FindUserByID(id);
      if idx == -1 {
        return Err(NotFound);
      }
      if Valid() {
        DeleteKeepsInv(users, currentID, id);
      }
      users := users[..idx] + users[idx + 1..];
      return Ok(());
    }
  }

  /** On a fresh registry: a create, the same create again, a delete of the new
      record, the same delete again, and the create once more. */
  method Walkthrough()
    returns (first: Result<User>, again: Result<User>, deleted: Result<()>,
             deletedAgain: Result<()>, recreated: Result<User>)
    ensures first == Ok(User(1, "alice", "Alice", "A", "alice@x.com", "t0"))
    ensures again == Err(DuplicateUsername)
    ensures deleted == Ok(())
    ensures deletedAgain == Err(NotFound)
    ensures recreated == Ok(User(2, "alice", "Alice", "A", "alice@x.com", "t2"))
  {
    var reg := new Registry();
    var alice := User(0, "alice", "Alice", "A", "alice@x.com", "");
    AliceAccepted();
    assert CreateCheck([], alice) == None;

    first := reg.CreateUser(alice, "t0");
    var stored := Stamp(alice, 1, "t0");
    assert reg.users == [stored] && reg.currentID == 2;

    RepeatedCreateFails([], 1, alice, "t0");
    again := reg.CreateUser(alice, "t1");
    assert reg.users == [stored];

    assert IndexOf([stored], 1) == 0;
    deleted := reg.DeleteUser(1);
    assert reg.users == [] by {
      assert RemoveAt([stored], 0) == [];
    }
    deletedAgain := reg.DeleteUser(1);

    recreated := reg.CreateUser(alice, "t2");
  }
}
