/**
 The user records of the registry and the pure rules that decide what each
 registry operation does: which records conflict with a new or changed one,
 where a record with a given identifier sits, how an update patch is merged,
 and the invariant every reachable registry state satisfies. The class in
 registry.dfy is proved to follow these rules; the lemmas here prove what
 the rules guarantee.
 */
module Users {
  import opened Email

  /** One record: the Go struct User. */
  datatype User = User(
    id: int,
    username: string,
    firstName: string,
    lastName: string,
    email: string,
    timeCreate: string)

  /** Why an operation was refused. */
  datatype Error = MissingField | InvalidEmail | DuplicateUsername | DuplicateEmail | NotFound

  datatype Option<T> = None | Some(value: T)

  datatype Result<T> = Ok(value: T) | Err(error: Error)

  // ---------------------------------------------------------------------------
  // Lookup by identifier

  /** The position of the first record with identifier id, or -1 when there is none. */
  function IndexOf(us: seq<User>, id: int): (r: int)
    ensures -1 <= r < |us|
    ensures r >= 0 ==> us[r].id == id && forall k :: 0 <= k < r ==> us[k].id != id
    ensures r == -1 <==> forall k :: 0 <= k < |us| ==> us[k].id != id
    decreases |us|
  {
    if us == [] then -1
    else if us[0].id == id then 0
    else
      var r := IndexOf(us[1..], id);
      assert forall k :: 1 <= k < |us| ==> us[k] == us[1..][k - 1];
      if r < 0 then -1 else r + 1
  }

  // ---------------------------------------------------------------------------
  // Conflict scans

  /** What a scan is looking for: conflicts with a record about to be created,
      or with the patch of an update of the record whose identifier is selfID. */
  datatype Probe = ForCreate(candidate: User) | ForUpdate(selfID: int, patch: User)

  /** The conflict one existing record u raises; the username is compared before the email.
      An update never compares a record against itself, and an empty patch field
      conflicts with nothing. */
  function Clash(u: User, q: Probe): Option<Error> {
    match q
    case ForCreate(c) =>
      if u.username == c.username then Some(DuplicateUsername)
      else if u.email == c.email then Some(DuplicateEmail)
      else None
    case ForUpdate(self, p) =>
      if u.id != self && p.username != "" && u.username == p.username then Some(DuplicateUsername)
      else if u.id != self && p.email != "" && u.email == p.email then Some(DuplicateEmail)
      else None
  }

  /** The scan over the records in list order, stopping at the first conflict. */
  function FirstClash(us: seq<User>, q: Probe): Option<Error>
    decreases |us|
  {
    if us == [] then None
    else if Clash(us[0], q).Some? then Clash(us[0], q)
    else FirstClash(us[1..], q)
  }

  /** The scan finds nothing exactly when no record conflicts, and otherwise reports
      the conflict of the first record in list order that has one. */
  lemma {:induction false} FirstClashIsFirst(us: seq<User>, q: Probe)
    ensures FirstClash(us, q) == None <==> forall k :: 0 <= k < |us| ==> Clash(us[k], q) == None
    ensures FirstClash(us, q) != None ==>
              exists k :: 0 <= k < |us| && FirstClash(us, q) == Clash(us[k], q)
                          && forall j :: 0 <= j < k ==> Clash(us[j], q) == None
    decreases |us|
  {
    if us != [] {
      FirstClashIsFirst(us[1..], q);
      assert forall k :: 1 <= k < |us| ==> us[k] == us[1..][k - 1];
      if Clash(us[0], q) == None && FirstClash(us[1..], q) != None {
        var k :| 0 <= k < |us[1..]| && FirstClash(us[1..], q) == Clash(us[1..][k], q)
                 && forall j :: 0 <= j < k ==> Clash(us[1..][j], q) == None;
        assert FirstClash(us, q) == Clash(us[k + 1], q);
      }
    }
  }

  /** Scanning a list with one more record at the end. */
  lemma {:induction false} FirstClashAppend(us: seq<User>, u: User, q: Probe)
    ensures FirstClash(us + [u], q) == if FirstClash(us, q).Some? then FirstClash(us, q) else Clash(u, q)
    decreases |us|
  {
    if us == [] {
      assert (us + [u])[1..] == [];
    } else {
      assert (us + [u])[0] == us[0];
      assert (us + [u])[1..] == us[1..] + [u];
      FirstClashAppend(us[1..], u, q);
    }
  }

  // ---------------------------------------------------------------------------
  // Create

  /** The outcome of the checks of a create, in the order they are made:
      required fields, e-mail shape, then the conflict scan. */
  function CreateCheck(us: seq<User>, c: User): Option<Error> {
    if c.username == "" || c.firstName == "" || c.lastName == "" || c.email == "" then Some(MissingField)
    else if !IsEmailValid(c.email) then Some(InvalidEmail)
    else FirstClash(us, ForCreate(c))
  }

  /** The record a successful create stores: the candidate's four fields with the
      assigned identifier and creation time. The stored record passes the field
      checks exactly when the candidate did, and it conflicts with any other
      record, in either direction of a create scan, exactly as the candidate does. */
  function Stamp(c: User, id: int, now: string): (u: User)
    ensures u.id == id && u.timeCreate == now
    ensures WellFormedUser(u) <==> WellFormedUser(c)
    ensures forall x :: Clash(x, ForCreate(u)) == Clash(x, ForCreate(c))
    ensures forall x :: Clash(u, ForCreate(x)) == Clash(c, ForCreate(x))
  {
    c.(id := id, timeCreate := now)
  }

  // ---------------------------------------------------------------------------
  // Update

  /** The outcome of the checks of an update, in the order they are made: the record
      must exist, a non-empty e-mail must be well formed, then the conflict scan
      against every other record. */
  function UpdateCheck(us: seq<User>, id: int, p: User): Option<Error> {
    var i := IndexOf(us, id);
    if i < 0 then Some(NotFound)
    else if p.email != "" && !IsEmailValid(p.email) then Some(InvalidEmail)
    else FirstClash(us, ForUpdate(us[i].id, p))
  }

  /** The record after an update: every non-empty patch field overwrites; the
      identifier and the creation time are never touched. */
  function Merge(u: User, p: User): User {
    User(
      u.id,
      if p.username != "" then p.username else u.username,
      if p.firstName != "" then p.firstName else u.firstName,
      if p.lastName != "" then p.lastName else u.lastName,
      if p.email != "" then p.email else u.email,
      u.timeCreate)
  }

  // ---------------------------------------------------------------------------
  // Delete

  /** The list without its i-th record, the others in their old order. */
  function RemoveAt(us: seq<User>, i: int): (r: seq<User>)
    requires 0 <= i < |us|
    ensures |r| == |us| - 1
    ensures forall k :: 0 <= k < i ==> r[k] == us[k]
    ensures forall k :: i <= k < |r| ==> r[k] == us[k + 1]
  {
    us[..i] + us[i + 1..]
  }

  // ---------------------------------------------------------------------------
  // The registry invariant

  /** A record that passed the checks of a create. */
  ghost predicate WellFormedUser(u: User) {
    u.username != "" && u.firstName != "" && u.lastName != "" && IsEmailValid(u.email)
  }

  /** Every record is well formed and has an identifier in [1, next); identifiers
      increase in list order; no two records share a username or an e-mail. */
  ghost predicate Inv(us: seq<User>, next: int) {
    && 1 <= next
    && (forall k :: 0 <= k < |us| ==> WellFormedUser(us[k]) && 1 <= us[k].id < next)
    && (forall i, j :: 0 <= i < j < |us| ==>
          us[i].id < us[j].id && us[i].username != us[j].username && us[i].email != us[j].email)
  }

  // ---------------------------------------------------------------------------
  // What the rules guarantee: create

  /** A create is accepted exactly when all four fields are present, the e-mail is
      well formed, and no record has the same username or the same e-mail. */
  lemma CreateAcceptedIff(us: seq<User>, c: User)
    ensures CreateCheck(us, c) == None <==>
              && c.username != "" && c.firstName != "" && c.lastName != "" && c.email != ""
              && IsEmailValid(c.email)
              && forall k :: 0 <= k < |us| ==> us[k].username != c.username && us[k].email != c.email
  {
    FirstClashIsFirst(us, ForCreate(c));
    if FirstClash(us, ForCreate(c)) == None {
      assert forall k :: 0 <= k < |us| ==> Clash(us[k], ForCreate(c)) == None;
    }
  }

  /** A refused create reports the conflict of the first conflicting record in list
      order, the username being checked before the e-mail within that record. */
  lemma CreateReportsFirstConflict(us: seq<User>, c: User, k: int)
    requires c.username != "" && c.firstName != "" && c.lastName != "" && IsEmailValid(c.email)
    requires 0 <= k < |us| && (us[k].username == c.username || us[k].email == c.email)
    requires forall j :: 0 <= j < k ==> us[j].username != c.username && us[j].email != c.email
    ensures CreateCheck(us, c) ==
              if us[k].username == c.username then Some(DuplicateUsername) else Some(DuplicateEmail)
  {
    var q := ForCreate(c);
    FirstClashIsFirst(us, q);
    assert Clash(us[k], q) != None;
    var m :| 0 <= m < |us| && FirstClash(us, q) == Clash(us[m], q)
             && forall j :: 0 <= j < m ==> Clash(us[j], q) == None;
  }

  /** A successful create keeps the invariant; the new identifier exceeds every
      identifier in the list, and the counter moves past it. */
  lemma CreateKeepsInv(us: seq<User>, next: int, c: User, now: string)
    requires Inv(us, next)
    requires CreateCheck(us, c) == None
    ensures Inv(us + [Stamp(c, next, now)], next + 1)
    ensures forall k :: 0 <= k < |us| ==> us[k].id < Stamp(c, next, now).id
  {
    CreateAcceptedIff(us, c);
    var u := Stamp(c, next, now);
    var us' := us + [u];
    forall i, j | 0 <= i < j < |us'|
      ensures us'[i].id < us'[j].id && us'[i].username != us'[j].username && us'[i].email != us'[j].email
    {
      if j == |us| {
        assert us'[i] == us[i] && us'[j] == u;
      } else {
        assert us'[i] == us[i] && us'[j] == us[j];
      }
    }
    forall k | 0 <= k < |us'| ensures WellFormedUser(us'[k]) && 1 <= us'[k].id < next + 1 {
      if k < |us| {
        assert us'[k] == us[k];
      }
    }
  }

  /** After a successful create the stored record appears exactly once in the list,
      at the end, after all the records that were there before. */
  lemma CreatedAppearsOnce(us: seq<User>, next: int, c: User, now: string)
    requires CreateCheck(us, c) == None
    ensures var us' := us + [Stamp(c, next, now)];
            forall k :: 0 <= k < |us'| ==> (us'[k] == Stamp(c, next, now) <==> k == |us|)
  {
    CreateAcceptedIff(us, c);
    var us' := us + [Stamp(c, next, now)];
    forall k | 0 <= k < |us| ensures us'[k] != Stamp(c, next, now) {
      assert us'[k] == us[k];
    }
  }

  /** Sending the same create a second time is refused with DuplicateUsername. */
  lemma RepeatedCreateFails(us: seq<User>, next: int, c: User, now: string)
    requires CreateCheck(us, c) == None
    ensures CreateCheck(us + [Stamp(c, next, now)], c) == Some(DuplicateUsername)
  {
    FirstClashAppend(us, Stamp(c, next, now), ForCreate(c));
  }

  /** A second create with a username already taken is refused: with DuplicateUsername,
      unless an earlier record already conflicts with it. */
  lemma CreateWithTakenUsernameFails(us: seq<User>, next: int, c: User, now: string, c2: User)
    requires CreateCheck(us, c) == None
    requires c2.username == c.username
    requires c2.firstName != "" && c2.lastName != "" && IsEmailValid(c2.email)
    ensures CreateCheck(us + [Stamp(c, next, now)], c2) in {Some(DuplicateUsername), Some(DuplicateEmail)}
    ensures CreateCheck(us, c2) == None ==>
              CreateCheck(us + [Stamp(c, next, now)], c2) == Some(DuplicateUsername)
  {
    FirstClashAppend(us, Stamp(c, next, now), ForCreate(c2));
    FirstClashIsFirst(us, ForCreate(c2));
    if FirstClash(us, ForCreate(c2)) != None {
      var k :| 0 <= k < |us| && FirstClash(us, ForCreate(c2)) == Clash(us[k], ForCreate(c2));
    }
  }

  /** A second create with an e-mail already taken (and a different username) is
      refused: with DuplicateEmail, unless an earlier record already conflicts with it. */
  lemma CreateWithTakenEmailFails(us: seq<User>, next: int, c: User, now: string, c2: User)
    requires CreateCheck(us, c) == None
    requires c2.email == c.email && c2.username != c.username
    requires c2.username != "" && c2.firstName != "" && c2.lastName != ""
    ensures CreateCheck(us + [Stamp(c, next, now)], c2) in {Some(DuplicateUsername), Some(DuplicateEmail)}
    ensures CreateCheck(us, c2) == None ==>
              CreateCheck(us + [Stamp(c, next, now)], c2) == Some(DuplicateEmail)
  {
    FirstClashAppend(us, Stamp(c, next, now), ForCreate(c2));
    FirstClashIsFirst(us, ForCreate(c2));
    if FirstClash(us, ForCreate(c2)) != None {
      var k :| 0 <= k < |us| && FirstClash(us, ForCreate(c2)) == Clash(us[k], ForCreate(c2));
    }
  }

  // ---------------------------------------------------------------------------
  // What the rules guarantee: update

  /** An update is accepted exactly when the record exists, a non-empty e-mail is well
      formed, and no OTHER record holds a non-empty patch username or e-mail. */
  lemma UpdateAcceptedIff(us: seq<User>, id: int, p: User)
    ensures UpdateCheck(us, id, p) == None <==>
              && IndexOf(us, id) >= 0
              && (p.email != "" ==> IsEmailValid(p.email))
              && forall k :: 0 <= k < |us| && us[k].id != id ==>
                   (p.username == "" || us[k].username != p.username)
                   && (p.email == "" || us[k].email != p.email)
  {
    var i := IndexOf(us, id);
    if i >= 0 {
      var q := ForUpdate(us[i].id, p);
      FirstClashIsFirst(us, q);
      if FirstClash(us, q) == None {
        assert forall k :: 0 <= k < |us| ==> Clash(us[k], q) == None;
      }
    }
  }

  /** Resubmitting a record's own values never conflicts: a record is not compared
      against itself. */
  lemma UpdateWithOwnValuesAccepted(us: seq<User>, next: int, id: int, p: User)
    requires Inv(us, next)
    requires IndexOf(us, id) >= 0
    requires var u := us[IndexOf(us, id)];
             p.username == u.username && p.firstName == u.firstName
             && p.lastName == u.lastName && p.email == u.email
    ensures UpdateCheck(us, id, p) == None
  {
    var i := IndexOf(us, id);
    UpdateAcceptedIff(us, id, p);
    assert WellFormedUser(us[i]);
    forall k | 0 <= k < |us| && us[k].id != id
      ensures us[k].username != p.username && us[k].email != p.email
    {
      assert k != i;
      if k < i {
        assert us[k].username != us[i].username && us[k].email != us[i].email;
      } else {
        assert us[i].username != us[k].username && us[i].email != us[k].email;
      }
    }
  }

  /** An all-empty patch leaves the record exactly as it was. */
  lemma MergeEmptyPatch(u: User, id: int, now: string)
    ensures Merge(u, User(id, "", "", "", "", now)) == u
  {
  }

  /** Applying the same patch twice is the same as applying it once. */
  lemma MergeIdempotent(u: User, p: User)
    ensures Merge(Merge(u, p), p) == Merge(u, p)
  {
  }

  /** A successful update keeps the invariant. */
  lemma UpdateKeepsInv(us: seq<User>, next: int, id: int, p: User)
    requires Inv(us, next)
    requires UpdateCheck(us, id, p) == None
    ensures IndexOf(us, id) >= 0
    ensures Inv(us[IndexOf(us, id) := Merge(us[IndexOf(us, id)], p)], next)
  {
    UpdateAcceptedIff(us, id, p);
    var i := IndexOf(us, id);
    var m := Merge(us[i], p);
    var us' := us[i := m];
    assert WellFormedUser(us[i]);
    forall a, b | 0 <= a < b < |us'|
      ensures us'[a].id < us'[b].id && us'[a].username != us'[b].username && us'[a].email != us'[b].email
    {
      if a == i {
        assert us[b].id != id;
      } else if b == i {
        assert us[a].id != id;
      }
    }
  }

  // ---------------------------------------------------------------------------
  // What the rules guarantee: delete

  /** Deleting keeps the invariant. */
  lemma DeleteKeepsInv(us: seq<User>, next: int, id: int)
    requires Inv(us, next)
    requires IndexOf(us, id) >= 0
    ensures Inv(RemoveAt(us, IndexOf(us, id)), next)
  {
  }

  /** After a delete no record has the identifier any more, so deleting it a second
      time finds nothing. */
  lemma DeletedIdIsGone(us: seq<User>, next: int, id: int)
    requires Inv(us, next)
    requires IndexOf(us, id) >= 0
    ensures IndexOf(RemoveAt(us, IndexOf(us, id)), id) == -1
  {
  }

  /** A delete keeps every record but the one with that identifier. */
  lemma DeleteKeepsOthers(us: seq<User>, next: int, id: int)
    requires Inv(us, next)
    requires IndexOf(us, id) >= 0
    ensures forall u :: u in RemoveAt(us, IndexOf(us, id)) <==> u in us && u.id != id
  {
  }
}
