/**
 * The user reconciliation actions: `syncUser` (find-or-create the local user
 * record for the signed-in account), `getUserByClerkId` (look a record up by
 * its Clerk id) and `getDbUserId` (the local id of the signed-in account).
 *
 * The Clerk session (`auth()` and `currentUser()`) is an input value; the
 * Prisma user table is the `UserStore` class, a map keyed by `clerkId` plus
 * the counter that hands out fresh local ids.
 */
module UserActions {
  import opened Wrappers
  import opened JsStrings

  // ---------------------------------------------------------------------
  // Data model

  /** What `currentUser()` reports about the signed-in account. Each email
      address object is represented by its `emailAddress` string. */
  datatype Profile = Profile(
    emailAddresses: Option<seq<string>>,
    username: Option<string>,
    firstName: Option<string>,
    lastName: Option<string>,
    imageUrl: Option<string>)

  /** The ambient Clerk context: the `userId` of `auth()` and the profile
      returned by `currentUser()`, either of which may be missing. */
  datatype Session = Session(userId: Option<string>, profile: Option<Profile>)

  /** The fields `syncUser` hands to `prisma.user.create`. */
  datatype UserData = UserData(
    clerkId: string,
    name: Option<string>,
    username: string,
    email: string,
    image: Option<string>)

  /** A stored user record: the written fields plus the local `id`. */
  datatype User = User(
    id: nat,
    clerkId: string,
    name: Option<string>,
    username: string,
    email: string,
    image: Option<string>)

  /** The errors the actions throw. */
  datatype Error = Unauthorized | UserNotFound | StoreFailure

  /** The message of the two errors this code throws itself; a store
      failure is the store's own error, rethrown as it is. */
  function Message(e: Error): string
    requires e != StoreFailure
  {
    match e
    case Unauthorized => "Unauthorized"
    case UserNotFound => "User not found"
  }

  /** The user table as a value: records keyed by `clerkId`, and the id the
      next created record receives. */
  datatype Db = Db(users: map<string, User>, nextId: nat)

  /** The store's invariant: each record sits under its own `clerkId`, so
      there is at most one record per Clerk account, and local ids are
      distinct and below the fresh-id counter. */
  ghost predicate WellFormed(db: Db) {
    && (forall k :: k in db.users ==> db.users[k].clerkId == k && db.users[k].id < db.nextId)
    && (forall k1, k2 :: k1 in db.users && k2 in db.users && db.users[k1].id == db.users[k2].id ==> k1 == k2)
  }

  /** The outcome of one `syncUser` call: what it returns (`Ok(None)` is a
      plain `return;`) and the table after it. */
  datatype SyncStep = SyncStep(result: Result<Option<User>, Error>, db: Db)

  // ---------------------------------------------------------------------
  // Derived fields

  /** `!userId`: JavaScript truthiness of an optional string. */
  predicate Truthy(x: Option<string>) {
    x.Some? && x.value != ""
  }

  /** The guard of `syncUser`: both a truthy `userId` and a profile. */
  predicate HasSession(s: Session) {
    Truthy(s.userId) && s.profile.Some?
  }

  /** `user.emailAddresses` is present and not empty. */
  predicate HasEmail(p: Profile) {
    p.emailAddresses.Some? && |p.emailAddresses.value| > 0
  }

  /** `user.username ?? email.split('@')[0]`. */
  function DeriveUsername(username: Option<string>, email: string): (r: string)
    ensures username.Some? ==> r == username.value
    ensures username.None? ==>
      && '@' !in r && |r| <= |email| && r == email[..|r|]
      && (|r| < |email| ==> email[|r|] == '@')
  {
    Coalesce(username, Split(email, '@')[0])
  }

  /** The fallback username is the part of the address before its first
      '@', or the whole address when there is no '@'. */
  lemma {:induction false} UsernameFromEmail(email: string, k: nat)
    requires k < |email| && email[k] == '@' && '@' !in email[..k]
    ensures DeriveUsername(None, email) == email[..k]
  {
    FirstPieceBeforeSeparator(email, '@', k);
  }

  lemma {:induction false} UsernameFromEmailWithoutAt(email: string)
    requires '@' !in email
    ensures DeriveUsername(None, email) == email
  {
    SplitNoSeparator(email, '@');
  }

  /** Because the code uses `??`, an empty provider username is kept;
      `||` would have replaced it with the address's local part. */
  lemma EmptyUsernameKept(email: string)
    ensures DeriveUsername(Some(""), email) == ""
    ensures Or(Some(""), Split(email, '@')[0]) == Split(email, '@')[0]
  {
  }

  /** The untrimmed display name, `${first || ""} ${last || ""}`. */
  function FullName(first: Option<string>, last: Option<string>): string {
    Or(first, "") + " " + Or(last, "")
  }

  /** `` `${first || ""} ${last || ""}`.trim() || null ``. */
  function DeriveName(first: Option<string>, last: Option<string>): (r: Option<string>)
    ensures r != Some("")
    ensures r.None? <==> AllSpace(FullName(first, last))
    ensures r.Some? ==> !IsSpace(r.value[0]) && !IsSpace(r.value[|r.value| - 1])
  {
    var t := Trim(FullName(first, last));
    if t == "" then None else Some(t)
  }

  /** A missing name part and an empty one give the same display name. */
  lemma MissingNamePartIsEmpty(first: Option<string>, last: Option<string>)
    ensures DeriveName(None, last) == DeriveName(Some(""), last)
    ensures DeriveName(first, None) == DeriveName(first, Some(""))
  {
  }

  /** No usable name part: the display name is null, never "". */
  lemma {:induction false} NameOfBlankParts(first: Option<string>, last: Option<string>)
    requires AllSpace(Or(first, "")) && AllSpace(Or(last, ""))
    ensures DeriveName(first, last) == None
  {
    AllSpaceConcat(Or(first, ""), " ");
    AllSpaceConcat(Or(first, "") + " ", Or(last, ""));
  }

  /** Trimmed first and last names are joined by one space. */
  lemma {:induction false} NameOfBothParts(first: string, last: string)
    requires first != "" && !IsSpace(first[0]) && !IsSpace(first[|first| - 1])
    requires last != "" && !IsSpace(last[0]) && !IsSpace(last[|last| - 1])
    ensures DeriveName(Some(first), Some(last)) == Some(first + " " + last)
  {
    var m := first + " " + last;
    assert m[0] == first[0] && m[|m| - 1] == last[|last| - 1];
    TrimUnchanged(m);
  }

  /** A trimmed part alone is the whole name; the padding space goes. */
  lemma {:induction false} NameOfFirstOnly(first: string)
    requires first != "" && !IsSpace(first[0]) && !IsSpace(first[|first| - 1])
    ensures DeriveName(Some(first), None) == Some(first)
  {
    assert FullName(Some(first), None) == "" + first + " ";
    assert AllSpace(" ") by { assert " "[0] == ' '; }
    TrimSurrounded("", first, " ");
  }

  lemma {:induction false} NameOfLastOnly(last: string)
    requires last != "" && !IsSpace(last[0]) && !IsSpace(last[|last| - 1])
    ensures DeriveName(None, Some(last)) == Some(last)
  {
    assert FullName(None, Some(last)) == " " + last + "";
    assert AllSpace(" ") by { assert " "[0] == ' '; }
    TrimSurrounded(" ", last, "");
  }

  /** A profile with no username and empty name parts. */
  lemma DerivedFieldsWithoutUsername()
    ensures DeriveUsername(None, "a.b@example.com") == "a.b"
    ensures DeriveName(Some(""), Some("")) == None
  {
    var email := "a.b@example.com";
    assert email[..3] == "a.b";
    UsernameFromEmail(email, 3);
    NameOfBlankParts(Some(""), Some(""));
  }

  /** A profile with a username and both name parts. */
  lemma DerivedFieldsWithUsername()
    ensures DeriveUsername(Some("hank"), "x@y.com") == "hank"
    ensures DeriveName(Some("Hank"), Some("Hill")) == Some("Hank Hill")
  {
    assert "Hank" + " " + "Hill" == "Hank Hill";
    var first, last := "Hank", "Hill";
    assert first[0] == 'H' && first[3] == 'k' && last[0] == 'H' && last[3] == 'l';
    assert !IsSpace('H') && !IsSpace('k') && !IsSpace('l');
    NameOfBothParts(first, last);
  }

  /** The record `syncUser` creates for a profile with at least one address. */
  function NewUserData(clerkId: string, p: Profile): UserData
    requires HasEmail(p)
  {
    var email := p.emailAddresses.value[0];
    UserData(clerkId, DeriveName(p.firstName, p.lastName), DeriveUsername(p.username, email), email, p.imageUrl)
  }

  /** The stored form of written fields under a given local id. */
  function WithId(d: UserData, id: nat): User {
    User(id, d.clerkId, d.name, d.username, d.email, d.image)
  }

  // ---------------------------------------------------------------------
  // The find-or-create step as a function of the table

  /** `prisma.user.create`: fails when the write is rejected (`reject`, the
      store's own verdict) and, as assumed of the store's unique constraint
      on `clerkId`, when a record with the same `clerkId` already exists. */
  function Create(db: Db, d: UserData, reject: bool): (out: (Result<User, Error>, Db))
    ensures out.0.Err? <==> reject || d.clerkId in db.users
    ensures out.0.Err? ==> out.0.error == StoreFailure && out.1 == db
    ensures out.0.Ok? ==>
      var u := out.0.value;
      && u == WithId(d, db.nextId)
      && out.1.nextId == db.nextId + 1
      && out.1.users.Keys == db.users.Keys + {d.clerkId}
      && out.1.users[d.clerkId] == u
      && (forall k :: k in db.users ==> out.1.users[k] == db.users[k])
  {
    if reject || d.clerkId in db.users then (Err(StoreFailure), db)
    else
      var u := WithId(d, db.nextId);
      (Ok(u), Db(db.users[d.clerkId := u], db.nextId + 1))
  }

  /** One `syncUser` call against table `db` with session `s`; `reject`
      says whether the store would refuse a write. */
  function Sync(db: Db, s: Session, reject: bool): (out: SyncStep)
    // no userId or no profile: nothing returned, nothing written
    ensures !HasSession(s) ==> out == SyncStep(Ok(None), db)
    // an existing record is returned as it is, nothing written
    ensures HasSession(s) && s.userId.value in db.users ==>
      out == SyncStep(Ok(Some(db.users[s.userId.value])), db)
    // no email address: nothing returned, nothing written
    ensures HasSession(s) && s.userId.value !in db.users && !HasEmail(s.profile.value) ==>
      out == SyncStep(Ok(None), db)
    // a rejected write propagates and nothing is returned
    ensures out.result.Err? ==> out.result.error == StoreFailure && out.db == db
    ensures out.result.Err? <==>
      HasSession(s) && s.userId.value !in db.users && HasEmail(s.profile.value) && reject
    // otherwise exactly one record is inserted, under the session's userId,
    // and it is the one returned; every other record stays as it was
    ensures out.db != db ==> out.result.Ok? && out.result.value.Some?
    ensures HasSession(s) && s.userId.value !in db.users && HasEmail(s.profile.value) && !reject ==>
      var k := s.userId.value;
      var p := s.profile.value;
      && out.db.users.Keys == db.users.Keys + {k}
      && out.result == Ok(Some(out.db.users[k]))
      && (forall k' :: k' in db.users ==> out.db.users[k'] == db.users[k'])
      && out.db.nextId == db.nextId + 1
      && out.db.users[k].id == db.nextId
      && out.db.users[k].clerkId == k
      && out.db.users[k].email == p.emailAddresses.value[0]
      && out.db.users[k].username == DeriveUsername(p.username, p.emailAddresses.value[0])
      && out.db.users[k].name == DeriveName(p.firstName, p.lastName)
      && out.db.users[k].image == p.imageUrl
  {
    if !Truthy(s.userId) || s.profile.None? then SyncStep(Ok(None), db)
    else
      var clerkId := s.userId.value;
      if clerkId in db.users then SyncStep(Ok(Some(db.users[clerkId])), db)
      else
        var p := s.profile.value;
        if p.emailAddresses.None? || |p.emailAddresses.value| == 0 then SyncStep(Ok(None), db)
        else
          var (created, db') := Create(db, NewUserData(clerkId, p), reject);
          match created
          case Ok(u) => SyncStep(Ok(Some(u)), db')
          case Err(e) => SyncStep(Err(e), db')
  }

  /** On the create path, a sync is the create's outcome. */
  lemma SyncByCreate(db: Db, s: Session, reject: bool)
    requires HasSession(s) && s.userId.value !in db.users && HasEmail(s.profile.value)
    ensures var c := Create(db, NewUserData(s.userId.value, s.profile.value), reject);
      Sync(db, s, reject) == SyncStep(if c.0.Ok? then Ok(Some(c.0.value)) else Err(c.0.error), c.1)
  {
  }

  /** Syncing again after a call that did not throw returns the same thing
      and writes nothing, whatever the store would do with a write. */
  lemma {:induction false} SyncIdempotent(db: Db, s: Session, reject1: bool, reject2: bool)
    ensures var first := Sync(db, s, reject1);
      first.result.Ok? ==> Sync(first.db, s, reject2) == first
  {
    var first := Sync(db, s, reject1);
    if first.result.Ok? && HasSession(s) && s.userId.value !in db.users && HasEmail(s.profile.value) {
      assert s.userId.value in first.db.users;
    }
  }

  /** Every `syncUser` call keeps the table well formed: still at most one
      record per Clerk account, and distinct local ids. */
  lemma {:induction false} SyncKeepsWellFormed(db: Db, s: Session, reject: bool)
    requires WellFormed(db)
    ensures WellFormed(Sync(db, s, reject).db)
  {
    var out := Sync(db, s, reject);
    if out.db != db {
      var k := s.userId.value;
      assert forall k' :: k' in db.users ==> db.users[k'].id < db.nextId;
      assert out.db.users[k].id == db.nextId;
    }
  }

  /** In a well-formed table the record found under a Clerk id is the only
      record that carries it. */
  lemma OneRecordPerClerkId(db: Db, clerkId: string, k: string)
    requires WellFormed(db)
    requires k in db.users && db.users[k].clerkId == clerkId
    ensures clerkId in db.users && db.users[clerkId] == db.users[k]
  {
  }

  // ---------------------------------------------------------------------
  // The user table and the three actions

  class UserStore {
    var users: map<string, User>
    var nextId: nat

    function State(): Db
      reads this
    {
      Db(users, nextId)
    }

    ghost predicate Valid()
      reads this
    {
      WellFormed(State())
    }

    /** An empty table. */
    constructor ()
      ensures Valid() && State() == Db(map[], 0)
    {
      users := map[];
      nextId := 0;
    }

    /** `prisma.user.create`: allocate the next id and store the record. */
    method Insert(d: UserData, reject: bool) returns (r: Result<User, Error>)
      requires Valid()
      modifies this
      ensures Valid()
      ensures (r, State()) == Create(old(State()), d, reject)
    {
      if reject || d.clerkId in users {
        r := Err(StoreFailure);
      } else {
        var u := WithId(d, nextId);
        users := users[d.clerkId := u];
        nextId := nextId + 1;
        r := Ok(u);
      }
    }

    /** `syncUser`: return the record of the signed-in account, creating it
        from the profile on the first call. */
    method SyncUser(session: Session, reject: bool) returns (r: Result<Option<User>, Error>)
      requires Valid()
      modifies this
      ensures Valid()
      ensures SyncStep(r, State()) == Sync(old(State()), session, reject)
    {
      ghost var before := State();
      if !HasSession(session) {
        return Ok(None);
      }
      var clerkId := session.userId.value;
      if clerkId in users {
        return Ok(Some(users[clerkId]));
      }
      var p := session.profile.value;
      if !HasEmail(p) {
        return Ok(None);
      }
      var created := Insert(NewUserData(clerkId, p), reject);
      SyncByCreate(before, session, reject);
      match created {
        case Ok(u) => r := Ok(Some(u));
        case Err(e) => r := Err(e);
      }
    }

    /** `getUserByClerkId`: the record stored under `clerkId`, if any. */
    method GetUserByClerkId(clerkId: string) returns (r: Option<User>)
      requires Valid()
      ensures r.Some? <==> clerkId in users
      ensures r.Some? ==> r.value == users[clerkId] && r.value.clerkId == clerkId
    {
      if clerkId in users {
        r := Some(users[clerkId]);
      } else {
        r := None;
      }
    }

    /** `getDbUserId`: the local id of the signed-in account; throws
        "Unauthorized" without a userId and "User not found" without a
        record. */
    method GetDbUserId(session: Session) returns (r: Result<nat, Error>)
      requires Valid()
      ensures !Truthy(session.userId) ==> r == Err(Unauthorized)
      ensures Truthy(session.userId) && session.userId.value !in users ==> r == Err(UserNotFound)
      ensures Truthy(session.userId) && session.userId.value in users ==>
        r == Ok(users[session.userId.value].id)
      ensures r.Err? ==>
        && r.error != StoreFailure
        && Message(r.error) == if Truthy(session.userId) then "User not found" else "Unauthorized"
    {
      if !Truthy(session.userId) {
        return Err(Unauthorized);
      }
      var user := GetUserByClerkId(session.userId.value);
      if user.None? {
        return Err(UserNotFound);
      }
      return Ok(user.value.id);
    }
  }
}
