/** The User records of the credential store (the User schema) and the two
    unique indexes that guard the user collection. */
module UserSchema {
  import opened Common

  /** One User document: a required, unique `userId`; a `password` required only
      when there is no `kakaoId`; a sparse unique `kakaoId`; an optional
      `profileImage`; and the two timestamps. */
  datatype User = User(
    userId: Field,
    password: Field,
    kakaoId: Field,
    profileImage: Field,
    createdAt: nat,
    updatedAt: nat)

  /** The password path's `required` function: `!this.kakaoId`. */
  predicate PasswordRequired(u: User)
  {
    !Truthy(u.kakaoId)
  }

  /** The schema's validation. */
  predicate ValidUser(u: User)
  {
    Truthy(u.userId) && (PasswordRequired(u) ==> Truthy(u.password))
  }

  /** A valid user has a user id, and has a password or a Kakao id (or both). */
  lemma ValidUserMeaning(u: User)
    ensures ValidUser(u) ==> u.userId.Given? && u.userId.value != ""
    ensures ValidUser(u) <==> Truthy(u.userId) && (Truthy(u.password) || Truthy(u.kakaoId))
  {
  }

  /** A Kakao user may omit the password; a user without a Kakao id may not. */
  lemma PasswordOnlyWithoutKakao(id: string, k: string, image: Field, t: nat)
    requires id != ""
    ensures k != "" ==> ValidUser(User(Given(id), Absent, Given(k), image, t, t))
    ensures !ValidUser(User(Given(id), Absent, Absent, image, t, t))
    ensures !ValidUser(User(Given(id), Null, Null, image, t, t))
    ensures !ValidUser(User(Given(id), Absent, Given(""), image, t, t))
  {
  }

  /** The key a MongoDB index stores for a field: a missing field and an
      explicit `null` both index as `null`. */
  function IndexKey(f: Field): (k: Option<string>)
    ensures k.Some? <==> f.Given?
    ensures f.Given? ==> k.value == f.value
  {
    if f.Given? then Some(f.value) else None
  }

  /** The unique index on `userId`: a non-sparse index holds every user, so
      even a missing or null `userId` could occur only once. */
  predicate UniqueUserIds(users: seq<User>)
  {
    forall i, j :: 0 <= i < j < |users| ==> IndexKey(users[i].userId) != IndexKey(users[j].userId)
  }

  /** The sparse unique index on `kakaoId`: it holds exactly the users whose
      document has the field, an explicit `null` included, so any number of
      users may lack it but at most one may store `null`. */
  predicate UniqueKakaoIds(users: seq<User>)
  {
    forall i, j :: 0 <= i < j < |users| && !users[i].kakaoId.Absent? && !users[j].kakaoId.Absent? ==>
      IndexKey(users[i].kakaoId) != IndexKey(users[j].kakaoId)
  }

  /** A user collection as the schema and its indexes allow it. */
  predicate ValidDirectory(users: seq<User>)
  {
    (forall i :: 0 <= i < |users| ==> ValidUser(users[i])) && UniqueUserIds(users) && UniqueKakaoIds(users)
  }

  /** `u` collides with a stored user in one of the two indexes. */
  predicate Collides(users: seq<User>, u: User)
  {
    exists i :: 0 <= i < |users| &&
      (IndexKey(users[i].userId) == IndexKey(u.userId) ||
       (!u.kakaoId.Absent? && !users[i].kakaoId.Absent? && IndexKey(users[i].kakaoId) == IndexKey(u.kakaoId)))
  }

  /** Saving a new user: validation first, then the unique indexes (a duplicate
      key is refused), then the document is stored with both timestamps set. */
  function Insert(users: seq<User>, u: User, now: nat): (r: Outcome<seq<User>>)
    ensures r.Err? <==> !ValidUser(u) || Collides(users, u)
    ensures r.Err? ==> r.error == (if ValidUser(u) then Conflict else Invalid)
    ensures r.Ok? ==> r.value == users + [u.(createdAt := now, updatedAt := now)]
    ensures r.Ok? && ValidDirectory(users) ==> ValidDirectory(r.value)
  {
    if !ValidUser(u) then Err(Invalid)
    else if Collides(users, u) then Err(Conflict)
    else
      var stored := u.(createdAt := now, updatedAt := now);
      var s := users + [stored];
      assert forall i :: 0 <= i < |users| ==> s[i] == users[i];
      assert s[|users|] == stored;
      Ok(s)
  }

  /** Registering a user id that is already taken is a conflict and stores nothing. */
  lemma DuplicateUserIdConflicts(users: seq<User>, u: User, now: nat, i: nat)
    requires ValidUser(u)
    requires i < |users| && users[i].userId == u.userId
    ensures Insert(users, u, now) == Err(Conflict)
  {
  }

  /** The sparse index does hold an explicit `null`: a second user storing
      `kakaoId: null` is a conflict, however valid otherwise. */
  lemma NullKakaoIdsCollide(users: seq<User>, u: User, now: nat, i: nat)
    requires ValidUser(u) && u.kakaoId.Null?
    requires i < |users| && users[i].kakaoId.Null?
    ensures Insert(users, u, now) == Err(Conflict)
  {
  }

  /** Users whose document lacks `kakaoId` never collide on it: a valid user with
      a new user id and no `kakaoId` field is always accepted, however many
      others lack one. */
  lemma SparseKakaoId(users: seq<User>, u: User, now: nat)
    requires ValidUser(u) && u.kakaoId.Absent?
    requires forall i :: 0 <= i < |users| ==> users[i].userId != u.userId
    ensures Insert(users, u, now).Ok?
  {
  }

  /** Two stored users never share a user id, nor a `kakaoId` that both store
      (so at most one of them stores `null`). */
  lemma DirectoryKeysDistinct(users: seq<User>, i: nat, j: nat)
    requires ValidDirectory(users)
    requires i < |users| && j < |users| && i != j
    ensures users[i].userId.Given? && users[i].userId != users[j].userId
    ensures !users[i].kakaoId.Absent? && !users[j].kakaoId.Absent? ==> users[i].kakaoId != users[j].kakaoId
  {
    if i > j {
      assert IndexKey(users[j].userId) != IndexKey(users[i].userId);
    }
  }
}
