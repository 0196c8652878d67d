/** `UserService`: read-then-write policies over the facade, keyed by the
    user's e-mail; a failure of the facade is rethrown wrapped in a
    RuntimeException (`saveOrUpdateUser` wraps only an IOException). */
module Service {
  import opened Model
  import opened Codec
  import opened Operations

  /** What a service call answers, together with the store it leaves. */
  datatype Reply<R> = Reply(result: Result<R, Exception>, store: Store)

  /** The payload of a user, stored under its e-mail. */
  function UserPayload(user: User): Payload
  {
    Serialize(UserObject(user))
  }

  /** `saveUser`: insert only. It writes when nothing is stored under the
      e-mail; when something is, it answers null if that is a user and fails
      (wrapped) if it is not, and leaves the store as it is. */
  function InsertOnly(store: Store, user: User): (rep: Reply<Option<string>>)
    ensures user.email !in store ==>
      rep == Reply(Success(Some(Ok)), store[user.email := UserPayload(user)])
    ensures user.email in store ==> rep.store == store
    ensures user.email in store && DecodesAs(store[user.email], UserClass) ==> rep.result == Success(None)
    ensures user.email in store && !DecodesAs(store[user.email], UserClass) ==>
      rep.result == Failure(Wrapped(Deserialize(store[user.email], UserClass).error))
  {
    match Get(store, user.email, UserClass)
    case Failure(e) => Reply(Failure(Wrapped(e)), store)
    case Success(None) => Reply(Success(Some(Ok)), store[user.email := UserPayload(user)])
    case Success(Some(_)) => Reply(Success(None), store)
  }

  /** `updateUser`: update only. It writes when a user is stored under the
      e-mail; when nothing is, it answers null; when something else is, it
      fails (wrapped). Only the write changes the store. */
  function UpdateOnly(store: Store, user: User): (rep: Reply<Option<string>>)
    ensures user.email !in store ==> rep == Reply(Success(None), store)
    ensures user.email in store && DecodesAs(store[user.email], UserClass) ==>
      rep == Reply(Success(Some(Ok)), store[user.email := UserPayload(user)])
    ensures user.email in store && !DecodesAs(store[user.email], UserClass) ==>
      rep == Reply(Failure(Wrapped(Deserialize(store[user.email], UserClass).error)), store)
  {
    match Get(store, user.email, UserClass)
    case Failure(e) => Reply(Failure(Wrapped(e)), store)
    case Success(None) => Reply(Success(None), store)
    case Success(Some(_)) => Reply(Success(Some(Ok)), store[user.email := UserPayload(user)])
  }

  /** The two conditional writes never both write: for any store, at most
      one of insert-only and update-only changes it. */
  lemma InsertAndUpdateExclusive(store: Store, user: User)
    ensures InsertOnly(store, user).store == store || UpdateOnly(store, user).store == store
  {
  }

  /** `getUserByEmail`: the user stored under `email`, null when nothing is
      stored, a wrapped failure when the payload is not a user. */
  function FindUser(store: Store, email: string): (r: Result<Option<User>, Exception>)
    ensures email !in store ==> r == Success(None)
    ensures email in store && DecodesAs(store[email], UserClass) ==>
      r == Success(Some(store[email].value.user))
    ensures email in store && !DecodesAs(store[email], UserClass) ==>
      r == Failure(Wrapped(Deserialize(store[email], UserClass).error))
  {
    match Get(store, email, UserClass)
    case Failure(e) => Failure(Wrapped(e))
    case Success(None) => Success(None)
    case Success(Some(v)) => Success(Some(v.user))
  }

  /** The map `saveOrUpdateUsers` builds: e-mail to user, a later user
      replacing an earlier one with the same e-mail. */
  function ByEmail(users: seq<User>): (m: map<string, User>)
    ensures forall e :: e in m <==> exists i :: 0 <= i < |users| && users[i].email == e
    ensures forall e :: e in m ==> m[e].email == e && m[e] in users
  {
    if users == [] then map[]
    else
      var last := users[|users| - 1];
      ByEmail(users[..|users| - 1])[last.email := last]
  }

  /** Of several users with one e-mail, the last in argument order is kept. */
  lemma {:induction false} LastDuplicateWins(users: seq<User>, i: nat)
    requires i < |users|
    requires forall j :: i < j < |users| ==> users[j].email != users[i].email
    ensures users[i].email in ByEmail(users) && ByEmail(users)[users[i].email] == users[i]
  {
    if i < |users| - 1 {
      LastDuplicateWins(users[..|users| - 1], i);
    }
  }

  /** The bulk argument: every user as a serializable object. */
  function AsObjects(m: map<string, User>): map<string, Value>
  {
    map e | e in m :: UserObject(m[e])
  }

  /** After the bulk write of `saveOrUpdateUsers`, each e-mail holds the
      last user given with it, and a key that is no user's e-mail is left as
      it was. */
  lemma SaveOrUpdateUsersKeepsLast(store: Store, users: seq<User>, i: nat, k: string)
    requires i < |users|
    requires forall j :: i < j < |users| ==> users[j].email != users[i].email
    ensures (store + EncodeAll(AsObjects(ByEmail(users))))[users[i].email] == UserPayload(users[i])
    ensures (forall j :: 0 <= j < |users| ==> users[j].email != k) ==>
      (k in store + EncodeAll(AsObjects(ByEmail(users))) <==> k in store) &&
      (k in store ==> (store + EncodeAll(AsObjects(ByEmail(users))))[k] == store[k])
  {
    LastDuplicateWins(users, i);
  }

  /** The users of a successful bulk read, in the order they were read. */
  function AsUsers(vs: seq<Value>): (us: seq<User>)
    requires forall i :: 0 <= i < |vs| ==> vs[i].UserObject?
    ensures |us| == |vs| && forall i :: 0 <= i < |vs| ==> vs[i] == UserObject(us[i])
  {
    seq(|vs|, i requires 0 <= i < |vs| && vs[i].UserObject? => vs[i].user)
  }

  /** The loop of `saveOrUpdateUsers` that fills the map. */
  method IndexByEmail(users: seq<User>) returns (m: map<string, User>)
    ensures m == ByEmail(users)
  {
    m := map[];
    for i := 0 to |users|
      invariant m == ByEmail(users[..i])
    {
      assert users[..i + 1][..i] == users[..i];
      m := m[users[i].email := users[i]];
    }
    assert users[..|users|] == users;
  }

  class UserService {
    const operations: RedisOperations

    constructor (operations: RedisOperations)
      ensures this.operations == operations
    {
      this.operations := operations;
    }

    /** `saveOrUpdateUser`: an unconditional write under the e-mail. */
    method SaveOrUpdateUser(user: User) returns (r: string)
      modifies operations
      ensures r == Ok
      ensures operations.store == old(operations.store)[user.email := UserPayload(user)]
    {
      r := operations.SaveOrUpdateObject(user.email, UserObject(user));
    }

    /** `saveUser`: read, then write only when the e-mail is free. */
    method SaveUser(user: User) returns (r: Result<Option<string>, Exception>)
      modifies operations
      ensures Reply(r, operations.store) == InsertOnly(old(operations.store), user)
    {
      var found := operations.GetObject(user.email, UserClass);
      if found.Failure? {
        return Failure(Wrapped(found.error));
      }
      if found.value.None? {
        var ack := operations.SaveOrUpdateObject(user.email, UserObject(user));
        return Success(Some(ack));
      }
      return Success(None);
    }

    /** `updateUser`: read, then write only when a user is stored. */
    method UpdateUser(user: User) returns (r: Result<Option<string>, Exception>)
      modifies operations
      ensures Reply(r, operations.store) == UpdateOnly(old(operations.store), user)
    {
      var found := operations.GetObject(user.email, UserClass);
      if found.Failure? {
        return Failure(Wrapped(found.error));
      }
      if found.value.Some? {
        var ack := operations.SaveOrUpdateObject(user.email, UserObject(user));
        return Success(Some(ack));
      }
      return Success(None);
    }

    /** `saveOrUpdateUsers(users...)`: a null argument answers an empty list
        and writes nothing; otherwise every user is written by one bulk save,
        the last of several with one e-mail winning, and the answer is null. */
    method SaveOrUpdateUsers(users: Option<seq<User>>) returns (r: Option<seq<User>>)
      modifies operations
      ensures users.None? ==> r == Some([]) && operations.store == old(operations.store)
      ensures users.Some? ==> r == None
      ensures users.Some? ==>
        operations.store == old(operations.store) + EncodeAll(AsObjects(ByEmail(users.value)))
    {
      if users.None? {
        return Some([]);
      }
      var byEmail := IndexByEmail(users.value);
      var _ := operations.SaveOrUpdateBulkObject(Some(AsObjects(byEmail)));
      return None;
    }

    /** `deleteUser(email)`: the count `deleteKeys` reports. */
    method DeleteUser(email: string) returns (n: nat)
      modifies operations
      ensures n == (if email in old(operations.store) then 1 else 0)
      ensures operations.store == old(operations.store) - {email}
    {
      n := operations.DeleteKeys([email]);
      DeleteOne(old(operations.store), email);
      assert KeySet([email]) == {email};
    }

    /** `deleteUsers(emails...)`: the count `deleteKeys` reports. */
    method DeleteUsers(emails: seq<string>) returns (n: nat)
      modifies operations
      ensures n == DeleteCount(old(operations.store), emails)
      ensures operations.store == old(operations.store) - KeySet(emails)
    {
      n := operations.DeleteKeys(emails);
    }

    /** `getUserByEmail(email)`. */
    method GetUserByEmail(email: string) returns (r: Result<Option<User>, Exception>)
      ensures r == FindUser(operations.store, email)
    {
      var found := operations.GetObject(email, UserClass);
      if found.Failure? {
        return Failure(Wrapped(found.error));
      }
      if found.value.None? {
        return Success(None);
      }
      return Success(Some(found.value.value.user));
    }

    /** `getUsersByEmails(emails...)`: no e-mails is a wrapped failure, as the
        facade rejects an empty key list; otherwise the users stored under the
        present e-mails, in order, or a wrapped failure when one of them holds
        something that is not a user. */
    method GetUsersByEmails(emails: seq<string>) returns (r: Result<seq<User>, Exception>)
      ensures emails == [] ==> r == Failure(Wrapped(RuntimeFailure(KeysGuardMessage)))
      ensures r.Success? <==>
        emails != [] &&
        forall e :: e in emails && e in operations.store ==> DecodesAs(operations.store[e], UserClass)
      ensures r.Success? ==> |r.value| == |PresentKeys(operations.store, emails)|
      ensures r.Success? ==> forall i :: 0 <= i < |r.value| ==>
        operations.store[PresentKeys(operations.store, emails)[i]] == UserPayload(r.value[i])
      ensures r.Failure? ==> r.error.Wrapped?
    {
      var found := operations.GetListObject(Some(emails), UserClass);
      if emails != [] {
        GetListExact(operations.store, emails, UserClass);
      }
      if found.Failure? {
        return Failure(Wrapped(found.error));
      }
      assert forall i :: 0 <= i < |found.value| ==> TagOf(found.value[i]) == UserClass;
      return Success(AsUsers(found.value));
    }
  }
}
