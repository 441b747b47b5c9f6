/**
 * The user store of the service: a collection of users keyed by document id,
 * with create, read, update, delete, the CPF lookups and the password reset.
 * The collection is a map; each write is first stated as a function from the
 * collection before to the outcome (result and collection after), and the
 * methods of UserService are proved to produce exactly that outcome.
 */
module Users {
  import opened Wrappers
  import opened GoStrings
  import opened Models
  import opened ObjectIds
  import Utils

  /** The collection: users by document id. */
  type Collection = map<ObjectId, User>

  /** Why an operation of the store failed. DuplicateKey stands for the
      driver refusing an insert whose generated id is already stored;
      ImmutableId for the server refusing an update that sets `_id`. */
  datatype UserError = InvalidCpf | CpfExists | InvalidId | NotFound | DuplicateKey | ImmutableId

  /** What a write returns together with the collection it leaves behind. */
  datatype Outcome<T> = Outcome(result: Result<T, UserError>, users: Collection)

  /** Every stored user's id field is the lowercase hex of its key, as the
      driver fills it when it decodes a document. */
  predicate WellKeyed(users: Collection) {
    forall k | k in users :: users[k].id == ToHex(k)
  }

  /** Some stored user has exactly this CPF text (no normalisation). */
  predicate CpfTaken(users: Collection, cpf: Bytes)
    ensures CpfTaken(users, cpf) <==> exists u | u in users.Values :: u.cpf == cpf
  {
    exists k | k in users :: users[k].cpf == cpf
  }

  /** No two stored users share a CPF text. */
  ghost predicate UniqueCpfs(users: Collection) {
    forall a, b | a in users && b in users && users[a].cpf == users[b].cpf :: a == b
  }

  // ---------------------------------------------------------------------
  // The writes, as functions of the collection
  // ---------------------------------------------------------------------

  /** CreateUser: the CPF must pass IsValidCPF, then no stored user may have
      the same CPF text; the user is then inserted under the id the driver
      generated. */
  function AfterCreate(users: Collection, user: User, generated: ObjectId): (o: Outcome<ObjectId>)
    ensures o.result == Err(InvalidCpf) <==> !Utils.Accepted(user.cpf)
    ensures o.result == Err(CpfExists) <==> Utils.Accepted(user.cpf) && CpfTaken(users, user.cpf)
    ensures o.result == Err(DuplicateKey) <==>
      Utils.Accepted(user.cpf) && !CpfTaken(users, user.cpf) && generated in users
    ensures o.result.Ok? <==>
      Utils.Accepted(user.cpf) && !CpfTaken(users, user.cpf) && generated !in users
    ensures o.result.Err? ==> o.users == users
    ensures o.result.Ok? ==>
      && o.result.value == generated
      && o.users.Keys == users.Keys + {generated}
      && (forall k | k in users :: o.users[k] == users[k])
      && o.users[generated] == user.(id := ToHex(generated))
  {
    if !Utils.Accepted(user.cpf) then Outcome(Err(InvalidCpf), users)
    else if CpfTaken(users, user.cpf) then Outcome(Err(CpfExists), users)
    else if generated in users then Outcome(Err(DuplicateKey), users)
    else Outcome(Ok(generated), users[generated := user.(id := ToHex(generated))])
  }

  /** The record UpdateUser writes: the incoming user, except that an empty
      password or an empty status keeps the stored one; the document id
      never changes. */
  function Merge(existing: User, incoming: User): (u: User)
    ensures u.id == existing.id
    ensures incoming.password == [] ==> u.password == existing.password
    ensures incoming.password != [] ==> u.password == incoming.password
    ensures incoming.status == [] ==> u.status == existing.status
    ensures incoming.status != [] ==> u.status == incoming.status
    ensures u.(id := incoming.id, password := incoming.password, status := incoming.status) == incoming
  {
    var withPassword := if incoming.password == [] then incoming.(password := existing.password) else incoming;
    var withStatus := if withPassword.status == [] then withPassword.(status := existing.status) else withPassword;
    withStatus.(id := existing.id)
  }

  /** UpdateUser: CPF check first, then the id, then the stored user; the
      merged record then replaces the stored one. The `$set` carries the
      incoming `id` whenever it is non-empty (the field is `omitempty`), as a
      string, and the server refuses to change the stored ObjectId `_id`: so
      only an incoming record with an empty id is written. */
  function AfterUpdate(users: Collection, id: Bytes, incoming: User): (o: Outcome<()>)
    ensures o.result == Err(InvalidCpf) <==> !Utils.Accepted(incoming.cpf)
    ensures o.result == Err(InvalidId) <==> Utils.Accepted(incoming.cpf) && FromHex(id).None?
    ensures o.result == Err(NotFound) <==>
      Utils.Accepted(incoming.cpf) && FromHex(id).Some? && FromHex(id).value !in users
    ensures o.result == Err(ImmutableId) <==>
      Utils.Accepted(incoming.cpf) && FromHex(id).Some? && FromHex(id).value in users && incoming.id != []
    ensures o.result.Ok? <==>
      Utils.Accepted(incoming.cpf) && FromHex(id).Some? && FromHex(id).value in users && incoming.id == []
    ensures o.result.Err? ==> o.users == users
    ensures o.result.Ok? ==>
      && FromHex(id).Some?
      && var k := FromHex(id).value;
      && k in users
      && o.users.Keys == users.Keys
      && (forall j | j in users && j != k :: o.users[j] == users[j])
      && o.users[k] == Merge(users[k], incoming)
  {
    if !Utils.Accepted(incoming.cpf) then Outcome(Err(InvalidCpf), users)
    else match FromHex(id)
      case None => Outcome(Err(InvalidId), users)
      case Some(k) =>
        if k !in users then Outcome(Err(NotFound), users)
        else if incoming.id != [] then Outcome(Err(ImmutableId), users)
        else Outcome(Ok(()), users[k := Merge(users[k], incoming)])
  }

  /** DeleteUser: a malformed id is an error; otherwise the user with that id,
      if any, is removed and the number removed is returned. */
  function AfterDelete(users: Collection, id: Bytes): (o: Outcome<nat>)
    ensures o.result.Err? <==> FromHex(id).None?
    ensures o.result.Err? ==> o.result.error == InvalidId && o.users == users
    ensures o.result.Ok? ==>
      var k := FromHex(id).value;
      && o.users.Keys == users.Keys - {k}
      && (forall j | j in o.users :: o.users[j] == users[j])
      && o.result.value == (if k in users then 1 else 0)
      && |o.users| == |users| - o.result.value
  {
    match FromHex(id)
    case None => Outcome(Err(InvalidId), users)
    case Some(k) =>
      var count := if k in users then 1 else 0;
      assert users - {k} == users || (k in users && (users - {k}).Keys + {k} == users.Keys);
      Outcome(Ok(count), users - {k})
  }

  /** UpdatePassword: a malformed id is an error; otherwise the user with that
      id, if any, gets the new hash and becomes active. A missing user is not
      an error. */
  function AfterPasswordUpdate(users: Collection, id: Bytes, hash: Bytes): (o: Outcome<()>)
    ensures o.result.Err? <==> FromHex(id).None?
    ensures o.result.Err? ==> o.result.error == InvalidId
    ensures FromHex(id).None? || FromHex(id).value !in users ==> o.users == users
    ensures o.result.Ok? ==>
      var k := FromHex(id).value;
      && o.users.Keys == users.Keys
      && (forall j | j in users && j != k :: o.users[j] == users[j])
      && (k in users ==>
            && o.users[k].password == hash
            && o.users[k].status == Active
            && o.users[k].(password := users[k].password, status := users[k].status) == users[k])
  {
    match FromHex(id)
    case None => Outcome(Err(InvalidId), users)
    case Some(k) =>
      if k !in users then Outcome(Ok(()), users)
      else Outcome(Ok(()), users[k := users[k].(password := hash, status := Active)])
  }

  // ---------------------------------------------------------------------
  // Properties of the writes
  // ---------------------------------------------------------------------

  /** Every write keeps each stored user's id equal to the hex of its key. */
  lemma CreateKeepsWellKeyed(users: Collection, user: User, generated: ObjectId)
    requires WellKeyed(users)
    ensures WellKeyed(AfterCreate(users, user, generated).users)
  {
  }

  lemma UpdateKeepsWellKeyed(users: Collection, id: Bytes, incoming: User)
    requires WellKeyed(users)
    ensures WellKeyed(AfterUpdate(users, id, incoming).users)
  {
  }

  lemma DeleteKeepsWellKeyed(users: Collection, id: Bytes)
    requires WellKeyed(users)
    ensures WellKeyed(AfterDelete(users, id).users)
  {
  }

  lemma PasswordUpdateKeepsWellKeyed(users: Collection, id: Bytes, hash: Bytes)
    requires WellKeyed(users)
    ensures WellKeyed(AfterPasswordUpdate(users, id, hash).users)
  {
  }

  /** Create never lets two users share a CPF text. */
  lemma CreateKeepsUniqueCpfs(users: Collection, user: User, generated: ObjectId)
    requires UniqueCpfs(users)
    ensures UniqueCpfs(AfterCreate(users, user, generated).users)
  {
    var o := AfterCreate(users, user, generated);
    if o.result.Ok? {
      assert forall k | k in users :: users[k].cpf != user.cpf;
    }
  }

  /** A created user can be read back through the hex text of its id. */
  lemma CreatedUserReadable(users: Collection, user: User, generated: ObjectId)
    requires AfterCreate(users, user, generated).result.Ok?
    ensures var o := AfterCreate(users, user, generated);
      && FromHex(ToHex(generated)) == Some(generated)
      && generated in o.users
      && o.users[generated].cpf == user.cpf
  {
    FromHexToHex(generated);
  }

  /** Deleting twice is deleting once, and the second call removes nothing. */
  lemma DeleteTwice(users: Collection, id: Bytes)
    requires FromHex(id).Some?
    ensures var once := AfterDelete(users, id).users;
      && AfterDelete(once, id).users == once
      && AfterDelete(once, id).result == Ok(0)
  {
  }

  /** Sending the stored record back as the update changes nothing. */
  lemma MergeSelf(u: User)
    ensures Merge(u, u.(id := [])) == u
  {
  }

  /** Repeating an update is harmless: merging the same incoming record into
      the merged one gives the merged one. */
  lemma MergeIdempotent(existing: User, incoming: User)
    ensures Merge(Merge(existing, incoming), incoming) == Merge(existing, incoming)
  {
  }

  /** Two users with different CPF texts under two keys share no CPF. */
  lemma TwoUsersUnique(u1: User, u2: User, k1: ObjectId, k2: ObjectId)
    requires k1 != k2 && u1.cpf != u2.cpf
    ensures UniqueCpfs(map[k1 := u1, k2 := u2])
  {
  }

  /** After the update of k2 to u1's CPF, the two keys share a CPF. */
  lemma SharedCpfAfterUpdate(users: Collection, k1: ObjectId, k2: ObjectId, incoming: User)
    requires k1 != k2 && k1 in users && k2 in users && incoming.cpf == users[k1].cpf
    requires Utils.Accepted(incoming.cpf) && incoming.id == []
    ensures var o := AfterUpdate(users, ToHex(k2), incoming);
      o.result.Ok? && !UniqueCpfs(o.users)
  {
    FromHexToHex(k2);
    var o := AfterUpdate(users, ToHex(k2), incoming);
    assert o.users[k2].cpf == o.users[k1].cpf;
  }

  /** Update re-runs IsValidCPF but not the uniqueness check, so it can give
      two users one CPF text: two users with CPFs "00000000000" and
      "11111111111" (both accepted), and the second updated, through a record
      without id, with the first's CPF. */
  lemma UpdateCanDuplicateCpf(u1: User, u2: User, k1: ObjectId, k2: ObjectId)
    requires k1 != k2
    requires u1.cpf == Repeat('0', 11) && u2.cpf == Repeat('1', 11)
    ensures UniqueCpfs(map[k1 := u1, k2 := u2])
    ensures var o := AfterUpdate(map[k1 := u1, k2 := u2], ToHex(k2), u2.(id := [], cpf := u1.cpf));
      o.result.Ok? && !UniqueCpfs(o.users)
  {
    assert u1.cpf[0] != u2.cpf[0];
    TwoUsersUnique(u1, u2, k1, k2);
    Utils.RepeatedDigitAccepted('0');
    SharedCpfAfterUpdate(map[k1 := u1, k2 := u2], k1, k2, u2.(id := [], cpf := u1.cpf));
  }

  /** Sending back the record GetUser returned, as it is, is refused: its id
      field holds the stored id's hex text, which the update would write as a
      string over the ObjectId `_id`. */
  lemma SentBackRecordRefused(users: Collection, k: ObjectId)
    requires WellKeyed(users) && k in users && Utils.Accepted(users[k].cpf)
    ensures AfterUpdate(users, ToHex(k), users[k]).result == Err(ImmutableId)
  {
    FromHexToHex(k);
    assert |users[k].id| == 24;
  }

  // ---------------------------------------------------------------------
  // The service
  // ---------------------------------------------------------------------

  /** UserService: the store's operations over its collection. */
  class UserService {
    var users: Collection

    ghost predicate Valid()
      reads this
    {
      WellKeyed(users)
    }

    /** NewUserService: a service over an existing collection. */
    constructor(collection: Collection)
      requires WellKeyed(collection)
      ensures users == collection && Valid()
    {
      users := collection;
    }

    /** UserExistsByCPF: whether any stored user has exactly this CPF text;
        the count of matching users is positive. */
    method UserExistsByCpf(cpf: Bytes) returns (taken: bool)
      ensures taken <==> exists k | k in users :: users[k].cpf == cpf
    {
      var matching := set k | k in users && users[k].cpf == cpf;
      taken := |matching| > 0;
      forall k | k in users && users[k].cpf == cpf ensures taken {
        assert k in matching;
      }
      if taken {
        var k :| k in matching;
      }
    }

    /** CreateUser: see AfterCreate; the id the driver generates for the
        insert is a parameter. */
    method CreateUser(user: User, generated: ObjectId) returns (r: Result<ObjectId, UserError>)
      requires Valid()
      modifies this
      ensures Valid()
      ensures Outcome(r, users) == AfterCreate(old(users), user, generated)
    {
      var valid := Utils.IsValidCpf(user.cpf);
      if !valid {
        return Err(InvalidCpf);
      }
      var taken := UserExistsByCpf(user.cpf);
      if taken {
        return Err(CpfExists);
      }
      if generated in users {
        return Err(DuplicateKey);
      }
      users := users[generated := user.(id := ToHex(generated))];
      r := Ok(generated);
      CreateKeepsWellKeyed(old(users), user, generated);
    }

    /** GetUser: the stored user whose id the text spells. */
    method GetUser(id: Bytes) returns (r: Result<User, UserError>)
      requires Valid()
      ensures FromHex(id).None? ==> r == Err(InvalidId)
      ensures FromHex(id).Some? && FromHex(id).value !in users ==> r == Err(NotFound)
      ensures r.Ok? ==> FromHex(id).Some? && FromHex(id).value in users
      ensures FromHex(id).Some? && FromHex(id).value in users ==> r == Ok(users[FromHex(id).value])
      ensures r.Ok? ==> r.value == users[FromHex(id).value] && FromHex(r.value.id) == FromHex(id)
    {
      var objId := FromHex(id);
      if objId.None? {
        return Err(InvalidId);
      }
      if objId.value !in users {
        return Err(NotFound);
      }
      r := Ok(users[objId.value]);
      FromHexToHex(objId.value);
    }

    /** UpdateUser: see AfterUpdate; the incoming record is completed field
        by field before it is written. */
    method UpdateUser(id: Bytes, incoming: User) returns (r: Result<(), UserError>)
      requires Valid()
      modifies this
      ensures Valid()
      ensures Outcome(r, users) == AfterUpdate(old(users), id, incoming)
    {
      var valid := Utils.IsValidCpf(incoming.cpf);
      if !valid {
        return Err(InvalidCpf);
      }
      var objId := FromHex(id);
      if objId.None? {
        return Err(InvalidId);
      }
      if objId.value !in users {
        return Err(NotFound);
      }
      if incoming.id != [] {
        return Err(ImmutableId);
      }
      var existing := users[objId.value];
      var user := incoming;
      if user.password == [] {
        user := user.(password := existing.password);
      }
      if user.status == [] {
        user := user.(status := existing.status);
      }
      users := users[objId.value := user.(id := existing.id)];
      r := Ok(());
      UpdateKeepsWellKeyed(old(users), id, incoming);
    }

    /** DeleteUser: see AfterDelete; returns the number of users removed. */
    method DeleteUser(id: Bytes) returns (r: Result<nat, UserError>)
      requires Valid()
      modifies this
      ensures Valid()
      ensures Outcome(r, users) == AfterDelete(old(users), id)
    {
      var objId := FromHex(id);
      if objId.None? {
        return Err(InvalidId);
      }
      var count := if objId.value in users then 1 else 0;
      users := users - {objId.value};
      r := Ok(count);
    }

    /** UpdatePassword: see AfterPasswordUpdate. */
    method UpdatePassword(id: Bytes, hash: Bytes) returns (r: Result<(), UserError>)
      requires Valid()
      modifies this
      ensures Valid()
      ensures Outcome(r, users) == AfterPasswordUpdate(old(users), id, hash)
    {
      var objId := FromHex(id);
      if objId.None? {
        return Err(InvalidId);
      }
      if objId.value in users {
        users := users[objId.value := users[objId.value].(password := hash, status := Active)];
      }
      r := Ok(());
    }

    /** GetUserByCPF: some stored user with exactly this CPF text; which one
        is the store's choice when several match. */
    method GetUserByCpf(cpf: Bytes) returns (r: Result<User, UserError>)
      ensures r.Err? <==> !CpfTaken(users, cpf)
      ensures r.Err? ==> r.error == NotFound
      ensures r.Ok? ==> r.value.cpf == cpf && r.value in users.Values
    {
      if k :| k in users && users[k].cpf == cpf {
        r := Ok(users[k]);
      } else {
        r := Err(NotFound);
      }
    }
  }

  /** With unique CPFs, the user GetUserByCPF finds is determined. */
  lemma UniqueCpfDeterminesUser(users: Collection, a: User, b: User)
    requires UniqueCpfs(users)
    requires a in users.Values && b in users.Values && a.cpf == b.cpf
    ensures a == b
  {
    var ka :| ka in users && users[ka] == a;
    var kb :| kb in users && users[kb] == b;
  }
}
