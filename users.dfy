/**
 * The user repository: `NeDbWrapper` in src/srv/NeDbWrapper.ts. It owns one
 * collection of system users, seeds it with a default administrator on first
 * run, answers the two user queries and creates users after three checks.
 *
 * Asynchronous steps are read as sequential ones. A JavaScript promise is
 * modelled as a value that settles at most once: once rejected or resolved,
 * later calls to `reject` or `resolve` have no effect.
 */
module Users {
  import opened Store

  const PasswordTooShort := "Password must be at least 8 characters long"
  const NameMissing := "User must have a name"
  const RoleMissing := "User must have at least 1 role"

  /** The administrator seeded into an empty collection. */
  function DefaultAdmin(): User
  {
    User(Some(0), "admin", None, "adminSecret", [0])
  }

  /** A promise: pending until the first `resolve` or `reject` settles it. */
  datatype Promise<T> = Pending | Fulfilled(value: T) | Rejected(reason: string)
  {
    function Reject(why: string): Promise<T>
    {
      if Pending? then Rejected(why) else this
    }

    function Resolve(v: T): Promise<T>
    {
      if Pending? then Fulfilled(v) else this
    }
  }

  /** The collection after first-run bootstrap: the default admin is added only to an empty one. */
  function Bootstrapped(rs: seq<StoredRecord>): seq<StoredRecord>
  {
    if CountMatching(rs, MatchAll) < 1 then rs + [NextRecord(rs, Plain(DefaultAdmin()))] else rs
  }

  /** The message of the first of `createUser`'s three checks that fails, if any. */
  function FirstFailedCheck(u: User): Option<string>
  {
    if |u.password| < 8 then Some(PasswordTooShort)
    else if |u.name| < 1 then Some(NameMissing)
    else if |u.roleIds| < 1 then Some(RoleMissing)
    else None
  }

  /** How the promise `createUser` returns settles, given the record its insert stored. */
  function CreateUserOutcome(u: User, inserted: StoredRecord): Promise<StoredRecord>
  {
    match FirstFailedCheck(u)
    case Some(message) => Rejected(message)
    case None => Fulfilled(inserted)
  }

  /** The stored object has a top-level `id` that is one of `ids`. */
  predicate HasIdIn(r: StoredRecord, ids: seq<int>)
  {
    r.body.Plain? && r.body.user.id.Some? && r.body.user.id.value in ids
  }

  class NeDbWrapper {
    const users: CustomStore

    predicate Valid()
      reads this, users
    {
      users.Valid()
    }

    /** Opens the users collection, loaded with `persisted`, and runs the first-run bootstrap. */
    constructor (persisted: seq<StoredRecord>)
      requires KeysDistinct(persisted)
      ensures Valid() && fresh(users)
      ensures users.records == Bootstrapped(persisted)
      ensures users.name == "System Users"
      ensures users.description == "Collection of documents describing system users - handle with care"
      ensures users.readingRoleIds == [0] && users.writingRoleIds == [0]
    {
      users := new CustomStore(persisted, "System Users",
        "Collection of documents describing system users - handle with care", [0], [0]);
      new;
      Bootstrap();
    }

    /** If the collection counts fewer than one record, inserts the default admin. */
    method Bootstrap()
      requires Valid()
      modifies users
      ensures Valid()
      ensures users.records == Bootstrapped(old(users.records))
    {
      var counter := users.Count(MatchAll);
      if counter < 1 {
        var user := users.Add(Plain(DefaultAdmin()));
      }
    }

    /** `getUsers`: every stored record. */
    function GetUsers(): (rs: seq<StoredRecord>)
      reads this, users
      ensures rs == users.records
    {
      users.Query(MatchAll)
    }

    /** `getUsersByIds`: the stored records whose top-level `id` is one of `ids`. */
    function GetUsersByIds(ids: seq<int>): (rs: seq<StoredRecord>)
      reads this, users
      ensures forall r :: r in rs <==> r in users.records && HasIdIn(r, ids)
      ensures forall r :: multiset(rs)[r] == if HasIdIn(r, ids) then multiset(users.records)[r] else 0
      ensures |rs| <= |users.records|
    {
      users.Query(IdIn(ids))
    }

    /**
     * `createUser`: each failing check rejects the promise but does not stop
     * the executor, so the insert of `{ user }` always happens and then
     * resolves the promise, which only takes effect if no check failed.
     */
    method CreateUser(user: User) returns (settled: Promise<StoredRecord>)
      requires Valid()
      modifies users
      ensures Valid()
      ensures users.records == old(users.records) + [NextRecord(old(users.records), Wrapped(user))]
      ensures settled == CreateUserOutcome(user, NextRecord(old(users.records), Wrapped(user)))
    {
      var p: Promise<StoredRecord> := Pending;
      if |user.password| < 8 {
        p := p.Reject(PasswordTooShort);
      }
      if |user.name| < 1 {
        p := p.Reject(NameMissing);
      }
      if |user.roleIds| < 1 {
        p := p.Reject(RoleMissing);
      }
      var result := users.Add(Wrapped(user));
      p := p.Resolve(result);
      settled := p;
    }
  }

  /** On an empty collection, bootstrap leaves exactly the default admin, findable by id 0. */
  lemma BootstrapSeedsAdmin(rs: seq<StoredRecord>)
    requires rs == []
    ensures |Bootstrapped(rs)| == 1
    ensures Bootstrapped(rs)[0].body == Plain(User(Some(0), "admin", None, "adminSecret", [0]))
    ensures Select(Bootstrapped(rs), IdIn([0])) == Bootstrapped(rs)
  {
  }

  /** On a collection holding at least one record, bootstrap changes nothing. */
  lemma BootstrapKeepsPopulated(rs: seq<StoredRecord>)
    requires |rs| >= 1
    ensures Bootstrapped(rs) == rs
  {
    CountAllIsLength(rs);
  }

  /** Running bootstrap a second time never adds another admin. */
  lemma BootstrapIdempotent(rs: seq<StoredRecord>)
    ensures Bootstrapped(Bootstrapped(rs)) == Bootstrapped(rs)
  {
    CountAllIsLength(rs);
    BootstrapKeepsPopulated(Bootstrapped(rs));
  }

  /** Bootstrap keeps every record already stored, in place, and adds at most one. */
  lemma BootstrapExtends(rs: seq<StoredRecord>)
    ensures Bootstrapped(rs)[..|rs|] == rs
    ensures |rs| <= |Bootstrapped(rs)| <= |rs| + 1
  {
  }

  /** A password shorter than 8 characters is rejected, whatever the other fields. */
  lemma ShortPasswordRejected(u: User, inserted: StoredRecord)
    requires |u.password| < 8
    ensures CreateUserOutcome(u, inserted) == Rejected("Password must be at least 8 characters long")
  {
  }

  /**
   * `createUser` never looks up the name: a valid user whose name is already
   * stored is still inserted and the promise resolves, leaving two records
   * under the same name.
   */
  lemma CreateUserAcceptsTakenName(rs: seq<StoredRecord>, u: User, i: nat)
    requires i < |rs| && rs[i].body.user.name == u.name
    requires |u.password| >= 8 && |u.name| >= 1 && |u.roleIds| >= 1
    ensures CreateUserOutcome(u, NextRecord(rs, Wrapped(u))) == Fulfilled(NextRecord(rs, Wrapped(u)))
    ensures var after := rs + [NextRecord(rs, Wrapped(u))];
      i != |rs| && after[i].body.user.name == after[|rs|].body.user.name
  {
  }

  /** With a valid password, an empty name is the reason given. */
  lemma NamelessUserRejected(u: User, inserted: StoredRecord)
    requires |u.password| >= 8 && u.name == []
    ensures CreateUserOutcome(u, inserted) == Rejected("User must have a name")
  {
  }

  /** With a valid password and a name, an empty role list is the reason given. */
  lemma RolelessUserRejected(u: User, inserted: StoredRecord)
    requires |u.password| >= 8 && |u.name| >= 1 && u.roleIds == []
    ensures CreateUserOutcome(u, inserted) == Rejected("User must have at least 1 role")
  {
  }

  /** The promise resolves, with the inserted record, exactly when all three checks pass. */
  lemma CreateUserFulfilledIffValid(u: User, inserted: StoredRecord)
    ensures CreateUserOutcome(u, inserted).Fulfilled? <==>
      |u.password| >= 8 && |u.name| >= 1 && |u.roleIds| >= 1
    ensures CreateUserOutcome(u, inserted).Fulfilled? ==> CreateUserOutcome(u, inserted).value == inserted
    ensures CreateUserOutcome(u, inserted).Pending? == false
  {
  }

  /**
   * A user created by `createUser` is stored under the key `user`, so it has
   * no top-level `id`: `getUsersByIds` does not see it, whatever its id.
   */
  lemma CreatedUserNotFoundById(rs: seq<StoredRecord>, u: User, ids: seq<int>)
    ensures Select(rs + [NextRecord(rs, Wrapped(u))], IdIn(ids)) == Select(rs, IdIn(ids))
  {
    SelectAppend(rs, NextRecord(rs, Wrapped(u)), IdIn(ids));
  }

  /** A bootstrapped record is seen by `getUsersByIds` exactly when 0 is among the ids. */
  lemma {:induction false} AdminFoundByIdZero(ids: seq<int>)
    ensures Select(Bootstrapped([]), IdIn(ids)) == (if 0 in ids then Bootstrapped([]) else [])
  {
    SelectAppend([], NextRecord([], Plain(DefaultAdmin())), IdIn(ids));
  }
}
