/**
 * The user collection's storage layer: `CustomStore` in src/srv/NeDbWrapper.ts,
 * a thin promise wrapper around one nedb datastore. The datastore is modelled
 * abstractly as the sequence of stored records it holds, each under a unique
 * internal key (nedb's `_id`), with the three primitives the wrapper exposes:
 * count, add (insert) and query (find).
 */
module Store {

  datatype Option<+T> = None | Some(value: T)

  /** The `I_dbUser` shape: `id` and `email` are optional, `roleIds` a list. */
  datatype User = User(id: Option<int>, name: string, email: Option<string>, password: string, roleIds: seq<int>)

  /**
   * The object handed to the datastore's insert. Bootstrap inserts the user
   * record itself; `createUser` inserts `{ user }`, an object whose only
   * field is `user`, so the user's fields are not at its top level.
   */
  datatype Body = Plain(user: User) | Wrapped(user: User)

  /** A stored record: the inserted object plus the key the datastore assigned. */
  datatype StoredRecord = StoredRecord(key: nat, body: Body)

  /** The two filter shapes the wrapper is ever called with: `{}` and `{ id: { $in: ids } }`. */
  datatype Filter = MatchAll | IdIn(ids: seq<int>)

  /** The `id` field at the top level of a stored object, if it has one. */
  function TopLevelId(b: Body): Option<int>
  {
    match b
    case Plain(u) => u.id
    case Wrapped(_) => None
  }

  predicate Matches(f: Filter, r: StoredRecord)
  {
    match f
    case MatchAll => true
    case IdIn(ids) => TopLevelId(r.body).Some? && TopLevelId(r.body).value in ids
  }

  /** The datastore never holds two records under one key. */
  predicate KeysDistinct(rs: seq<StoredRecord>)
  {
    forall i, j :: 0 <= i < j < |rs| ==> rs[i].key != rs[j].key
  }

  /** The records of `rs` that `f` matches, in store order. */
  function Select(rs: seq<StoredRecord>, f: Filter): seq<StoredRecord>
  {
    if rs == [] then []
    else Select(rs[..|rs| - 1], f) + (if Matches(f, rs[|rs| - 1]) then [rs[|rs| - 1]] else [])
  }

  /** How many records of `rs` the filter `f` matches, counted one by one. */
  function CountMatching(rs: seq<StoredRecord>, f: Filter): nat
  {
    if rs == [] then 0
    else CountMatching(rs[..|rs| - 1], f) + (if Matches(f, rs[|rs| - 1]) then 1 else 0)
  }

  /** A key that no record of `rs` uses: one above the largest key in use. */
  function FreshKey(rs: seq<StoredRecord>): (k: nat)
    ensures forall i :: 0 <= i < |rs| ==> rs[i].key < k
  {
    if rs == [] then 0
    else
      var below := FreshKey(rs[..|rs| - 1]);
      if rs[|rs| - 1].key < below then below else rs[|rs| - 1].key + 1
  }

  /** The record the datastore stores when `body` is inserted into `rs`. */
  function NextRecord(rs: seq<StoredRecord>, body: Body): StoredRecord
  {
    StoredRecord(FreshKey(rs), body)
  }

  /** A query returns exactly the stored records the filter matches. */
  lemma {:induction false} SelectMembers(rs: seq<StoredRecord>, f: Filter, r: StoredRecord)
    ensures r in Select(rs, f) <==> r in rs && Matches(f, r)
  {
    if rs != [] {
      var init := rs[..|rs| - 1];
      SelectMembers(init, f, r);
      assert rs == init + [rs[|rs| - 1]];
    }
  }

  /** A query returns each matching record as often as it is stored, and no other record. */
  lemma {:induction false} SelectMultiplicity(rs: seq<StoredRecord>, f: Filter, r: StoredRecord)
    ensures multiset(Select(rs, f))[r] == if Matches(f, r) then multiset(rs)[r] else 0
  {
    if rs != [] {
      var init := rs[..|rs| - 1];
      SelectMultiplicity(init, f, r);
      assert rs == init + [rs[|rs| - 1]];
    }
  }

  /** The match-all filter returns the whole collection. */
  lemma {:induction false} SelectAll(rs: seq<StoredRecord>)
    ensures Select(rs, MatchAll) == rs
  {
    if rs != [] {
      SelectAll(rs[..|rs| - 1]);
      assert rs == rs[..|rs| - 1] + [rs[|rs| - 1]];
    }
  }

  /** A query never returns more records than are stored. */
  lemma {:induction false} SelectLength(rs: seq<StoredRecord>, f: Filter)
    ensures |Select(rs, f)| <= |rs|
  {
    if rs != [] {
      SelectLength(rs[..|rs| - 1], f);
    }
  }

  /** Under distinct keys, no record is stored twice. */
  lemma {:induction false} KeysDistinctStoresOnce(rs: seq<StoredRecord>, r: StoredRecord)
    requires KeysDistinct(rs)
    ensures multiset(rs)[r] <= 1
  {
    if rs != [] {
      var init := rs[..|rs| - 1];
      assert KeysDistinct(init) by {
        forall i, j | 0 <= i < j < |init| ensures init[i].key != init[j].key {
          assert init[i] == rs[i] && init[j] == rs[j];
        }
      }
      KeysDistinctStoresOnce(init, r);
      assert rs == init + [rs[|rs| - 1]];
    }
  }

  /** Counting agrees with the length of the matching query. */
  lemma {:induction false} CountIsSelectLength(rs: seq<StoredRecord>, f: Filter)
    ensures CountMatching(rs, f) == |Select(rs, f)|
  {
    if rs != [] {
      CountIsSelectLength(rs[..|rs| - 1], f);
    }
  }

  /** The match-all count is the size of the collection. */
  lemma {:induction false} CountAllIsLength(rs: seq<StoredRecord>)
    ensures CountMatching(rs, MatchAll) == |rs|
  {
    CountIsSelectLength(rs, MatchAll);
    SelectAll(rs);
  }

  /** Inserting one record changes a query only by that record, at the end, if it matches. */
  lemma SelectAppend(rs: seq<StoredRecord>, r: StoredRecord, f: Filter)
    ensures Select(rs + [r], f) == Select(rs, f) + (if Matches(f, r) then [r] else [])
  {
    assert (rs + [r])[..|rs|] == rs;
  }

  /** Appending a record under a fresh key keeps the keys distinct. */
  lemma AppendFreshKeepsKeysDistinct(rs: seq<StoredRecord>, body: Body)
    requires KeysDistinct(rs)
    ensures KeysDistinct(rs + [NextRecord(rs, body)])
  {
    var rs' := rs + [NextRecord(rs, body)];
    forall i, j | 0 <= i < j < |rs'| ensures rs'[i].key != rs'[j].key {
      if j == |rs| {
        assert rs'[i] == rs[i];
      } else {
        assert rs'[i] == rs[i] && rs'[j] == rs[j];
      }
    }
  }

  /**
   * One nedb collection. `name`, `description` and the role id lists are
   * stored by the constructor and never consulted again.
   */
  class CustomStore {
    var records: seq<StoredRecord>
    const name: string
    const description: string
    const readingRoleIds: seq<int>
    const writingRoleIds: seq<int>

    predicate Valid()
      reads this
    {
      KeysDistinct(records)
    }

    /** Opens the collection; `persisted` is what the datastore loads from its file. */
    constructor (persisted: seq<StoredRecord>, name: string, description: string,
                 readingRoleIds: seq<int>, writingRoleIds: seq<int>)
      requires KeysDistinct(persisted)
      ensures Valid() && records == persisted
      ensures this.name == name && this.description == description
      ensures this.readingRoleIds == readingRoleIds && this.writingRoleIds == writingRoleIds
    {
      records := persisted;
      this.name := name;
      this.description := description;
      this.readingRoleIds := readingRoleIds;
      this.writingRoleIds := writingRoleIds;
    }

    /** `count(query)`: the number of stored records the filter matches. */
    function Count(f: Filter): (n: nat)
      reads this
      ensures n == |Query(f)|
      ensures f == MatchAll ==> n == |records|
      ensures n <= |records|
    {
      CountIsSelectLength(records, f);
      CountAllIsLength(records);
      CountMatching(records, f)
    }

    /** `find(query)`: the stored records the filter matches. */
    function Query(f: Filter): (q: seq<StoredRecord>)
      reads this
      ensures forall r :: r in q <==> r in records && Matches(f, r)
      ensures forall r :: multiset(q)[r] == if Matches(f, r) then multiset(records)[r] else 0
      ensures f == MatchAll ==> q == records
      ensures |q| <= |records|
      ensures Valid() ==> forall r :: multiset(q)[r] <= 1
    {
      SelectAll(records);
      SelectLength(records, f);
      forall r ensures r in Select(records, f) <==> r in records && Matches(f, r) {
        SelectMembers(records, f, r);
      }
      forall r ensures multiset(Select(records, f))[r] == if Matches(f, r) then multiset(records)[r] else 0 {
        SelectMultiplicity(records, f, r);
      }
      assert Valid() ==> forall r :: multiset(Select(records, f))[r] <= 1 by {
        if Valid() {
          forall r ensures multiset(Select(records, f))[r] <= 1 {
            SelectMultiplicity(records, f, r);
            KeysDistinctStoresOnce(records, r);
          }
        }
      }
      Select(records, f)
    }

    /** `insert(document)`: stores `body` under a fresh key and returns the stored record. */
    method Add(body: Body) returns (stored: StoredRecord)
      requires Valid()
      modifies this
      ensures Valid()
      ensures stored.body == body
      ensures forall i :: 0 <= i < |old(records)| ==> old(records)[i].key != stored.key
      ensures stored == NextRecord(old(records), body)
      ensures records == old(records) + [stored]
    {
      AppendFreshKeepsKeysDistinct(records, body);
      stored := NextRecord(records, body);
      records := records + [stored];
    }
  }
}
