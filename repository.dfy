/**
 * The generic repository (MovieLibrary.Data/Repositories/Repository.cs): CRUD over
 * one entity table of the store. The table is a map from primary key to row; the
 * store's identity generator is a counter of keys never handed out. How the store
 * finds a row's key, and writes a generated key into a new row, is given to the
 * repository as the pair `idOf` / `withId` (the ORM learns both from the entity's
 * `Id` property).
 */
module Repositories {
  import opened Wrappers

  /** `s` enumerates the table `rows`, whose rows sit under their own keys: every
      element is the stored row under its key, no key occurs twice, and every stored
      row occurs. */
  ghost predicate IsListing<T>(s: seq<T>, rows: map<int, T>, idOf: T -> int) {
    && (forall k :: k in rows ==> idOf(rows[k]) == k)
    && |s| == |rows|
    && (forall i :: 0 <= i < |s| ==> idOf(s[i]) in rows && rows[idOf(s[i])] == s[i])
    && DistinctKeys(s, idOf)
    && (forall k :: k in rows ==> rows[k] in s)
  }

  /** No two elements of `s` share a key. */
  ghost predicate DistinctKeys<T>(s: seq<T>, idOf: T -> int) {
    forall i, j :: 0 <= i < j < |s| ==> idOf(s[i]) != idOf(s[j])
  }

  /** Elements with pairwise distinct keys occur at most once each. */
  lemma {:induction false} DistinctKeysOccurOnce<T>(s: seq<T>, idOf: T -> int, x: T)
    requires DistinctKeys(s, idOf)
    ensures multiset(s)[x] == if x in s then 1 else 0
  {
    if s != [] {
      var rest := s[1..];
      assert s == [s[0]] + rest;
      assert DistinctKeys(rest, idOf) by {
        forall i, j | 0 <= i < j < |rest| ensures idOf(rest[i]) != idOf(rest[j]) {
          assert rest[i] == s[i + 1] && rest[j] == s[j + 1];
        }
      }
      DistinctKeysOccurOnce(rest, idOf, x);
      if s[0] == x {
        forall j | 0 <= j < |rest| ensures rest[j] != x {
          assert idOf(s[0]) != idOf(s[j + 1]);
        }
      }
    }
  }

  /** Two enumerations of the same table differ only in order: the store's order is
      the only freedom `GetAll` has. */
  lemma ListingsArePermutations<T>(s1: seq<T>, s2: seq<T>, rows: map<int, T>, idOf: T -> int)
    requires IsListing(s1, rows, idOf) && IsListing(s2, rows, idOf)
    ensures multiset(s1) == multiset(s2)
  {
    forall x: T ensures multiset(s1)[x] == multiset(s2)[x] {
      DistinctKeysOccurOnce(s1, idOf, x);
      DistinctKeysOccurOnce(s2, idOf, x);
      assert x in s1 ==> x in s2 by {
        if x in s1 {
          var i :| 0 <= i < |s1| && s1[i] == x;
          assert rows[idOf(x)] == x;
        }
      }
      assert x in s2 ==> x in s1 by {
        if x in s2 {
          var i :| 0 <= i < |s2| && s2[i] == x;
          assert rows[idOf(x)] == x;
        }
      }
    }
  }

  class Repository<T(!new)> {
    /** The entity's key property, read and written. */
    const idOf: T -> int
    const withId: (T, int) -> T

    /** The table: primary key to row. */
    var rows: map<int, T>
    /** The next identity the store will generate. */
    var nextId: int

    /** Writing a key and reading it back gives that key. */
    ghost predicate KeyLaw() {
      forall e: T, k: int :: idOf(withId(e, k)) == k
    }

    /** Keys are positive, below the next identity, and each row sits under its own key. */
    ghost predicate Valid()
      reads this
    {
      && KeyLaw()
      && nextId >= 1
      && (forall k :: k in rows ==> 0 < k < nextId && idOf(rows[k]) == k)
    }

    ghost predicate Lists(s: seq<T>)
      reads this
    {
      IsListing(s, rows, idOf)
    }

    /** A repository over an empty table. */
    constructor (idOf: T -> int, withId: (T, int) -> T)
      requires forall e: T, k: int :: idOf(withId(e, k)) == k
      ensures Valid()
      ensures this.idOf == idOf && this.withId == withId && rows == map[]
    {
      this.idOf := idOf;
      this.withId := withId;
      rows := map[];
      nextId := 1;
    }

    /** The keys in use that lie below `bound`. */
    ghost function KeysBelow(bound: int): set<int>
      reads this
    {
      set k | k in rows && k < bound
    }

    /** Every stored row, unfiltered. The store enumerates the table in ascending key
        order here; the contract promises only that the result lists the table. */
    method GetAll() returns (all: seq<T>)
      requires Valid()
      ensures Lists(all)
    {
      all := [];
      var id := 1;
      while id < nextId
        invariant 1 <= id <= nextId
        invariant |all| == |KeysBelow(id)|
        invariant forall i :: 0 <= i < |all| ==> idOf(all[i]) in rows && idOf(all[i]) < id && rows[idOf(all[i])] == all[i]
        invariant DistinctKeys(all, idOf)
        invariant forall k :: k in rows && k < id ==> rows[k] in all
      {
        if id in rows {
          assert KeysBelow(id + 1) == KeysBelow(id) + {id};
          all := all + [rows[id]];
        } else {
          assert KeysBelow(id + 1) == KeysBelow(id);
        }
        id := id + 1;
      }
      assert KeysBelow(id) == rows.Keys;
    }

    /** Point lookup by primary key; absent when no row has that key. */
    function GetById(id: int): (r: Option<T>)
      requires Valid()
      reads this
      ensures r.Some? <==> id in rows
      ensures r.Some? ==> idOf(r.value) == id && r.value == rows[id]
    {
      if id in rows then Some(rows[id]) else None
    }

    /** Inserts `e` under a freshly generated positive key; `stored` is `e` with that key
        written into it, which is what the caller's entity holds after the call. */
    method Add(e: T) returns (stored: T)
      requires Valid()
      modifies this
      ensures Valid()
      ensures idOf(stored) > 0 && idOf(stored) !in old(rows)
      ensures stored == withId(e, idOf(stored))
      ensures rows == old(rows)[idOf(stored) := stored]
      ensures |rows| == |old(rows)| + 1
      ensures GetById(idOf(stored)) == Some(stored)
    {
      stored := withId(e, nextId);
      assert idOf(stored) == nextId;
      rows := rows[nextId := stored];
      nextId := nextId + 1;
    }

    /** Replaces the row whose key is `idOf(e)` by `e`. The store refuses an update of a
        key it does not hold, so the row must exist. */
    method Update(e: T)
      requires Valid()
      requires idOf(e) in rows
      modifies this
      ensures Valid()
      ensures rows == old(rows)[idOf(e) := e]
      ensures |rows| == |old(rows)|
      ensures forall k :: k in old(rows) && k != idOf(e) ==> k in rows && rows[k] == old(rows)[k]
    {
      rows := rows[idOf(e) := e];
    }

    /** Removes the row with key `id`. The lookup result goes straight to the store's
        remove, which faults on an absent row, so the row must exist. */
    method Delete(id: int)
      requires Valid()
      requires id in rows
      modifies this
      ensures Valid()
      ensures rows == old(rows) - {id}
      ensures |rows| == |old(rows)| - 1
      ensures GetById(id) == None
    {
      var entity := GetById(id).value;
      rows := rows - {idOf(entity)};
    }
  }
}
