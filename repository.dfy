/**
 * The record-store pattern shared by every model file: an ordered list of records
 * identified by an integer id, with "upsert by id" (`save`), "delete by id",
 * "next id = max + 1", "first match or None" finders and list filters.
 * `key` selects the id of a record.
 */
module Repository {
  import opened Wrappers

  /** No two records share an id. */
  ghost predicate UniqueKeys<T>(rows: seq<T>, key: T -> int) {
    forall i, j :: 0 <= i < j < |rows| ==> key(rows[i]) != key(rows[j])
  }

  /** Some record carries id `id`. */
  ghost predicate HasKey<T, K>(rows: seq<T>, key: T -> K, id: K) {
    exists i :: 0 <= i < |rows| && key(rows[i]) == id
  }

  /** The position of the first record with id `id`. */
  function FindIndex<T, K(==)>(rows: seq<T>, key: T -> K, id: K): (r: Option<nat>)
    ensures r.Some? ==> r.value < |rows| && key(rows[r.value]) == id
    ensures r.Some? ==> forall j :: 0 <= j < r.value ==> key(rows[j]) != id
    ensures r.None? ==> forall j :: 0 <= j < |rows| ==> key(rows[j]) != id
  {
    if rows == [] then None
    else if key(rows[0]) == id then Some(0)
    else match FindIndex(rows[1..], key, id)
      case None => None
      case Some(i) => Some(i + 1)
  }

  /** With unique ids, the position of a record is found from its id. */
  lemma FindIndexUnique<T>(rows: seq<T>, key: T -> int, j: nat)
    requires UniqueKeys(rows, key) && j < |rows|
    ensures FindIndex(rows, key, key(rows[j])) == Some(j)
  {
  }

  /** The "first match or None" finder (`find_by_id`, `find_by_email`). */
  function Find<T, K(==)>(rows: seq<T>, key: T -> K, id: K): (r: Option<T>)
    ensures r.None? <==> !HasKey(rows, key, id)
    ensures r.Some? ==> key(r.value) == id
    ensures r.Some? ==> exists i :: 0 <= i < |rows| && rows[i] == r.value
                          && forall j :: 0 <= j < i ==> key(rows[j]) != id
  {
    match FindIndex(rows, key, id)
    case None => None
    case Some(i) => Some(rows[i])
  }

  /**
   * `save`: the first record with the same id is replaced in place; when there is
   * none, the record is appended.
   */
  function Upsert<T>(rows: seq<T>, key: T -> int, x: T): (r: seq<T>)
    ensures HasKey(rows, key, key(x)) ==> |r| == |rows|
    ensures !HasKey(rows, key, key(x)) ==> r == rows + [x]
    ensures forall j :: 0 <= j < |rows| && key(rows[j]) != key(x) ==> r[j] == rows[j]
    ensures exists i :: 0 <= i < |r| && r[i] == x
  {
    match FindIndex(rows, key, key(x))
    case None =>
      var r := rows + [x];
      assert r[|rows|] == x;
      r
    case Some(i) =>
      var r := rows[i := x];
      assert r[i] == x;
      r
  }

  /** After `save`, the finder returns the saved record. */
  lemma {:induction false} FindAfterUpsert<T>(rows: seq<T>, key: T -> int, x: T)
    ensures Find(Upsert(rows, key, x), key, key(x)) == Some(x)
  {
    var r := Upsert(rows, key, x);
    match FindIndex(rows, key, key(x))
    case None =>
      assert r == rows + [x];
      assert r[|rows|] == x;
      assert FindIndex(r, key, key(x)) == Some(|rows|);
    case Some(i) =>
      assert r == rows[i := x];
      assert r[i] == x;
      assert forall j :: 0 <= j < i ==> r[j] == rows[j];
      var v := FindIndex(r, key, key(x));
      assert v.Some? && !(v.value < i) && !(i < v.value);
  }

  /** `save` leaves the finder's answer for every other id unchanged. */
  lemma {:induction false} FindOtherAfterUpsert<T>(rows: seq<T>, key: T -> int, x: T, id: int)
    requires id != key(x)
    ensures Find(Upsert(rows, key, x), key, id) == Find(rows, key, id)
  {
    var r := Upsert(rows, key, x);
    match FindIndex(rows, key, id)
    case None =>
      assert forall j :: 0 <= j < |r| ==> key(r[j]) != id by {
        forall j | 0 <= j < |r| ensures key(r[j]) != id {
          if j < |rows| && key(rows[j]) != key(x) { assert r[j] == rows[j]; }
        }
      }
    case Some(i) =>
      assert r[i] == rows[i];
      assert forall j :: 0 <= j < i ==> key(r[j]) != id by {
        forall j | 0 <= j < i ensures key(r[j]) != id {
          if key(rows[j]) != key(x) { assert r[j] == rows[j]; }
        }
      }
      assert FindIndex(r, key, id) == Some(i);
  }

  /** `save` keeps ids unique. */
  lemma UpsertKeepsUnique<T>(rows: seq<T>, key: T -> int, x: T)
    requires UniqueKeys(rows, key)
    ensures UniqueKeys(Upsert(rows, key, x), key)
  {
    var r := Upsert(rows, key, x);
    match FindIndex(rows, key, key(x))
    case None =>
    case Some(i) =>
      assert r == rows[i := x];
      forall a, b | 0 <= a < b < |r| ensures key(r[a]) != key(r[b]) {
        if a != i && b != i {
          assert r[a] == rows[a] && r[b] == rows[b];
        }
      }
  }

  /** With unique ids, `save` of a record whose id sits at position `j` overwrites position `j`. */
  lemma UpsertAt<T>(rows: seq<T>, key: T -> int, x: T, j: nat)
    requires UniqueKeys(rows, key) && j < |rows| && key(rows[j]) == key(x)
    ensures Upsert(rows, key, x) == rows[j := x]
  {
    FindIndexUnique(rows, key, j);
  }

  /** The loop of `save`: scan for the first record with the same id, replace it or append. */
  method SaveRow<T>(rows: seq<T>, key: T -> int, x: T) returns (r: seq<T>)
    ensures r == Upsert(rows, key, x)
  {
    var i := 0;
    while i < |rows|
      invariant 0 <= i <= |rows|
      invariant forall j :: 0 <= j < i ==> key(rows[j]) != key(x)
    {
      if key(rows[i]) == key(x) {
        r := rows[i := x];
        return;
      }
      i := i + 1;
    }
    r := rows + [x];
  }

  /** The records satisfying `p`, in their original order (a list comprehension with a condition). */
  function Filter<T>(s: seq<T>, p: T -> bool): (r: seq<T>)
    ensures |r| <= |s|
    ensures forall k :: 0 <= k < |r| ==> p(r[k]) && r[k] in s
  {
    if s == [] then [] else (if p(s[0]) then [s[0]] else []) + Filter(s[1..], p)
  }

  /** A record is kept exactly when it is in the list and satisfies the condition. */
  lemma {:induction false} FilterMembership<T>(s: seq<T>, p: T -> bool, x: T)
    ensures x in Filter(s, p) <==> x in s && p(x)
  {
    if s != [] {
      FilterMembership(s[1..], p, x);
      assert s == [s[0]] + s[1..];
    }
  }

  /** Filtering keeps every record it keeps as many times as the list holds it. */
  lemma {:induction false} FilterCount<T>(s: seq<T>, p: T -> bool, x: T)
    ensures multiset(Filter(s, p))[x] == if p(x) then multiset(s)[x] else 0
  {
    if s != [] {
      FilterCount(s[1..], p, x);
      assert s == [s[0]] + s[1..];
    }
  }

  /** Filtering works piecewise, so the kept records stay in their original order. */
  lemma {:induction false} FilterConcat<T>(a: seq<T>, b: seq<T>, p: T -> bool)
    ensures Filter(a + b, p) == Filter(a, p) + Filter(b, p)
  {
    if a == [] {
      assert a + b == b;
    } else {
      assert (a + b)[1..] == a[1..] + b;
      FilterConcat(a[1..], b, p);
    }
  }

  /** A filter that every record passes keeps the whole list. */
  lemma {:induction false} FilterAll<T>(s: seq<T>, p: T -> bool)
    requires forall k :: 0 <= k < |s| ==> p(s[k])
    ensures Filter(s, p) == s
  {
    if s != [] {
      FilterAll(s[1..], p);
    }
  }

  /** Two filters applied one after the other keep the records that pass both. */
  lemma {:induction false} FilterTwice<T>(s: seq<T>, p: T -> bool, q: T -> bool, pq: T -> bool)
    requires forall x :: pq(x) == (p(x) && q(x))
    ensures Filter(Filter(s, p), q) == Filter(s, pq)
  {
    if s != [] {
      FilterTwice(s[1..], p, q, pq);
      if p(s[0]) {
        assert Filter(s, p) == [s[0]] + Filter(s[1..], p);
        FilterConcat([s[0]], Filter(s[1..], p), q);
        assert [s[0]][1..] == [];
      } else {
        assert Filter(s, p) == Filter(s[1..], p);
      }
    }
  }

  /** `delete`: every record with id `id` is dropped (a comprehension over the list). */
  function Delete<T>(rows: seq<T>, key: T -> int, id: int): (r: seq<T>)
    ensures !HasKey(r, key, id)
  {
    Filter(rows, (x: T) => key(x) != id)
  }

  /** `delete` keeps every record with another id, as often as before and in the original order. */
  lemma DeleteKeepsOthers<T>(rows: seq<T>, key: T -> int, id: int, x: T)
    requires key(x) != id
    ensures multiset(Delete(rows, key, id))[x] == multiset(rows)[x]
  {
    FilterCount(rows, (y: T) => key(y) != id, x);
  }

  /** Deleting an id that is not stored changes nothing. */
  lemma DeleteAbsent<T>(rows: seq<T>, key: T -> int, id: int)
    requires !HasKey(rows, key, id)
    ensures Delete(rows, key, id) == rows
  {
    FilterAll(rows, (y: T) => key(y) != id);
  }

  /** The largest id in a non-empty list. */
  function MaxKey<T>(rows: seq<T>, key: T -> int): (m: int)
    requires |rows| > 0
    ensures forall j :: 0 <= j < |rows| ==> key(rows[j]) <= m
    ensures exists j :: 0 <= j < |rows| && key(rows[j]) == m
  {
    if |rows| == 1 then key(rows[0])
    else
      var m := MaxKey(rows[1..], key);
      if key(rows[0]) > m then key(rows[0]) else m
  }

  /** `get_next_id`: `first` on an empty list, otherwise the largest id plus one. */
  function NextId<T>(rows: seq<T>, key: T -> int, first: int): (n: int)
    ensures |rows| == 0 ==> n == first
    ensures |rows| > 0 ==> exists j :: 0 <= j < |rows| && key(rows[j]) == n - 1
    ensures forall j :: 0 <= j < |rows| ==> key(rows[j]) < n
  {
    if |rows| == 0 then first else MaxKey(rows, key) + 1
  }

  /** The id `get_next_id` hands out is not yet stored, so `save` appends the new record. */
  lemma SaveNewAppends<T>(rows: seq<T>, key: T -> int, first: int, x: T)
    requires key(x) == NextId(rows, key, first)
    ensures Upsert(rows, key, x) == rows + [x]
    ensures UniqueKeys(rows, key) ==> UniqueKeys(rows + [x], key)
  {
  }

  /**
   * `list.remove(v)`: drop the first occurrence of `v`, keeping the rest in order.
   * Python raises when `v` is absent; every caller checks membership first.
   */
  function RemoveFirst<T(==)>(s: seq<T>, v: T): (r: seq<T>)
    ensures v !in s ==> r == s
    ensures v in s ==> |r| == |s| - 1 && multiset(r) == multiset(s) - multiset{v}
    ensures v in s ==> exists i :: 0 <= i < |s| && s[i] == v && v !in s[..i] && r == s[..i] + s[i + 1..]
  {
    match FindIndex(s, (x: T) => x, v)
    case None => s
    case Some(i) =>
      assert s == s[..i] + [s[i]] + s[i + 1..];
      assert v !in s[..i];
      s[..i] + s[i + 1..]
  }
}
