/** The query-builder primitives the controllers and views use, on tables held
    as sequences of rows in insertion order: `where(...)->get()`, `->first()`,
    `->exists()`, `->count()`, `->pluck(...)` and `distinct(...)->count()`. */
module Query {
  import opened Domain

  /** `where(p)->first()`: the position of the first row that satisfies `p`. */
  function First<T>(rows: seq<T>, p: T -> bool): (r: Option<nat>)
    ensures r.Some? ==> r.value < |rows| && p(rows[r.value])
    ensures r.Some? ==> forall j :: 0 <= j < r.value ==> !p(rows[j])
    ensures r.None? <==> forall j :: 0 <= j < |rows| ==> !p(rows[j])
  {
    if |rows| == 0 then None
    else if p(rows[0]) then Some(0)
    else match First(rows[1..], p)
      case None => None
      case Some(k) => Some(k + 1)
  }

  /** `where(p)->exists()`. */
  function Exists<T>(rows: seq<T>, p: T -> bool): (b: bool)
    ensures b <==> exists j :: 0 <= j < |rows| && p(rows[j])
  {
    First(rows, p).Some?
  }

  /** `where(p)->get()`: the rows that satisfy `p`, in table order. */
  function Where<T>(rows: seq<T>, p: T -> bool): (r: seq<T>)
    ensures forall j :: 0 <= j < |r| ==> r[j] in rows && p(r[j])
    ensures forall j :: 0 <= j < |rows| && p(rows[j]) ==> rows[j] in r
    ensures |r| <= |rows|
  {
    if |rows| == 0 then []
    else (if p(rows[0]) then [rows[0]] else []) + Where(rows[1..], p)
  }

  /** `where(p)->count()`. */
  function Count<T>(rows: seq<T>, p: T -> bool): nat {
    |Where(rows, p)|
  }

  /** `->pluck(key)`. */
  function Pluck<T, K>(rows: seq<T>, key: T -> K): (r: seq<K>)
    ensures |r| == |rows|
    ensures forall j :: 0 <= j < |rows| ==> r[j] == key(rows[j])
  {
    if |rows| == 0 then [] else [key(rows[0])] + Pluck(rows[1..], key)
  }

  /** The set of values `key` takes on the rows: `distinct(key)` before `count()`. */
  function Keys<T, K>(rows: seq<T>, key: T -> K): (r: set<K>)
    ensures forall j :: 0 <= j < |rows| ==> key(rows[j]) in r
    ensures forall k :: k in r ==> exists j :: 0 <= j < |rows| && key(rows[j]) == k
  {
    if |rows| == 0 then {} else {key(rows[0])} + Keys(rows[1..], key)
  }

  /** The first `n` rows: `->take(n)`. */
  function Take<T>(rows: seq<T>, n: nat): (r: seq<T>)
    ensures |r| <= n && |r| <= |rows|
    ensures |r| == if |rows| < n then |rows| else n
    ensures r == rows[..|r|]
  {
    if |rows| <= n then rows else rows[..n]
  }

  /** `f` applied to every row, or None as soon as one row gives None: a
      page that reads a property of a missing related row fails as a whole. */
  function MapAll<T, U>(rows: seq<T>, f: T -> Option<U>): (r: Option<seq<U>>)
    ensures r.Some? <==> forall j :: 0 <= j < |rows| ==> f(rows[j]).Some?
    ensures r.Some? ==> |r.value| == |rows|
    ensures r.Some? ==> forall j :: 0 <= j < |rows| ==> Some(r.value[j]) == f(rows[j])
  {
    if |rows| == 0 then Some([])
    else
      var rest := MapAll(rows[1..], f);
      assert forall j :: 1 <= j < |rows| ==> rows[1..][j - 1] == rows[j];
      if f(rows[0]).None? || rest.None? then None
      else
        var r := [f(rows[0]).value] + rest.value;
        assert forall j :: 1 <= j < |rows| ==> r[j] == rest.value[j - 1];
        Some(r)
  }

  /** The rows in the opposite order: `->latest()` on a table whose rows are
      stored in creation order, newest first. */
  function Reverse<T>(rows: seq<T>): (r: seq<T>)
    ensures |r| == |rows|
    ensures forall j :: 0 <= j < |rows| ==> r[j] == rows[|rows| - 1 - j]
  {
    if |rows| == 0 then [] else Reverse(rows[1..]) + [rows[0]]
  }

  /** A value is among the filtered rows exactly when it is a row that passes. */
  lemma WhereMembership<T>(rows: seq<T>, p: T -> bool, x: T)
    ensures x in Where(rows, p) <==> x in rows && p(x)
  {
    if x in Where(rows, p) {
      var j :| 0 <= j < |Where(rows, p)| && Where(rows, p)[j] == x;
    }
    if x in rows && p(x) {
      var j :| 0 <= j < |rows| && rows[j] == x;
    }
  }

  /** `WhereMembership` for every value at once. */
  lemma WhereMembers<T>(rows: seq<T>, p: T -> bool)
    ensures forall x :: x in Where(rows, p) <==> x in rows && p(x)
  {
    forall x ensures x in Where(rows, p) <==> x in rows && p(x) {
      WhereMembership(rows, p, x);
    }
  }

  /** No two rows share a key: the uniqueness the code maintains by checking
      before it inserts (no unique index is relied on). */
  ghost predicate UniqueBy<T, K>(rows: seq<T>, key: T -> K) {
    forall i, j :: 0 <= i < j < |rows| ==> key(rows[i]) != key(rows[j])
  }

  /** Every key is below `bound`: the ids the next insert may take are fresh. */
  ghost predicate KeysBelow<T>(rows: seq<T>, key: T -> Id, bound: Id) {
    forall i :: 0 <= i < |rows| ==> key(rows[i]) < bound
  }

  /** Filtering keeps keys unique. */
  lemma {:induction false} WhereKeepsUnique<T, K>(rows: seq<T>, p: T -> bool, key: T -> K)
    requires UniqueBy(rows, key)
    ensures UniqueBy(Where(rows, p), key)
  {
    if |rows| > 0 {
      var tail := rows[1..];
      assert UniqueBy(tail, key) by {
        forall i, j | 0 <= i < j < |tail| ensures key(tail[i]) != key(tail[j]) {
          assert tail[i] == rows[i + 1] && tail[j] == rows[j + 1];
        }
      }
      WhereKeepsUnique(tail, p, key);
      var w := Where(tail, p);
      if p(rows[0]) {
        var r := [rows[0]] + w;
        assert Where(rows, p) == r;
        forall j | 0 < j < |r| ensures key(r[0]) != key(r[j]) {
          assert r[j] in tail;
          var k :| 0 <= k < |tail| && tail[k] == r[j];
          assert tail[k] == rows[k + 1];
        }
        forall i, j | 0 <= i < j < |r| ensures key(r[i]) != key(r[j]) {
          if i > 0 {
            assert r[i] == w[i - 1] && r[j] == w[j - 1];
          }
        }
      } else {
        assert Where(rows, p) == w;
      }
    }
  }

  /** Filtering a table with one more row at the end: the row is kept at the
      end exactly when it passes. */
  lemma {:induction false} WhereAppend<T>(rows: seq<T>, v: T, p: T -> bool)
    ensures Where(rows + [v], p) == Where(rows, p) + (if p(v) then [v] else [])
  {
    if |rows| > 0 {
      assert (rows + [v])[1..] == rows[1..] + [v];
      WhereAppend(rows[1..], v, p);
    } else {
      assert (rows + [v])[1..] == [];
    }
  }

  /** When keys are unique, there are exactly as many distinct keys as rows. */
  lemma {:induction false} UniqueKeysCount<T, K>(rows: seq<T>, key: T -> K)
    requires UniqueBy(rows, key)
    ensures |Keys(rows, key)| == |rows|
  {
    if |rows| > 0 {
      var tail := rows[1..];
      assert UniqueBy(tail, key) by {
        forall i, j | 0 <= i < j < |tail| ensures key(tail[i]) != key(tail[j]) {
          assert tail[i] == rows[i + 1] && tail[j] == rows[j + 1];
        }
      }
      UniqueKeysCount(tail, key);
      forall j | 0 <= j < |tail| ensures key(tail[j]) != key(rows[0]) {
        assert tail[j] == rows[j + 1];
      }
      assert key(rows[0]) !in Keys(tail, key);
    }
  }

  /** There are never more distinct keys than rows. */
  lemma {:induction false} KeysAtMostRows<T, K>(rows: seq<T>, key: T -> K)
    ensures |Keys(rows, key)| <= |rows|
  {
    if |rows| > 0 {
      KeysAtMostRows(rows[1..], key);
    }
  }

  /** A set of keys all drawn from `rows` is no larger than `rows`. */
  lemma KeySubsetAtMostRows<T, K>(ks: set<K>, rows: seq<T>, key: T -> K)
    requires ks <= Keys(rows, key)
    ensures |ks| <= |rows|
  {
    KeysAtMostRows(rows, key);
    SubsetCardinality(ks, Keys(rows, key));
  }

  /** A key is among the distinct keys of the filtered rows exactly when some
      row passes the filter and has that key. */
  lemma KeysOfWhere<T, K>(rows: seq<T>, p: T -> bool, key: T -> K, k: K)
    ensures k in Keys(Where(rows, p), key) <==> exists x :: x in rows && p(x) && key(x) == k
  {
    var w := Where(rows, p);
    if k in Keys(w, key) {
      var j :| 0 <= j < |w| && key(w[j]) == k;
      assert w[j] in rows && p(w[j]);
    }
    if exists x :: x in rows && p(x) && key(x) == k {
      var x :| x in rows && p(x) && key(x) == k;
      WhereMembership(rows, p, x);
      var j :| 0 <= j < |w| && w[j] == x;
    }
  }

  lemma SubsetCardinality<K>(a: set<K>, b: set<K>)
    requires a <= b
    ensures |a| <= |b|
  {
    assert b == a + (b - a);
  }

  /** The row test `where(key, k)`. */
  function HasKey<T, K(==)>(key: T -> K, k: K): T -> bool {
    x => key(x) == k
  }

  /** The position of the first row whose key is `k`. */
  function Locate<T, K(==)>(rows: seq<T>, key: T -> K, k: K): (r: Option<nat>)
    ensures r.Some? ==> r.value < |rows| && key(rows[r.value]) == k
    ensures r.None? <==> forall j :: 0 <= j < |rows| ==> key(rows[j]) != k
  {
    First(rows, HasKey(key, k))
  }

  /** No row before the one `Locate` finds has the key. */
  lemma LocateIsFirst<T, K>(rows: seq<T>, key: T -> K, k: K)
    ensures Locate(rows, key, k).Some? ==> forall j :: 0 <= j < Locate(rows, key, k).value ==> key(rows[j]) != k
  {
    var r := First(rows, HasKey(key, k));
    assert r.Some? ==> forall j :: 0 <= j < r.value ==> !HasKey(key, k)(rows[j]);
  }

  /** `find(k)` / `where(key, k)->first()`: the first row whose key is `k`. */
  function Find<T, K(==)>(rows: seq<T>, key: T -> K, k: K): (r: Option<T>)
    ensures r.Some? ==> r.value in rows && key(r.value) == k
    ensures r.None? <==> forall j :: 0 <= j < |rows| ==> key(rows[j]) != k
  {
    match Locate(rows, key, k)
    case None => None
    case Some(i) => Some(rows[i])
  }

  /** `->delete()` of one row. */
  function RemoveAt<T>(rows: seq<T>, i: nat): (r: seq<T>)
    requires i < |rows|
    ensures |r| == |rows| - 1
    ensures multiset(r) + multiset{rows[i]} == multiset(rows)
    ensures forall j :: 0 <= j < |r| ==> r[j] == if j < i then rows[j] else rows[j + 1]
  {
    assert rows == rows[..i] + [rows[i]] + rows[i + 1..];
    rows[..i] + rows[i + 1..]
  }

  /** `updateOrCreate`: overwrite the first row with `v`'s key, or append `v`. */
  function Upsert<T, K(==)>(rows: seq<T>, key: T -> K, v: T): seq<T> {
    match Locate(rows, key, key(v))
    case Some(i) => rows[i := v]
    case None => rows + [v]
  }

  /** Appending a row with a key not yet present keeps keys unique. */
  lemma AppendKeepsUnique<T, K>(rows: seq<T>, key: T -> K, v: T)
    requires UniqueBy(rows, key)
    requires forall j :: 0 <= j < |rows| ==> key(rows[j]) != key(v)
    ensures UniqueBy(rows + [v], key)
  {
    var r := rows + [v];
    forall i, j | 0 <= i < j < |r| ensures key(r[i]) != key(r[j]) {
      assert r[i] == rows[i];
      if j < |rows| { assert r[j] == rows[j]; }
    }
  }

  /** Replacing a row by one with the same key keeps keys unique. */
  lemma ReplaceKeepsUnique<T, K>(rows: seq<T>, key: T -> K, i: nat, v: T)
    requires UniqueBy(rows, key) && i < |rows| && key(v) == key(rows[i])
    ensures UniqueBy(rows[i := v], key)
  {
  }

  /** Deleting a row keeps keys unique, removes the deleted key and keeps
      every other key exactly where it was present. */
  lemma {:induction false} RemoveAtKeys<T, K>(rows: seq<T>, key: T -> K, i: nat)
    requires UniqueBy(rows, key) && i < |rows|
    ensures UniqueBy(RemoveAt(rows, i), key)
    ensures Locate(RemoveAt(rows, i), key, key(rows[i])).None?
    ensures forall k :: k != key(rows[i]) ==>
              (Locate(RemoveAt(rows, i), key, k).Some? <==> Locate(rows, key, k).Some?)
  {
    var r := RemoveAt(rows, i);
    forall a, b | 0 <= a < b < |r| ensures key(r[a]) != key(r[b]) {
      var a' := if a < i then a else a + 1;
      var b' := if b < i then b else b + 1;
      assert r[a] == rows[a'] && r[b] == rows[b'] && a' < b';
    }
    forall k | k != key(rows[i]) ensures Locate(r, key, k).Some? <==> Locate(rows, key, k).Some? {
      if Locate(rows, key, k).Some? {
        var j := Locate(rows, key, k).value;
        var j' := if j < i then j else j - 1;
        assert j != i && r[j'] == rows[j];
      }
    }
    forall j | 0 <= j < |r| ensures key(r[j]) != key(rows[i]) {
      var j' := if j < i then j else j + 1;
      assert r[j] == rows[j'] && j' != i;
    }
  }

  /** After `updateOrCreate` the keys stay unique, exactly one row carries
      `v`'s key, and that row is `v`. */
  lemma UpsertKeys<T, K>(rows: seq<T>, key: T -> K, v: T)
    requires UniqueBy(rows, key)
    ensures UniqueBy(Upsert(rows, key, v), key)
    ensures Find(Upsert(rows, key, v), key, key(v)) == Some(v)
    ensures |Upsert(rows, key, v)| == |rows| + (if Locate(rows, key, key(v)).Some? then 0 else 1)
  {
    var r := Upsert(rows, key, v);
    match Locate(rows, key, key(v))
    case Some(i) =>
      ReplaceKeepsUnique(rows, key, i, v);
      UniqueLocate(r, key, i);
    case None =>
      AppendKeepsUnique(rows, key, v);
      UniqueLocate(r, key, |rows|);
  }

  /** Under unique keys a row's key locates that very row. */
  lemma UniqueLocate<T, K>(rows: seq<T>, key: T -> K, i: nat)
    requires UniqueBy(rows, key) && i < |rows|
    ensures Locate(rows, key, key(rows[i])) == Some(i)
  {
    var l := Locate(rows, key, key(rows[i]));
    assert l.Some?;
  }

  /** Repeating `updateOrCreate` on the same key is the same as doing it once
      with the last values: there is never a second row. */
  lemma UpsertTwice<T, K>(rows: seq<T>, key: T -> K, v: T, w: T)
    requires key(v) == key(w)
    ensures Upsert(Upsert(rows, key, v), key, w) == Upsert(rows, key, w)
  {
    match Locate(rows, key, key(v))
    case Some(i) =>
      var r := rows[i := v];
      var l := Locate(r, key, key(w));
      assert l.Some? && l.value <= i by {
        assert key(r[i]) == key(w);
      }
    case None =>
      var r := rows + [v];
      var l := Locate(r, key, key(w));
      assert l.Some? && l.value <= |rows| by {
        assert key(r[|rows|]) == key(w);
      }
  }

  /** Under unique keys at most one row carries a key. */
  lemma {:induction false} UniqueCountKey<T, K>(rows: seq<T>, key: T -> K, k: K)
    requires UniqueBy(rows, key)
    ensures Count(rows, HasKey(key, k)) == if Locate(rows, key, k).Some? then 1 else 0
  {
    var w := Where(rows, HasKey(key, k));
    WhereKeepsUnique(rows, HasKey(key, k), key);
    AtMostOneWithKey(w, key, k);
    match Locate(rows, key, k)
    case Some(i) =>
      assert rows[i] in w;
    case None =>
      NoneWithKey(rows, key, k);
  }

  /** Rows with distinct keys that all have key `k`: at most one. */
  lemma AtMostOneWithKey<T, K>(w: seq<T>, key: T -> K, k: K)
    requires UniqueBy(w, key)
    requires forall j :: 0 <= j < |w| ==> key(w[j]) == k
    ensures |w| <= 1
  {
    if |w| >= 2 {
      // w[0] and w[1] both have key `k`, yet their keys differ.
      FirstTwoKeysDiffer(w, key);
      assert false;
    }
  }

  lemma FirstTwoKeysDiffer<T, K>(w: seq<T>, key: T -> K)
    requires UniqueBy(w, key) && |w| >= 2
    ensures key(w[0]) != key(w[1])
  {
  }

  /** No row has key `k`: selecting by it gives nothing. */
  lemma {:induction false} NoneWithKey<T, K>(rows: seq<T>, key: T -> K, k: K)
    requires forall j :: 0 <= j < |rows| ==> key(rows[j]) != k
    ensures Where(rows, HasKey(key, k)) == []
  {
    if |rows| > 0 {
      assert !HasKey(key, k)(rows[0]);
      NoneWithKey(rows[1..], key, k);
    }
  }
}
