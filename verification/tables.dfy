/** Relational tables as sequences of keyed rows.

    A table is kept in the order rows were inserted. Identity keys only grow,
    so a well-formed table is in strictly ascending key order. That order is
    taken to be the order in which a query without `OrderBy` fetches its
    rows; the database itself does not promise any order there. */
module Tables {

  datatype Option<T> = None | Some(value: T) {
    /** The value, or `default` when absent (C#'s `x ?? default`). */
    function GetOr(default: T): T {
      match this
      case Some(v) => v
      case None => default
    }
  }

  /** One row of a table: its identity key and its record. */
  datatype Row<T> = Row(id: int, rec: T)

  type Table<T> = seq<Row<T>>

  function Ids<T(==,!new)>(t: Table<T>): set<int> {
    set r | r in t :: r.id
  }

  predicate Ascending<T(==,!new)>(t: Table<T>) {
    forall i, j :: 0 <= i < j < |t| ==> t[i].id < t[j].id
  }

  function Min(a: int, b: int): int {
    if a <= b then a else b
  }

  /** In an ascending table a key identifies at most one row. */
  lemma AscendingKeyUnique<T(!new)>(t: Table<T>, a: Row<T>, b: Row<T>)
    requires Ascending(t)
    requires a in t && b in t && a.id == b.id
    ensures a == b
  {
    var i :| 0 <= i < |t| && t[i] == a;
    var j :| 0 <= j < |t| && t[j] == b;
    if i < j {
      assert t[i].id < t[j].id;
    } else if j < i {
      assert t[j].id < t[i].id;
    }
  }

  /** `FindAsync(id)`: the record stored under key `id`, if any. */
  function Find<T(==,!new)>(t: Table<T>, id: int): Option<T>
  {
    if |t| == 0 then None
    else if t[0].id == id then Some(t[0].rec)
    else Find(t[1..], id)
  }

  /** The lookup finds a record exactly when some row has the key, and what it
      finds is stored under that key. */
  lemma {:induction false} FindIff<T(!new)>(t: Table<T>, id: int)
    ensures Find(t, id).Some? <==> id in Ids(t)
    ensures Find(t, id).Some? ==> Row(id, Find(t, id).value) in t
    decreases |t|
  {
    if |t| > 0 && t[0].id != id {
      FindIff(t[1..], id);
      assert forall x :: x in t[1..] ==> x in t;
      if id in Ids(t) {
        var x :| x in t && x.id == id;
        var k :| 0 <= k < |t| && t[k] == x;
        assert t[1..][k - 1] == x;
      }
    }
  }

  lemma FindInAscending<T(!new)>(t: Table<T>, x: Row<T>)
    requires Ascending(t) && x in t
    ensures Find(t, x.id) == Some(x.rec)
  {
    var r := Find(t, x.id);
    assert x.id in Ids(t);
    FindIff(t, x.id);
    AscendingKeyUnique(t, Row(x.id, r.value), x);
  }

  /** `Where(p)`: the rows satisfying `p`, in their original order. */
  function Filter<T(==,!new)>(s: seq<T>, p: T -> bool): (r: seq<T>)
    ensures |r| <= |s|
    ensures forall x :: x in r <==> x in s && p(x)
  {
    if |s| == 0 then []
    else
      assert forall x :: x in s <==> x == s[0] || x in s[1..];
      if p(s[0]) then [s[0]] + Filter(s[1..], p) else Filter(s[1..], p)
  }

  lemma FilterAll<T(!new)>(s: seq<T>, p: T -> bool)
    requires forall x :: x in s ==> p(x)
    ensures Filter(s, p) == s
  {
    if |s| > 0 {
      assert forall x :: x in s[1..] ==> x in s;
      FilterAll(s[1..], p);
    }
  }

  lemma FilterSame<T(!new)>(s: seq<T>, p: T -> bool, q: T -> bool)
    requires forall x :: x in s ==> p(x) == q(x)
    ensures Filter(s, p) == Filter(s, q)
  {
    if |s| > 0 {
      assert forall x :: x in s[1..] ==> x in s;
      FilterSame(s[1..], p, q);
    }
  }

  lemma FilterAscending<T(!new)>(t: Table<T>, p: Row<T> -> bool)
    requires Ascending(t)
    ensures Ascending(Filter(t, p))
  {
    if |t| > 0 {
      var rest := t[1..];
      assert Ascending(rest) by {
        forall i, j | 0 <= i < j < |rest| ensures rest[i].id < rest[j].id {
          assert rest[i] == t[i + 1] && rest[j] == t[j + 1];
        }
      }
      FilterAscending(rest, p);
      if p(t[0]) {
        var f := Filter(rest, p);
        forall x | x in f ensures t[0].id < x.id {
          var k :| 0 <= k < |rest| && rest[k] == x;
          assert t[k + 1] == x;
        }
        var g := [t[0]] + f;
        forall i, j | 0 <= i < j < |g| ensures g[i].id < g[j].id {
          assert g[j] == f[j - 1];
          if i > 0 {
            assert g[i] == f[i - 1];
          } else {
            assert f[j - 1] in f;
          }
        }
      }
    }
  }

  /** Filtering an appended row either keeps or drops just that row. */
  lemma FilterAppend<T(!new)>(s: seq<T>, x: T, p: T -> bool)
    ensures Filter(s + [x], p) == Filter(s, p) + (if p(x) then [x] else [])
  {
    if |s| == 0 {
      assert s + [x] == [x];
      assert [x][1..] == [];
    } else {
      assert (s + [x])[0] == s[0];
      assert (s + [x])[1..] == s[1..] + [x];
      FilterAppend(s[1..], x, p);
    }
  }

  /** `Select`-style rewrite of every record, keeping the keys. */
  function MapRows<T(==,!new)>(t: Table<T>, f: Row<T> -> T): (r: Table<T>)
    ensures |r| == |t|
    ensures forall i :: 0 <= i < |t| ==> r[i] == Row(t[i].id, f(t[i]))
  {
    seq(|t|, i requires 0 <= i < |t| => Row(t[i].id, f(t[i])))
  }

  lemma MapRowsAscending<T(!new)>(t: Table<T>, f: Row<T> -> T)
    requires Ascending(t)
    ensures Ascending(MapRows(t, f))
    ensures Ids(MapRows(t, f)) == Ids(t)
  {
    var m := MapRows(t, f);
    forall k | k in Ids(m) ensures k in Ids(t) {
      var x :| x in m && x.id == k;
      var i :| 0 <= i < |m| && m[i] == x;
      assert t[i] in t;
    }
    forall k | k in Ids(t) ensures k in Ids(m) {
      var x :| x in t && x.id == k;
      var i :| 0 <= i < |t| && t[i] == x;
      assert m[i] in m;
    }
  }

  /** Overwrite the record stored under key `id`; other rows are untouched. */
  function Replace<T(==,!new)>(t: Table<T>, id: int, x: T): Table<T> {
    MapRows(t, (r: Row<T>) => if r.id == id then x else r.rec)
  }

  /** Overwriting keeps the keys, and every row afterwards is an old row or
      the new record under `id`. */
  lemma ReplaceRows<T(!new)>(t: Table<T>, id: int, x: T)
    ensures Ids(Replace(t, id, x)) == Ids(t)
    ensures forall r :: r in Replace(t, id, x) ==> r in t || r == Row(id, x)
  {
    var m := Replace(t, id, x);
    MapRowsIds(t, (r: Row<T>) => if r.id == id then x else r.rec);
    forall r | r in m ensures r in t || r == Row(id, x) {
      var i :| 0 <= i < |m| && m[i] == r;
      assert t[i] in t;
    }
  }

  /** Remove the row stored under key `id`. */
  function Remove<T(==,!new)>(t: Table<T>, id: int): Table<T> {
    Filter(t, (r: Row<T>) => r.id != id)
  }

  /** `FirstOrDefault(p)` over a sequence in fetch order. */
  function FirstWhere<T(==,!new)>(s: seq<T>, p: T -> bool): (r: Option<T>)
    ensures r.None? <==> forall x :: x in s ==> !p(x)
    ensures r.Some? ==> exists i :: 0 <= i < |s| && s[i] == r.value && p(s[i]) &&
                                   forall j :: 0 <= j < i ==> !p(s[j])
  {
    if |s| == 0 then None
    else if p(s[0]) then Some(s[0])
    else
      var r := FirstWhere(s[1..], p);
      assert forall x :: x in s <==> x == s[0] || x in s[1..];
      assert r.Some? ==> exists i :: 0 <= i < |s| && s[i] == r.value && p(s[i]) &&
                                     forall j :: 0 <= j < i ==> !p(s[j]) by {
        if r.Some? {
          var i :| 0 <= i < |s[1..]| && s[1..][i] == r.value && p(s[1..][i]) &&
                   forall j :: 0 <= j < i ==> !p(s[1..][j]);
          assert s[i + 1] == r.value;
          forall j | 0 <= j < i + 1 ensures !p(s[j]) {
            if j > 0 { assert s[j] == s[1..][j - 1]; }
          }
        }
      }
      r
  }

  lemma FirstWhereUnique<T(!new)>(s: seq<T>, p: T -> bool, x: T)
    requires x in s && p(x)
    requires forall y :: y in s && p(y) ==> y == x
    ensures FirstWhere(s, p) == Some(x)
  {
  }

  function Reverse<T(==,!new)>(s: seq<T>): (r: seq<T>)
    ensures |r| == |s|
    ensures forall i :: 0 <= i < |s| ==> r[i] == s[|s| - 1 - i]
  {
    seq(|s|, i requires 0 <= i < |s| => s[|s| - 1 - i])
  }

  /** Reversing twice gives the sequence back. */
  lemma ReverseReverse<T(!new)>(s: seq<T>)
    ensures Reverse(Reverse(s)) == s
  {
    var r := Reverse(s);
    assert forall i :: 0 <= i < |s| ==> Reverse(r)[i] == r[|s| - 1 - i] == s[i];
  }

  /** Element `i` ends up at position `|s| - 1 - i`. */
  lemma ReverseAt<T(!new)>(s: seq<T>, i: int)
    requires 0 <= i < |s|
    ensures Reverse(s)[|s| - 1 - i] == s[i]
  {
  }

  /** Reversing keeps exactly the same elements. */
  lemma ReverseSameElements<T(!new)>(s: seq<T>)
    ensures forall x :: x in Reverse(s) <==> x in s
  {
    var r := Reverse(s);
    forall x | x in s ensures x in r {
      var k :| 0 <= k < |s| && s[k] == x;
      assert r[|s| - 1 - k] == x;
    }
  }

  /** The position of an element known to occur in `s`. */
  function IndexOf<T(==)>(s: seq<T>, x: T): (i: nat)
    requires x in s
    ensures i < |s| && s[i] == x
  {
    if s[0] == x then 0 else 1 + IndexOf(s[1..], x)
  }

  /** `t` is `s` followed by zero or more further rows. */
  predicate Extends<T(==)>(t: seq<T>, s: seq<T>) {
    |s| <= |t| && t[..|s|] == s
  }

  lemma ExtendsTrans<T>(u: seq<T>, t: seq<T>, s: seq<T>)
    requires Extends(u, t) && Extends(t, s)
    ensures Extends(u, s)
  {
    assert u[..|s|] == u[..|t|][..|s|];
  }

  /** Under unique keys, overwriting one record changes what a lookup finds
      for that key only. */
  lemma FindReplace<T(!new)>(t: Table<T>, id: int, x: T, k: int)
    requires Ascending(t)
    ensures Find(Replace(t, id, x), k) == if k == id && id in Ids(t) then Some(x) else Find(t, k)
  {
    var m := Replace(t, id, x);
    MapRowsAscending(t, (r: Row<T>) => if r.id == id then x else r.rec);
    MapRowsIds(t, (r: Row<T>) => if r.id == id then x else r.rec);
    FindIff(t, k);
    FindIff(m, k);
    if k in Ids(t) {
      var y :| y in t && y.id == k;
      var i :| 0 <= i < |t| && t[i] == y;
      FindInAscending(t, y);
      assert m[i] in m;
      FindInAscending(m, m[i]);
    }
  }

  /** `MapRows` keeps the set of keys. */
  lemma MapRowsIds<T(!new)>(t: Table<T>, f: Row<T> -> T)
    ensures Ids(MapRows(t, f)) == Ids(t)
  {
    var m := MapRows(t, f);
    forall k | k in Ids(m) ensures k in Ids(t) {
      var x :| x in m && x.id == k;
      var i :| 0 <= i < |m| && m[i] == x;
      assert t[i] in t;
    }
    forall k | k in Ids(t) ensures k in Ids(m) {
      var x :| x in t && x.id == k;
      var i :| 0 <= i < |t| && t[i] == x;
      assert m[i] in m;
    }
  }

  /** Overwriting a record keeps the keys; with unique keys a lookup then
      finds the new record under `id` and the old record under every other
      key. */
  lemma ReplaceEffect<T(!new)>(t: Table<T>, id: int, x: T)
    ensures Ids(Replace(t, id, x)) == Ids(t)
    ensures Ascending(t) ==> Find(Replace(t, id, x), id) == if id in Ids(t) then Some(x) else None
    ensures Ascending(t) ==> forall k :: k != id ==> Find(Replace(t, id, x), k) == Find(t, k)
  {
    MapRowsIds(t, (r: Row<T>) => if r.id == id then x else r.rec);
    if Ascending(t) {
      FindIff(t, id);
      FindReplace(t, id, x, id);
      forall k | k != id ensures Find(Replace(t, id, x), k) == Find(t, k) {
        FindReplace(t, id, x, k);
      }
    }
  }

  /** Two positions of `s` under the same key. */
  predicate DuplicateKey<T>(s: seq<T>, key: T -> int) {
    exists i, j :: 0 <= i < j < |s| && key(s[i]) == key(s[j])
  }

  /** `ToDictionary(key)`: adds the elements in order and fails on the first
      key already added. On success every element is stored under its key
      and every key comes from an element. */
  function ToDictionary<T>(s: seq<T>, key: T -> int): (d: Option<map<int, T>>)
    ensures d.Some? ==> forall i :: 0 <= i < |s| ==> key(s[i]) in d.value && d.value[key(s[i])] == s[i]
    ensures d.Some? ==> forall k :: k in d.value ==> exists i :: 0 <= i < |s| && key(s[i]) == k
    decreases |s|
  {
    if |s| == 0 then Some(map[])
    else
      var init := s[..|s| - 1];
      var x := s[|s| - 1];
      match ToDictionary(init, key)
      case None => None
      case Some(m) =>
        if key(x) in m then None
        else
          assert forall i :: 0 <= i < |init| ==> s[i] == init[i];
          Some(m[key(x) := x])
  }

  /** Building the dictionary fails exactly when two positions share a key. */
  lemma {:induction false} ToDictionaryFailsIff<T>(s: seq<T>, key: T -> int)
    ensures ToDictionary(s, key).None? <==> DuplicateKey(s, key)
    decreases |s|
  {
    if |s| > 0 {
      var init := s[..|s| - 1];
      var x := s[|s| - 1];
      ToDictionaryFailsIff(init, key);
      assert forall i :: 0 <= i < |init| ==> s[i] == init[i];
      if DuplicateKey(init, key) {
        var i, j :| 0 <= i < j < |init| && key(init[i]) == key(init[j]);
        assert key(s[i]) == key(s[j]);
      } else {
        var m := ToDictionary(init, key).value;
        if key(x) in m {
          var i :| 0 <= i < |init| && key(init[i]) == key(x);
          assert key(s[i]) == key(s[|s| - 1]);
        }
        if DuplicateKey(s, key) {
          var i, j :| 0 <= i < j < |s| && key(s[i]) == key(s[j]);
          assert j == |s| - 1;
          assert key(x) in m;
        }
      }
    }
  }
}
