/** A stable sort by an integer key, by insertion: the result is a rearrangement of the
    sequence in rising order of the key, and elements of equal keys keep the order they
    came in. With it, counting the elements that satisfy a predicate, which no
    rearrangement changes, over appended sequences and over sorted ones. */
module Sorting {
  function InsertBy<T>(key: T -> int, x: T, rows: seq<T>): seq<T> {
    if rows == [] then [x]
    else if key(x) < key(rows[0]) then [x] + rows
    else [rows[0]] + InsertBy(key, x, rows[1..])
  }

  // Equal keys keep their order: each element goes after those before it.
  function SortBy<T>(key: T -> int, rows: seq<T>): seq<T> {
    if rows == [] then []
    else InsertBy(key, rows[|rows| - 1], SortBy(key, rows[..|rows| - 1]))
  }

  lemma {:induction false} InsertKeepsElements<T>(key: T -> int, x: T, rows: seq<T>)
    ensures multiset(InsertBy(key, x, rows)) == multiset(rows) + multiset{x}
  {
    if rows != [] && key(rows[0]) <= key(x) {
      InsertKeepsElements(key, x, rows[1..]);
      assert rows == [rows[0]] + rows[1..];
    }
  }

  lemma {:induction false} SortKeepsElements<T>(key: T -> int, rows: seq<T>)
    ensures multiset(SortBy(key, rows)) == multiset(rows)
  {
    if rows != [] {
      var front := rows[..|rows| - 1];
      SortKeepsElements(key, front);
      InsertKeepsElements(key, rows[|rows| - 1], SortBy(key, front));
      assert rows == front + [rows[|rows| - 1]];
    }
  }

  ghost predicate Ordered<T>(key: T -> int, rows: seq<T>) {
    forall i, j | 0 <= i < j < |rows| :: key(rows[i]) <= key(rows[j])
  }

  lemma {:induction false} InsertKeepsOrder<T>(key: T -> int, x: T, rows: seq<T>)
    requires Ordered(key, rows)
    ensures Ordered(key, InsertBy(key, x, rows))
  {
    if rows != [] && key(rows[0]) <= key(x) {
      InsertKeepsOrder(key, x, rows[1..]);
      InsertKeepsElements(key, x, rows[1..]);
      var rest := InsertBy(key, x, rows[1..]);
      forall k | 0 <= k < |rest| ensures key(rows[0]) <= key(rest[k]) {
        assert rest[k] in multiset(rest);
        assert rest[k] == x || rest[k] in rows[1..];
      }
    }
  }

  lemma {:induction false} SortOrders<T>(key: T -> int, rows: seq<T>)
    ensures Ordered(key, SortBy(key, rows))
  {
    if rows != [] {
      SortOrders(key, rows[..|rows| - 1]);
      InsertKeepsOrder(key, rows[|rows| - 1], SortBy(key, rows[..|rows| - 1]));
    }
  }

  // How many elements satisfy a test.
  function CountIf<T>(p: T -> bool, rows: seq<T>): nat {
    if rows == [] then 0
    else CountIf(p, rows[..|rows| - 1]) + if p(rows[|rows| - 1]) then 1 else 0
  }

  lemma {:induction false} CountIfAppend<T>(p: T -> bool, a: seq<T>, b: seq<T>)
    ensures CountIf(p, a + b) == CountIf(p, a) + CountIf(p, b)
  {
    if b == [] {
      assert a + b == a;
    } else {
      CountIfAppend(p, a, b[..|b| - 1]);
      assert (a + b)[..|a + b| - 1] == a + b[..|b| - 1];
    }
  }

  lemma {:induction false} CountIfInserted<T>(p: T -> bool, key: T -> int, x: T, rows: seq<T>)
    ensures CountIf(p, InsertBy(key, x, rows)) == CountIf(p, rows) + CountIf(p, [x])
  {
    CountIfAppend(p, [x], rows);
    if rows != [] && key(rows[0]) <= key(x) {
      CountIfInserted(p, key, x, rows[1..]);
      CountIfAppend(p, [rows[0]], InsertBy(key, x, rows[1..]));
      CountIfAppend(p, [rows[0]], rows[1..]);
      assert rows == [rows[0]] + rows[1..];
    }
  }

  /** Sorting changes no count. */
  lemma {:induction false} CountIfOfSorted<T>(p: T -> bool, key: T -> int, rows: seq<T>)
    ensures CountIf(p, SortBy(key, rows)) == CountIf(p, rows)
    decreases |rows|
  {
    hide InsertBy, CountIf;
    if rows != [] {
      var front, last := rows[..|rows| - 1], rows[|rows| - 1];
      CountIfOfSorted(p, key, front);
      CountIfInserted(p, key, last, SortBy(key, front));
      CountIfAppend(p, front, [last]);
      assert rows == front + [last];
    }
  }

  lemma {:induction false} CountIfNone<T>(p: T -> bool, rows: seq<T>)
    ensures CountIf(p, rows) == 0 <==> forall x | x in rows :: !p(x)
  {
    if rows != [] {
      CountIfNone(p, rows[..|rows| - 1]);
      assert rows == rows[..|rows| - 1] + [rows[|rows| - 1]];
    }
  }

  lemma SameElements<T>(a: seq<T>, b: seq<T>, i: nat) returns (k: nat)
    requires multiset(a) == multiset(b) && i < |a|
    ensures k < |b| && b[k] == a[i]
  {
    assert a[i] in multiset(b);
    k :| 0 <= k < |b| && b[k] == a[i];
  }

  lemma Positions<T>(a: seq<T>, b: seq<T>)
    requires multiset(a) == multiset(b)
    ensures |a| == |b|
    ensures forall x :: x in a <==> x in b
  {
    assert |multiset(a)| == |a| && |multiset(b)| == |b|;
    forall x ensures x in a <==> x in b {
      assert x in a <==> x in multiset(a);
    }
  }

  ghost predicate DistinctBy<T, K(!new)>(key: T -> K, rows: seq<T>) {
    forall i, j | 0 <= i < j < |rows| :: key(rows[i]) != key(rows[j])
  }

  lemma {:induction false} OnceEach<T, K(!new)>(key: T -> K, a: seq<T>, m: nat)
    requires m < |a| && DistinctBy(key, a)
    ensures multiset(a)[a[m]] == 1
  {
    assert a == a[..m] + [a[m]] + a[m + 1..];
    assert a[m] !in a[..m] && a[m] !in a[m + 1..];
  }

  lemma {:induction false} TwiceAtLeast<T>(b: seq<T>, i: nat, j: nat)
    requires i < j < |b| && b[i] == b[j]
    ensures multiset(b)[b[i]] >= 2
  {
    assert b == b[..i] + [b[i]] + b[i + 1..j] + [b[i]] + b[j + 1..];
  }

  // Distinct keys survive a reordering: a repeated key would need a repeated row.
  lemma {:induction false} DistinctKeysSurvive<T, K(!new)>(key: T -> K, a: seq<T>, b: seq<T>)
    requires multiset(a) == multiset(b) && DistinctBy(key, a)
    ensures DistinctBy(key, b)
  {
    forall i, j | 0 <= i < j < |b| ensures key(b[i]) != key(b[j]) {
      var m := SameElements(b, a, i);
      var n := SameElements(b, a, j);
      OnceEach(key, a, m);
      if b[i] == b[j] {
        TwiceAtLeast(b, i, j);
      }
    }
  }

  // ---- where the elements of a result come from -------------------------------

  // Strictly rising positions.
  ghost predicate Rising(at: seq<nat>) { forall k, l | 0 <= k < l < |at| :: at[k] < at[l] }

  // Each element of `out` is the one of `rows` at its position.
  ghost predicate Taken<T>(rows: seq<T>, at: seq<nat>, out: seq<T>) {
    |at| == |out| && forall k | 0 <= k < |at| :: at[k] < |rows| && out[k] == rows[at[k]]
  }

  // By key, and by position among equal keys.
  ghost predicate Stable<T>(key: T -> int, at: seq<nat>, out: seq<T>)
    requires |at| == |out|
  {
    forall k, l | 0 <= k < l < |at| :: key(out[k]) < key(out[l]) || (key(out[k]) == key(out[l]) && at[k] < at[l])
  }

  lemma GoesFirst<T>(key: T -> int, x: T, n: nat, at: seq<nat>, out: seq<T>)
    requires |at| == |out| && out != [] && Stable(key, at, out) && key(x) < key(out[0])
    ensures Stable(key, [n] + at, [x] + out)
  {
    var all, so := [n] + at, [x] + out;
    forall k, l | 0 <= k < l < |all|
      ensures key(so[k]) < key(so[l]) || (key(so[k]) == key(so[l]) && all[k] < all[l])
    {
      if k == 0 && l > 1 { assert key(out[0]) <= key(out[l - 1]); }
    }
  }

  lemma FirstIsLeast<T>(key: T -> int, rows: seq<T>, n: nat, at: seq<nat>, out: seq<T>, rest: seq<nat>, tail: seq<T>)
    requires n < |rows| && out != [] && Taken(rows, at, out) && Stable(key, at, out) && key(out[0]) <= key(rows[n])
    requires forall i | i in at :: i < n
    requires Taken(rows, rest, tail) && Stable(key, rest, tail)
    requires forall i :: i in rest <==> i in at[1..] || i == n
    ensures Stable(key, [at[0]] + rest, [out[0]] + tail)
  {
    var all, so := [at[0]] + rest, [out[0]] + tail;
    forall k, l | 0 <= k < l < |all|
      ensures key(so[k]) < key(so[l]) || (key(so[k]) == key(so[l]) && all[k] < all[l])
    {
      if k == 0 {
        assert all[l] == rest[l - 1] && so[l] == tail[l - 1] == rows[rest[l - 1]];
        assert rest[l - 1] in rest;
        if rest[l - 1] == n {
          assert at[0] in at;
        } else {
          var j :| 0 <= j < |at[1..]| && at[1..][j] == rest[l - 1];
          assert out[j + 1] == rows[at[j + 1]];
        }
      } else {
        assert all[k] == rest[k - 1] && so[k] == tail[k - 1] && all[l] == rest[l - 1] && so[l] == tail[l - 1];
      }
    }
  }

  lemma {:induction false} InsertPositions<T>(key: T -> int, rows: seq<T>, n: nat, at: seq<nat>, out: seq<T>)
      returns (at': seq<nat>)
    requires n < |rows| && Taken(rows, at, out) && Stable(key, at, out)
    requires forall i | i in at :: i < n
    ensures Taken(rows, at', InsertBy(key, rows[n], out)) && Stable(key, at', InsertBy(key, rows[n], out))
    ensures forall i :: i in at' <==> i in at || i == n
    decreases out
  {
    if out == [] {
      at' := [n];
    } else if key(rows[n]) < key(out[0]) {
      at' := [n] + at;
      GoesFirst(key, rows[n], n, at, out);
    } else {
      assert at == [at[0]] + at[1..];
      forall i | i in at[1..] ensures i < n { assert i in at; }
      var rest := InsertPositions(key, rows, n, at[1..], out[1..]);
      at' := [at[0]] + rest;
      FirstIsLeast(key, rows, n, at, out, rest, InsertBy(key, rows[n], out[1..]));
    }
  }

  /** A stable sort, by positions: every element once, in rising order of the key and,
      among equal keys, in the order they came in. */
  lemma {:induction false} SortPositions<T>(key: T -> int, rows: seq<T>) returns (at: seq<nat>)
    ensures Taken(rows, at, SortBy(key, rows)) && Stable(key, at, SortBy(key, rows))
    ensures forall i: nat :: i in at <==> i < |rows|
    decreases rows
  {
    if rows == [] {
      at := [];
    } else {
      var n := |rows| - 1;
      var before := SortPositions(key, rows[..n]);
      at := InsertPositions(key, rows, n, before, SortBy(key, rows[..n]));
    }
  }

  // ---- filters, by positions --------------------------------------------------

  // Exactly the positions below `n` that satisfy the test.
  ghost predicate Exactly(at: seq<nat>, n: nat, p: nat -> bool) {
    forall i: nat :: i in at <==> i < n && p(i)
  }

  lemma OneMorePosition(at: seq<nat>, n: nat, p: nat -> bool)
    requires Rising(at) && Exactly(at, n, p)
    ensures Rising(at + [n]) && forall k | 0 <= k < |at| :: at[k] < n
    ensures Exactly(if p(n) then at + [n] else at, n + 1, p)
  {
    forall k | 0 <= k < |at| ensures at[k] < n { assert at[k] in at; }
  }

  lemma ExactlySame(at: seq<nat>, n: nat, p: nat -> bool, q: nat -> bool)
    requires Exactly(at, n, p) && forall i: nat | i < n :: p(i) == q(i)
    ensures Exactly(at, n, q)
  {
  }

  // Positions of positions.
  function Through(outer: seq<nat>, inner: seq<nat>): seq<nat>
    requires forall k | 0 <= k < |inner| :: inner[k] < |outer|
  {
    seq(|inner|, k requires 0 <= k < |inner| => outer[inner[k]])
  }

  lemma RisingThrough(outer: seq<nat>, inner: seq<nat>)
    requires Rising(outer) && Rising(inner) && forall k | 0 <= k < |inner| :: inner[k] < |outer|
    ensures Rising(Through(outer, inner))
  {
  }

  lemma InThrough(outer: seq<nat>, inner: seq<nat>, i: nat)
    requires forall k | 0 <= k < |inner| :: inner[k] < |outer|
    ensures i in Through(outer, inner) <==> exists j | 0 <= j < |outer| :: j in inner && outer[j] == i
  {
    if i in Through(outer, inner) {
      var k :| 0 <= k < |inner| && Through(outer, inner)[k] == i;
      assert inner[k] in inner;
    }
    if j :| 0 <= j < |outer| && j in inner && outer[j] == i {
      var k :| 0 <= k < |inner| && inner[k] == j;
      assert Through(outer, inner)[k] == i;
    }
  }

  // A test of positions, taken through other positions.
  lemma ExactlyThrough(outer: seq<nat>, n: nat, p: nat -> bool, inner: seq<nat>, q: nat -> bool, r: nat -> bool)
    requires Exactly(outer, n, p) && Exactly(inner, |outer|, q)
    requires forall k | 0 <= k < |inner| :: inner[k] < |outer|
    requires forall j | 0 <= j < |outer| :: q(j) == r(outer[j])
    requires forall i: nat | i < n && r(i) :: p(i)
    ensures Exactly(Through(outer, inner), n, r)
  {
    forall i: nat ensures i in Through(outer, inner) <==> i < n && r(i) {
      InThrough(outer, inner, i);
      if i in Through(outer, inner) {
        var j :| 0 <= j < |outer| && j in inner && outer[j] == i;
        assert outer[j] in outer;
      }
      if i < n && r(i) {
        assert i in outer;
        var j :| 0 <= j < |outer| && outer[j] == i;
        assert j in inner;
      }
    }
  }
}
