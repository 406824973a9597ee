/** Small shared datatypes and facts about sequences: optional values, results that may be
    errors, the smaller and the larger of two integers, sequences without repeats, and
    folding a sequence from the left, which over an appended sequence goes on from where
    the first part left off. */
module Wrappers {
  datatype Option<+T> = None | Some(value: T)

  datatype Result<+T, +E> = Ok(value: T) | Err(error: E)

  function Max(a: int, b: int): int { if a < b then b else a }

  function Min(a: int, b: int): int { if a < b then a else b }

  ghost predicate Distinct<T>(s: seq<T>) {
    forall i, j | 0 <= i < j < |s| :: s[i] != s[j]
  }

  // How often `x` occurs in `s`.
  function Occurrences<T(==)>(s: seq<T>, x: T): nat {
    if s == [] then 0 else (if s[0] == x then 1 else 0) + Occurrences(s[1..], x)
  }

  lemma {:induction false} OccurrencesInDistinct<T>(s: seq<T>, x: T)
    requires Distinct(s)
    ensures Occurrences(s, x) == if x in s then 1 else 0
  {
    if s != [] {
      assert forall i, j | 0 <= i < j < |s[1..]| :: s[1..][i] == s[i + 1] && s[1..][j] == s[j + 1];
      OccurrencesInDistinct(s[1..], x);
      assert s == [s[0]] + s[1..];
    }
  }

  function FoldLeft<R, A>(f: (R, A) -> R, start: R, s: seq<A>): R {
    if s == [] then start else f(FoldLeft(f, start, s[..|s| - 1]), s[|s| - 1])
  }

  lemma {:induction false} FoldLeftAppends<R, A>(f: (R, A) -> R, start: R, a: seq<A>, b: seq<A>)
    ensures FoldLeft(f, start, a + b) == FoldLeft(f, FoldLeft(f, start, a), b)
  {
    if b == [] {
      assert a + b == a;
    } else {
      FoldLeftAppends(f, start, a, b[..|b| - 1]);
      assert (a + b)[..|a + b| - 1] == a + b[..|b| - 1];
    }
  }
}
