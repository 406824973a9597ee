/** Order-preserving, case-insensitive collection of entity values. */
module Related {
  import opened Wrappers
  import opened Sorting

  // The text library's part: cleaning, folding case, and the spellings of "empty".
  datatype TextOps = TextOps(clean: string -> string, lower: string -> string, placeholders: set<string>)

  predicate IsPlaceholder(ops: TextOps, text: string) {
    ops.lower(ops.clean(text)) in ops.placeholders
  }

  // What a candidate is stored as, if it is stored at all.
  function Usable(ops: TextOps, candidate: string): Option<string> {
    if candidate == "" then None
    else
      var value := ops.clean(candidate);
      if value == "" || IsPlaceholder(ops, value) then None else Some(value)
  }

  function Collect(ops: TextOps, candidates: seq<string>): seq<string> {
    if candidates == [] then []
    else
      var before := Collect(ops, candidates[..|candidates| - 1]);
      var value := Usable(ops, candidates[|candidates| - 1]);
      if value.None? || HasSpelling(ops, before, value.value) then before else before + [value.value]
  }

  predicate HasSpelling(ops: TextOps, values: seq<string>, value: string) {
    exists i | 0 <= i < |values| :: ops.lower(values[i]) == ops.lower(value)
  }

  class Collector {
    const ops: TextOps
    var seen: set<string>
    var values: seq<string>

    ghost predicate Valid()
      reads this
    {
      && (forall i | 0 <= i < |values| :: ops.lower(values[i]) in seen)
      && (forall key | key in seen :: exists i | 0 <= i < |values| :: ops.lower(values[i]) == key)
    }

    constructor (ops: TextOps)
      ensures Valid() && values == [] && this.ops == ops
    {
      this.ops := ops;
      seen, values := {}, [];
    }

    method Add(candidate: string)
      requires Valid()
      modifies this
      ensures Valid()
      ensures values ==
        var value := Usable(ops, candidate);
        if value.None? || HasSpelling(ops, old(values), value.value) then old(values)
        else old(values) + [value.value]
    {
      if candidate == "" { return; }
      var value := ops.clean(candidate);
      if value == "" || IsPlaceholder(ops, value) { return; }
      var key := ops.lower(value);
      if key in seen { return; }
      seen := seen + {key};
      values := values + [value];
      forall other | other in seen ensures exists i | 0 <= i < |values| :: ops.lower(values[i]) == other {
        if other == key {
          assert ops.lower(values[|values| - 1]) == key;
        } else {
          var i :| 0 <= i < |old(values)| && ops.lower(old(values)[i]) == other;
          assert values[i] == old(values)[i];
        }
      }
    }
  }

  method CollectAll(ops: TextOps, candidates: seq<string>) returns (values: seq<string>)
    ensures values == Collect(ops, candidates)
  {
    var collector := new Collector(ops);
    for i := 0 to |candidates|
      invariant collector.Valid() && collector.ops == ops
      invariant collector.values == Collect(ops, candidates[..i])
    {
      assert candidates[..i + 1][..i] == candidates[..i];
      collector.Add(candidates[i]);
    }
    assert candidates[..|candidates|] == candidates;
    values := collector.values;
  }

  // No usable candidate is left out.
  lemma {:induction false} CollectedKeeps(ops: TextOps, candidates: seq<string>, k: nat)
    requires k < |candidates| && Usable(ops, candidates[k]).Some?
    ensures HasSpelling(ops, Collect(ops, candidates), Usable(ops, candidates[k]).value)
  {
    var n := |candidates| - 1;
    var before, values := Collect(ops, candidates[..n]), Collect(ops, candidates);
    var value := Usable(ops, candidates[k]).value;
    if k < n {
      CollectedKeeps(ops, candidates[..n], k);
      var i :| 0 <= i < |before| && ops.lower(before[i]) == ops.lower(value);
      assert values[i] == before[i];
    } else if !HasSpelling(ops, before, value) {
      assert values[|before|] == value;
    }
  }

  // Everything collected is a usable candidate, as first spelt.
  lemma {:induction false} CollectedFrom(ops: TextOps, candidates: seq<string>, i: nat) returns (k: nat)
    requires i < |Collect(ops, candidates)|
    ensures k < |candidates| && Usable(ops, candidates[k]) == Some(Collect(ops, candidates)[i])
  {
    var n := |candidates| - 1;
    if i < |Collect(ops, candidates[..n])| {
      k := CollectedFrom(ops, candidates[..n], i);
    } else {
      k := n;
    }
  }

  lemma {:induction false} CollectedApart(ops: TextOps, candidates: seq<string>, i: nat, j: nat)
    requires i < j < |Collect(ops, candidates)|
    ensures ops.lower(Collect(ops, candidates)[i]) != ops.lower(Collect(ops, candidates)[j])
  {
    var n := |candidates| - 1;
    if j < |Collect(ops, candidates[..n])| {
      CollectedApart(ops, candidates[..n], i, j);
    }
  }

  /** The collected values are pairwise different even ignoring case, they are all
      usable candidates as first spelt, and no usable candidate is left out. */
  lemma CollectedOnce(ops: TextOps, candidates: seq<string>)
    ensures var values := Collect(ops, candidates);
      && (forall i, j | 0 <= i < j < |values| :: ops.lower(values[i]) != ops.lower(values[j]))
      && (forall i | 0 <= i < |values| :: values[i] != "" &&
            exists k | 0 <= k < |candidates| :: Usable(ops, candidates[k]) == Some(values[i]))
      && (forall k | 0 <= k < |candidates| && Usable(ops, candidates[k]).Some? ::
            HasSpelling(ops, values, Usable(ops, candidates[k]).value))
  {
    var values := Collect(ops, candidates);
    forall i, j | 0 <= i < j < |values| ensures ops.lower(values[i]) != ops.lower(values[j]) {
      CollectedApart(ops, candidates, i, j);
    }
    forall i | 0 <= i < |values|
      ensures values[i] != "" && exists k | 0 <= k < |candidates| :: Usable(ops, candidates[k]) == Some(values[i])
    {
      var k := CollectedFrom(ops, candidates, i);
    }
    forall k | 0 <= k < |candidates| && Usable(ops, candidates[k]).Some?
      ensures HasSpelling(ops, values, Usable(ops, candidates[k]).value)
    {
      CollectedKeeps(ops, candidates, k);
    }
  }

  // A candidate worth keeping: it is not empty, cleaned it still is not, and it is no
  // spelling of "empty".
  predicate IsUseful(ops: TextOps, candidate: string) {
    && candidate != "" && ops.clean(candidate) != ""
    && ops.lower(ops.clean(ops.clean(candidate))) !in ops.placeholders
  }

  // A useful candidate of which no earlier one is a spelling.
  predicate IsFirstSpelling(ops: TextOps, candidates: seq<string>, k: nat) {
    && k < |candidates| && IsUseful(ops, candidates[k])
    && forall j | 0 <= j < k && IsUseful(ops, candidates[j]) ::
         ops.lower(ops.clean(candidates[j])) != ops.lower(ops.clean(candidates[k]))
  }

  function FirstSpellings(ops: TextOps, candidates: seq<string>): nat -> bool {
    (k: nat) => k < |candidates| && IsFirstSpelling(ops, candidates, k)
  }

  lemma KeptSpelling(ops: TextOps, candidates: seq<string>, at: seq<nat>, value: string)
    requires Exactly(at, |candidates|, FirstSpellings(ops, candidates)) && |at| == |Collect(ops, candidates)|
    requires forall i | 0 <= i < |at| ::
      at[i] < |candidates| && Collect(ops, candidates)[i] == ops.clean(candidates[at[i]])
    ensures HasSpelling(ops, Collect(ops, candidates), value) <==>
      exists j | 0 <= j < |candidates| ::
        IsUseful(ops, candidates[j]) && ops.lower(ops.clean(candidates[j])) == ops.lower(value)
  {
    var values := Collect(ops, candidates);
    if HasSpelling(ops, values, value) {
      var i :| 0 <= i < |values| && ops.lower(values[i]) == ops.lower(value);
      assert at[i] in at && IsUseful(ops, candidates[at[i]]);
    }
    if j :| 0 <= j < |candidates| && IsUseful(ops, candidates[j])
            && ops.lower(ops.clean(candidates[j])) == ops.lower(value) {
      var k := FirstOfSpelling(ops, candidates, j);
      assert k in at;
      var i :| 0 <= i < |at| && at[i] == k;
      assert ops.lower(values[i]) == ops.lower(value);
    }
  }

  lemma {:induction false} FirstOfSpelling(ops: TextOps, candidates: seq<string>, j: nat) returns (k: nat)
    requires j < |candidates| && IsUseful(ops, candidates[j])
    ensures k <= j && IsFirstSpelling(ops, candidates, k)
    ensures ops.lower(ops.clean(candidates[k])) == ops.lower(ops.clean(candidates[j]))
  {
    if IsFirstSpelling(ops, candidates, j) {
      k := j;
    } else {
      var i :| 0 <= i < j && IsUseful(ops, candidates[i])
        && ops.lower(ops.clean(candidates[i])) == ops.lower(ops.clean(candidates[j]));
      k := FirstOfSpelling(ops, candidates, i);
    }
  }

  // The first spellings of a sequence, one by one.
  lemma SpellingStays(ops: TextOps, candidates: seq<string>, k: nat)
    requires candidates != [] && k < |candidates| - 1
    ensures IsFirstSpelling(ops, candidates[..|candidates| - 1], k) == IsFirstSpelling(ops, candidates, k)
  {
    var front := candidates[..|candidates| - 1];
    assert forall j | 0 <= j <= k :: front[j] == candidates[j];
  }

  // The last candidate is kept exactly if it is a first spelling.
  lemma CollectNext(ops: TextOps, candidates: seq<string>, at: seq<nat>)
    requires candidates != []
    requires var front := candidates[..|candidates| - 1];
      && Exactly(at, |front|, FirstSpellings(ops, front)) && |at| == |Collect(ops, front)|
      && forall i | 0 <= i < |at| :: at[i] < |front| && Collect(ops, front)[i] == ops.clean(front[at[i]])
    ensures var n := |candidates| - 1;
      Collect(ops, candidates) == Collect(ops, candidates[..n])
        + if IsFirstSpelling(ops, candidates, n) then [ops.clean(candidates[n])] else []
  {
    var front, last := candidates[..|candidates| - 1], candidates[|candidates| - 1];
    KeptSpelling(ops, front, at, ops.clean(last));
    assert forall j | 0 <= j < |front| :: front[j] == candidates[j];
  }

  /** Exactly what is collected, in order: the cleaned text of every useful candidate that
      no earlier one spells, in the order the candidates came in. */
  lemma {:induction false} CollectedExactly(ops: TextOps, candidates: seq<string>) returns (at: seq<nat>)
    ensures Rising(at) && Exactly(at, |candidates|, FirstSpellings(ops, candidates))
    ensures |at| == |Collect(ops, candidates)|
    ensures forall i | 0 <= i < |at| ::
      at[i] < |candidates| && Collect(ops, candidates)[i] == ops.clean(candidates[at[i]])
    decreases |candidates|
  {
    hide Collect, IsFirstSpelling;
    if candidates == [] {
      at := NothingCollected(ops);
    } else {
      var n := |candidates| - 1;
      var front := candidates[..n];
      at := CollectedExactly(ops, front);
      CollectNext(ops, candidates, at);
      forall k: nat | k < n ensures FirstSpellings(ops, front)(k) == FirstSpellings(ops, candidates)(k) {
        SpellingStays(ops, candidates, k);
      }
      ExactlySame(at, n, FirstSpellings(ops, front), FirstSpellings(ops, candidates));
      OneMorePosition(at, n, FirstSpellings(ops, candidates));
      if IsFirstSpelling(ops, candidates, n) { at := at + [n]; }
    }
  }

  lemma NothingCollected(ops: TextOps) returns (at: seq<nat>)
    ensures at == [] && Collect(ops, []) == [] && Exactly(at, 0, FirstSpellings(ops, []))
  {
    at := [];
  }

  lemma CollectedIsDistinct(ops: TextOps, candidates: seq<string>)
    ensures Distinct(Collect(ops, candidates))
  {
    CollectedOnce(ops, candidates);
  }
}
