/**
  Occurrence counts of names, as the runner keeps them for the fields its
  template mentions: one map entry per distinct name, holding how often the
  name occurs.
 */
module Tally {

  /** Counts of `names`, built in order by incrementing the entry of each name (absent counts as zero). */
  function Count(names: seq<string>): (m: map<string, nat>)
    ensures forall n :: n in m <==> n in names
    ensures forall n :: n in m ==> m[n] == multiset(names)[n]
  {
    if |names| == 0 then map[]
    else
      var init := names[..|names| - 1];
      var last := names[|names| - 1];
      var m := Count(init);
      assert names == init + [last];
      m[last := (if last in m then m[last] else 0) + 1]
  }

  /** Sum of all the counts in `m`. */
  ghost function Total(m: map<string, nat>): nat
    decreases |m|
  {
    if |m| == 0 then 0
    else
      var k := PickKey(m);
      m[k] + Total(m - {k})
  }

  /** Some key of a non-empty map. */
  ghost function PickKey(m: map<string, nat>): (k: string)
    requires |m| > 0
    ensures k in m
  {
    assert m.Keys != {};
    var k :| k in m.Keys;
    k
  }

  /** Any one key can be taken out first: the total is its count plus the total of the rest. */
  lemma {:induction false} TotalRemove(m: map<string, nat>, k: string)
    requires k in m
    ensures Total(m) == m[k] + Total(m - {k})
    decreases |m|
  {
    var j := PickKey(m);
    if j != k {
      TotalRemove(m - {j}, k);
      TotalRemove(m - {k}, j);
      assert m - {j} - {k} == m - {k} - {j};
    }
  }

  /** Incrementing one entry (absent counts as zero) adds one to the total. */
  lemma TotalIncrement(m: map<string, nat>, k: string)
    ensures Total(m[k := (if k in m then m[k] else 0) + 1]) == Total(m) + 1
  {
    var m' := m[k := (if k in m then m[k] else 0) + 1];
    var rest := m - {k};
    TotalRemove(m', k);
    assert m' - {k} == rest;
    if k in m {
      TotalRemove(m, k);
    } else {
      assert rest == m;
    }
  }

  /** The counts add up to the number of names counted. */
  lemma {:induction false} CountTotal(names: seq<string>)
    ensures Total(Count(names)) == |names|
  {
    if |names| > 0 {
      var init, last := names[..|names| - 1], names[|names| - 1];
      CountTotal(init);
      var m := Count(init);
      CountStep(names, init, last);
      TotalIncrement(m, last);
    }
  }

  /** Counting one more name increments its entry and leaves the rest alone. */
  lemma CountStep(names: seq<string>, init: seq<string>, last: string)
    requires |names| > 0 && init == names[..|names| - 1] && last == names[|names| - 1]
    ensures Count(names) == Count(init)[last := (if last in Count(init) then Count(init)[last] else 0) + 1]
  {
  }
}
