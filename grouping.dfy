/** Runs of equal keys in a sequence. The status report prints a header at the
    start of each run of equal branches and a title at the start of each run of
    equal (branch, tracking) pairs; these definitions say what such a header
    sequence is and when it names every key exactly once. */
module Grouping {

  /** Equal keys occupy one contiguous run. */
  ghost predicate Grouped<K>(keys: seq<K>) {
    forall i, j, k :: 0 <= i < j < k < |keys| && keys[i] == keys[k] ==> keys[j] == keys[i]
  }

  ghost predicate Distinct<K>(s: seq<K>) {
    forall i, j :: 0 <= i < j < |s| ==> s[i] != s[j]
  }

  lemma GroupedAt<K>(keys: seq<K>, i: nat, j: nat, k: nat)
    requires Grouped(keys)
    requires i < j < k < |keys|
    ensures keys[i] == keys[k] ==> keys[j] == keys[i]
  {
  }

  /** Position i opens a run: it is the first position or its key differs from
      the key before it. */
  predicate StartsRun<K(==)>(keys: seq<K>, i: nat)
    requires i < |keys|
  {
    i == 0 || keys[i] != keys[i - 1]
  }

  /** The key of every run, in order. */
  function Heads<K(==)>(keys: seq<K>): seq<K>
    decreases |keys|
  {
    if keys == [] then []
    else Heads(keys[..|keys| - 1])
         + (if StartsRun(keys, |keys| - 1) then [keys[|keys| - 1]] else [])
  }

  /** Extending a prefix by one key adds that key to the run heads exactly
      when it opens a run. */
  lemma HeadsOfLonger<K>(keys: seq<K>, n: nat)
    requires 0 < n <= |keys|
    ensures Heads(keys[..n]) == Heads(keys[..n - 1]) + if StartsRun(keys, n - 1) then [keys[n - 1]] else []
  {
    assert keys[..n][..n - 1] == keys[..n - 1];
  }

  /** When equal keys are contiguous, the run heads name every key that occurs
      and none twice. */
  lemma {:induction false} HeadsOfGrouped<K>(keys: seq<K>)
    requires Grouped(keys)
    ensures Distinct(Heads(keys))
    ensures forall x :: x in Heads(keys) <==> x in keys
    decreases |keys|
  {
    if keys != [] {
      var n := |keys| - 1;
      var init := keys[..n];
      assert Grouped(init) by {
        forall i, j, k | 0 <= i < j < k < |init| && init[i] == init[k]
          ensures init[j] == init[i]
        {
          assert keys[i] == keys[k];
        }
      }
      HeadsOfGrouped(init);
      if StartsRun(keys, n) {
        forall m | 0 <= m < n ensures keys[m] != keys[n] {
          if m < n - 1 { GroupedAt(keys, m, n - 1, n); }
        }
        assert keys[n] !in init;
      } else {
        assert keys[n] == init[n - 1];
      }
      assert keys == init + [keys[n]];
    }
  }
}
