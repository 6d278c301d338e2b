/** `changes.sort()` on the collected status messages (src/command/status.rs:219,
    src/main.rs:647). `Vec::sort` is the standard library's sort; it is
    represented here by an insertion sort on sequences. `SortedUnique` shows
    that the choice does not matter: every sort under this total order gives
    the same sequence. */
module MsgSort {
  import opened StatusTypes

  ghost predicate Sorted(s: seq<StatusMsg>) {
    forall i, j :: 0 <= i < j < |s| ==> MsgLe(s[i], s[j])
  }

  /** A message that precedes every element of a sorted sequence may be put
      in front of it. */
  lemma ConsSorted(y: StatusMsg, t: seq<StatusMsg>)
    requires Sorted(t)
    requires forall z :: z in t ==> MsgLe(y, z)
    ensures Sorted([y] + t)
  {
    forall i, j | 0 <= i < j < |t| + 1 ensures MsgLe(([y] + t)[i], ([y] + t)[j]) {
      if i > 0 {
        assert ([y] + t)[i] == t[i - 1] && ([y] + t)[j] == t[j - 1];
      } else {
        assert ([y] + t)[j] in t;
      }
    }
  }

  function Insert(x: StatusMsg, s: seq<StatusMsg>): (r: seq<StatusMsg>)
    requires Sorted(s)
    ensures Sorted(r)
    ensures multiset(r) == multiset(s) + multiset{x}
    decreases |s|
  {
    if s == [] then [x]
    else if MsgLe(x, s[0]) then
      assert forall z :: z in s ==> MsgLe(x, z) by {
        forall z | z in s ensures MsgLe(x, z) {
          if z != s[0] { MsgLeTransitive(x, s[0], z); }
        }
      }
      ConsSorted(x, s);
      [x] + s
    else
      var tail := Insert(x, s[1..]);
      assert s == [s[0]] + s[1..];
      assert forall z :: z in tail ==> MsgLe(s[0], z) by {
        MsgLeTotal(x, s[0]);
        forall z | z in tail ensures MsgLe(s[0], z) {
          assert z in multiset(s[1..]) + multiset{x};
        }
      }
      ConsSorted(s[0], tail);
      [s[0]] + tail
  }

  function SortMsgs(s: seq<StatusMsg>): (r: seq<StatusMsg>)
    ensures Sorted(r)
    ensures multiset(r) == multiset(s)
    decreases |s|
  {
    if s == [] then []
    else
      assert s == [s[0]] + s[1..];
      Insert(s[0], SortMsgs(s[1..]))
  }

  /** Two sorted sequences with the same elements are equal: the sorted order is
      a function of the multiset alone. */
  lemma {:induction false} SortedUnique(a: seq<StatusMsg>, b: seq<StatusMsg>)
    requires Sorted(a) && Sorted(b)
    requires multiset(a) == multiset(b)
    ensures a == b
    decreases |a|
  {
    assert |a| == |multiset(a)| == |multiset(b)| == |b|;
    if a != [] {
      assert a[0] in multiset(b) && b[0] in multiset(a);
      FirstIsLeast(a, b[0]);
      FirstIsLeast(b, a[0]);
      MsgLeAntisymmetric(a[0], b[0]);
      SortedTail(a);
      SortedTail(b);
      SortedUnique(a[1..], b[1..]);
      SameHeadAndTail(a, b);
    }
  }

  lemma SameHeadAndTail(a: seq<StatusMsg>, b: seq<StatusMsg>)
    requires a != [] && b != [] && a[0] == b[0] && a[1..] == b[1..]
    ensures a == b
  {
    assert a == [a[0]] + a[1..] && b == [b[0]] + b[1..];
  }

  /** The first element of a sorted sequence precedes all of them. */
  lemma FirstIsLeast(a: seq<StatusMsg>, x: StatusMsg)
    requires Sorted(a) && x in multiset(a)
    ensures MsgLe(a[0], x)
  {
    if x == a[0] {
      MsgLeReflexive(x);
    } else {
      var i :| 0 <= i < |a| && a[i] == x;
    }
  }

  /** Dropping the first element of a sorted sequence leaves a sorted
      sequence of the other elements. */
  lemma SortedTail(a: seq<StatusMsg>)
    requires Sorted(a) && a != []
    ensures Sorted(a[1..])
    ensures multiset(a[1..]) == multiset(a) - multiset{a[0]}
  {
    assert a == [a[0]] + a[1..];
  }
}
