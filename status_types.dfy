/** src/status.rs: the two classifications of a changed path, each with the
    total order Rust derives from the declaration order, and the status message
    `(branch, (tracking, staging), path)` that workers send to the collector,
    ordered as a tuple (lexicographically, field by field). */
module StatusTypes {

  datatype Tracking = Staged | Unmerged | Unstaged | Untracked

  datatype Staging = Added | Deleted | Modified | BothModified | Untracked

  /** `pub type Status = (Tracking, Staging)` */
  type Status = (Tracking, Staging)

  /** The tuple `(String, Status, String)` sent over the status channel. */
  datatype StatusMsg = StatusMsg(branch: string, status: Status, path: string)

  /** Position of a variant in its declaration: what `#[derive(Ord)]` compares. */
  function TrackingRank(t: Tracking): (r: nat)
    ensures r < 4
  {
    match t
    case Staged => 0
    case Unmerged => 1
    case Unstaged => 2
    case Untracked => 3
  }

  function StagingRank(s: Staging): (r: nat)
    ensures r < 5
  {
    match s
    case Added => 0
    case Deleted => 1
    case Modified => 2
    case BothModified => 3
    case Untracked => 4
  }

  /** The derived order is strict and total: distinct variants have distinct
      positions, so of any two variants exactly one precedes the other. */
  lemma RanksAreInjective()
    ensures forall a: Tracking, b: Tracking :: TrackingRank(a) == TrackingRank(b) ==> a == b
    ensures forall a: Staging, b: Staging :: StagingRank(a) == StagingRank(b) ==> a == b
  {
    forall a: Tracking, b: Tracking | TrackingRank(a) == TrackingRank(b) ensures a == b {
      match a
      case Staged =>
      case Unmerged =>
      case Unstaged =>
      case Untracked =>
    }
    forall a: Staging, b: Staging | StagingRank(a) == StagingRank(b) ensures a == b {
      match a
      case Added =>
      case Deleted =>
      case Modified =>
      case BothModified =>
      case Untracked =>
    }
  }

  /** `Ord for String`: lexicographic on UTF-8 bytes, which is the same as
      lexicographic on code points, so on Dafny's characters. */
  predicate StrLe(a: string, b: string)
    ensures a <= b ==> StrLe(a, b)
    decreases |a|
  {
    if a == [] then true
    else if b == [] then false
    else if a[0] != b[0] then a[0] < b[0]
    else StrLe(a[1..], b[1..])
  }

  predicate StrLt(a: string, b: string) {
    StrLe(a, b) && a != b
  }

  lemma {:induction false} StrLeReflexive(a: string)
    ensures StrLe(a, a)
    decreases |a|
  {
    if a != [] { StrLeReflexive(a[1..]); }
  }

  lemma {:induction false} StrLeAntisymmetric(a: string, b: string)
    requires StrLe(a, b) && StrLe(b, a)
    ensures a == b
    decreases |a|
  {
    if a != [] && b != [] {
      StrLeAntisymmetric(a[1..], b[1..]);
      assert a == [a[0]] + a[1..] && b == [b[0]] + b[1..];
    }
  }

  lemma {:induction false} StrLeTransitive(a: string, b: string, c: string)
    requires StrLe(a, b) && StrLe(b, c)
    ensures StrLe(a, c)
    decreases |a|
  {
    if a != [] && b != [] && c != [] && a[0] == b[0] && b[0] == c[0] {
      StrLeTransitive(a[1..], b[1..], c[1..]);
    }
  }

  lemma {:induction false} StrLeTotal(a: string, b: string)
    ensures StrLe(a, b) || StrLe(b, a)
    decreases |a|
  {
    if a != [] && b != [] && a[0] == b[0] {
      StrLeTotal(a[1..], b[1..]);
    }
  }

  /** The derived order on `(Tracking, Staging)`: tracking first, then staging. */
  predicate StatusLe(a: Status, b: Status)
    ensures TrackingRank(a.0) < TrackingRank(b.0) ==> StatusLe(a, b)
    ensures TrackingRank(b.0) < TrackingRank(a.0) ==> !StatusLe(a, b)
  {
    TrackingRank(a.0) < TrackingRank(b.0)
    || (a.0 == b.0 && StagingRank(a.1) <= StagingRank(b.1))
  }

  /** The tuple order on status messages: branch, then status, then path. */
  predicate MsgLe(x: StatusMsg, y: StatusMsg)
  {
    StrLt(x.branch, y.branch)
    || (x.branch == y.branch
        && ((StatusLe(x.status, y.status) && x.status != y.status)
            || (x.status == y.status && StrLe(x.path, y.path))))
  }

  /** `StatusLe` is a total order on the eight (indeed all twenty) pairs. */
  lemma StatusLeTotalOrder(a: Status, b: Status, c: Status)
    ensures StatusLe(a, a)
    ensures StatusLe(a, b) && StatusLe(b, a) ==> a == b
    ensures StatusLe(a, b) && StatusLe(b, c) ==> StatusLe(a, c)
    ensures StatusLe(a, b) || StatusLe(b, a)
  {
    RanksAreInjective();
  }

  /** Messages are totally ordered: the order `changes.sort()` uses is
      reflexive, antisymmetric, transitive and total. */
  lemma MsgLeReflexive(x: StatusMsg)
    ensures MsgLe(x, x)
  {
    StrLeReflexive(x.path);
  }

  lemma MsgLeAntisymmetric(x: StatusMsg, y: StatusMsg)
    requires MsgLe(x, y) && MsgLe(y, x)
    ensures x == y
  {
    if StrLt(x.branch, y.branch) {
      if StrLt(y.branch, x.branch) { StrLeAntisymmetric(x.branch, y.branch); }
    } else if StrLt(y.branch, x.branch) {
    } else {
      StatusLeTotalOrder(x.status, y.status, y.status);
      if x.status == y.status {
        StrLeAntisymmetric(x.path, y.path);
      }
    }
  }

  lemma MsgLeTransitive(x: StatusMsg, y: StatusMsg, z: StatusMsg)
    requires MsgLe(x, y) && MsgLe(y, z)
    ensures MsgLe(x, z)
  {
    StatusLeTotalOrder(x.status, y.status, z.status);
    if StrLt(x.branch, y.branch) || StrLt(y.branch, z.branch) {
      if StrLe(x.branch, y.branch) && StrLe(y.branch, z.branch) {
        StrLeTransitive(x.branch, y.branch, z.branch);
        if x.branch == z.branch {
          StrLeAntisymmetric(x.branch, y.branch);
        }
      }
    } else if x.status != y.status || y.status != z.status {
      if StatusLe(x.status, z.status) && StatusLe(z.status, x.status) {
        StatusLeTotalOrder(x.status, z.status, y.status);
      }
    } else {
      StrLeTransitive(x.path, y.path, z.path);
    }
  }

  lemma MsgLeTotal(x: StatusMsg, y: StatusMsg)
    ensures MsgLe(x, y) || MsgLe(y, x)
  {
    StrLeTotal(x.branch, y.branch);
    StatusLeTotalOrder(x.status, y.status, y.status);
    StrLeTotal(x.path, y.path);
  }

  /** The message order compares branches first: a message never precedes one
      with a smaller branch, and within one branch it never precedes one with
      a smaller tracking. */
  lemma MsgLeByBranchThenTracking(x: StatusMsg, y: StatusMsg)
    requires MsgLe(x, y)
    ensures StrLe(x.branch, y.branch)
    ensures x.branch == y.branch ==> TrackingRank(x.status.0) <= TrackingRank(y.status.0)
  {
    if x.branch == y.branch { StrLeReflexive(x.branch); }
  }
}
