/**
 * The per-row selection of the matcher: the distances from one source key
 * value to every target key value, their minimum, and the position of the
 * first target that attains it (pandas `Series.min` and `Series.idxmin`
 * over a series with the default positional index).
 */
module Selection {
  import opened EditDistance

  /** The distance from `value` to each target, in target order. */
  function Distances(value: string, targets: seq<string>): (ds: seq<nat>)
    ensures |ds| == |targets|
  {
    seq(|targets|, j requires 0 <= j < |targets| => Lev(value, targets[j]))
  }

  /** The least element of a non-empty series. */
  function Min(s: seq<nat>): (m: nat)
    requires |s| > 0
    ensures m in s
    ensures forall j | 0 <= j < |s| :: m <= s[j]
  {
    if |s| == 1 then s[0]
    else
      var rest := Min(s[1..]);
      assert forall j | 1 <= j < |s| :: s[j] == s[1..][j - 1];
      if s[0] <= rest then s[0] else rest
  }

  /**
   * The position of the least element of a non-empty series; among equal
   * least elements, the first one.
   */
  function IdxMin(s: seq<nat>): (k: nat)
    requires |s| > 0
    ensures k < |s|
    ensures forall j | 0 <= j < |s| :: s[k] <= s[j]
    ensures forall j | 0 <= j < k :: s[k] < s[j]
  {
    if |s| == 1 then 0
    else
      var k := IdxMin(s[..|s| - 1]);
      if s[|s| - 1] < s[k] then |s| - 1 else k
  }

  /** The two passes the source makes agree: the first minimal position holds the minimum. */
  lemma IdxMinHoldsMin(s: seq<nat>)
    requires |s| > 0
    ensures s[IdxMin(s)] == Min(s)
  {
  }

  /** `k` is the first target position at the least distance from `value`. */
  ghost predicate IsFirstNearest(value: string, targets: seq<string>, k: nat)
  {
    && k < |targets|
    && (forall j | 0 <= j < |targets| :: Lev(value, targets[k]) <= Lev(value, targets[j]))
    && (forall j | 0 <= j < k :: Lev(value, targets[k]) < Lev(value, targets[j]))
  }

  /** At most one position is the first nearest one. */
  lemma FirstNearestUnique(value: string, targets: seq<string>, k1: nat, k2: nat)
    requires IsFirstNearest(value, targets, k1) && IsFirstNearest(value, targets, k2)
    ensures k1 == k2
  {
    assert Lev(value, targets[k1]) <= Lev(value, targets[k2]);
    assert Lev(value, targets[k2]) <= Lev(value, targets[k1]);
  }

  /** A first minimal position of the distance series is a first nearest target. */
  lemma FirstMinimalIsFirstNearest(value: string, targets: seq<string>, k: nat)
    requires k < |targets|
    requires var ds := Distances(value, targets);
      (forall j | 0 <= j < |ds| :: ds[k] <= ds[j]) && (forall j | 0 <= j < k :: ds[k] < ds[j])
    ensures IsFirstNearest(value, targets, k)
  {
    var ds := Distances(value, targets);
    assert forall j | 0 <= j < |targets| :: ds[j] == Lev(value, targets[j]);
  }

  /** The outcome of matching one source value: the chosen target value and the least distance. */
  datatype Match = Match(matched: string, distance: nat)

  /**
   * One source value against all target values: the least distance, and
   * the target value at the first position attaining it.
   */
  function BestMatch(value: string, targets: seq<string>): (m: Match)
    requires |targets| > 0
    ensures m.matched in targets
    ensures forall t | t in targets :: m.distance <= Lev(value, t)
    ensures Lev(value, m.matched) == m.distance
    ensures exists k: nat :: IsFirstNearest(value, targets, k) && targets[k] == m.matched
  {
    var ds := Distances(value, targets);
    var best := IdxMin(ds);
    IdxMinHoldsMin(ds);
    FirstMinimalIsFirstNearest(value, targets, best);
    Match(targets[best], Min(ds))
  }

  /**
   * A source value that occurs verbatim among the targets is matched to
   * itself at distance 0.
   */
  lemma ExactMatchWins(value: string, targets: seq<string>)
    requires value in targets
    ensures BestMatch(value, targets) == Match(value, 0)
  {
    var m := BestMatch(value, targets);
    LevSelf(value);
    assert m.distance == 0;
    LevZeroIff(value, m.matched);
  }

  /** When `value` is among the targets, the first nearest target is `value` itself. */
  lemma NearestOfMember(value: string, targets: seq<string>, k: nat)
    requires value in targets && IsFirstNearest(value, targets, k)
    ensures targets[k] == value && Lev(value, targets[k]) == 0
  {
    BestMatchIsFirstNearest(value, targets, k);
    ExactMatchWins(value, targets);
  }

  /**
   * The chosen distance is the least distance from `value` to any target
   * and equals the distance to the first such target.
   */
  lemma BestMatchIsFirstNearest(value: string, targets: seq<string>, k: nat)
    requires |targets| > 0 && IsFirstNearest(value, targets, k)
    ensures BestMatch(value, targets) == Match(targets[k], Lev(value, targets[k]))
  {
    var m := BestMatch(value, targets);
    var k': nat :| IsFirstNearest(value, targets, k') && targets[k'] == m.matched;
    FirstNearestUnique(value, targets, k, k');
  }
}
