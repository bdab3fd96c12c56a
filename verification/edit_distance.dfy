/**
 * The distance primitive of the matcher: the standard Levenshtein edit
 * distance (unit-cost insertion, deletion and substitution of one
 * character), which the matcher obtains from `Levenshtein.distance`.
 * `Lev` is the reference definition; `Distance` is the usual dynamic
 * programme, proved to compute it.
 */
module EditDistance {

  function Min3(x: nat, y: nat, z: nat): (m: nat)
    ensures m <= x && m <= y && m <= z
    ensures m == x || m == y || m == z
  {
    if x <= y && x <= z then x else if y <= z then y else z
  }

  /** Cost of aligning the last characters of two non-empty strings. */
  function LastCost(a: string, b: string): nat
    requires |a| > 0 && |b| > 0
  {
    if a[|a| - 1] == b[|b| - 1] then 0 else 1
  }

  /**
   * Levenshtein distance, by recursion on the last characters: turn `a`
   * into `b` by deleting the last character of `a`, inserting the last
   * character of `b`, or aligning the two last characters (free when
   * they are equal, a substitution otherwise).
   */
  function Lev(a: string, b: string): nat
    decreases |a| + |b|
  {
    if |a| == 0 then |b|
    else if |b| == 0 then |a|
    else
      Min3(Lev(a[..|a| - 1], b) + 1,
           Lev(a, b[..|b| - 1]) + 1,
           Lev(a[..|a| - 1], b[..|b| - 1]) + LastCost(a, b))
  }

  /** Every string is at distance 0 from itself. */
  lemma {:induction false} LevSelf(x: string)
    ensures Lev(x, x) == 0
    decreases |x|
  {
    if |x| > 0 {
      LevSelf(x[..|x| - 1]);
    }
  }

  /** Distance 0 only between equal strings. */
  lemma {:induction false} LevZeroOnlyIfEqual(a: string, b: string)
    requires Lev(a, b) == 0
    ensures a == b
    decreases |a| + |b|
  {
    if |a| > 0 && |b| > 0 {
      var a', b' := a[..|a| - 1], b[..|b| - 1];
      assert Lev(a', b') == 0 && LastCost(a, b) == 0;
      LevZeroOnlyIfEqual(a', b');
      assert a == a' + [a[|a| - 1]];
      assert b == b' + [b[|b| - 1]];
    }
  }

  /** The distance is zero exactly between equal strings. */
  lemma LevZeroIff(a: string, b: string)
    ensures Lev(a, b) == 0 <==> a == b
  {
    if Lev(a, b) == 0 {
      LevZeroOnlyIfEqual(a, b);
    }
    if a == b {
      LevSelf(a);
    }
  }

  /** The distance does not depend on the order of its arguments. */
  lemma {:induction false} LevSymmetric(a: string, b: string)
    ensures Lev(a, b) == Lev(b, a)
    decreases |a| + |b|
  {
    if |a| > 0 && |b| > 0 {
      var a', b' := a[..|a| - 1], b[..|b| - 1];
      LevSymmetric(a', b);
      LevSymmetric(a, b');
      LevSymmetric(a', b');
    }
  }

  /**
   * The distance is at least the difference of the lengths and at most
   * the longer length.
   */
  lemma {:induction false} LevBounds(a: string, b: string)
    ensures |a| - |b| <= Lev(a, b) && |b| - |a| <= Lev(a, b)
    ensures Lev(a, b) <= if |a| <= |b| then |b| else |a|
    decreases |a| + |b|
  {
    if |a| > 0 && |b| > 0 {
      var a', b' := a[..|a| - 1], b[..|b| - 1];
      LevBounds(a', b);
      LevBounds(a, b');
      LevBounds(a', b');
    }
  }

  /** One step of the dynamic programme, read off the definition of `Lev`. */
  lemma LevStep(x: string, c: char, b: string, j: nat)
    requires 0 < j <= |b|
    ensures Lev(x + [c], b[..j]) ==
      Min3(Lev(x, b[..j]) + 1,
           Lev(x + [c], b[..j - 1]) + 1,
           Lev(x, b[..j - 1]) + (if c == b[j - 1] then 0 else 1))
  {
    assert (x + [c])[..|x|] == x;
    assert b[..j][..j - 1] == b[..j - 1];
  }

  /** `d` is the cell computed from its upper, left and diagonal neighbours. */
  lemma LevCell(x: string, c: char, b: string, j: nat, up: nat, left: nat, diag: nat, d: nat)
    requires 0 < j <= |b|
    requires up == Lev(x, b[..j]) && left == Lev(x + [c], b[..j - 1]) && diag == Lev(x, b[..j - 1])
    requires d == Min3(up + 1, left + 1, diag + if c == b[j - 1] then 0 else 1)
    ensures d == Lev(x + [c], b[..j])
  {
    LevStep(x, c, b, j);
  }

  /** The distances from the string `x` to every prefix of `b`, held in `row`. */
  ghost predicate IsRow(x: string, b: string, row: seq<nat>)
  {
    |row| == |b| + 1 && forall j {:trigger row[j]} | 0 <= j <= |b| :: row[j] == Lev(x, b[..j])
  }

  /** Extends the row for `x` to the row for `x` followed by `c`. */
  method NextRow(ghost x: string, c: char, b: string, prev: array<nat>) returns (cur: array<nat>)
    requires IsRow(x, b, prev[..])
    ensures IsRow(x + [c], b, cur[..])
  {
    var n := |b|;
    ghost var x' := x + [c];
    cur := new nat[n + 1];
    cur[0] := prev[0] + 1;
    assert b[..0] == [] && prev[0] == prev[..][0];
    var j := 1;
    while j <= n
      invariant 1 <= j <= n + 1
      invariant forall k {:trigger cur[k]} | 0 <= k < j :: cur[k] == Lev(x', b[..k])
    {
      assert prev[j] == prev[..][j] && prev[j - 1] == prev[..][j - 1];
      var cost := if c == b[j - 1] then 0 else 1;
      var d := Min3(prev[j] + 1, cur[j - 1] + 1, prev[j - 1] + cost);
      LevCell(x, c, b, j, prev[j], cur[j - 1], prev[j - 1], d);
      cur[j] := d;
      j := j + 1;
    }
  }

  /**
   * Levenshtein distance by the row-by-row dynamic programme: after `i`
   * rounds, `prev[j]` holds the distance from the first `i` characters of
   * `a` to the first `j` characters of `b`.
   */
  method Distance(a: string, b: string) returns (d: nat)
    ensures d == Lev(a, b)
  {
    var prev := new nat[|b| + 1](j => j);
    assert IsRow([], b, prev[..]);
    var i := 0;
    while i < |a|
      invariant 0 <= i <= |a|
      invariant IsRow(a[..i], b, prev[..])
    {
      prev := NextRow(a[..i], a[i], b, prev);
      assert a[..i] + [a[i]] == a[..i + 1];
      i := i + 1;
    }
    assert a[..|a|] == a && b[..|b|] == b;
    d := prev[|b|];
  }
}
