/**
 * `edit_distance` of tosqlite.py, the SQL function `edist`: the Levenshtein
 * distance of the two normalised strings divided by the longer length.  The
 * distance is defined by its recurrence on prefixes, in the order the
 * two-row dynamic programme fills its table.
 */
module Levenshtein {
  import opened Text

  function Min3(x: nat, y: nat, z: nat): (m: nat)
    ensures m <= x && m <= y && m <= z
    ensures m == x || m == y || m == z
  {
    if x <= y && x <= z then x else if y <= z then y else z
  }

  function Max(x: nat, y: nat): (m: nat)
    ensures x <= m && y <= m && (m == x || m == y)
  {
    if x < y then y else x
  }

  /** The cost of matching the last characters: `(c1 != c2)` as an int. */
  function Cost(c1: char, c2: char): nat {
    if c1 != c2 then 1 else 0
  }

  /** The Levenshtein distance: the fewest single-character insertions,
      deletions and substitutions turning `a` into `b`. */
  function Lev(a: string, b: string): nat
    decreases |a| + |b|
  {
    if a == [] then |b|
    else if b == [] then |a|
    else
      var a', b' := a[..|a| - 1], b[..|b| - 1];
      Min3(Lev(a', b) + 1, Lev(a, b') + 1, Lev(a', b') + Cost(a[|a| - 1], b[|b| - 1]))
  }

  /** The distance does not depend on the order of the arguments. */
  lemma {:induction false} LevSym(a: string, b: string)
    ensures Lev(a, b) == Lev(b, a)
    decreases |a| + |b|
  {
    if a != [] && b != [] {
      var a', b' := a[..|a| - 1], b[..|b| - 1];
      LevSym(a', b);
      LevSym(a, b');
      LevSym(a', b');
    }
  }

  /** The distance lies between the difference and the larger of the two
      lengths. */
  lemma {:induction false} LevBounds(a: string, b: string)
    ensures |a| - |b| <= Lev(a, b) && |b| - |a| <= Lev(a, b)
    ensures Lev(a, b) <= Max(|a|, |b|)
    decreases |a| + |b|
  {
    if a != [] && b != [] {
      var a', b' := a[..|a| - 1], b[..|b| - 1];
      LevBounds(a', b);
      LevBounds(a, b');
      LevBounds(a', b');
    }
  }

  /** The distance is zero exactly for equal strings. */
  lemma {:induction false} LevZeroIff(a: string, b: string)
    ensures Lev(a, b) == 0 <==> a == b
    decreases |a| + |b|
  {
    if a != [] && b != [] {
      var a', b' := a[..|a| - 1], b[..|b| - 1];
      LevZeroIff(a', b');
      assert a == a' + [a[|a| - 1]] && b == b' + [b[|b| - 1]];
      if a == b {
        assert a' == b';
      }
    }
  }

  /** The table of the dynamic programme: cell `(i, j)` is computed from
      the three cells before it, on indices rather than prefixes. */
  function Table(a: string, b: string, i: nat, j: nat): nat
    requires i <= |a| && j <= |b|
    decreases i + j
  {
    if i == 0 then j
    else if j == 0 then i
    else Min3(Table(a, b, i - 1, j) + 1, Table(a, b, i, j - 1) + 1,
              Table(a, b, i - 1, j - 1) + Cost(a[i - 1], b[j - 1]))
  }

  /** Cell `(i, j)` is the distance of the prefixes of lengths `i` and `j`. */
  lemma {:induction false} TableIsLev(a: string, b: string, i: nat, j: nat)
    requires i <= |a| && j <= |b|
    ensures Table(a, b, i, j) == Lev(a[..i], b[..j])
    decreases i + j
  {
    var x, y := a[..i], b[..j];
    if i == 0 {
      assert x == [];
    } else if j == 0 {
      assert y == [];
    } else {
      var x', y' := x[..|x| - 1], y[..|y| - 1];
      assert x' == a[..i - 1] && y' == b[..j - 1];
      assert Table(a, b, i - 1, j) == Lev(x', y) by {
        TableIsLev(a, b, i - 1, j);
      }
      assert Table(a, b, i, j - 1) == Lev(x, y') by {
        TableIsLev(a, b, i, j - 1);
      }
      assert Table(a, b, i - 1, j - 1) == Lev(x', y') by {
        TableIsLev(a, b, i - 1, j - 1);
      }
      assert x[|x| - 1] == a[i - 1] && y[|y| - 1] == b[j - 1];
    }
  }

  /** The sign of a product with a positive factor is the sign of the
      other factor. */
  lemma FactorSign(a: real, b: real)
    requires 0.0 < b
    ensures a * b >= 0.0 ==> a >= 0.0
    ensures a * b == 0.0 ==> a == 0.0
  {
  }

  /** `x / z` in true division, for `0 <= x <= z` and `z > 0`. */
  function Ratio(x: nat, z: nat): (r: real)
    requires 0 < z && x <= z
    ensures 0.0 <= r <= 1.0
    ensures r == 0.0 <==> x == 0
    ensures r == 1.0 <==> x == z
  {
    var xr, zr := x as real, z as real;
    var r := xr / zr;
    assert r * zr == xr;
    assert (1.0 - r) * zr == zr - xr;
    FactorSign(r, zr);
    FactorSign(1.0 - r, zr);
    r
  }

  /** The score of two values: both are stripped and lower-cased first, two
      empty strings score 0.0, otherwise the distance over the longer length. */
  function Score(s1: string, s2: string): (r: real)
    ensures 0.0 <= r <= 1.0
    ensures r == 0.0 <==> Normalize(s1) == Normalize(s2)
  {
    var a, b := Normalize(s1), Normalize(s2);
    var z := Max(|a|, |b|);
    LevBounds(a, b);
    LevZeroIff(a, b);
    if z == 0 then 0.0 else Ratio(Lev(a, b), z)
  }

  /** One pass of the outer loop: from the row of `a[..i]` to the row of
      `a[..i + 1]`, one cell per character of `b`. */
  method NextRow(a: string, b: string, i: nat, previous: seq<nat>) returns (current: seq<nat>)
    requires i < |a| && |previous| == |b| + 1
    requires forall j :: 0 <= j <= |b| ==> previous[j] == Table(a, b, i, j)
    ensures |current| == |b| + 1
    ensures forall k :: 0 <= k <= |b| ==> current[k] == Table(a, b, i + 1, k)
  {
    current := [i + 1];
    for j := 0 to |b|
      invariant |current| == j + 1
      invariant forall k :: 0 <= k <= j ==> current[k] == Table(a, b, i + 1, k)
    {
      var insertions := previous[j + 1] + 1;
      var deletions := current[j] + 1;
      var substitutions := previous[j] + Cost(a[i], b[j]);
      current := current + [Min3(insertions, deletions, substitutions)];
    }
  }

  /** The two-row dynamic programme: `previous_row[-1]` after the last row. */
  method Distance(a: string, b: string) returns (d: nat)
    ensures d == Lev(a, b)
  {
    var previous: seq<nat> := seq(|b| + 1, j => j);
    for i := 0 to |a|
      invariant |previous| == |b| + 1
      invariant forall j :: 0 <= j <= |b| ==> previous[j] == Table(a, b, i, j)
    {
      previous := NextRow(a, b, i, previous);
    }
    TableIsLev(a, b, |a|, |b|);
    assert a[..|a|] == a && b[..|b|] == b;
    d := previous[|b|];
  }

  /** `edit_distance` itself, proved to compute `Score`. */
  method EditDistance(s1: string, s2: string) returns (score: real)
    ensures score == Score(s1, s2)
  {
    var a, b := Normalize(s1), Normalize(s2);
    var z := Max(|a|, |b|);
    if z == 0 {
      return 0.0;
    }
    LevSym(a, b);
    if |a| < |b| {
      a, b := b, a;
    }
    LevBounds(a, b);
    if |b| == 0 {
      return Ratio(|a|, z);
    }
    var d := Distance(a, b);
    score := Ratio(d, z);
  }

  // ---------------------------------------------------------------------
  // Properties of the score

  lemma ScoreSymmetric(s1: string, s2: string)
    ensures Score(s1, s2) == Score(s2, s1)
  {
    LevSym(Normalize(s1), Normalize(s2));
  }

  /** Surrounding whitespace and letter case do not change the score. */
  lemma ScoreNormalized(s1: string, s2: string)
    ensures Score(Normalize(s1), s2) == Score(s1, s2)
  {
    NormalizeIdempotent(s1);
  }

  /** A value against itself, or against the same text in another case with
      other surrounding spaces, scores 0.0. */
  lemma ScoreSame(s: string, t: string, a: string, b: string)
    requires AllSpace(a) && AllSpace(b) && Lower(s) == Lower(t)
    ensures Score(a + s + b, t) == 0.0
  {
    NormalizeIgnoresCaseAndSpace(a, s, t, b);
  }

  /** When exactly one side is blank the score is 1.0. */
  lemma ScoreOneBlank(s1: string, s2: string)
    requires Normalize(s1) == [] && Normalize(s2) != []
    ensures Score(s1, s2) == 1.0
  {
    LevBounds(Normalize(s1), Normalize(s2));
  }
}
