/**
 * The string operations the three scripts take from Python's `str`:
 * `strip()`, `lower()`, `find()`, the `in` substring test, `split()` on a
 * single character and `','.join(...)`.  Only ASCII is modelled: the
 * whitespace set is the ASCII part of `str.isspace()` and case mapping is
 * the ASCII one.
 */
module Text {

  /** ASCII characters that `str.isspace()` accepts: tab, line feed, vertical
      tab, form feed, carriage return (9-13), the four information separators
      (28-31) and space (32). */
  predicate IsSpace(c: char) {
    9 <= c as int <= 13 || 28 <= c as int <= 32
  }

  predicate AllSpace(s: string) {
    forall i :: 0 <= i < |s| ==> IsSpace(s[i])
  }

  /** Neither begins nor ends with whitespace. */
  predicate IsStripped(s: string) {
    s == [] || (!IsSpace(s[0]) && !IsSpace(s[|s| - 1]))
  }

  /** How many whitespace characters `lstrip()` removes: the length of the
      leading run of whitespace. */
  function Lead(s: string): (n: nat)
    ensures n <= |s| && (n < |s| ==> !IsSpace(s[n]))
  {
    if s != [] && IsSpace(s[0]) then 1 + Lead(s[1..]) else 0
  }

  /** How many whitespace characters `rstrip()` removes. */
  function Trail(s: string): (n: nat)
    ensures n <= |s| && (n < |s| ==> !IsSpace(s[|s| - 1 - n]))
  {
    if s != [] && IsSpace(s[|s| - 1]) then 1 + Trail(s[..|s| - 1]) else 0
  }

  lemma {:induction false} LeadAllSpace(s: string)
    ensures AllSpace(s[..Lead(s)])
  {
    if s != [] && IsSpace(s[0]) {
      LeadAllSpace(s[1..]);
      var n := Lead(s);
      forall i | 0 <= i < n ensures IsSpace(s[..n][i]) {
        if i > 0 {
          assert s[..n][i] == s[1..][..n - 1][i - 1];
        }
      }
    }
  }

  lemma {:induction false} TrailAllSpace(s: string)
    ensures AllSpace(s[|s| - Trail(s)..])
  {
    if s != [] && IsSpace(s[|s| - 1]) {
      var init := s[..|s| - 1];
      TrailAllSpace(init);
      var n := Trail(s);
      var suffix, rest := s[|s| - n..], init[|init| - (n - 1)..];
      forall i | 0 <= i < n ensures IsSpace(suffix[i]) {
        if i < n - 1 {
          assert suffix[i] == rest[i];
        }
      }
    }
  }

  /** `s.strip()`: the result has no whitespace at either end (what it cut
      off is stated by StripParts). */
  function Strip(s: string): (r: string)
    ensures IsStripped(r) && |r| <= |s|
  {
    var t := s[Lead(s)..];
    t[..|t| - Trail(t)]
  }

  lemma {:induction false} LeadOfSpaces(a: string, t: string)
    requires AllSpace(a)
    requires t == [] || !IsSpace(t[0])
    ensures Lead(a + t) == |a|
  {
    if a != [] {
      assert (a + t)[1..] == a[1..] + t;
      LeadOfSpaces(a[1..], t);
    }
  }

  lemma {:induction false} TrailOfSpaces(t: string, b: string)
    requires AllSpace(b)
    requires t == [] || !IsSpace(t[|t| - 1])
    ensures Trail(t + b) == |b|
  {
    if b != [] {
      assert (t + b)[..|t + b| - 1] == t + b[..|b| - 1];
      TrailOfSpaces(t, b[..|b| - 1]);
    }
  }

  /** `strip()` is determined by its characterisation: whatever stripped text
      sits between two runs of whitespace is what `strip()` returns. */
  lemma StripUnique(a: string, m: string, b: string)
    requires AllSpace(a) && AllSpace(b) && IsStripped(m)
    ensures Strip(a + m + b) == m
  {
    AllSpaceConcat(a, b);
    if m == [] {
      assert a + m + b == (a + b) + [];
      LeadOfSpaces(a + b, []);
    } else {
      assert a + m + b == a + (m + b);
      LeadOfSpaces(a, m + b);
      assert (a + m + b)[|a|..] == m + b;
      TrailOfSpaces(m, b);
      assert (m + b)[..|m|] == m;
    }
  }

  lemma AllSpaceConcat(a: string, b: string)
    ensures AllSpace(a + b) <==> AllSpace(a) && AllSpace(b)
  {
    if AllSpace(a) && AllSpace(b) {
      forall i | 0 <= i < |a + b| ensures IsSpace((a + b)[i]) {
        if i >= |a| { assert (a + b)[i] == b[i - |a|]; }
      }
    }
    if AllSpace(a + b) {
      forall i | 0 <= i < |a| ensures IsSpace(a[i]) { assert a[i] == (a + b)[i]; }
      forall i | 0 <= i < |b| ensures IsSpace(b[i]) { assert b[i] == (a + b)[|a| + i]; }
    }
  }

  /** `strip()` cuts off whitespace and nothing else: the input is the result
      with a run of whitespace on either side. */
  lemma StripParts(s: string) returns (a: string, b: string)
    ensures AllSpace(a) && AllSpace(b) && s == a + Strip(s) + b
  {
    var n := Lead(s);
    var t := s[n..];
    var k := |t| - Trail(t);
    assert Strip(s) == t[..k];
    a, b := s[..n], t[k..];
    LeadAllSpace(s);
    TrailAllSpace(t);
    Reassemble(s, n, t, k);
  }

  lemma Reassemble<T>(s: seq<T>, n: nat, t: seq<T>, k: nat)
    requires n <= |s| && t == s[n..] && k <= |t|
    ensures s == s[..n] + t[..k] + t[k..]
  {
    assert t == t[..k] + t[k..];
  }

  lemma Regroup(a: string, p: string, m: string, q: string, b: string)
    ensures a + (p + m + q) + b == (a + p) + m + (q + b)
  {
  }

  /** Surrounding whitespace does not change what `strip()` returns. */
  lemma StripIgnoresSurroundingSpace(a: string, s: string, b: string)
    requires AllSpace(a) && AllSpace(b)
    ensures Strip(a + s + b) == Strip(s)
  {
    var m := Strip(s);
    var p, q := StripParts(s);
    assert AllSpace(a + p) && AllSpace(q + b) by {
      AllSpaceConcat(a, p);
      AllSpaceConcat(q, b);
    }
    Regroup(a, p, m, q, b);
    StripUnique(a + p, m, q + b);
  }

  lemma StripIdempotent(s: string)
    ensures Strip(Strip(s)) == Strip(s)
  {
    assert Strip(s) == [] + Strip(s) + [];
    StripUnique([], Strip(s), []);
  }

  /** `c.lower()` on ASCII. */
  function LowerChar(c: char): char {
    if 'A' <= c <= 'Z' then (c as int + 32) as char else c
  }

  /** `s.lower()`: every character is mapped on its own. */
  function Lower(s: string): (r: string)
    ensures |r| == |s|
    ensures forall i :: 0 <= i < |s| ==> r[i] == LowerChar(s[i])
  {
    if s == [] then [] else [LowerChar(s[0])] + Lower(s[1..])
  }

  lemma LowerIdempotent(s: string)
    ensures Lower(Lower(s)) == Lower(s)
  {
  }

  lemma LowerConcat(a: string, b: string)
    ensures Lower(a + b) == Lower(a) + Lower(b)
  {
  }

  /** Lower-casing neither creates nor removes whitespace. */
  lemma LowerKeepsSpace(s: string)
    ensures AllSpace(s) ==> Lower(s) == s
    ensures IsStripped(s) ==> IsStripped(Lower(s))
  {
  }

  /** `s.strip().lower() == s.lower().strip()`. */
  lemma StripLower(s: string)
    ensures Strip(Lower(s)) == Lower(Strip(s))
  {
    var m := Strip(s);
    var p, q := StripParts(s);
    LowerConcat(p + m, q);
    LowerConcat(p, m);
    LowerKeepsSpace(p);
    LowerKeepsSpace(q);
    LowerKeepsSpace(m);
    assert Lower(s) == p + Lower(m) + q;
    StripUnique(p, Lower(m), q);
  }

  /** The join key: `s.strip().lower()`. */
  function Normalize(s: string): (k: string)
    ensures IsStripped(k) && |k| <= |s|
    ensures forall i :: 0 <= i < |k| ==> !('A' <= k[i] <= 'Z')
  {
    var m := Strip(s);
    LowerKeepsSpace(m);
    Lower(m)
  }

  lemma NormalizeIdempotent(s: string)
    ensures Normalize(Normalize(s)) == Normalize(s)
  {
    StripLower(Strip(s));
    StripIdempotent(s);
    LowerIdempotent(Strip(s));
  }

  /** Two fields that differ only in letter case and in surrounding
      whitespace give the same key. */
  lemma NormalizeIgnoresCaseAndSpace(a: string, s: string, t: string, b: string)
    requires AllSpace(a) && AllSpace(b)
    requires Lower(s) == Lower(t)
    ensures Normalize(a + s + b) == Normalize(t)
  {
    StripLower(a + s + b);
    StripLower(t);
    LowerConcat(a + s, b);
    LowerConcat(a, s);
    LowerKeepsSpace(a);
    LowerKeepsSpace(b);
    StripIgnoresSurroundingSpace(a, Lower(s), b);
  }

  /** `s[i:i+len(t)] == t` with the slice inside `s`. */
  predicate OccursAt(s: string, t: string, i: int) {
    0 <= i && i + |t| <= |s| && s[i..i + |t|] == t
  }

  /** `s.find(t, from)`: the lowest index at or after `from` where `t`
      occurs, or -1 when there is none (FindSpec). */
  function Find(s: string, t: string, from: nat): (r: int)
    decreases |s| - from
    ensures r == -1 || (from <= r && r + |t| <= |s|)
  {
    if from + |t| > |s| then -1
    else if s[from..from + |t|] == t then from
    else Find(s, t, from + 1)
  }

  /** What `find` returns: an occurrence at or after `from` with none
      between `from` and it, or -1 when there is none at all. */
  lemma {:induction false} FindSpec(s: string, t: string, from: nat)
    decreases |s| - from
    ensures var r := Find(s, t, from);
            && (r == -1 || OccursAt(s, t, r))
            && (r == -1 ==> forall j :: from <= j ==> !OccursAt(s, t, j))
            && (r != -1 ==> forall j :: from <= j < r ==> !OccursAt(s, t, j))
  {
    if from + |t| <= |s| && s[from..from + |t|] != t {
      FindSpec(s, t, from + 1);
    }
  }

  /** `t in s` for strings. */
  function Contains(s: string, t: string): (b: bool)
    ensures b <==> exists i :: OccursAt(s, t, i)
  {
    FindSpec(s, t, 0);
    Find(s, t, 0) >= 0
  }

  /** `s.split(sep)`: always at least one piece, and no piece holds `sep`. */
  function Split(s: string, sep: char): (pieces: seq<string>)
    ensures |pieces| >= 1
    ensures forall k :: 0 <= k < |pieces| ==> sep !in pieces[k]
  {
    if s == [] then [""]
    else
      var rest := Split(s[1..], sep);
      if s[0] == sep then [""] + rest
      else [[s[0]] + rest[0]] + rest[1..]
  }

  /** `sep.join(pieces)`. */
  function JoinWith(pieces: seq<string>, sep: char): string {
    if |pieces| == 0 then ""
    else if |pieces| == 1 then pieces[0]
    else pieces[0] + [sep] + JoinWith(pieces[1..], sep)
  }

  /** Joining the pieces of a split gives the text back. */
  lemma {:induction false} JoinSplit(s: string, sep: char)
    ensures JoinWith(Split(s, sep), sep) == s
  {
    if s != [] {
      var rest := Split(s[1..], sep);
      JoinSplit(s[1..], sep);
      if s[0] == sep {
        assert s == [] + [sep] + s[1..];
      } else if |rest| == 1 {
        assert s == [s[0]] + rest[0];
      } else {
        assert rest == [rest[0]] + rest[1..];
        assert JoinWith(rest, sep) == rest[0] + [sep] + JoinWith(rest[1..], sep);
        assert s == [s[0]] + JoinWith(rest, sep);
      }
    }
  }

  lemma {:induction false} SplitNoSep(p: string, sep: char)
    requires sep !in p
    ensures Split(p, sep) == [p]
  {
    if p != [] {
      SplitNoSep(p[1..], sep);
      assert [p[0]] + p[1..] == p;
    }
  }

  lemma {:induction false} SplitAtSep(p: string, sep: char, u: string)
    requires sep !in p
    ensures Split(p + [sep] + u, sep) == [p] + Split(u, sep)
  {
    if p == [] {
      assert p + [sep] + u == [sep] + u;
      assert ([sep] + u)[1..] == u;
    } else {
      assert (p + [sep] + u)[1..] == p[1..] + [sep] + u;
      SplitAtSep(p[1..], sep, u);
      assert [p[0]] + p[1..] == p;
    }
  }

  /** Splitting a join of separator-free pieces gives the pieces back. */
  lemma {:induction false} SplitJoin(pieces: seq<string>, sep: char)
    requires |pieces| >= 1
    requires forall k :: 0 <= k < |pieces| ==> sep !in pieces[k]
    ensures Split(JoinWith(pieces, sep), sep) == pieces
  {
    if |pieces| == 1 {
      SplitNoSep(pieces[0], sep);
    } else {
      SplitJoin(pieces[1..], sep);
      SplitAtSep(pieces[0], sep, JoinWith(pieces[1..], sep));
      assert pieces == [pieces[0]] + pieces[1..];
    }
  }
}
