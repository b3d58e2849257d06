/** The two operations on Swift strings the view models rely on: literal
    replace-all (`replacingOccurrences(of:with:)`) and ordering (`<`). */
module Strings {

  /** `pat` occurs in `s` starting at index `i`. */
  predicate OccursAt(s: string, pat: string, i: nat) {
    i + |pat| <= |s| && s[i..i + |pat|] == pat
  }

  /** `pat` occurs somewhere in `s`. */
  predicate Contains(s: string, pat: string) {
    exists i: nat | i <= |s| :: OccursAt(s, pat, i)
  }

  /** Every occurrence of `pat` in `s` replaced by `rep`: the scan goes from left
      to right, takes the leftmost match, resumes after it, and never looks
      inside text it has inserted. An empty pattern leaves `s` as it is. */
  function ReplaceAll(s: string, pat: string, rep: string): string
    decreases |s|
  {
    if |pat| == 0 || |s| < |pat| then s
    else if s[..|pat|] == pat then rep + ReplaceAll(s[|pat|..], pat, rep)
    else [s[0]] + ReplaceAll(s[1..], pat, rep)
  }

  /** Every character of a pattern that occurs in `s` is a character of `s`;
      so a pattern with a character `s` lacks does not occur in `s`. */
  lemma OccurrenceCharacter(s: string, pat: string, k: nat)
    requires k < |pat|
    ensures Contains(s, pat) ==> pat[k] in s
  {
  }

  /** A string without the pattern comes back unchanged. */
  lemma {:induction false} ReplaceAllAbsent(s: string, pat: string, rep: string)
    requires !Contains(s, pat)
    ensures ReplaceAll(s, pat, rep) == s
    decreases |s|
  {
    if |pat| == 0 {
      assert OccursAt(s, pat, 0);
    } else if |s| >= |pat| {
      assert !OccursAt(s, pat, 0);
      forall i: nat | i <= |s[1..]| && OccursAt(s[1..], pat, i) ensures OccursAt(s, pat, i + 1) {
        assert s[i + 1..i + 1 + |pat|] == s[1..][i..i + |pat|];
      }
      ReplaceAllAbsent(s[1..], pat, rep);
      assert s == [s[0]] + s[1..];
    }
  }

  /** A replacement of the same length as its pattern keeps the length. */
  lemma {:induction false} ReplaceAllSameLength(s: string, pat: string, rep: string)
    requires |rep| == |pat|
    ensures |ReplaceAll(s, pat, rep)| == |s|
    decreases |s|
  {
    if |pat| == 0 || |s| < |pat| {
    } else if s[..|pat|] == pat {
      ReplaceAllSameLength(s[|pat|..], pat, rep);
    } else {
      ReplaceAllSameLength(s[1..], pat, rep);
    }
  }

  /** A leading occurrence is replaced once and the scan resumes after it:
      the inserted text is not scanned again, whatever it contains. */
  lemma ReplaceAllLeading(pat: string, t: string, rep: string)
    requires |pat| > 0
    ensures ReplaceAll(pat + t, pat, rep) == rep + ReplaceAll(t, pat, rep)
  {
  }

  /** The first occurrence of `pat` is replaced, the text before it is kept,
      and the scan goes on after it. */
  lemma {:induction false} ReplaceAllFirst(a: string, pat: string, b: string, rep: string)
    requires |pat| > 0
    requires forall i :: 0 <= i < |a| ==> !OccursAt(a + pat + b, pat, i)
    ensures ReplaceAll(a + pat + b, pat, rep) == a + rep + ReplaceAll(b, pat, rep)
    decreases |a|
  {
    if |a| == 0 {
      assert a + pat + b == pat + b;
      ReplaceAllLeading(pat, b, rep);
    } else {
      var s := a + pat + b;
      var tail := a[1..] + pat + b;
      assert s[1..] == tail;
      assert !OccursAt(s, pat, 0);
      assert ReplaceAll(s, pat, rep) == [a[0]] + ReplaceAll(tail, pat, rep);
      forall i | 0 <= i < |a[1..]| ensures !OccursAt(tail, pat, i) {
        assert !OccursAt(s, pat, i + 1);
        assert s[i + 1..i + 1 + |pat|] == tail[i..i + |pat|];
      }
      ReplaceAllFirst(a[1..], pat, b, rep);
      assert a == [a[0]] + a[1..];
    }
  }

  /** `x` begins with `u`. */
  predicate StartsWith(x: string, u: string) {
    |u| <= |x| && x[..|u|] == u
  }

  /** `u` and `w` differ at a position both of them have, so no string starts
      with both. */
  predicate Diverge(u: string, w: string) {
    |u| > 0 && |w| > 0 && (u[0] != w[0] || Diverge(u[1..], w[1..]))
  }

  lemma {:induction false} DivergeBlocks(u: string, w: string, x: string)
    requires Diverge(u, w)
    ensures StartsWith(x, u) ==> !StartsWith(x, w)
    decreases |u|
  {
    if u[0] == w[0] && |x| > 0 {
      DivergeBlocks(u[1..], w[1..], x[1..]);
      assert StartsWith(x, u) ==> x[1..][..|u| - 1] == x[..|u|][1..];
      assert StartsWith(x, w) ==> x[1..][..|w| - 1] == x[..|w|][1..];
    }
  }

  /** No occurrence of `q` can begin inside the replacement text `rep`. */
  predicate CannotStartIn(rep: string, q: string) {
    forall k :: 0 <= k < |rep| ==> Diverge(rep[k..], q)
  }

  /** No occurrence of `q` that begins before `rep` can run into it. */
  predicate CannotRunInto(rep: string, q: string) {
    forall d :: 1 <= d < |q| ==> Diverge(rep, q[d..])
  }

  /** A prefix that no replacement text can supply is a prefix of the input. */
  lemma {:induction false} ReplaceAllKeepsPrefix(t: string, p: string, rep: string, w: string)
    requires |p| > 0
    requires forall d :: 0 <= d < |w| ==> Diverge(rep, w[d..])
    ensures StartsWith(ReplaceAll(t, p, rep), w) ==> StartsWith(t, w)
    decreases |t|
  {
    if |w| == 0 || |t| < |p| {
    } else if t[..|p|] == p {
      var r := ReplaceAll(t, p, rep);
      assert r == rep + ReplaceAll(t[|p|..], p, rep);
      assert StartsWith(r, rep);
      assert w[0..] == w;
      DivergeBlocks(rep, w, r);
    } else {
      var r' := ReplaceAll(t[1..], p, rep);
      assert ReplaceAll(t, p, rep) == [t[0]] + r';
      forall d | 0 <= d < |w[1..]| ensures Diverge(rep, w[1..][d..]) {
        assert w[1..][d..] == w[d + 1..];
      }
      ReplaceAllKeepsPrefix(t[1..], p, rep, w[1..]);
      PrefixThroughChar(t[0], r', w);
      PrefixThroughChar(t[0], t[1..], w);
      assert t == [t[0]] + t[1..];
    }
  }

  /** A string that starts with a character starts with `q` exactly when that
      character begins `q` and the rest starts with the rest of `q`. */
  lemma PrefixThroughChar(c: char, x: string, q: string)
    requires |q| > 0
    ensures StartsWith([c] + x, q) <==> c == q[0] && StartsWith(x, q[1..])
  {
    if |q| <= |x| + 1 {
      assert ([c] + x)[..|q|] == [c] + x[..|q| - 1];
      assert q == [q[0]] + q[1..];
    }
  }

  /** An occurrence is either at the front or in the rest. */
  lemma ContainsSplit(x: string, q: string)
    requires |x| > 0
    ensures Contains(x, q) <==> OccursAt(x, q, 0) || Contains(x[1..], q)
  {
    forall i: nat | i <= |x[1..]| ensures OccursAt(x[1..], q, i) <==> OccursAt(x, q, i + 1) {
      if i + |q| <= |x[1..]| {
        assert x[1..][i..i + |q|] == x[i + 1..i + 1 + |q|];
      }
    }
    if Contains(x, q) && !OccursAt(x, q, 0) {
      var i: nat :| i <= |x| && OccursAt(x, q, i);
      assert OccursAt(x[1..], q, i - 1);
    }
  }

  /** Text placed after a replacement that no `q` can begin in gains no `q`. */
  lemma {:induction false} AvoidsAfterReplacement(rep: string, rest: string, q: string)
    requires |q| > 0 && CannotStartIn(rep, q) && !Contains(rest, q)
    ensures !Contains(rep + rest, q)
    decreases |rep|
  {
    if |rep| > 0 {
      var x := rep + rest;
      assert rep[0..] == rep;
      DivergeBlocks(rep, q, x);
      assert StartsWith(x, rep);
      assert x[1..] == rep[1..] + rest;
      forall k | 0 <= k < |rep[1..]| ensures Diverge(rep[1..][k..], q) {
        assert rep[1..][k..] == rep[k + 1..];
      }
      AvoidsAfterReplacement(rep[1..], rest, q);
      ContainsSplit(x, q);
      assert OccursAt(x, q, 0) ==> StartsWith(x, q);
    } else {
      assert rep + rest == rest;
    }
  }

  /** After replacing `p` by `rep`, the text holds no `q` when no `q` can
      begin inside `rep` or run into it, and either `q` is the pattern itself
      or the input held no `q` to begin with. */
  lemma {:induction false} ReplaceAllAvoids(s: string, p: string, rep: string, q: string)
    requires |p| > 0 && |q| > 0
    requires CannotStartIn(rep, q) && CannotRunInto(rep, q)
    requires q == p || !Contains(s, q)
    ensures !Contains(ReplaceAll(s, p, rep), q)
    decreases |s|
  {
    var r := ReplaceAll(s, p, rep);
    if |s| < |p| {
      assert r == s;
    } else if s[..|p|] == p {
      var rest := s[|p|..];
      assert !Contains(s, q) ==> !Contains(rest, q) by {
        forall i: nat | i <= |rest| && OccursAt(rest, q, i) ensures OccursAt(s, q, i + |p|) {
          assert s[i + |p|..i + |p| + |q|] == rest[i..i + |q|];
        }
      }
      ReplaceAllAvoids(rest, p, rep, q);
      AvoidsAfterReplacement(rep, ReplaceAll(rest, p, rep), q);
    } else {
      var t := s[1..];
      var rt := ReplaceAll(t, p, rep);
      assert r == [s[0]] + rt;
      ContainsSplit(s, q);
      ReplaceAllAvoids(t, p, rep, q);
      forall d | 0 <= d < |q[1..]| ensures Diverge(rep, q[1..][d..]) {
        assert q[1..][d..] == q[d + 1..];
      }
      ReplaceAllKeepsPrefix(t, p, rep, q[1..]);
      assert s == [s[0]] + t;
      PrefixThroughChar(s[0], rt, q);
      PrefixThroughChar(s[0], t, q);
      assert !OccursAt(s, q, 0);
      ContainsSplit(r, q);
    }
  }

  /** Swift's `String <`, taken as the lexicographic order on characters. */
  predicate Less(a: string, b: string) {
    if |b| == 0 then false
    else if |a| == 0 then true
    else if a[0] != b[0] then a[0] < b[0]
    else Less(a[1..], b[1..])
  }

  /** No string sorts before itself. */
  lemma {:induction false} LessIrreflexive(a: string)
    ensures !Less(a, a)
  {
    if |a| > 0 {
      LessIrreflexive(a[1..]);
    }
  }

  /** The order is transitive. */
  lemma {:induction false} LessTransitive(a: string, b: string, c: string)
    requires Less(a, b) && Less(b, c)
    ensures Less(a, c)
  {
    if |a| > 0 && a[0] == b[0] && b[0] == c[0] {
      LessTransitive(a[1..], b[1..], c[1..]);
    }
  }

  /** Two different strings are ordered one way or the other. */
  lemma {:induction false} LessConnected(a: string, b: string)
    requires a != b
    ensures Less(a, b) || Less(b, a)
  {
    if |a| > 0 && |b| > 0 && a[0] == b[0] {
      assert a == [a[0]] + a[1..] && b == [b[0]] + b[1..];
      LessConnected(a[1..], b[1..]);
    }
  }

  /** "Not after" (the order a sorted list keeps) is transitive. */
  lemma NotLessTransitive(a: string, b: string, c: string)
    requires !Less(b, a) && !Less(c, b)
    ensures !Less(c, a)
  {
  }

  /** Strict order is asymmetric. */
  lemma LessAsymmetric(a: string, b: string)
    requires Less(a, b)
    ensures !Less(b, a)
  {
  }
}
