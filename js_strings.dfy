/**
 * The parts of JavaScript's string semantics that the parser relies on:
 * the `\s` character class (also what `String.prototype.trim` removes),
 * the line terminators that the regular-expression `.` does not match,
 * `trim`, and `includes`.
 */
module JsStrings {

  /** JavaScript WhiteSpace and LineTerminator code points: what `\s` matches. */
  predicate IsWhitespace(c: char)
  {
    || c == '\t' || c == '\n' || c == '\U{B}' || c == '\U{C}' || c == '\r' || c == ' '
    || c == '\U{A0}' || c == '\U{1680}' || ('\U{2000}' <= c <= '\U{200A}')
    || c == '\U{2028}' || c == '\U{2029}' || c == '\U{202F}' || c == '\U{205F}'
    || c == '\U{3000}' || c == '\U{FEFF}'
  }

  /** The characters the regular-expression `.` refuses to match (no `s` flag). */
  predicate IsLineTerminator(c: char)
  {
    c == '\n' || c == '\r' || c == '\U{2028}' || c == '\U{2029}'
  }

  predicate AllWhitespace(s: string)
  {
    forall i | 0 <= i < |s| :: IsWhitespace(s[i])
  }

  predicate NoLineTerminator(s: string)
  {
    forall i | 0 <= i < |s| :: !IsLineTerminator(s[i])
  }

  /** A string with no whitespace at either end: what `trim` returns. */
  predicate Trimmed(s: string)
  {
    s == [] || (!IsWhitespace(s[0]) && !IsWhitespace(s[|s| - 1]))
  }

  /** `t` occurs in `s` starting at index `i`. */
  predicate OccursAt(s: string, t: string, i: nat)
  {
    i + |t| <= |s| && s[i..i + |t|] == t
  }

  /** `t` occurs in `s` at index `i` or later. */
  predicate ContainsFrom(s: string, t: string, i: nat)
    requires i <= |s|
    decreases |s| - i
  {
    OccursAt(s, t, i) || (i < |s| && ContainsFrom(s, t, i + 1))
  }

  /** `s.includes(t)` */
  predicate Contains(s: string, t: string)
  {
    ContainsFrom(s, t, 0)
  }

  /** An occurrence at or after `i` is found by the scan from `i`, and the scan finds nothing else. */
  lemma {:induction false} ContainsFromIff(s: string, t: string, i: nat)
    requires i <= |s|
    ensures ContainsFrom(s, t, i) <==> exists k | i <= k <= |s| :: OccursAt(s, t, k)
    decreases |s| - i
  {
    if i < |s| {
      ContainsFromIff(s, t, i + 1);
    }
  }

  /** `s.includes(t)` holds exactly when `t` occurs somewhere in `s`. */
  lemma ContainsIff(s: string, t: string)
    ensures Contains(s, t) <==> exists k | 0 <= k <= |s| :: OccursAt(s, t, k)
  {
    ContainsFromIff(s, t, 0);
  }

  /** A slice of a slice is a slice of the original. */
  lemma SliceOfSlice(s: string, a: nat, b: nat, c: nat, d: nat)
    requires a <= b <= |s| && c <= d <= b - a
    ensures s[a..b][c..d] == s[a + c..a + d]
  {
    assert forall k | 0 <= k < d - c :: s[a..b][c..d][k] == s[a + c + k];
  }

  /** A string contains each of its prefixes. */
  lemma ContainsPrefix(s: string, t: string)
    requires |t| <= |s| && s[..|t|] == t
    ensures Contains(s, t)
  {
    assert OccursAt(s, t, 0);
  }

  /** A string that contains `t` contains every prefix of `t`. */
  lemma ContainsPrefixOf(s: string, t: string, u: string)
    requires Contains(s, t) && |u| <= |t| && t[..|u|] == u
    ensures Contains(s, u)
  {
    ContainsFromIff(s, t, 0);
    var k :| 0 <= k <= |s| && OccursAt(s, t, k);
    assert s[k..k + |u|] == s[k..k + |t|][..|u|];
    assert OccursAt(s, u, k);
    ContainsFromIff(s, u, 0);
  }

  /** The first index at or after `i` that does not hold whitespace (`|s|` if none): the end of a `\s*` run. */
  function SkipWhitespace(s: string, i: nat): (r: nat)
    requires i <= |s|
    ensures i <= r <= |s|
    ensures AllWhitespace(s[i..r])
    ensures r == |s| || !IsWhitespace(s[r])
    decreases |s| - i
  {
    if i < |s| && IsWhitespace(s[i]) then SkipWhitespace(s, i + 1) else i
  }

  /** The index just after the last non-whitespace character in `s[lo..j]` (`lo` if none). */
  function TrimEndIndex(s: string, lo: nat, j: nat): (r: nat)
    requires lo <= j <= |s|
    ensures lo <= r <= j
    ensures AllWhitespace(s[r..j])
    ensures r == lo || !IsWhitespace(s[r - 1])
    decreases j
  {
    if j > lo && IsWhitespace(s[j - 1]) then
      var r := TrimEndIndex(s, lo, j - 1);
      assert s[r..j] == s[r..j - 1] + [s[j - 1]];
      r
    else
      j
  }

  /** `s.trim()`: `s` without its leading and trailing whitespace. */
  function Trim(s: string): (r: string)
    ensures Trimmed(r)
    ensures |r| <= |s|
    ensures r == [] <==> AllWhitespace(s)
  {
    var a := SkipWhitespace(s, 0);
    var b := TrimEndIndex(s, a, |s|);
    assert a < |s| ==> b > a;
    assert AllWhitespace(s) ==> a == |s|;
    assert a == |s| ==> s == s[0..a];
    s[a..b]
  }

  /** Trimming removes exactly a whitespace prefix and a whitespace suffix, and nothing inside. */
  lemma {:induction false} TrimOfPadded(w1: string, t: string, w2: string)
    requires AllWhitespace(w1) && AllWhitespace(w2) && Trimmed(t)
    ensures Trim(w1 + t + w2) == t
  {
    var s := w1 + t + w2;
    var a := SkipWhitespace(s, 0);
    if t == [] {
      assert AllWhitespace(s) by {
        forall i | 0 <= i < |s| ensures IsWhitespace(s[i]) {
          if i < |w1| { assert s[i] == w1[i]; } else { assert s[i] == w2[i - |w1|]; }
        }
      }
    } else {
      assert forall i | 0 <= i < |w1| :: s[i] == w1[i];
      assert forall i | 0 <= i < |w2| :: s[|w1| + |t| + i] == w2[i];
      assert s[|w1|] == t[0];
      assert s[|w1| + |t| - 1] == t[|t| - 1];
      assert a == |w1|;
      var b := TrimEndIndex(s, a, |s|);
      assert b == |w1| + |t|;
      assert s[a..b] == t;
    }
  }

  /** Trimming an already trimmed string changes nothing. */
  lemma TrimTrimmed(s: string)
    requires Trimmed(s)
    ensures Trim(s) == s
  {
    TrimOfPadded([], s, []);
    assert [] + s + [] == s;
  }

  /** `trim` is idempotent. */
  lemma TrimIdempotent(s: string)
    ensures Trim(Trim(s)) == Trim(s)
  {
    TrimTrimmed(Trim(s));
  }

  /** Trimming a single-line string leaves it single-line. */
  lemma TrimNoLineTerminator(s: string)
    requires NoLineTerminator(s)
    ensures NoLineTerminator(Trim(s))
  {
    var a := SkipWhitespace(s, 0);
    var b := TrimEndIndex(s, a, |s|);
    assert forall p | 0 <= p < b - a :: s[a..b][p] == s[a + p];
  }
}
