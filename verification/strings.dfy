/** The Python string primitives the conversion script relies on, over
    `string` (= `seq<char>`): `startswith`, the `in` substring test, `lower`,
    `replace`, `split(sep, 1)` and the decimal rendering of an `int` inside an
    f-string. */
module Strings {
  import opened Wrappers

  /** `s.startswith(p)`. */
  predicate StartsWith(s: string, p: string) {
    |p| <= |s| && s[..|p|] == p
  }

  /** `w` occurs in `s` starting at index `i`. */
  predicate OccursAt(s: string, w: string, i: nat) {
    i + |w| <= |s| && s[i..i + |w|] == w
  }

  /** `w` occurs somewhere in `s`: the meaning of Python's `w in s`. */
  ghost predicate Occurs(s: string, w: string) {
    exists i: nat :: OccursAt(s, w, i)
  }

  /** Moving past a first character that does not start an occurrence keeps
      every other occurrence. */
  lemma OccursTail(s: string, w: string)
    requires |s| > 0 && !OccursAt(s, w, 0)
    ensures Occurs(s, w) <==> Occurs(s[1..], w)
  {
    if Occurs(s, w) {
      var i: nat :| OccursAt(s, w, i);
      assert i > 0;
      assert s[1..][i - 1..i - 1 + |w|] == s[i..i + |w|];
      assert OccursAt(s[1..], w, i - 1);
    }
    if Occurs(s[1..], w) {
      var i: nat :| OccursAt(s[1..], w, i);
      assert s[i + 1..i + 1 + |w|] == s[1..][i..i + |w|];
      assert OccursAt(s, w, i + 1);
    }
  }

  /** Python's `w in s`, scanning `s` from the left. */
  function Contains(s: string, w: string): (r: bool)
    ensures r <==> Occurs(s, w)
    decreases |s|
  {
    if StartsWith(s, w) then
      assert OccursAt(s, w, 0);
      true
    else if |s| == 0 then
      false
    else
      OccursTail(s, w);
      Contains(s[1..], w)
  }

  /** Some word of `words` occurs in `s`. */
  ghost predicate MentionsAny(s: string, words: seq<string>) {
    exists j :: 0 <= j < |words| && Occurs(s, words[j])
  }

  /** Python's `any(w in s for w in words)`. */
  function ContainsAny(s: string, words: seq<string>): (r: bool)
    ensures r <==> MentionsAny(s, words)
  {
    if |words| == 0 then false
    else if Contains(s, words[0]) then true
    else
      var rest := ContainsAny(s, words[1..]);
      assert rest <==> MentionsAny(s, words[1..]) by {
        if MentionsAny(s, words[1..]) {
          var j :| 0 <= j < |words[1..]| && Occurs(s, words[1..][j]);
          assert Occurs(s, words[j + 1]);
        }
        if MentionsAny(s, words) {
          var j :| 0 <= j < |words| && Occurs(s, words[j]);
          assert j > 0;
          assert words[1..][j - 1] == words[j];
        }
      }
      rest
  }

  /** Occurrence is transitive: whatever contains `w` contains every
      substring of `w`. */
  lemma {:induction false} OccursTransitive(s: string, w: string, u: string)
    requires Occurs(s, w) && Occurs(w, u)
    ensures Occurs(s, u)
  {
    var i: nat :| OccursAt(s, w, i);
    var k: nat :| OccursAt(w, u, k);
    assert forall j :: 0 <= j < |u| ==> s[i + k + j] == s[i..i + |w|][k + j] == w[k + j] == u[j];
    assert s[i + k..i + k + |u|] == u;
    assert OccursAt(s, u, i + k);
  }

  /** A word holding a character that `s` lacks does not occur in `s`. */
  lemma AbsentCharBlocksOccurrence(s: string, w: string, c: char)
    requires c in w && c !in s
    ensures !Occurs(s, w)
  {
    var k :| 0 <= k < |w| && w[k] == c;
    forall i: nat
      ensures !OccursAt(s, w, i)
    {
      if i + |w| <= |s| {
        assert s[i..i + |w|][k] == s[i + k] != c;
      }
    }
  }

  /** No word of `words` occurs in `s` when each holds, at the position
      `blockers` gives for it, a character that `s` lacks. */
  lemma NoWordMentioned(s: string, words: seq<string>, blockers: seq<nat>)
    requires |blockers| == |words|
    requires forall j :: 0 <= j < |words| ==> blockers[j] < |words[j]| && words[j][blockers[j]] !in s
    ensures !MentionsAny(s, words)
  {
    forall j | 0 <= j < |words|
      ensures !Occurs(s, words[j])
    {
      AbsentCharBlocksOccurrence(s, words[j], words[j][blockers[j]]);
    }
  }

  /** The lower-case form of one character; only the ASCII letters change. */
  function LowerChar(c: char): char {
    if 'A' <= c <= 'Z' then (c as int - 'A' as int + 'a' as int) as char else c
  }

  /** `s.lower()`: every character mapped to its lower-case form, nothing
      inserted or removed. */
  function Lower(s: string): string {
    seq(|s|, i requires 0 <= i < |s| => LowerChar(s[i]))
  }

  /** A string without upper-case ASCII letters is its own lower-case form. */
  lemma LowerOfLowerCase(s: string)
    requires forall i :: 0 <= i < |s| ==> !('A' <= s[i] <= 'Z')
    ensures Lower(s) == s
  {
  }

  /** Lower-casing twice is lower-casing once. */
  lemma LowerIdempotent(s: string)
    ensures Lower(Lower(s)) == Lower(s)
  {
    assert forall i :: 0 <= i < |s| ==> LowerChar(LowerChar(s[i])) == LowerChar(s[i]);
  }

  /** Python's `s.replace(pat, rep)`: every occurrence of `pat`, found from
      the left and never overlapping one already replaced, becomes `rep`. */
  function Replace(s: string, pat: string, rep: string): (r: string)
    requires |pat| > 0
    ensures !Occurs(s, pat) ==> r == s
    ensures |rep| <= |pat| ==> |r| <= |s|
    decreases |s|
  {
    if |s| == 0 then []
    else if StartsWith(s, pat) then
      assert OccursAt(s, pat, 0);
      rep + Replace(s[|pat|..], pat, rep)
    else
      OccursTail(s, pat);
      [s[0]] + Replace(s[1..], pat, rep)
  }

  /** A leading occurrence is replaced and the scan resumes right after it,
      so a match straddling the consumed pattern is never seen. */
  lemma ReplaceLeading(pat: string, rep: string, t: string)
    requires |pat| > 0
    ensures Replace(pat + t, pat, rep) == rep + Replace(t, pat, rep)
  {
    assert (pat + t)[..|pat|] == pat;
    assert (pat + t)[|pat|..] == t;
  }

  /** An occurrence in the tail of `s` is one in `s`, one index later. */
  lemma OccursAtTail(s: string, w: string, i: nat)
    requires |s| > 0
    ensures OccursAt(s[1..], w, i) <==> OccursAt(s, w, i + 1)
  {
    if i + |w| <= |s[1..]| {
      assert s[1..][i..i + |w|] == s[i + 1..i + 1 + |w|];
    }
  }

  /** A first character that starts no occurrence is copied. */
  lemma ReplaceCopiesFirst(s: string, pat: string, rep: string)
    requires |pat| > 0 && |s| > 0 && !OccursAt(s, pat, 0)
    ensures Replace(s, pat, rep) == [s[0]] + Replace(s[1..], pat, rep)
  {
    assert !StartsWith(s, pat);
  }

  /** No occurrence of `pat` starts in `s` before index `n`. */
  ghost predicate NoOccurrenceBefore(s: string, pat: string, n: nat) {
    forall i: nat :: i < n ==> !OccursAt(s, pat, i)
  }

  /** Dropping the first character of a stretch that starts no occurrence
      leaves a shorter such stretch. */
  lemma NoOccurrenceInTail(s: string, pat: string, k: nat)
    requires 0 < k <= |s| && NoOccurrenceBefore(s, pat, k)
    ensures NoOccurrenceBefore(s[1..], pat, k - 1)
  {
    forall i: nat | i < k - 1
      ensures !OccursAt(s[1..], pat, i)
    {
      assert !OccursAt(s, pat, i + 1);
      OccursAtTail(s, pat, i);
    }
  }

  /** Cutting `s` after its first character and again `k - 1` further on. */
  lemma SliceAfterFirst(s: string, k: nat)
    requires 0 < k <= |s|
    ensures s[1..][k - 1..] == s[k..]
    ensures [s[0]] + s[1..][..k - 1] == s[..k]
  {
  }

  /** Putting the first character back in front of a result that copies the
      next `k - 1` characters. */
  lemma PrependFirst(s: string, k: nat, r: string, rest: string)
    requires 0 < k <= |s|
    requires r == s[1..][..k - 1] + rest
    ensures [s[0]] + r == s[..k] + rest
  {
    SliceAfterFirst(s, k);
  }

  /** One step of the scan over a stretch that starts no occurrence. */
  lemma ReplaceStep(s: string, k: nat, pat: string, rep: string)
    requires |pat| > 0 && 0 < k <= |s|
    requires NoOccurrenceBefore(s, pat, k)
    ensures Replace(s, pat, rep) == [s[0]] + Replace(s[1..], pat, rep)
    ensures NoOccurrenceBefore(s[1..], pat, k - 1)
  {
    assert !OccursAt(s, pat, 0);
    ReplaceCopiesFirst(s, pat, rep);
    NoOccurrenceInTail(s, pat, k);
  }

  /** The first `k` characters start no occurrence: they are copied and the
      scan resumes at index `k`. */
  lemma {:induction false} ReplaceSkipPrefix(s: string, k: nat, pat: string, rep: string)
    requires |pat| > 0 && k <= |s|
    requires NoOccurrenceBefore(s, pat, k)
    ensures Replace(s, pat, rep) == s[..k] + Replace(s[k..], pat, rep)
    decreases k
  {
    if k == 0 {
      assert s[..0] == [];
      assert s[0..] == s;
    } else {
      var t := s[1..];
      ReplaceStep(s, k, pat, rep);
      ReplaceSkipPrefix(t, k - 1, pat, rep);
      SliceAfterFirst(s, k);
      PrependFirst(s, k, Replace(t, pat, rep), Replace(t[k - 1..], pat, rep));
    }
  }

  /** A stretch starting no occurrence is copied unchanged and the scan
      continues after it. With `ReplaceLeading` and the no-occurrence case of
      `Replace`, this fixes the result on every input: each leftmost
      occurrence, never overlapping one already replaced, becomes `rep`. */
  lemma ReplaceSkip(a: string, b: string, pat: string, rep: string)
    requires |pat| > 0
    requires NoOccurrenceBefore(a + b, pat, |a|)
    ensures Replace(a + b, pat, rep) == a + Replace(b, pat, rep)
  {
    ReplaceSkipPrefix(a + b, |a|, pat, rep);
    assert (a + b)[..|a|] == a;
    assert (a + b)[|a|..] == b;
  }

  /** Python's `s.split(sep, 1)` when it yields two parts: the text before the
      first `sep` and the text after it; `None` when `sep` does not occur. */
  function SplitFirst(s: string, sep: char): (r: Option<(string, string)>)
    ensures r.None? <==> sep !in s
    ensures r.Some? ==> s == r.value.0 + [sep] + r.value.1 && sep !in r.value.0
  {
    if |s| == 0 then None
    else if s[0] == sep then Some(([], s[1..]))
    else
      match SplitFirst(s[1..], sep)
      case None => None
      case Some((a, b)) => Some(([s[0]] + a, b))
  }

  /** Splitting at the first separator inverts joining around one, provided
      the head holds no separator: the decomposition is unique. */
  lemma SplitFirstJoin(a: string, sep: char, b: string)
    requires sep !in a
    ensures SplitFirst(a + [sep] + b, sep) == Some((a, b))
  {
    var s := a + [sep] + b;
    var r := SplitFirst(s, sep);
    assert s[|a|] == sep;
    assert r.Some?;
    var (a', b') := r.value;
    assert forall i :: 0 <= i < |a| ==> s[i] == a[i] != sep;
    assert forall i :: 0 <= i < |a'| ==> s[i] == a'[i] != sep;
    assert s[|a'|] == sep;
    assert |a'| == |a|;
    assert a' == s[..|a|] == a;
    assert b' == s[|a| + 1..] == b;
  }

  /** The digit character for `d`. */
  function DigitChar(d: nat): char
    requires d < 10
  {
    ('0' as int + d) as char
  }

  /** The numeric value of a string of decimal digits. */
  ghost function DecimalValue(s: string): int
  {
    if |s| == 0 then 0
    else DecimalValue(s[..|s| - 1]) * 10 + (s[|s| - 1] as int - '0' as int)
  }

  /** `str(n)` for a natural number: its decimal digits, no sign, no
      leading zero. */
  function NatToString(n: nat): (r: string)
    ensures |r| > 0
    ensures forall i :: 0 <= i < |r| ==> '0' <= r[i] <= '9'
    ensures |r| > 1 ==> r[0] != '0'
    ensures DecimalValue(r) == n
  {
    if n < 10 then [DigitChar(n)]
    else
      var r := NatToString(n / 10) + [DigitChar(n % 10)];
      assert r[..|r| - 1] == NatToString(n / 10);
      r
  }
}
