/**
 * The Python string built-ins the evaluation scripts rely on, written out over
 * `seq<char>`: `str.isspace`, `strip`, `lower`, `in`, `startswith`,
 * `endswith`, `replace`, `split()` (its word count) and `split("/")[-1]`.
 * Lower-casing and regular-expression word characters are modelled on ASCII.
 */
module PyStr {
  import opened Wrappers

  /** Python's `str.isspace` for one character (also what `str.split()`,
      `str.strip()` and the regular-expression class `\s` use). */
  predicate IsSpace(c: char) {
    ('\t' <= c <= '\r') || ('\U{1c}' <= c <= '\U{1f}') || c == ' ' ||
    c == '\U{85}' || c == '\U{a0}' || c == '\U{1680}' ||
    ('\U{2000}' <= c <= '\U{200a}') || c == '\U{2028}' || c == '\U{2029}' ||
    c == '\U{202f}' || c == '\U{205f}' || c == '\U{3000}'
  }

  /** True when every character of `s` is whitespace (so `s.strip() == ""`). */
  predicate AllSpace(s: string) {
    forall i :: 0 <= i < |s| ==> IsSpace(s[i])
  }

  /** The regular-expression class `\w`, restricted to ASCII. */
  predicate IsWordChar(c: char) {
    ('a' <= c <= 'z') || ('A' <= c <= 'Z') || ('0' <= c <= '9') || c == '_'
  }

  /** `s.lstrip()`: the suffix of `s` after its leading whitespace. */
  function LStrip(s: string): (r: string)
  {
    if s != [] && IsSpace(s[0]) then LStrip(s[1..]) else s
  }

  /** What `lstrip` removes is whitespace, and what it keeps starts with a non-space. */
  lemma {:induction false} LStripSpec(s: string)
    ensures |LStrip(s)| <= |s| && LStrip(s) == s[|s| - |LStrip(s)|..]
    ensures forall k :: 0 <= k < |s| - |LStrip(s)| ==> IsSpace(s[k])
    ensures LStrip(s) == [] || !IsSpace(LStrip(s)[0])
  {
    if s != [] && IsSpace(s[0]) {
      var t := s[1..];
      LStripSpec(t);
      assert t[|t| - |LStrip(t)|..] == s[|s| - |LStrip(t)|..];
      forall k | 1 <= k < |s| - |LStrip(s)| ensures IsSpace(s[k]) {
        assert s[k] == t[k - 1];
      }
    }
  }

  /** `s.rstrip()`: the prefix of `s` before its trailing whitespace. */
  function RStrip(s: string): (r: string)
  {
    if s != [] && IsSpace(s[|s| - 1]) then RStrip(s[..|s| - 1]) else s
  }

  /** What `rstrip` removes is whitespace, and what it keeps ends with a non-space. */
  lemma {:induction false} RStripSpec(s: string)
    ensures |RStrip(s)| <= |s| && RStrip(s) == s[..|RStrip(s)|]
    ensures forall k :: |RStrip(s)| <= k < |s| ==> IsSpace(s[k])
    ensures RStrip(s) == [] || !IsSpace(RStrip(s)[|RStrip(s)| - 1])
  {
    if s != [] && IsSpace(s[|s| - 1]) {
      var t := s[..|s| - 1];
      RStripSpec(t);
      assert t[..|RStrip(t)|] == s[..|RStrip(t)|];
    }
  }

  /** `s.strip()`. */
  function Strip(s: string): string {
    RStrip(LStrip(s))
  }

  /** `s.strip()` is the middle part of `s` left after cutting all-whitespace ends. */
  lemma StripSpec(s: string) returns (i: nat, j: nat)
    ensures i <= j <= |s| && Strip(s) == s[i..j]
    ensures forall k :: 0 <= k < i ==> IsSpace(s[k])
    ensures forall k :: j <= k < |s| ==> IsSpace(s[k])
  {
    var l := LStrip(s);
    var r := RStrip(l);
    LStripSpec(s);
    RStripSpec(l);
    i := |s| - |l|;
    j := i + |r|;
    assert r == s[i..j];
    forall k | j <= k < |s| ensures IsSpace(s[k]) {
      assert s[k] == l[k - i];
    }
  }

  /** `s.strip()` neither starts nor ends with whitespace. */
  lemma StripTrimmed(s: string)
    ensures Strip(s) == [] || (!IsSpace(Strip(s)[0]) && !IsSpace(Strip(s)[|Strip(s)| - 1]))
  {
    var l := LStrip(s);
    var r := RStrip(l);
    LStripSpec(s);
    RStripSpec(l);
    assert r != [] ==> r[0] == l[0];
  }

  /** `s.strip()` is empty exactly when `s` is all whitespace. */
  lemma StripEmptyIff(s: string)
    ensures Strip(s) == [] <==> AllSpace(s)
  {
    var l := LStrip(s);
    LStripSpec(s);
    RStripSpec(l);
    var i := |s| - |l|;
    if Strip(s) != [] {
      assert l[0] == s[i];
    }
  }

  /** Stripping a second time changes nothing. */
  lemma StripIdempotent(s: string)
    ensures Strip(Strip(s)) == Strip(s)
  {
    var t := Strip(s);
    StripTrimmed(s);
    if t != [] {
      LStripSpec(t);
      RStripSpec(t);
      assert LStrip(t) == t;
      assert RStrip(t) == t;
    }
  }

  /** ASCII `str.lower` for one character. */
  function LowerChar(c: char): (r: char)
    ensures 'A' <= c <= 'Z' ==> 'a' <= r <= 'z'
    ensures !('A' <= c <= 'Z') ==> r == c
  {
    if 'A' <= c <= 'Z' then (c as int - 'A' as int + 'a' as int) as char else c
  }

  /** `s.lower()`, character by character (ASCII case mapping). */
  function Lower(s: string): (r: string)
    ensures |r| == |s| && forall i :: 0 <= i < |s| ==> r[i] == LowerChar(s[i])
  {
    seq(|s|, i requires 0 <= i < |s| => LowerChar(s[i]))
  }

  /** `t` occurs in `s` starting at index `i`. */
  predicate OccursAt(s: string, t: string, i: nat) {
    i + |t| <= |s| && s[i..i + |t|] == t
  }

  /** `s.find(t, from)` as an option: the first index at or after `from`
      where `t` occurs in `s`. */
  function Find(s: string, t: string, from: nat): (r: Option<nat>)
    ensures r.Some? ==> from <= r.value && OccursAt(s, t, r.value)
    ensures r.Some? ==> forall k :: from <= k < r.value ==> !OccursAt(s, t, k)
    ensures r.None? ==> forall k :: from <= k ==> !OccursAt(s, t, k)
    decreases |s| - from
  {
    if from + |t| > |s| then None
    else if s[from..from + |t|] == t then Some(from)
    else Find(s, t, from + 1)
  }

  /** `"".join(xs)`. */
  function Concat(xs: seq<string>): string {
    if xs == [] then [] else Concat(xs[..|xs| - 1]) + xs[|xs| - 1]
  }

  /** The slice that `strip` keeps is pinned down by its two non-space ends. */
  lemma StripUnique(s: string, i: nat, j: nat)
    requires i < j <= |s| && !IsSpace(s[i]) && !IsSpace(s[j - 1])
    requires forall k :: 0 <= k < i ==> IsSpace(s[k])
    requires forall k :: j <= k < |s| ==> IsSpace(s[k])
    ensures Strip(s) == s[i..j]
  {
    var i0, j0 := StripSpec(s);
    StripTrimmed(s);
    StripEmptyIff(s);
    assert Strip(s)[0] == s[i0];
    assert Strip(s)[|Strip(s)| - 1] == s[j0 - 1];
  }

  /** `find` passes over a stretch that lacks the first character of `t`. */
  lemma {:induction false} FindSkips(s: string, t: string, from: nat, to: nat)
    requires t != [] && from <= to <= |s|
    requires forall k :: from <= k < to ==> s[k] != t[0]
    ensures Find(s, t, from) == Find(s, t, to)
    decreases |s| - from
  {
    if from < to {
      if from + |t| <= |s| {
        assert s[from..from + |t|][0] == s[from];
      }
      FindSkips(s, t, from + 1, to);
    }
  }

  /** `t in s`. */
  predicate Contains(s: string, t: string) {
    Find(s, t, 0).Some?
  }

  /** `t in s` holds exactly when `t` occurs at some index of `s`. */
  lemma ContainsIff(s: string, t: string)
    ensures Contains(s, t) <==> exists k :: 0 <= k <= |s| && OccursAt(s, t, k)
  {
    if Contains(s, t) {
      var k := Find(s, t, 0).value;
      assert OccursAt(s, t, k);
    }
  }

  /** Occurrence is preserved when text is added on either side. */
  lemma OccursInExtension(a: string, s: string, b: string, t: string, k: nat)
    requires OccursAt(s, t, k)
    ensures OccursAt(a + s + b, t, |a| + k)
  {
    assert (a + s + b)[|a| + k..|a| + k + |t|] == s[k..k + |t|];
  }

  /** A slice of a slice is a slice of the original. */
  lemma SliceOfSlice(s: string, a: nat, b: nat, i: nat, j: nat)
    requires a <= b <= |s| && i <= j <= b - a
    ensures s[a..b][i..j] == s[a + i..a + j]
  {
    assert forall m :: 0 <= m < j - i ==> s[a..b][i..j][m] == s[a + i..a + j][m];
  }

  /** A slice of `s` free of occurrences of `t` starting in it has no occurrence of `t`. */
  lemma NoOccurrenceInSlice(s: string, t: string, a: nat, b: nat)
    requires t != [] && a <= b <= |s|
    requires forall k :: a <= k < b ==> !OccursAt(s, t, k)
    ensures !Contains(s[a..b], t)
  {
    forall k | 0 <= k <= b - a ensures !OccursAt(s[a..b], t, k) {
      if k + |t| <= b - a {
        SliceOfSlice(s, a, b, k, k + |t|);
        assert !OccursAt(s, t, a + k);
      }
    }
    ContainsIff(s[a..b], t);
  }

  /** A pattern holding a character that `s` lacks does not occur in `s`. */
  lemma AbsentWhenCharMissing(s: string, t: string, c: char)
    requires c in t && c !in s
    ensures !Contains(s, t)
  {
  }

  /** The longest prefix of `s` without `c`. */
  function Before(s: string, c: char): (r: string)
    ensures |r| <= |s| && r == s[..|r|] && c !in r
    ensures |r| < |s| ==> s[|r|] == c
  {
    if s == [] || s[0] == c then [] else [s[0]] + Before(s[1..], c)
  }

  /** `Before` stops at the first `c`. */
  lemma {:induction false} BeforeStopsAt(a: string, b: string, c: char)
    requires c !in a && b != [] && b[0] == c
    ensures Before(a + b, c) == a
  {
    if a != [] {
      assert (a + b)[1..] == a[1..] + b;
      BeforeStopsAt(a[1..], b, c);
    }
  }

  /** `s.startswith(p)`. */
  predicate StartsWith(s: string, p: string) {
    |p| <= |s| && s[..|p|] == p
  }

  /** `s.endswith(p)`. */
  predicate EndsWith(s: string, p: string) {
    |p| <= |s| && s[|s| - |p|..] == p
  }

  /** Every character in the last `|p|` positions of `s` is a character of a suffix `p`. */
  lemma EndsWithChars(s: string, p: string)
    requires EndsWith(s, p)
    ensures forall k :: |s| - |p| <= k < |s| ==> s[k] in p
  {
    forall k | |s| - |p| <= k < |s| ensures s[k] in p {
      assert s[k] == p[k - (|s| - |p|)];
    }
  }

  /** `s.replace(pat, rep)` for a non-empty `pat`: every occurrence, found
      left to right without overlap, is replaced. */
  function Replace(s: string, pat: string, rep: string): string
    requires pat != []
    decreases |s|
  {
    if s == [] then []
    else if OccursAt(s, pat, 0) then rep + Replace(s[|pat|..], pat, rep)
    else [s[0]] + Replace(s[1..], pat, rep)
  }

  /** A string in which `pat` does not occur is returned unchanged. */
  lemma {:induction false} ReplaceAbsent(s: string, pat: string, rep: string)
    requires pat != []
    requires forall k :: 0 <= k <= |s| ==> !OccursAt(s, pat, k)
    ensures Replace(s, pat, rep) == s
  {
    if s != [] {
      forall k | 0 <= k <= |s[1..]| ensures !OccursAt(s[1..], pat, k) {
        assert [s[0]] + s[1..] + [] == s;
        if OccursAt(s[1..], pat, k) {
          OccursInExtension([s[0]], s[1..], [], pat, k);
        }
      }
      ReplaceAbsent(s[1..], pat, rep);
    }
  }

  /** Replacement restarts right after the first occurrence when nothing before it
      can begin one. */
  lemma {:induction false} ReplaceFirst(a: string, pat: string, rep: string, b: string)
    requires pat != [] && pat[0] !in a
    ensures Replace(a + pat + b, pat, rep) == a + rep + Replace(b, pat, rep)
  {
    if a == [] {
      assert [] + pat + b == pat + b;
      assert (pat + b)[|pat|..] == b;
    } else {
      var s := a + pat + b;
      assert s[0] == a[0] != pat[0];
      assert s[1..] == a[1..] + pat + b;
      ReplaceFirst(a[1..], pat, rep, b);
      assert a == [a[0]] + a[1..];
    }
  }

  /** `s.split(sep)[-1]`: the text after the last `sep`, or all of `s`. */
  function LastSegment(s: string, sep: char): (r: string)
    ensures |r| <= |s| && r == s[|s| - |r|..]
    ensures sep !in r
    ensures |r| < |s| ==> s[|s| - |r| - 1] == sep
    ensures sep !in s ==> r == s
  {
    if s == [] || s[|s| - 1] == sep then []
    else
      var r := LastSegment(s[..|s| - 1], sep);
      assert s[..|s| - 1][|s| - 1 - |r|..] == s[|s| - 1 - |r|..|s| - 1];
      r + [s[|s| - 1]]
  }

  /** Index `i` of `s` begins a word of `s.split()`. */
  predicate WordStartAt(s: string, i: nat)
    requires i < |s|
  {
    !IsSpace(s[i]) && (i == 0 || IsSpace(s[i - 1]))
  }

  /** `len(s.split())`, counted by scanning from the right. */
  function WordCount(s: string): nat {
    if s == [] then 0
    else WordCount(s[..|s| - 1]) + (if WordStartAt(s, |s| - 1) then 1 else 0)
  }

  /** The indices where a word of `s.split()` begins. */
  function WordStarts(s: string): set<nat> {
    set i: nat | i < |s| && WordStartAt(s, i)
  }

  /** The scan counts exactly the word beginnings: a word is a maximal run of
      non-whitespace characters. */
  lemma {:induction false} WordCountIsWordStarts(s: string)
    ensures WordCount(s) == |WordStarts(s)|
  {
    if s == [] {
      assert WordStarts(s) == {};
    } else {
      var p := s[..|s| - 1];
      WordCountIsWordStarts(p);
      WordStartsStep(s);
    }
  }

  /** Appending a character adds its index to the word beginnings exactly when it begins a word. */
  lemma WordStartsStep(s: string)
    requires s != []
    ensures WordStarts(s) ==
      WordStarts(s[..|s| - 1]) + (if WordStartAt(s, |s| - 1) then {|s| - 1} else {})
  {
    var p := s[..|s| - 1];
    forall i: nat | i < |p| ensures WordStartAt(p, i) == WordStartAt(s, i) {
      assert p[i] == s[i];
      if i > 0 { assert p[i - 1] == s[i - 1]; }
    }
  }

  /** Text without any whitespace character is a single word when non-empty. */
  lemma {:induction false} WordCountNoSpace(s: string)
    requires forall i :: 0 <= i < |s| ==> !IsSpace(s[i])
    ensures WordCount(s) == if s == [] then 0 else 1
  {
    if s != [] {
      WordCountNoSpace(s[..|s| - 1]);
    }
  }
}
