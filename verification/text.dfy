/** The string operations the exporter relies on, modelled on Python's `str`
    methods: `strip()`, `startswith()`, `in` / `split(sep, 1)` and `lower()`. */
module Text {
  import opened Wrappers

  /** The characters Python's argument-less `str.strip()` removes: the code
      points the Unicode database classes as whitespace. */
  predicate IsSpace(c: char) {
    || ('\t' <= c <= '\r')
    || ('\U{1C}' <= c <= '\U{1F}')
    || c == ' '
    || c == '\U{85}'
    || c == '\U{A0}'
    || c == '\U{1680}'
    || ('\U{2000}' <= c <= '\U{200A}')
    || c == '\U{2028}'
    || c == '\U{2029}'
    || c == '\U{202F}'
    || c == '\U{205F}'
    || c == '\U{3000}'
  }

  predicate AllSpace(s: string) {
    forall i :: 0 <= i < |s| ==> IsSpace(s[i])
  }

  /** The index of the first non-whitespace character at or after `i`
      (`|s|` when there is none). */
  function SkipSpace(s: string, i: nat): (j: nat)
    requires i <= |s|
    ensures i <= j <= |s|
    ensures forall k :: i <= k < j ==> IsSpace(s[k])
    ensures j == |s| || !IsSpace(s[j])
    decreases |s| - i
  {
    if i < |s| && IsSpace(s[i]) then SkipSpace(s, i + 1) else i
  }

  /** Scanning back from `j` no further than `lo`: the index just past the
      last non-whitespace character (`lo` when there is none). */
  function SkipSpaceBack(s: string, lo: nat, j: nat): (k: nat)
    requires lo <= j <= |s|
    ensures lo <= k <= j
    ensures forall m :: k <= m < j ==> IsSpace(s[m])
    ensures k == lo || !IsSpace(s[k - 1])
    decreases j
  {
    if j > lo && IsSpace(s[j - 1]) then SkipSpaceBack(s, lo, j - 1) else j
  }

  /** `s.strip()`: `s` with whitespace removed from both ends. The result is a
      contiguous piece of `s`, everything cut away on either side is
      whitespace, and the result neither starts nor ends with whitespace. */
  function Strip(s: string): (r: string)
    ensures exists a, b :: 0 <= a <= b <= |s| && r == s[a..b]
                           && AllSpace(s[..a]) && AllSpace(s[b..])
    ensures r == [] || (!IsSpace(r[0]) && !IsSpace(r[|r| - 1]))
  {
    var a := SkipSpace(s, 0);
    var b := SkipSpaceBack(s, a, |s|);
    assert AllSpace(s[..a]) && AllSpace(s[b..]);
    s[a..b]
  }

  /** Stripping removes exactly the surrounding whitespace: whatever whitespace
      surrounds a piece that does not itself start or end with whitespace,
      `Strip` gives back that piece. */
  lemma StripOf(pre: string, t: string, post: string)
    requires AllSpace(pre) && AllSpace(post)
    requires t == [] || (!IsSpace(t[0]) && !IsSpace(t[|t| - 1]))
    ensures Strip(pre + t + post) == t
  {
    var s := pre + t + post;
    var a := SkipSpace(s, 0);
    var b := SkipSpaceBack(s, a, |s|);
    forall k | 0 <= k < |pre| ensures IsSpace(s[k]) {
      assert s[k] == pre[k];
    }
    forall k | |pre| + |t| <= k < |s| ensures IsSpace(s[k]) {
      assert s[k] == post[k - |pre| - |t|];
    }
    if t == [] {
      assert a == |s|;
      assert s[a..b] == [];
    } else {
      assert s[|pre|] == t[0];
      assert a == |pre|;
      assert s[|pre| + |t| - 1] == t[|t| - 1];
      assert b == |pre| + |t|;
      assert s[a..b] == t;
    }
  }

  /** A string that neither starts nor ends with whitespace is unchanged by
      stripping. */
  lemma StripClean(t: string)
    requires t == [] || (!IsSpace(t[0]) && !IsSpace(t[|t| - 1]))
    ensures Strip(t) == t
  {
    assert [] + t + [] == t;
    StripOf([], t, []);
  }

  lemma StripAllSpace(s: string)
    requires AllSpace(s)
    ensures Strip(s) == []
  {
  }

  /** Stripping twice is stripping once. */
  lemma StripIdempotent(s: string)
    ensures Strip(Strip(s)) == Strip(s)
  {
    StripClean(Strip(s));
  }

  /** `s.startswith(p)`; every string starts with the empty prefix. */
  predicate StartsWith(s: string, p: string) {
    |p| <= |s| && s[..|p|] == p
  }

  /** `pat` occurs in `s` starting at index `i`. */
  predicate OccursAt(s: string, pat: string, i: nat) {
    i + |pat| <= |s| && s[i..i + |pat|] == pat
  }

  /** `pat in s`. */
  predicate Contains(s: string, pat: string) {
    exists i: nat :: i <= |s| && OccursAt(s, pat, i)
  }

  /** `s.find(pat, i)`: the first index at or after `i` where `pat` occurs. */
  function FindFrom(s: string, pat: string, i: nat): (r: Option<nat>)
    requires i <= |s|
    ensures r.Some? ==> i <= r.value && OccursAt(s, pat, r.value)
    ensures r.Some? ==> forall j: nat :: i <= j < r.value ==> !OccursAt(s, pat, j)
    ensures r.None? ==> forall j: nat :: i <= j ==> !OccursAt(s, pat, j)
    decreases |s| - i
  {
    if i + |pat| > |s| then None
    else if s[i..i + |pat|] == pat then Some(i)
    else FindFrom(s, pat, i + 1)
  }

  /** `s.split(sep, 1)` when `sep in s`: the text before the FIRST occurrence
      of `sep` and the text after it; `None` when `sep` does not occur. */
  function SplitOnce(s: string, sep: string): (r: Option<(string, string)>)
    ensures r.None? <==> !Contains(s, sep)
    ensures r.Some? ==> r.value.0 + sep + r.value.1 == s
    ensures r.Some? ==> OccursAt(s, sep, |r.value.0|)
    ensures r.Some? ==> forall j: nat :: j < |r.value.0| ==> !OccursAt(s, sep, j)
  {
    match FindFrom(s, sep, 0)
    case None => None
    case Some(i) =>
      assert s[..i] + sep + s[i + |sep|..] == s by {
        assert s == s[..i] + s[i..i + |sep|] + s[i + |sep|..];
      }
      Some((s[..i], s[i + |sep|..]))
  }

  /** `sep` occurs at `i` and nowhere before. */
  predicate FirstOccurrence(s: string, sep: string, i: nat) {
    OccursAt(s, sep, i) && forall j: nat :: j < i ==> !OccursAt(s, sep, j)
  }

  /** The split is determined by where the first separator stands. */
  lemma SplitAtFirst(s: string, sep: string, i: nat)
    requires FirstOccurrence(s, sep, i)
    ensures SplitOnce(s, sep) == Some((s[..i], s[i + |sep|..]))
  {
    var (k, v) := SplitOnce(s, sep).value;
    assert |k| == i;
    assert k == (k + sep + v)[..i];
    assert v == (k + sep + v)[i + |sep|..];
  }

  /** The part before the first separator holds no complete separator, while
      the part after it may. */
  lemma SplitBeforeHasNoSeparator(s: string, sep: string)
    requires |sep| > 0 && SplitOnce(s, sep).Some?
    ensures !Contains(SplitOnce(s, sep).value.0, sep)
  {
    var (k, v) := SplitOnce(s, sep).value;
    assert s[..|k|] == k;
    assert |k| <= |s|;
    forall j: nat | j <= |k| ensures !OccursAt(k, sep, j) {
      if j + |sep| <= |k| {
        assert j < |k|;
        assert !OccursAt(s, sep, j);
        assert s[j..j + |sep|] == k[j..j + |sep|];
      }
    }
  }

  /** ASCII lower-casing of one character. */
  function LowerChar(c: char): char {
    if 'A' <= c <= 'Z' then (c as int + 32) as char else c
  }

  predicate IsAsciiUpper(c: char) {
    'A' <= c <= 'Z'
  }

  /** `s.lower()` restricted to ASCII letters: the result holds no ASCII
      capital, each capital of `s` becomes the same letter in lower case, and
      every other character is kept. */
  function Lower(s: string): (r: string)
    ensures |r| == |s|
    ensures forall i :: 0 <= i < |r| ==> !IsAsciiUpper(r[i])
    ensures forall i :: 0 <= i < |s| && !IsAsciiUpper(s[i]) ==> r[i] == s[i]
    ensures forall i :: 0 <= i < |s| && IsAsciiUpper(s[i]) ==> r[i] as int == s[i] as int + 32
  {
    seq(|s|, i requires 0 <= i < |s| => LowerChar(s[i]))
  }

}
