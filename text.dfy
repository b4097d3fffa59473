/**
 * String helpers shared by the navigator and the quiz solver: Python's
 * substring test `sub in s`, `str.strip()`, the ASCII part of `str.upper()`
 * and the last run of decimal digits that `re.findall(r'(\d+)', s)[-1]`
 * yields.
 */
module Text {

  datatype Option<+T> = None | Some(value: T)

  /** `p` is a prefix of `s`. */
  predicate IsPrefix(p: string, s: string)
  {
    |p| <= |s| && s[..|p|] == p
  }

  /** Python's `sub in s` on strings. */
  predicate Contains(s: string, sub: string)
    decreases |s|
  {
    IsPrefix(sub, s) || (|s| > 0 && Contains(s[1..], sub))
  }

  /** `sub in s` holds exactly when `sub` occurs at some position of `s`. */
  lemma {:induction false} ContainsAt(s: string, sub: string, i: nat)
    requires i + |sub| <= |s| && s[i..i + |sub|] == sub
    ensures Contains(s, sub)
    decreases i
  {
    if i > 0 {
      assert s[1..][i - 1..i - 1 + |sub|] == s[i..i + |sub|];
      ContainsAt(s[1..], sub, i - 1);
    }
  }

  lemma {:induction false} ContainsWitness(s: string, sub: string) returns (i: nat)
    requires Contains(s, sub)
    ensures i + |sub| <= |s| && s[i..i + |sub|] == sub
    decreases |s|
  {
    if IsPrefix(sub, s) {
      i := 0;
    } else {
      var j := ContainsWitness(s[1..], sub);
      assert s[1..][j..j + |sub|] == s[j + 1..j + 1 + |sub|];
      i := j + 1;
    }
  }

  /** An occurrence inside `s` is still an occurrence once text is put around `s`. */
  lemma ContainsInside(pre: string, s: string, post: string, sub: string)
    requires Contains(s, sub)
    ensures Contains(pre + s + post, sub)
  {
    var i := ContainsWitness(s, sub);
    assert (pre + s + post)[|pre| + i..|pre| + i + |sub|] == s[i..i + |sub|];
    ContainsAt(pre + s + post, sub, |pre| + i);
  }

  /** A non-empty `sub` whose first character does not occur in `s` is not in `s`. */
  lemma {:induction false} MissingHeadNotContained(s: string, sub: string)
    requires sub != [] && forall i :: 0 <= i < |s| ==> s[i] != sub[0]
    ensures !Contains(s, sub)
    decreases |s|
  {
    if |s| > 0 {
      MissingHeadNotContained(s[1..], sub);
    }
  }

  /** The characters Python's `str.isspace()` accepts, which `str.strip()` removes. */
  predicate IsSpace(c: char)
  {
    || c == ' ' || ('\t' <= c <= '\r') || ('\U{1C}' <= c <= '\U{1F}')
    || c == '\U{85}' || c == '\U{A0}' || c == '\U{1680}'
    || ('\U{2000}' <= c <= '\U{200A}') || c == '\U{2028}' || c == '\U{2029}'
    || c == '\U{202F}' || c == '\U{205F}' || c == '\U{3000}'
  }

  predicate AllSpace(s: string)
  {
    forall i :: 0 <= i < |s| ==> IsSpace(s[i])
  }

  /** Python's `s.replace('\n', ' ')`. */
  function ReplaceNewlines(s: string): (r: string)
    ensures |r| == |s| && '\n' !in r
    ensures forall i :: 0 <= i < |s| ==> r[i] == (if s[i] == '\n' then ' ' else s[i])
  {
    if s == [] then [] else [if s[0] == '\n' then ' ' else s[0]] + ReplaceNewlines(s[1..])
  }

  /** Number of leading whitespace characters. */
  function LeadingSpace(s: string): (k: nat)
    ensures k <= |s| && AllSpace(s[..k]) && (k < |s| ==> !IsSpace(s[k]))
  {
    if s != [] && IsSpace(s[0]) then
      var k := LeadingSpace(s[1..]);
      assert s[..k + 1] == [s[0]] + s[1..][..k];
      k + 1
    else 0
  }

  /** Number of trailing whitespace characters. */
  function TrailingSpace(s: string): (k: nat)
    ensures k <= |s| && AllSpace(s[|s| - k..]) && (k < |s| ==> !IsSpace(s[|s| - k - 1]))
  {
    if s != [] && IsSpace(s[|s| - 1]) then
      var p := s[..|s| - 1];
      var k := TrailingSpace(p);
      SuffixSnoc(s, k);
      AllSpaceConcat(p[|p| - k..], [s[|s| - 1]]);
      assert k + 1 < |s| ==> s[|s| - (k + 1) - 1] == p[|p| - k - 1];
      k + 1
    else 0
  }

  /** The last `k + 1` characters are the last `k` of all but the last one, then the last one. */
  lemma SuffixSnoc(s: string, k: nat)
    requires k < |s|
    ensures s[|s| - (k + 1)..] == s[..|s| - 1][|s| - 1 - k..] + [s[|s| - 1]]
  {
  }

  lemma AllSpaceConcat(a: string, b: string)
    requires AllSpace(a) && AllSpace(b)
    ensures AllSpace(a + b)
  {
  }

  /** `r` sits at position `i` of `s` with nothing but whitespace around it. */
  predicate StrippedAt(s: string, i: nat, r: string)
  {
    i + |r| <= |s| && s[i..i + |r|] == r && AllSpace(s[..i]) && AllSpace(s[i + |r|..])
  }

  /**
   * Python's `s.strip()`: the infix of `s` that neither starts nor ends with
   * whitespace and has only whitespace around it.
   */
  function Strip(s: string): (r: string)
    ensures r == [] || (!IsSpace(r[0]) && !IsSpace(r[|r| - 1]))
    ensures r == [] ==> AllSpace(s)
    ensures r != [] ==> exists i :: StrippedAt(s, i, r)
    ensures forall c :: c in r ==> c in s
  {
    var a := LeadingSpace(s);
    if a == |s| then
      assert s[..a] == s;
      []
    else
      var rest := s[a..];
      var b := TrailingSpace(rest);
      assert rest[0] == s[a] && !IsSpace(rest[0]);
      assert b < |rest|;
      var r := rest[..|rest| - b];
      StripParts(s, a, b);
      r
  }

  /** Cutting `a` leading and `b` trailing whitespace characters leaves an infix stripped at `a`. */
  lemma StripParts(s: string, a: nat, b: nat)
    requires a + b <= |s| && AllSpace(s[..a]) && AllSpace(s[a..][|s| - a - b..])
    ensures StrippedAt(s, a, s[a..][..|s| - a - b])
  {
    var rest := s[a..];
    var r := rest[..|rest| - b];
    assert s[a..a + |r|] == r;
    assert s[a + |r|..] == rest[|rest| - b..];
  }

  /** The display text of a title element: `text.replace('\n', ' ').strip()`. */
  function Normalize(raw: string): (r: string)
    ensures '\n' !in r
    ensures r == [] || (!IsSpace(r[0]) && !IsSpace(r[|r| - 1]))
  {
    Strip(ReplaceNewlines(raw))
  }

  /** The ASCII part of Python's `str.upper()` on one character. */
  function UpperChar(c: char): (u: char)
    ensures 'a' <= c <= 'z' ==> 'A' <= u <= 'Z' && u as int == c as int - 32
    ensures !('a' <= c <= 'z') ==> u == c
  {
    if 'a' <= c <= 'z' then (c as int - 32) as char else c
  }

  function Upper(s: string): (r: string)
    ensures |r| == |s| && forall i :: 0 <= i < |s| ==> r[i] == UpperChar(s[i])
  {
    if s == [] then [] else [UpperChar(s[0])] + Upper(s[1..])
  }

  predicate IsDigit(c: char)
  {
    '0' <= c <= '9'
  }

  predicate AllDigits(s: string)
  {
    forall i :: 0 <= i < |s| ==> IsDigit(s[i])
  }

  predicate NoDigits(s: string)
  {
    forall i :: 0 <= i < |s| ==> !IsDigit(s[i])
  }

  /** Start of the run of digits that ends `s`; `|s|` when `s` does not end in a digit. */
  function RunStart(s: string): (k: nat)
    ensures k <= |s| && AllDigits(s[k..]) && (k > 0 ==> !IsDigit(s[k - 1]))
  {
    if s != [] && IsDigit(s[|s| - 1]) then
      var k := RunStart(s[..|s| - 1]);
      assert s[k..] == s[..|s| - 1][k..] + [s[|s| - 1]];
      k
    else |s|
  }

  /** End of the last digit of `s` (0 when `s` has no digit). */
  function LastRunEnd(s: string): (j: nat)
    ensures j <= |s| && NoDigits(s[j..]) && (j > 0 ==> IsDigit(s[j - 1]))
  {
    if s == [] then 0
    else if IsDigit(s[|s| - 1]) then |s|
    else
      var j := LastRunEnd(s[..|s| - 1]);
      assert s[j..] == s[..|s| - 1][j..] + [s[|s| - 1]];
      j
  }

  /** `v` is a maximal run of digits of `s` starting at `i`, and no digit follows it. */
  predicate LastRunAt(s: string, i: nat, v: string)
  {
    && i + |v| <= |s| && s[i..i + |v|] == v && |v| > 0 && AllDigits(v)
    && (i > 0 ==> !IsDigit(s[i - 1])) && NoDigits(s[i + |v|..])
  }

  /**
   * `ids[-1] if ids else None` for `ids = re.findall(r'(\d+)', s)`: the last
   * maximal run of digits of `s`, or None when `s` has no digit.
   */
  function LastDigitRun(s: string): (r: Option<string>)
    ensures r.None? <==> NoDigits(s)
    ensures r.Some? ==> exists i :: LastRunAt(s, i, r.value)
  {
    var j := LastRunEnd(s);
    if j == 0 then
      assert s[0..] == s;
      None
    else
      var i := RunStart(s[..j]);
      assert s[..j][i..] == s[i..j];
      assert s[..j][j - 1] == s[j - 1];
      assert LastRunAt(s, i, s[i..j]);
      Some(s[i..j])
  }
}
