/**
 * The parts of Python's `str` that the pipeline relies on, over `string`
 * (a sequence of Unicode scalar values, as a Python 3 `str` is):
 * `isspace`, `strip`, `in`, `find`, `split(sep)[0]`, `split(sep)[1]`,
 * `replace(c, '')`, `endswith`, `lower`, `sep.join` and the ordering `<`.
 */
module PyStr {
  import opened Wrappers

  /** `c.isspace()`: the characters Python 3 treats as whitespace. */
  predicate IsSpace(c: char) {
    ('\t' <= c <= '\r') || ('\U{1C}' <= c <= ' ') || c == '\U{85}' || c == '\U{A0}' ||
    c == '\U{1680}' || ('\U{2000}' <= c <= '\U{200A}') || c == '\U{2028}' || c == '\U{2029}' ||
    c == '\U{202F}' || c == '\U{205F}' || c == '\U{3000}'
  }

  /** Every character of `s[lo..hi]` is whitespace. */
  predicate AllSpace(s: string, lo: int, hi: int) {
    forall i :: lo <= i < hi && 0 <= i < |s| ==> IsSpace(s[i])
  }

  /** The first index at or after `i` that does not hold whitespace, or `|s|`. */
  function SkipSpace(s: string, i: nat): (j: nat)
    requires i <= |s|
    ensures i <= j <= |s| && AllSpace(s, i, j)
    ensures j == |s| || !IsSpace(s[j])
    decreases |s| - i
  {
    if i < |s| && IsSpace(s[i]) then SkipSpace(s, i + 1) else i
  }

  /** The least `e` with `lo <= e <= j` such that `s[e..j]` is all whitespace. */
  function TrimSpace(s: string, lo: nat, j: nat): (e: nat)
    requires lo <= j <= |s|
    ensures lo <= e <= j && AllSpace(s, e, j)
    ensures e == lo || !IsSpace(s[e - 1])
    decreases j - lo
  {
    if lo < j && IsSpace(s[j - 1]) then TrimSpace(s, lo, j - 1) else j
  }

  /** Where `s.strip()` starts: the length of the whitespace prefix of `s`. */
  function StripStart(s: string): (k: nat)
    ensures k <= |s|
  {
    SkipSpace(s, 0)
  }

  /** Where `s.strip()` ends. */
  function StripEnd(s: string): (e: nat)
    ensures StripStart(s) <= e <= |s|
  {
    TrimSpace(s, StripStart(s), |s|)
  }

  /**
   * `s.strip()`: the slice of `s` left when whitespace is dropped from both
   * ends; the dropped ends are all whitespace and what is kept neither starts
   * nor ends with whitespace.
   */
  function Strip(s: string): (r: string)
    ensures |r| == StripEnd(s) - StripStart(s) && r == s[StripStart(s)..StripEnd(s)]
    ensures AllSpace(s, 0, StripStart(s)) && AllSpace(s, StripEnd(s), |s|)
    ensures r == [] || (!IsSpace(r[0]) && !IsSpace(r[|r| - 1]))
  {
    s[StripStart(s)..StripEnd(s)]
  }

  /** `m` occurs in `s` starting at index `j`. */
  predicate OccursAt(s: string, m: string, j: nat) {
    j + |m| <= |s| && s[j..j + |m|] == m
  }

  /** The first index at or after `from` where `m` occurs, as `s.find(m, from)` when that is not -1. */
  function FindFrom(s: string, m: string, from: nat): (r: Option<nat>)
    ensures r.Some? ==> from <= r.value && OccursAt(s, m, r.value)
    ensures forall j: nat :: from <= j && (r.None? || j < r.value) ==> !OccursAt(s, m, j)
    decreases |s| - from
  {
    if from + |m| > |s| then None
    else if OccursAt(s, m, from) then Some(from)
    else FindFrom(s, m, from + 1)
  }

  /** `m in s`. */
  predicate Contains(s: string, m: string) {
    FindFrom(s, m, 0).Some?
  }

  /** An occurrence anywhere makes `m in s` true. */
  lemma OccurrenceContains(s: string, m: string, j: nat)
    requires OccursAt(s, m, j)
    ensures Contains(s, m)
  {
  }

  /** A slice of `s` that holds no whole occurrence of `m` in `s` does not contain `m`. */
  lemma NoOccurrenceInSlice(s: string, m: string, a: nat, b: nat)
    requires a <= b <= |s|
    requires forall j: nat :: a <= j && j + |m| <= b ==> !OccursAt(s, m, j)
    ensures !Contains(s[a..b], m)
  {
    if Contains(s[a..b], m) {
      var j := FindFrom(s[a..b], m, 0).value;
      assert s[a..b][j..j + |m|] == s[a + j..a + j + |m|];
      assert OccursAt(s, m, a + j);
    }
  }

  /** `s.split(sep)[0]`: the text before the first occurrence of `sep`, or all of `s`. */
  function Before(s: string, sep: string): (r: string)
    requires sep != []
    ensures |r| <= |s| && r == s[..|r|]
    ensures !Contains(r, sep)
    ensures |r| == |s| || OccursAt(s, sep, |r|)
    ensures forall j: nat :: j < |r| ==> !OccursAt(s, sep, j)
  {
    match FindFrom(s, sep, 0)
    case None => s
    case Some(i) =>
      NoOccurrenceInSlice(s, sep, 0, i);
      assert s[0..i] == s[..i];
      s[..i]
  }

  /** Index of the first occurrence of `sep`, which `s` must contain. */
  function IndexOf(s: string, sep: string): (i: nat)
    requires Contains(s, sep)
    ensures OccursAt(s, sep, i)
    ensures forall j: nat :: j < i ==> !OccursAt(s, sep, j)
  {
    FindFrom(s, sep, 0).value
  }

  /**
   * `s.split(sep)[1]`, for an `s` that contains `sep`: the text after the
   * first occurrence of `sep`, up to its next occurrence or to the end.
   */
  function AfterFirst(s: string, sep: string): (r: string)
    requires sep != [] && Contains(s, sep)
    ensures var start := IndexOf(s, sep) + |sep|;
      start + |r| <= |s| && r == s[start..start + |r|] &&
      (start + |r| == |s| || OccursAt(s, sep, start + |r|))
    ensures var start := IndexOf(s, sep) + |sep|;
      forall j: nat :: start <= j < start + |r| ==> !OccursAt(s, sep, j)
    ensures !Contains(r, sep)
  {
    var start := IndexOf(s, sep) + |sep|;
    var end := match FindFrom(s, sep, start)
      case None => |s|
      case Some(e) => e;
    NoOccurrenceInSlice(s, sep, start, end);
    s[start..end]
  }

  /** `s.replace(c, '')` for a one-character `c`: every `c` is deleted, every other character kept. */
  function RemoveChar(s: string, c: char): (r: string)
    ensures c !in r
    ensures |r| == |s| - multiset(s)[c]
    ensures forall x :: x != c ==> multiset(r)[x] == multiset(s)[x]
    ensures |s| == 1 ==> r == (if s[0] == c then [] else s)
  {
    if s == [] then []
    else
      assert s == [s[0]] + s[1..];
      assert |s| == 1 ==> s[1..] == [];
      (if s[0] == c then [] else [s[0]]) + RemoveChar(s[1..], c)
  }

  /** Deleting a character distributes over concatenation, so the kept characters stay in order. */
  lemma {:induction false} RemoveCharAppend(a: string, b: string, c: char)
    ensures RemoveChar(a + b, c) == RemoveChar(a, c) + RemoveChar(b, c)
  {
    if a == [] {
      assert a + b == b;
    } else {
      var head := if a[0] == c then [] else [a[0]];
      var ab := a + b;
      assert ab[0] == a[0] && ab[1..] == a[1..] + b by {
        assert ab[1..] == a[1..] + b;
      }
      RemoveCharFirst(a, c);
      RemoveCharFirst(ab, c);
      RemoveCharAppend(a[1..], b, c);
      SeqAssoc(head, RemoveChar(a[1..], c), RemoveChar(b, c));
    }
  }

  lemma SeqAssoc(x: string, y: string, z: string)
    ensures x + (y + z) == (x + y) + z
  {
  }

  lemma RemoveCharFirst(s: string, c: char)
    requires s != []
    ensures RemoveChar(s, c) == (if s[0] == c then [] else [s[0]]) + RemoveChar(s[1..], c)
  {
  }

  /** `s.endswith(suffix)`. */
  predicate EndsWith(s: string, suffix: string) {
    |suffix| <= |s| && s[|s| - |suffix|..] == suffix
  }

  /** Lower case of one character, for the ASCII letters. */
  function AsciiLowerChar(c: char): char {
    if 'A' <= c <= 'Z' then (c as int + 32) as char else c
  }

  /** `s.lower()` restricted to ASCII letters (see README). */
  function AsciiLower(s: string): string {
    seq(|s|, i requires 0 <= i < |s| => AsciiLowerChar(s[i]))
  }

  /** `sep.join(parts)`. */
  function Join(sep: string, parts: seq<string>): string {
    if |parts| == 0 then ""
    else if |parts| == 1 then parts[0]
    else parts[0] + sep + Join(sep, parts[1..])
  }

  /** Joining one more part appends the separator and that part. */
  lemma {:induction false} JoinAppend(sep: string, parts: seq<string>, last: string)
    requires parts != []
    ensures Join(sep, parts + [last]) == Join(sep, parts) + (sep + last)
  {
    if |parts| > 1 {
      assert (parts + [last])[1..] == parts[1..] + [last];
      JoinAppend(sep, parts[1..], last);
    }
  }

  /** `s.startswith(prefix)`. */
  predicate StartsWith(s: string, prefix: string) {
    |prefix| <= |s| && s[..|prefix|] == prefix
  }

  /**
   * `a < b` on Python strings, compared from index `i` on: at the first
   * index where they differ the smaller code point wins, and a string that
   * runs out first is smaller.
   */
  predicate LtFrom(a: string, b: string, i: nat)
    decreases |b| - i
  {
    if i >= |b| then false
    else if i >= |a| then true
    else if a[i] != b[i] then a[i] < b[i]
    else LtFrom(a, b, i + 1)
  }

  /** `a < b` on Python strings: lexicographic by code point; a proper prefix is smaller. */
  predicate StrLt(a: string, b: string) {
    LtFrom(a, b, 0)
  }

  lemma {:induction false} LtFromIrreflexive(a: string, i: nat)
    ensures !LtFrom(a, a, i)
    decreases |a| - i
  {
    if i < |a| {
      LtFromIrreflexive(a, i + 1);
    }
  }

  lemma StrLtIrreflexive(a: string)
    ensures !StrLt(a, a)
  {
    LtFromIrreflexive(a, 0);
  }

  lemma {:induction false} LtFromTransitive(a: string, b: string, c: string, i: nat)
    requires LtFrom(a, b, i) && LtFrom(b, c, i)
    ensures LtFrom(a, c, i)
    decreases |b| - i
  {
    if i < |a| && a[i] == b[i] && b[i] == c[i] {
      LtFromTransitive(a, b, c, i + 1);
    }
  }

  lemma StrLtTransitive(a: string, b: string, c: string)
    requires StrLt(a, b) && StrLt(b, c)
    ensures StrLt(a, c)
  {
    LtFromTransitive(a, b, c, 0);
  }

  lemma {:induction false} LtFromTotal(a: string, b: string, i: nat)
    requires i <= |a| && i <= |b| && a[..i] == b[..i]
    ensures a == b || LtFrom(a, b, i) || LtFrom(b, a, i)
    decreases |a| - i
  {
    if i < |a| && i < |b| && a[i] == b[i] {
      assert a[..i + 1] == a[..i] + [a[i]] && b[..i + 1] == b[..i] + [b[i]];
      LtFromTotal(a, b, i + 1);
    } else if i == |a| && i == |b| {
      assert a == a[..i] && b == b[..i];
    }
  }

  lemma StrLtTotal(a: string, b: string)
    ensures a == b || StrLt(a, b) || StrLt(b, a)
  {
    LtFromTotal(a, b, 0);
  }

  lemma StrLtAsymmetric(a: string, b: string)
    requires StrLt(a, b)
    ensures !StrLt(b, a)
  {
    if StrLt(b, a) {
      StrLtTransitive(a, b, a);
      StrLtIrreflexive(a);
    }
  }

  /** The empty string sorts before every other string, and nothing sorts before it. */
  lemma EmptyIsLeast(b: string)
    ensures StrLt("", b) <==> b != ""
    ensures !StrLt(b, "")
  {
  }
}
