/**
 * The Python string operations the bot relies on, over `string` (a sequence
 * of characters): `strip()`, `lower()`/`upper()`, `startswith`, `in`,
 * `find`, `replace(p, '')`, `split(sep)` and `partition(' ')`.
 */
module Text {
  import opened Wrappers

  /** Python 3 `str.isspace()`: the characters `strip()` removes. */
  predicate IsSpace(c: char)
  {
    c in {' ', '\t', '\n', '\r', '\U{000B}', '\U{000C}', '\U{001C}', '\U{001D}', '\U{001E}', '\U{001F}',
          '\U{0085}', '\U{00A0}', '\U{1680}', '\U{2028}', '\U{2029}', '\U{202F}', '\U{205F}', '\U{3000}'}
    || ('\U{2000}' <= c <= '\U{200A}')
  }

  /** Number of whitespace characters at the start of `s`. */
  function LeadingSpaces(s: string): (n: nat)
    ensures n <= |s|
    ensures forall k :: 0 <= k < n ==> IsSpace(s[k])
    ensures n < |s| ==> !IsSpace(s[n])
  {
    if |s| > 0 && IsSpace(s[0]) then 1 + LeadingSpaces(s[1..]) else 0
  }

  /** `s` without its trailing whitespace. */
  function DropTrailing(s: string): (r: string)
    ensures |r| <= |s| && r == s[..|r|]
    ensures r == [] || !IsSpace(r[|r| - 1])
    ensures forall k :: |r| <= k < |s| ==> IsSpace(s[k])
  {
    if |s| > 0 && IsSpace(s[|s| - 1]) then DropTrailing(s[..|s| - 1]) else s
  }

  /** `s` neither starts nor ends with whitespace. */
  predicate Trimmed(s: string)
  {
    s == [] || (!IsSpace(s[0]) && !IsSpace(s[|s| - 1]))
  }

  /**
   * Python `s.strip()`: the infix of `s` left once the whitespace at both
   * ends is removed.
   */
  function Strip(s: string): (r: string)
    ensures Trimmed(r)
    ensures LeadingSpaces(s) + |r| <= |s|
    ensures r == s[LeadingSpaces(s)..LeadingSpaces(s) + |r|]
    ensures forall k :: 0 <= k < LeadingSpaces(s) ==> IsSpace(s[k])
    ensures forall k :: LeadingSpaces(s) + |r| <= k < |s| ==> IsSpace(s[k])
  {
    var n := LeadingSpaces(s);
    var r := DropTrailing(s[n..]);
    assert r == s[n..][..|r|];
    r
  }

  /** A trimmed string after one leading space strips back to itself. */
  lemma StripAfterSpace(t: string)
    requires Trimmed(t)
    ensures Strip([' '] + t) == t
  {
    var s := [' '] + t;
    assert s[1..] == t;
    assert LeadingSpaces(s) == 1 + LeadingSpaces(t);
    if t != [] {
      assert LeadingSpaces(t) == 0;
    }
    assert s[1..] == t;
  }

  predicate IsAsciiUpper(c: char) { 'A' <= c <= 'Z' }
  predicate IsAsciiLower(c: char) { 'a' <= c <= 'z' }

  /** `c.lower()` on ASCII letters; every other character is left as it is. */
  function LowerChar(c: char): (d: char)
    ensures !IsAsciiUpper(d)
    ensures IsAsciiUpper(c) ==> IsAsciiLower(d) && d as int == c as int + 32
    ensures !IsAsciiUpper(c) ==> d == c
  {
    if IsAsciiUpper(c) then (c as int + 32) as char else c
  }

  /** `c.upper()` on ASCII letters; every other character is left as it is. */
  function UpperChar(c: char): (d: char)
    ensures !IsAsciiLower(d)
    ensures IsAsciiLower(c) ==> IsAsciiUpper(d) && d as int == c as int - 32
    ensures !IsAsciiLower(c) ==> d == c
  {
    if IsAsciiLower(c) then (c as int - 32) as char else c
  }

  /** Upper-casing a character does not change what it lowers to. */
  lemma LowerUpper(c: char)
    ensures LowerChar(UpperChar(c)) == LowerChar(c)
  {
  }

  /** Python `s.lower()`, character by character. */
  function Lower(s: string): (r: string)
    ensures |r| == |s|
    ensures forall k :: 0 <= k < |s| ==> r[k] == LowerChar(s[k])
  {
    seq(|s|, k requires 0 <= k < |s| => LowerChar(s[k]))
  }

  /** Python `s.upper()`, character by character. */
  function Upper(s: string): (r: string)
    ensures |r| == |s|
    ensures forall k :: 0 <= k < |s| ==> r[k] == UpperChar(s[k])
  {
    seq(|s|, k requires 0 <= k < |s| => UpperChar(s[k]))
  }

  /** Python `s.replace(a, b)` for single characters `a` and `b`. */
  function ReplaceChar(s: string, a: char, b: char): (r: string)
    ensures |r| == |s|
    ensures forall k :: 0 <= k < |s| ==> r[k] == (if s[k] == a then b else s[k])
  {
    seq(|s|, k requires 0 <= k < |s| => if s[k] == a then b else s[k])
  }

  /** `pat` occurs in `s` at index `i`. */
  predicate OccursAt(s: string, pat: string, i: nat)
  {
    i + |pat| <= |s| && s[i..i + |pat|] == pat
  }

  /** Python `s.find(pat, from)`: the first occurrence at or after `from`. */
  function IndexOfFrom(s: string, pat: string, from: nat): (r: Option<nat>)
    ensures r.Some? ==> from <= r.value && OccursAt(s, pat, r.value)
    ensures r.Some? ==> forall j :: from <= j < r.value ==> !OccursAt(s, pat, j)
    ensures r.None? <==> forall j :: from <= j <= |s| ==> !OccursAt(s, pat, j)
    decreases |s| - from
  {
    if from + |pat| > |s| then None
    else if OccursAt(s, pat, from) then Some(from)
    else IndexOfFrom(s, pat, from + 1)
  }

  /** Python `s.find(pat)`, with `None` for -1. */
  function IndexOf(s: string, pat: string): (r: Option<nat>)
    ensures r.Some? ==> OccursAt(s, pat, r.value)
    ensures r.Some? ==> forall j :: 0 <= j < r.value ==> !OccursAt(s, pat, j)
    ensures r.None? <==> forall j :: 0 <= j <= |s| ==> !OccursAt(s, pat, j)
  {
    IndexOfFrom(s, pat, 0)
  }

  /** Python `pat in s`. */
  predicate Contains(s: string, pat: string)
  {
    IndexOf(s, pat).Some?
  }

  /** `pat` occurs at index `i` of `s` exactly when it is a prefix of `s[i..]`. */
  lemma OccursAtIsPrefix(s: string, pat: string, i: nat)
    requires i <= |s|
    ensures OccursAt(s, pat, i) <==> pat <= s[i..]
  {
    if pat <= s[i..] {
      assert s[i..i + |pat|] == s[i..][..|pat|];
    }
    if OccursAt(s, pat, i) {
      assert s[i..][..|pat|] == s[i..i + |pat|];
    }
  }

  /**
   * Python `s.replace(pat, '')`: scanning from the left, every
   * non-overlapping occurrence of `pat` is cut out. An empty `pat` leaves
   * `s` as it is.
   */
  function RemoveAll(s: string, pat: string): (r: string)
    ensures |r| <= |s|
    decreases |s|
  {
    if |pat| == 0 || |s| == 0 then s
    else if pat <= s then RemoveAll(s[|pat|..], pat)
    else [s[0]] + RemoveAll(s[1..], pat)
  }

  /** Dropping the first character shifts an occurrence-free prefix one place left. */
  lemma NoOccurrenceInTail(s: string, pat: string, k: nat)
    requires 0 < k <= |s|
    requires forall j :: 0 <= j < k ==> !OccursAt(s, pat, j)
    ensures forall j :: 0 <= j < k - 1 ==> !OccursAt(s[1..], pat, j)
  {
    var t := s[1..];
    forall j | 0 <= j < k - 1
      ensures !OccursAt(t, pat, j)
    {
      assert !OccursAt(s, pat, j + 1);
      if j + |pat| <= |t| {
        assert t[j..j + |pat|] == s[j + 1..j + 1 + |pat|];
      }
    }
  }

  /** A first character that does not start `pat` is copied by `replace`. */
  lemma RemoveAllCopies(s: string, pat: string)
    requires |pat| > 0 && |s| > 0 && !OccursAt(s, pat, 0)
    ensures RemoveAll(s, pat) == [s[0]] + RemoveAll(s[1..], pat)
  {
    OccursAtIsPrefix(s, pat, 0);
    assert s[0..] == s;
    assert !(pat <= s);
  }

  /** Before the first occurrence, `replace` copies characters unchanged. */
  lemma {:induction false} RemoveAllUpTo(s: string, pat: string, k: nat)
    requires |pat| > 0 && k <= |s|
    requires forall j :: 0 <= j < k ==> !OccursAt(s, pat, j)
    ensures RemoveAll(s, pat) == s[..k] + RemoveAll(s[k..], pat)
    decreases k
  {
    if k > 0 {
      var t := s[1..];
      RemoveAllCopies(s, pat);
      NoOccurrenceInTail(s, pat, k);
      RemoveAllUpTo(t, pat, k - 1);
      assert t[k - 1..] == s[k..];
      calc {
        RemoveAll(s, pat);
        [s[0]] + RemoveAll(t, pat);
        [s[0]] + (t[..k - 1] + RemoveAll(s[k..], pat));
        { assert [s[0]] + t[..k - 1] == s[..k]; }
        s[..k] + RemoveAll(s[k..], pat);
      }
    }
  }

  /** A string in which `pat` does not occur is left unchanged by `replace`. */
  lemma RemoveAbsent(s: string, pat: string)
    requires forall j :: 0 <= j <= |s| ==> !OccursAt(s, pat, j)
    ensures RemoveAll(s, pat) == s
  {
    if |pat| > 0 {
      RemoveAllUpTo(s, pat, |s|);
      assert s[..|s|] == s;
    }
  }

  /**
   * Python `s.split(sep)` for a non-empty separator: the pieces between the
   * non-overlapping occurrences of `sep`, found from the left.
   */
  function Split(s: string, sep: string): (parts: seq<string>)
    requires |sep| > 0
    ensures |parts| >= 1
    ensures IndexOf(s, sep).Some? ==> |parts| >= 2
    decreases |s|
  {
    match IndexOf(s, sep)
    case None => [s]
    case Some(i) => [s[..i]] + Split(s[i + |sep|..], sep)
  }

  /** Python `sep.join(parts)`. */
  function Join(parts: seq<string>, sep: string): string
    requires |parts| >= 1
  {
    if |parts| == 1 then parts[0] else parts[0] + sep + Join(parts[1..], sep)
  }

  /** Python `''.join(parts)`. */
  function Concat(parts: seq<string>): string
  {
    if |parts| == 0 then [] else parts[0] + Concat(parts[1..])
  }

  /** Splitting and joining back with the same separator restores the string. */
  lemma {:induction false} SplitJoin(s: string, sep: string)
    requires |sep| > 0
    ensures Join(Split(s, sep), sep) == s
    decreases |s|
  {
    match IndexOf(s, sep)
    case None =>
    case Some(i) =>
      var rest := s[i + |sep|..];
      SplitJoin(rest, sep);
      assert s == s[..i] + sep + rest;
  }

  /** Removing `pat` from a string that starts with it removes that first occurrence and goes on after it. */
  lemma RemoveAllLeading(pat: string, rest: string)
    requires |pat| > 0
    ensures RemoveAll(pat + rest, pat) == RemoveAll(rest, pat)
  {
    assert (pat + rest)[|pat|..] == rest;
  }

  /** A string in which `pat` is not contained is left unchanged by `replace`. */
  lemma RemoveNotContained(s: string, pat: string)
    requires !Contains(s, pat)
    ensures RemoveAll(s, pat) == s
  {
    RemoveAbsent(s, pat);
  }

  /** The second piece of a split is the text after the first separator, up to the next one or the end. */
  lemma SplitSecond(s: string, sep: string)
    requires |sep| > 0 && Contains(s, sep)
    ensures var rest := s[IndexOf(s, sep).value + |sep|..];
      Split(s, sep)[1] == (match IndexOf(rest, sep) case None => rest case Some(j) => rest[..j])
  {
    var rest := s[IndexOf(s, sep).value + |sep|..];
    assert Split(s, sep)[1] == Split(rest, sep)[0];
  }

  /** A prefix that ends before the first occurrence of `pat` does not contain it. */
  lemma PrefixFree(s: string, pat: string, i: nat)
    requires |pat| > 0 && i <= |s|
    requires forall j :: 0 <= j < i ==> !OccursAt(s, pat, j)
    ensures !Contains(s[..i], pat)
  {
    var piece := s[..i];
    forall j | 0 <= j <= |piece|
      ensures !OccursAt(piece, pat, j)
    {
      if j + |pat| <= |piece| {
        assert piece[j..j + |pat|] == s[j..j + |pat|];
        assert !OccursAt(s, pat, j);
      }
    }
  }

  /** No piece of a split contains the separator. */
  lemma {:induction false} SplitPiecesFree(s: string, sep: string, k: nat)
    requires |sep| > 0 && k < |Split(s, sep)|
    ensures !Contains(Split(s, sep)[k], sep)
    decreases |s|
  {
    match IndexOf(s, sep)
    case None =>
      assert Split(s, sep) == [s];
    case Some(i) =>
      var rest := s[i + |sep|..];
      var head := s[..i];
      var parts, tail := Split(s, sep), Split(rest, sep);
      assert parts == [head] + tail;
      if k == 0 {
        assert parts[0] == head;
        PrefixFree(s, sep, i);
      } else {
        assert parts[1..] == tail;
        assert parts[k] == parts[1..][k - 1];
        SplitPiecesFree(rest, sep, k - 1);
      }
  }

  /** `s.replace(pat, '')` is `''.join(s.split(pat))`. */
  lemma {:induction false} RemoveAllIsConcatSplit(s: string, pat: string)
    requires |pat| > 0
    ensures RemoveAll(s, pat) == Concat(Split(s, pat))
    decreases |s|
  {
    match IndexOf(s, pat)
    case None =>
      RemoveAbsent(s, pat);
    case Some(i) =>
      var rest := s[i + |pat|..];
      var parts := Split(s, pat);
      assert parts == [s[..i]] + Split(rest, pat);
      assert parts[1..] == Split(rest, pat);
      RemoveAllUpTo(s, pat, i);
      var t := s[i..];
      OccursAtIsPrefix(s, pat, i);
      assert t[|pat|..] == rest;
      assert RemoveAll(t, pat) == RemoveAll(rest, pat);
      RemoveAllIsConcatSplit(rest, pat);
      assert Concat(parts) == s[..i] + Concat(parts[1..]);
  }

  /** Python `s.partition(' ')[0]`: everything before the first space. */
  function FirstWord(s: string): (w: string)
    ensures w <= s
    ensures ' ' !in w
    ensures |w| < |s| ==> s[|w|] == ' '
  {
    if |s| == 0 || s[0] == ' ' then [] else [s[0]] + FirstWord(s[1..])
  }

  /** The first word of a word without spaces, alone or followed by a space, is that word. */
  lemma {:induction false} FirstWordOf(w: string, rest: string)
    requires ' ' !in w
    ensures FirstWord(w) == w
    ensures FirstWord(w + ([' '] + rest)) == w
  {
    if w != [] {
      assert (w + ([' '] + rest))[1..] == w[1..] + ([' '] + rest);
      FirstWordOf(w[1..], rest);
    } else {
      assert ([] + ([' '] + rest))[0] == ' ';
    }
  }
}
