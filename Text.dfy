/**
  String primitives of the Python runtime that the analysis code relies on:
  `str.lower`, `str.find`, `str.strip`, `str.join` and `os.path.basename`.
  Strings are sequences of Unicode scalar values. Lower-casing is modelled
  as a per-character map covering ASCII and Latin-1 only.
 */
module Text {

  /** Lower-casing of one character: ASCII and Latin-1 capitals map to their
      small letters (U+00D7, the multiplication sign, is not a letter); every
      other character is left as it is. */
  function LowerChar(c: char): (d: char)
    ensures !('A' <= d <= 'Z')
    ensures ('A' <= c <= 'Z') ==> 'a' <= d <= 'z'
  {
    if 'A' <= c <= 'Z' || ('\U{C0}' <= c <= '\U{DE}' && c != '\U{D7}') then
      (c as int + 32) as char
    else
      c
  }

  lemma LowerCharIdempotent(c: char)
    ensures LowerChar(LowerChar(c)) == LowerChar(c)
  {
  }

  lemma AppendAssoc(a: string, b: string, c: string)
    ensures (a + b) + c == a + (b + c)
  {
  }

  /** `s.lower()`: the characters lower-cased one by one, front to back. */
  function Lower(s: string): (r: string)
    ensures |r| == |s|
  {
    if |s| == 0 then [] else [LowerChar(s[0])] + Lower(s[1..])
  }

  /** The same map stated index by index. */
  function LowerEach(s: string): (r: string)
    ensures |r| == |s|
  {
    seq(|s|, i requires 0 <= i < |s| => LowerChar(s[i]))
  }

  /** `Lower` is the pointwise map: character `i` of the result is character
      `i` of the input, lower-cased. */
  lemma {:induction false} LowerIsPointwise(s: string)
    ensures Lower(s) == LowerEach(s)
  {
    if |s| > 0 {
      LowerIsPointwise(s[1..]);
      var r := Lower(s);
      assert r == [LowerChar(s[0])] + LowerEach(s[1..]);
      forall i | 0 < i < |s| ensures r[i] == LowerChar(s[i]) {
        assert s[1..][i - 1] == s[i];
      }
    }
  }

  /** Lower-casing distributes over concatenation. */
  lemma LowerConcat(a: string, b: string)
    ensures Lower(a + b) == Lower(a) + Lower(b)
  {
    LowerIsPointwise(a + b);
    LowerIsPointwise(a);
    LowerIsPointwise(b);
  }

  /** Lower-casing commutes with taking a slice. */
  lemma LowerSlice(s: string, i: int, j: int)
    requires 0 <= i <= j <= |s|
    ensures Lower(s[i..j]) == Lower(s)[i..j]
  {
    LowerIsPointwise(s[i..j]);
    LowerIsPointwise(s);
    LowerEachSlice(s, i, j);
  }

  lemma LowerEachSlice(s: string, i: int, j: int)
    requires 0 <= i <= j <= |s|
    ensures LowerEach(s[i..j]) == LowerEach(s)[i..j]
  {
  }

  /** Lower-casing twice is lower-casing once. */
  lemma LowerIdempotent(s: string)
    ensures Lower(Lower(s)) == Lower(s)
  {
    LowerIsPointwise(s);
    LowerIsPointwise(Lower(s));
    forall i | 0 <= i < |s| ensures LowerEach(LowerEach(s))[i] == LowerEach(s)[i] {
      LowerCharIdempotent(s[i]);
    }
  }

  /** `sub` occurs in `s` at index `i`. */
  predicate OccursAt(s: string, sub: string, i: int) {
    0 <= i && i + |sub| <= |s| && s[i..i + |sub|] == sub
  }

  /** `s.find(sub, start)` for a non-negative `start`: the least index at or
      after `start` where `sub` occurs in `s`, or -1 when there is none
      (`FindFound` and `FindLeast` state the "occurs", the "least" and the
      "none"). */
  function Find(s: string, sub: string, start: nat): (r: int)
    decreases |s| - start
    ensures r == -1 || start <= r <= |s| - |sub|
  {
    if start + |sub| > |s| then -1
    else if MatchAt(s, sub, start) then start
    else Find(s, sub, start + 1)
  }

  /** `sub` matches `s` character by character from index `i` on. */
  predicate MatchAt(s: string, sub: string, i: nat)
    decreases |sub|
  {
    i <= |s| && (|sub| == 0 || (i < |s| && s[i] == sub[0] && MatchAt(s, sub[1..], i + 1)))
  }

  lemma {:induction false} MatchAtIsOccurrence(s: string, sub: string, i: nat)
    decreases |sub|
    ensures MatchAt(s, sub, i) <==> OccursAt(s, sub, i)
  {
    if |sub| > 0 {
      var tail := sub[1..];
      MatchAtIsOccurrence(s, tail, i + 1);
      if i + |sub| <= |s| {
        var w := s[i..i + |sub|];
        assert w == [s[i]] + s[i + 1..i + 1 + |tail|];
        assert sub == [sub[0]] + tail;
        if w == sub {
          assert s[i + 1..i + 1 + |tail|] == tail;
        }
      }
    }
  }

  /** A found index is an occurrence. */
  lemma {:induction false} FindFound(s: string, sub: string, start: nat)
    decreases |s| - start
    ensures Find(s, sub, start) == -1 || OccursAt(s, sub, Find(s, sub, start))
  {
    MatchAtIsOccurrence(s, sub, start);
    if start + |sub| <= |s| && !MatchAt(s, sub, start) {
      FindFound(s, sub, start + 1);
    }
  }

  /** Nothing before the found index matches, and -1 means nothing matches. */
  lemma {:induction false} FindLeast(s: string, sub: string, start: nat)
    decreases |s| - start
    ensures var r := Find(s, sub, start);
            && (r != -1 ==> forall i :: start <= i < r ==> !OccursAt(s, sub, i))
            && (r == -1 ==> forall i :: start <= i ==> !OccursAt(s, sub, i))
  {
    MatchAtIsOccurrence(s, sub, start);
    if start + |sub| <= |s| && !MatchAt(s, sub, start) {
      FindLeast(s, sub, start + 1);
    }
  }

  /** Searching `a + b` from a position inside `b` finds what searching `b` finds,
      shifted by `|a|`. */
  lemma {:induction false} FindShift(a: string, b: string, sub: string, k: nat)
    decreases |b| - k
    ensures Find(a + b, sub, |a| + k) ==
            (if Find(b, sub, k) == -1 then -1 else |a| + Find(b, sub, k))
  {
    var ab := a + b;
    if k + |sub| <= |b| {
      assert ab[|a| + k..|a| + k + |sub|] == b[k..k + |sub|];
      MatchAtIsOccurrence(ab, sub, |a| + k);
      MatchAtIsOccurrence(b, sub, k);
      assert OccursAt(ab, sub, |a| + k) == OccursAt(b, sub, k);
      if !MatchAt(b, sub, k) {
        FindShift(a, b, sub, k + 1);
        assert Find(ab, sub, |a| + k) == Find(ab, sub, |a| + k + 1);
        assert Find(b, sub, k) == Find(b, sub, k + 1);
      }
    }
  }

  /** The characters Python's `str.strip()` removes (those for which
      `str.isspace()` holds). */
  predicate IsSpace(c: char) {
    c == ' ' || ('\t' <= c <= '\r') || ('\U{1C}' <= c <= '\U{1F}') ||
    c == '\U{85}' || c == '\U{A0}' || c == '\U{1680}' || ('\U{2000}' <= c <= '\U{200A}') ||
    c == '\U{2028}' || c == '\U{2029}' || c == '\U{202F}' || c == '\U{205F}' || c == '\U{3000}'
  }

  /** How many white-space characters `s` starts with. */
  function LeadingSpaces(s: string): (n: nat)
    ensures n <= |s|
  {
    if |s| > 0 && IsSpace(s[0]) then 1 + LeadingSpaces(s[1..]) else 0
  }

  /** How many white-space characters `s` ends with. */
  function TrailingSpaces(s: string): (n: nat)
    ensures n <= |s|
  {
    if |s| > 0 && IsSpace(s[|s| - 1]) then 1 + TrailingSpaces(s[..|s| - 1]) else 0
  }

  /** The leading run is all white space and stops at a character that is not. */
  lemma {:induction false} LeadingSpacesMeaning(s: string)
    ensures forall i :: 0 <= i < LeadingSpaces(s) ==> IsSpace(s[i])
    ensures LeadingSpaces(s) < |s| ==> !IsSpace(s[LeadingSpaces(s)])
  {
    if |s| > 0 && IsSpace(s[0]) {
      LeadingSpacesMeaning(s[1..]);
      forall i | 0 < i < LeadingSpaces(s) ensures IsSpace(s[i]) {
        assert s[i] == s[1..][i - 1];
      }
      if LeadingSpaces(s) < |s| {
        assert s[LeadingSpaces(s)] == s[1..][LeadingSpaces(s[1..])];
      }
    }
  }

  /** The trailing run is all white space and stops at a character that is not. */
  lemma {:induction false} TrailingSpacesMeaning(s: string)
    ensures forall i :: |s| - TrailingSpaces(s) <= i < |s| ==> IsSpace(s[i])
    ensures TrailingSpaces(s) < |s| ==> !IsSpace(s[|s| - TrailingSpaces(s) - 1])
  {
    if |s| > 0 && IsSpace(s[|s| - 1]) {
      var t := s[..|s| - 1];
      TrailingSpacesMeaning(t);
      forall i | |s| - TrailingSpaces(s) <= i < |s| - 1 ensures IsSpace(s[i]) {
        assert s[i] == t[i];
      }
      if TrailingSpaces(s) < |s| {
        assert s[|s| - TrailingSpaces(s) - 1] == t[|t| - TrailingSpaces(t) - 1];
      }
    }
  }

  /** `s.strip()`: `s` without its leading and trailing white space. */
  function Strip(s: string): (r: string)
    ensures |r| <= |s|
  {
    var t := s[LeadingSpaces(s)..];
    t[..|t| - TrailingSpaces(t)]
  }

  /** What `strip` keeps is a contiguous piece of the input that neither starts
      nor ends with white space, and only white space is cut off around it. */
  lemma StripMeaning(s: string) returns (lo: nat)
    ensures lo + |Strip(s)| <= |s| && Strip(s) == s[lo..lo + |Strip(s)|]
    ensures Strip(s) == [] || (!IsSpace(Strip(s)[0]) && !IsSpace(Strip(s)[|Strip(s)| - 1]))
    ensures forall i :: 0 <= i < lo ==> IsSpace(s[i])
    ensures forall i :: lo + |Strip(s)| <= i < |s| ==> IsSpace(s[i])
  {
    lo := LeadingSpaces(s);
    var t := s[lo..];
    var n := |t| - TrailingSpaces(t);
    var r := t[..n];
    assert r == Strip(s);
    LeadingSpacesMeaning(s);
    TrailingSpacesMeaning(t);
    assert r == s[lo..lo + n];
    if r != [] {
      assert r[0] == s[lo];
      assert r[n - 1] == t[n - 1];
    }
    forall i | lo + n <= i < |s| ensures IsSpace(s[i]) {
      assert s[i] == t[i - lo];
    }
  }

  /** `sep.join(ws)`. */
  function Join(sep: string, ws: seq<string>): string
  {
    if |ws| == 0 then ""
    else if |ws| == 1 then ws[0]
    else ws[0] + sep + Join(sep, ws[1..])
  }

  /** Where the k-th piece stands in `sep.join(ws)`: every piece occurs in the
      joined string, unchanged. */
  function JoinOffset(sep: string, ws: seq<string>, k: nat): (off: nat)
    requires k < |ws|
    ensures off + |ws[k]| <= |Join(sep, ws)|
    ensures Join(sep, ws)[off..off + |ws[k]|] == ws[k]
  {
    if |ws| == 1 then 0
    else if k == 0 then 0
    else
      var rest := Join(sep, ws[1..]);
      var o := JoinOffset(sep, ws[1..], k - 1);
      assert (ws[0] + sep + rest)[|ws[0]| + |sep| + o..|ws[0]| + |sep| + o + |ws[k]|]
          == rest[o..o + |ws[k]|];
      |ws[0]| + |sep| + o
  }

  /** `os.path.basename(p)` on POSIX: what follows the last '/'. */
  function Basename(p: string): (r: string)
    ensures '/' !in r
    ensures |r| <= |p| && r == p[|p| - |r|..]
    ensures |r| < |p| ==> p[|p| - |r| - 1] == '/'
  {
    if |p| == 0 then ""
    else if p[|p| - 1] == '/' then ""
    else Basename(p[..|p| - 1]) + [p[|p| - 1]]
  }
}
