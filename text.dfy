/**
 * The Python `str` operations that the modelled code relies on, over
 * `string` (= `seq<char>`): `isspace`, `strip`, `lower`, `startswith`,
 * `split(sep)`, `splitlines` and `sep.join(parts)`.
 */
module Text {
  import opened Wrappers

  /** Python's `str.isspace` for a single character (bidi class WS, B, S or category Zs). */
  predicate IsSpace(c: char) {
    var n := c as int;
    (9 <= n <= 13) || (28 <= n <= 32) || n == 0x85 || n == 0xA0 || n == 0x1680
    || (0x2000 <= n <= 0x200A) || n == 0x2028 || n == 0x2029 || n == 0x202F
    || n == 0x205F || n == 0x3000
  }

  /** The characters at which Python's `str.splitlines` breaks a line. */
  predicate IsLineBreak(c: char) {
    var n := c as int;
    (10 <= n <= 13) || (28 <= n <= 30) || n == 0x85 || n == 0x2028 || n == 0x2029
  }

  lemma LineBreakIsSpace(c: char)
    ensures IsLineBreak(c) ==> IsSpace(c)
  {
  }

  predicate AllSpace(s: string) {
    forall i :: 0 <= i < |s| ==> IsSpace(s[i])
  }

  /** A string with no white space at either end, as `strip` leaves it. */
  predicate Stripped(s: string) {
    s == [] || (!IsSpace(s[0]) && !IsSpace(s[|s| - 1]))
  }

  /** `t` is `s` with some white space, possibly none, cut from each end. */
  ghost predicate SpaceTrimmed(s: string, t: string) {
    exists i, j :: 0 <= i <= j <= |s| && t == s[i..j] && AllSpace(s[..i]) && AllSpace(s[j..])
  }

  /**
   * `s.strip()`: drops leading and trailing white space. The result is the infix of `s`
   * left after cutting white space from both ends, and that infix is `Stripped`.
   */
  function Strip(s: string): (r: string)
    ensures Stripped(r)
    ensures |r| <= |s|
    ensures forall c :: c in r ==> c in s
    ensures r == [] <==> AllSpace(s)
    decreases |s|
  {
    if |s| > 0 && IsSpace(s[0]) then
      var r := Strip(s[1..]);
      assert forall c :: c in s[1..] ==> c in s;
      r
    else if |s| > 0 && IsSpace(s[|s| - 1]) then
      var r := Strip(s[..|s| - 1]);
      assert forall c :: c in s[..|s| - 1] ==> c in s;
      r
    else
      s
  }

  /** `Strip(s)` is the infix of `s` left once its leading and trailing white space is cut. */
  lemma {:induction false} StripTrims(s: string)
    ensures SpaceTrimmed(s, Strip(s))
    decreases |s|
  {
    if |s| > 0 && IsSpace(s[0]) {
      StripTrims(s[1..]);
      TrimmedFront(s, Strip(s[1..]));
    } else if |s| > 0 && IsSpace(s[|s| - 1]) {
      StripTrims(s[..|s| - 1]);
      TrimmedBack(s, Strip(s[..|s| - 1]));
    } else {
      assert s == s[0..|s|] && s[..0] == [] && s[|s|..] == [];
    }
  }

  /** Trimming the tail of `s` after dropping a leading space is trimming `s`. */
  lemma TrimmedFront(s: string, r: string)
    requires |s| > 0 && IsSpace(s[0]) && SpaceTrimmed(s[1..], r)
    ensures SpaceTrimmed(s, r)
  {
    var t := s[1..];
    var i, j :| 0 <= i <= j <= |t| && r == t[i..j] && AllSpace(t[..i]) && AllSpace(t[j..]);
    TrimmedFrontAt(s, t, r, i, j);
  }

  /** `TrimmedFront` for the cut `t[i..j]` of the tail `t`: the cut moves one place right in `s`. */
  lemma TrimmedFrontAt(s: string, t: string, r: string, i: int, j: int)
    requires |s| > 0 && IsSpace(s[0]) && t == s[1..]
    requires 0 <= i <= j <= |t| && r == t[i..j] && AllSpace(t[..i]) && AllSpace(t[j..])
    ensures SpaceTrimmed(s, r)
  {
    var front, back := s[..i + 1], s[j + 1..];
    forall k | 0 <= k < |front|
      ensures IsSpace(front[k])
    {
      if k > 0 {
        assert front[k] == t[..i][k - 1];
      }
    }
    forall k | 0 <= k < |back|
      ensures IsSpace(back[k])
    {
      assert back[k] == t[j..][k];
    }
    var cut := s[i + 1..j + 1];
    forall k | 0 <= k < |cut|
      ensures cut[k] == r[k]
    {
      assert cut[k] == s[i + 1 + k] == t[i + k];
    }
    TrimmedAt(s, r, i + 1, j + 1);
  }

  /** `r` is `s` trimmed when `s[i..j]` is `r` with only white space around it. */
  lemma TrimmedAt(s: string, r: string, i: int, j: int)
    requires 0 <= i <= j <= |s| && r == s[i..j] && AllSpace(s[..i]) && AllSpace(s[j..])
    ensures SpaceTrimmed(s, r)
  {
  }

  /** Trimming `s` without its trailing space is trimming `s`. */
  lemma TrimmedBack(s: string, r: string)
    requires |s| > 0 && IsSpace(s[|s| - 1]) && SpaceTrimmed(s[..|s| - 1], r)
    ensures SpaceTrimmed(s, r)
  {
    var t := s[..|s| - 1];
    var i, j :| 0 <= i <= j <= |t| && r == t[i..j] && AllSpace(t[..i]) && AllSpace(t[j..]);
    assert r == s[i..j];
    assert s[..i] == t[..i];
    assert s[j..] == t[j..] + [s[|s| - 1]];
  }

  /** A string that is already `Stripped` is its own strip. */
  lemma StripStripped(s: string)
    requires Stripped(s)
    ensures Strip(s) == s
  {
  }

  /** `strip` is idempotent. */
  lemma StripIdempotent(s: string)
    ensures Strip(Strip(s)) == Strip(s)
  {
    StripStripped(Strip(s));
  }

  /** Python's `str.lower` on one character; only ASCII letters are mapped. */
  function LowerChar(c: char): char {
    if 'A' <= c <= 'Z' then (c as int + 32) as char else c
  }

  /** An ASCII capital letter. */
  predicate IsUpper(c: char) { 'A' <= c <= 'Z' }

  /**
   * `s.lower()`: the same length, no capital left, every capital replaced by its
   * small letter and every other character kept.
   */
  function Lower(s: string): (r: string)
    ensures |r| == |s|
    ensures forall i :: 0 <= i < |r| ==> !IsUpper(r[i])
    ensures forall i :: 0 <= i < |s| && !IsUpper(s[i]) ==> r[i] == s[i]
    ensures forall i :: 0 <= i < |s| && IsUpper(s[i]) ==> r[i] as int == s[i] as int + 32
  {
    seq(|s|, i requires 0 <= i < |s| => LowerChar(s[i]))
  }

  /** Two characters that are equal, or the capital and small form of one letter. */
  predicate SameLetter(a: char, b: char) {
    a == b || (IsUpper(a) && b as int == a as int + 32) || (IsUpper(b) && a as int == b as int + 32)
  }

  /** Strings that differ at most in the case of ASCII letters. */
  predicate EqualIgnoringCase(a: string, b: string) {
    |a| == |b| && forall i :: 0 <= i < |a| ==> SameLetter(a[i], b[i])
  }

  /** Two names lower to the same key exactly when they differ only in letter case. */
  lemma LowerCaseBlind(a: string, b: string)
    ensures Lower(a) == Lower(b) <==> EqualIgnoringCase(a, b)
  {
    if Lower(a) == Lower(b) {
      forall i | 0 <= i < |a| ensures SameLetter(a[i], b[i]) {
        assert Lower(a)[i] == Lower(b)[i];
      }
    }
    if EqualIgnoringCase(a, b) {
      forall i | 0 <= i < |a| ensures Lower(a)[i] == Lower(b)[i] {
        assert SameLetter(a[i], b[i]);
      }
    }
  }

  /** Lower-casing twice is lower-casing once; this makes lookups by `Lower(name)` case-insensitive. */
  lemma LowerIdempotent(s: string)
    ensures Lower(Lower(s)) == Lower(s)
  {
  }

  /** `s.startswith(p)`. */
  predicate StartsWith(s: string, p: string) {
    |p| <= |s| && s[..|p|] == p
  }

  /** `sep` occurs in `s` at position `j`. */
  predicate OccursAt(s: string, sep: string, j: int) {
    0 <= j && j + |sep| <= |s| && s[j..j + |sep|] == sep
  }

  /** The first position where `sep` occurs in `s` (`s.find(sep)`, None for -1). */
  function IndexOf(s: string, sep: string): (r: Option<nat>)
    requires |sep| > 0
    ensures r.Some? ==> OccursAt(s, sep, r.value)
    ensures r.Some? ==> forall j :: 0 <= j < r.value ==> !OccursAt(s, sep, j)
    ensures r.None? ==> forall j :: 0 <= j <= |s| ==> !OccursAt(s, sep, j)
    decreases |s|
  {
    if |s| < |sep| then None
    else if s[..|sep|] == sep then Some(0)
    else
      match IndexOf(s[1..], sep)
      case None =>
        assert forall j :: 1 <= j <= |s| ==> (OccursAt(s, sep, j) ==> OccursAt(s[1..], sep, j - 1)) by {
          forall j | 1 <= j <= |s| && OccursAt(s, sep, j) ensures OccursAt(s[1..], sep, j - 1) {
            assert s[1..][j - 1..j - 1 + |sep|] == s[j..j + |sep|];
          }
        }
        None
      case Some(i) =>
        assert s[1..][i..i + |sep|] == s[i + 1..i + 1 + |sep|];
        assert forall j :: 1 <= j < i + 1 ==> (OccursAt(s, sep, j) ==> OccursAt(s[1..], sep, j - 1)) by {
          forall j | 1 <= j < i + 1 && OccursAt(s, sep, j) ensures OccursAt(s[1..], sep, j - 1) {
            assert s[1..][j - 1..j - 1 + |sep|] == s[j..j + |sep|];
          }
        }
        Some(i + 1)
  }

  /** `sep.join(parts)`. */
  function Join(parts: seq<string>, sep: string): string {
    if |parts| == 0 then ""
    else if |parts| == 1 then parts[0]
    else parts[0] + sep + Join(parts[1..], sep)
  }

  /** `s.split(sep)`: the pieces between the non-overlapping occurrences of `sep`, scanning left to right. */
  function Split(s: string, sep: string): (r: seq<string>)
    requires |sep| > 0
    ensures |r| >= 1
    ensures Join(r, sep) == s
    ensures forall k, j :: 0 <= k < |r| && 0 <= j <= |r[k]| ==> !OccursAt(r[k], sep, j)
    ensures CutsLeftmost(r, sep)
    decreases |s|
  {
    match IndexOf(s, sep)
    case None => [s]
    case Some(i) =>
      var rest := Split(s[i + |sep|..], sep);
      assert s == s[..i] + sep + s[i + |sep|..];
      forall j | 0 <= j <= i ensures !OccursAt(s[..i], sep, j) {
        if j + |sep| <= i {
          assert s[..i][j..j + |sep|] == s[j..j + |sep|];
          assert !OccursAt(s, sep, j);
        }
      }
      var r := [s[..i]] + rest;
      CutsLeftmostCons(s, sep, i, rest);
      r
  }

  /**
   * Every piece but the last, followed by the separator, holds no earlier occurrence
   * of it: each cut is made at the leftmost occurrence after the piece's start.
   */
  predicate CutsLeftmost(r: seq<string>, sep: string) {
    forall k, j :: 0 <= k < |r| - 1 && 0 <= j < |r[k]| ==> !OccursAt(r[k] + sep, sep, j)
  }

  lemma CutsLeftmostCons(s: string, sep: string, i: nat, rest: seq<string>)
    requires |sep| > 0 && i + |sep| <= |s| && OccursAt(s, sep, i)
    requires forall j :: 0 <= j < i ==> !OccursAt(s, sep, j)
    requires CutsLeftmost(rest, sep) && |rest| >= 1
    ensures CutsLeftmost([s[..i]] + rest, sep)
  {
    var r := [s[..i]] + rest;
    forall k, j | 0 <= k < |r| - 1 && 0 <= j < |r[k]| ensures !OccursAt(r[k] + sep, sep, j) {
      if k == 0 {
        assert r[0] + sep == s[..i + |sep|];
        if OccursAt(r[0] + sep, sep, j) {
          assert (r[0] + sep)[j..j + |sep|] == s[j..j + |sep|];
          assert OccursAt(s, sep, j);
        }
      } else {
        assert r[k] == rest[k - 1];
      }
    }
  }

  /** For a one-character separator that no part contains, `split` undoes `join`. */
  lemma {:induction false} SplitJoin(parts: seq<string>, c: char)
    requires |parts| > 0
    requires forall k :: 0 <= k < |parts| ==> c !in parts[k]
    ensures Split(Join(parts, [c]), [c]) == parts
  {
    var s := Join(parts, [c]);
    if |parts| == 1 {
      assert forall j :: 0 <= j <= |s| ==> !OccursAt(s, [c], j) by {
        forall j | 0 <= j < |s| ensures !OccursAt(s, [c], j) {
          assert s[j] in parts[0];
          assert s[j..j + 1] == [s[j]];
        }
      }
      assert IndexOf(s, [c]).None?;
    } else {
      var p := parts[0];
      var tail := Join(parts[1..], [c]);
      assert s == p + [c] + tail;
      assert OccursAt(s, [c], |p|) by { assert s[|p|..|p| + 1] == [c]; }
      forall j | 0 <= j < |p| ensures !OccursAt(s, [c], j) {
        assert s[j] == p[j] && p[j] in parts[0];
        assert s[j..j + 1] == [s[j]];
      }
      var i := IndexOf(s, [c]);
      assert i == Some(|p|);
      assert s[..|p|] == p && s[|p| + 1..] == tail;
      SplitJoin(parts[1..], c);
    }
  }

  /** A string with no `splitlines` break in it. */
  predicate NoLineBreak(s: string) {
    forall i :: 0 <= i < |s| ==> !IsLineBreak(s[i])
  }

  /** The first line break in `s`. */
  function FirstLineBreak(s: string): (r: Option<nat>)
    ensures r.Some? ==> r.value < |s| && IsLineBreak(s[r.value]) && NoLineBreak(s[..r.value])
    ensures r.None? ==> NoLineBreak(s)
  {
    if s == [] then None
    else if IsLineBreak(s[0]) then Some(0)
    else
      match FirstLineBreak(s[1..])
      case None => None
      case Some(i) =>
        assert s[..i + 1] == [s[0]] + s[1..][..i];
        Some(i + 1)
  }

  /** A terminator that `splitlines` recognises: one break character, or "\r\n". */
  predicate IsTerminator(t: string) {
    (|t| == 1 && IsLineBreak(t[0])) || t == "\r\n"
  }

  /** The lines put back together, each followed by its terminator. */
  function Glue(lines: seq<string>, terms: seq<string>): string
    requires |lines| == |terms|
  {
    if lines == [] then "" else lines[0] + terms[0] + Glue(lines[1..], terms[1..])
  }

  /**
   * `lines` with `terms` is a reading of `s` as lines: `s` is the lines glued back with
   * their terminators; no line holds a break; every line but the last ends in a
   * terminator and the last ends in one or in the end of `s` (then it is not empty);
   * and a lone "\r" is never followed by "\n", which would have made "\r\n".
   */
  ghost predicate LineReading(s: string, lines: seq<string>, terms: seq<string>) {
    && |lines| == |terms|
    && Glue(lines, terms) == s
    && (forall k :: 0 <= k < |lines| ==> NoLineBreak(lines[k]))
    && (forall k :: 0 <= k < |lines| - 1 ==> IsTerminator(terms[k]))
    && (|lines| > 0 ==> IsTerminator(terms[|lines| - 1]) || (terms[|lines| - 1] == [] && lines[|lines| - 1] != []))
    && (forall k :: 0 <= k < |lines| && terms[k] == "\r" ==> !StartsWith(Glue(lines[k + 1..], terms[k + 1..]), "\n"))
  }

  /**
   * `s.splitlines()`: the lines of `s` without their terminators; "\r\n" ends one line,
   * and a final terminator does not start an empty last line.
   */
  function SplitLines(s: string): (r: seq<string>)
    ensures forall k :: 0 <= k < |r| ==> NoLineBreak(r[k])
    ensures r == [] <==> s == []
    ensures exists terms :: LineReading(s, r, terms)
    decreases |s|
  {
    match FirstLineBreak(s)
    case None =>
      if s == [] then
        assert LineReading(s, [], []);
        []
      else
        assert Glue([s], [[]]) == s;
        assert LineReading(s, [s], [[]]);
        [s]
    case Some(i) =>
      var next := if s[i] == '\r' && i + 1 < |s| && s[i + 1] == '\n' then i + 2 else i + 1;
      var rest := SplitLines(s[next..]);
      LineReadingCons(s, i, next, rest);
      [s[..i]] + rest
  }

  /** A first line and its terminator in front of a reading of the remainder read all of `s`. */
  lemma LineReadingCons(s: string, i: nat, next: nat, rest: seq<string>)
    requires i < |s| && IsLineBreak(s[i]) && NoLineBreak(s[..i])
    requires next == if s[i] == '\r' && i + 1 < |s| && s[i + 1] == '\n' then i + 2 else i + 1
    requires exists terms :: LineReading(s[next..], rest, terms)
    ensures exists terms :: LineReading(s, [s[..i]] + rest, terms)
  {
    var ts' :| LineReading(s[next..], rest, ts');
    var lines := [s[..i]] + rest;
    var t := s[i..next];
    var ts := [t] + ts';
    assert lines[1..] == rest && ts[1..] == ts';
    assert IsTerminator(t) by {
      if next == i + 2 { assert t == "\r\n"; } else { assert t == [s[i]]; }
    }
    assert Glue(lines, ts) == s[..i] + t + s[next..];
    assert s == s[..i] + t + s[next..];
    forall k | 0 <= k < |lines| && ts[k] == "\r"
      ensures !StartsWith(Glue(lines[k + 1..], ts[k + 1..]), "\n")
    {
      if k == 0 {
        assert lines[1..] == rest && ts[1..] == ts';
        assert next == i + 1 && s[i] == '\r';
      } else {
        assert lines[k + 1..] == rest[k..] && ts[k + 1..] == ts'[k..];
        assert ts[k] == ts'[k - 1];
      }
    }
    assert forall k :: 1 <= k < |lines| ==> lines[k] == rest[k - 1] && ts[k] == ts'[k - 1];
    assert LineReading(s, lines, ts);
  }

  /** `[p.strip() for p in parts if p.strip()]`. */
  function StrippedNonBlank(parts: seq<string>): (r: seq<string>)
    ensures |r| <= |parts|
    ensures forall k :: 0 <= k < |r| ==> r[k] != [] && Stripped(r[k])
  {
    if parts == [] then []
    else (if Strip(parts[0]) == [] then [] else [Strip(parts[0])]) + StrippedNonBlank(parts[1..])
  }

  /** Blank pieces are dropped and the others kept, stripped: one piece at a time ... */
  lemma StrippedNonBlankOne(p: string)
    ensures StrippedNonBlank([p]) == if AllSpace(p) then [] else [Strip(p)]
  {
    assert [p][1..] == [];
  }

  /** ... and in order, since the kept pieces of a concatenation are concatenated. */
  lemma {:induction false} StrippedNonBlankAppend(a: seq<string>, b: seq<string>)
    ensures StrippedNonBlank(a + b) == StrippedNonBlank(a) + StrippedNonBlank(b)
  {
    if a == [] {
      assert a + b == b;
    } else {
      assert (a + b)[0] == a[0] && (a + b)[1..] == a[1..] + b;
      StrippedNonBlankAppend(a[1..], b);
    }
  }

  /** Every kept piece is the strip of an input piece, so it holds only characters of that piece. */
  lemma {:induction false} StrippedNonBlankChars(parts: seq<string>, c: char)
    requires forall k :: 0 <= k < |parts| ==> c !in parts[k]
    ensures forall k :: 0 <= k < |StrippedNonBlank(parts)| ==> c !in StrippedNonBlank(parts)[k]
  {
    if parts != [] {
      StrippedNonBlankChars(parts[1..], c);
      assert c !in parts[0];
    }
  }
}
