/**
 * The string operations the server and the client rely on, written out with
 * Python's (and JavaScript's) meaning: substring search, Latin-1 lower-casing,
 * `str.strip()`, `pathlib`'s `stem`, decimal formatting, and `"\n".join`
 * together with its inverse `split("\n")`.
 */
module Strings {

  // ---------------------------------------------------------------------------
  // Substring search

  /** `needle` occurs in `hay` as a contiguous run (Python's `in`, JavaScript's `includes`). */
  predicate Contains(hay: string, needle: string)
    ensures Contains(hay, needle) ==> |needle| <= |hay|
    decreases |hay|
  {
    needle <= hay || (hay != [] && Contains(hay[1..], needle))
  }

  /** `needle` occurs in `hay` starting at position `i`. */
  predicate OccursAt(hay: string, needle: string, i: int) {
    0 <= i <= |hay| - |needle| && hay[i..i + |needle|] == needle
  }

  /** The recursive search agrees with the definition by position. */
  lemma {:induction false} ContainsIffOccurs(hay: string, needle: string)
    ensures Contains(hay, needle) <==> exists i :: OccursAt(hay, needle, i)
    decreases |hay|
  {
    var n := |needle|;
    if Contains(hay, needle) {
      if needle <= hay {
        assert OccursAt(hay, needle, 0);
      } else {
        ContainsIffOccurs(hay[1..], needle);
        var j :| OccursAt(hay[1..], needle, j);
        TailSlice(hay, j, j + n);
        assert OccursAt(hay, needle, j + 1);
      }
    }
    if exists i :: OccursAt(hay, needle, i) {
      var i :| OccursAt(hay, needle, i);
      if i == 0 {
        assert needle <= hay;
      } else {
        TailSlice(hay, i - 1, i - 1 + n);
        assert OccursAt(hay[1..], needle, i - 1);
        ContainsIffOccurs(hay[1..], needle);
      }
    }
  }

  /** A slice of the tail is the slice of the whole one position further on. */
  lemma TailSlice(hay: string, a: int, b: int)
    requires 0 <= a <= b <= |hay| - 1
    ensures hay[1..][a..b] == hay[a + 1..b + 1]
  {
    forall k | 0 <= k < b - a ensures hay[1..][a..b][k] == hay[a + 1..b + 1][k] {
      assert hay[1..][a..b][k] == hay[1..][a + k] == hay[a + 1 + k];
    }
  }

  /** The empty needle occurs everywhere. */
  lemma {:induction false} ContainsEmpty(hay: string)
    ensures Contains(hay, "")
  {
    assert "" <= hay;
  }

  // ---------------------------------------------------------------------------
  // Case

  /** The capitals of Latin-1: A to Z, and À to Þ except the multiplication sign. */
  predicate IsUpper(c: char) {
    'A' <= c <= 'Z' || ('\U{C0}' <= c <= '\U{DE}' && c != '\U{D7}')
  }

  /** Lower-casing of one character: each Latin-1 capital becomes its small letter, 32 code points on. */
  function LowerChar(c: char): (r: char)
    ensures !IsUpper(r)
    ensures IsUpper(c) ==> r as int == c as int + 32
    ensures !IsUpper(c) ==> r == c
  {
    if IsUpper(c) then (c as int + 32) as char else c
  }

  /** `str.lower()` on Latin-1 text: character by character, leaving no capital. */
  function Lower(s: string): (r: string)
    ensures |r| == |s|
    ensures forall i :: 0 <= i < |s| ==> r[i] == LowerChar(s[i])
    ensures forall i :: 0 <= i < |r| ==> !IsUpper(r[i])
  {
    seq(|s|, i requires 0 <= i < |s| => LowerChar(s[i]))
  }

  predicate EndsWith(s: string, suffix: string) {
    |suffix| <= |s| && s[|s| - |suffix|..] == suffix
  }

  /**
   * `name.lower().endswith(".pdf")`, read off the last four characters: since
   * lower-casing goes character by character, only they decide.
   */
  predicate IsPdfName(name: string)
    ensures IsPdfName(name) ==> |name| >= 4 && name[|name| - 4] == '.'
  {
    && |name| >= 4
    && LowerChar(name[|name| - 4]) == '.' && LowerChar(name[|name| - 3]) == 'p'
    && LowerChar(name[|name| - 2]) == 'd' && LowerChar(name[|name| - 1]) == 'f'
  }

  /** The four-character test is exactly the test on the whole lower-cased name. */
  lemma IsPdfNameIffLowerEndsWith(name: string)
    ensures IsPdfName(name) <==> EndsWith(Lower(name), ".pdf")
  {
    var n := |name|;
    if n >= 4 {
      var tail := Lower(name)[n - 4..];
      assert tail[0] == LowerChar(name[n - 4]) && tail[1] == LowerChar(name[n - 3]);
      assert tail[2] == LowerChar(name[n - 2]) && tail[3] == LowerChar(name[n - 1]);
      if IsPdfName(name) {
        assert tail == ".pdf";
      }
    }
  }

  /** An accepted name ends in a dot and "pdf" in any case: nothing else lower-cases to ".pdf". */
  lemma PdfNameEnding(name: string)
    requires IsPdfName(name)
    ensures name[|name| - 4] == '.'
    ensures name[|name| - 3] in "pP" && name[|name| - 2] in "dD" && name[|name| - 1] in "fF"
  {
  }

  /** `s.replace(" ", "_")`. */
  function ReplaceSpaces(s: string): (r: string)
    ensures |r| == |s|
    ensures forall i :: 0 <= i < |s| ==> r[i] == (if s[i] == ' ' then '_' else s[i])
    ensures forall i :: 0 <= i < |r| ==> r[i] != ' '
  {
    seq(|s|, i requires 0 <= i < |s| => if s[i] == ' ' then '_' else s[i])
  }

  /** Replacing spaces keeps a name acceptable: ".pdf" holds no space. */
  lemma ReplaceSpacesKeepsPdfName(name: string)
    requires IsPdfName(name)
    ensures IsPdfName(ReplaceSpaces(name))
  {
  }

  // ---------------------------------------------------------------------------
  // str.strip()

  /** The characters for which Python's `str.isspace()` holds. */
  predicate IsSpace(c: char) {
    || '\t' <= c <= '\r'
    || '\U{1C}' <= c <= ' '
    || c == '\U{85}' || c == '\U{A0}' || c == '\U{1680}'
    || '\U{2000}' <= c <= '\U{200A}'
    || c == '\U{2028}' || c == '\U{2029}' || c == '\U{202F}' || c == '\U{205F}' || c == '\U{3000}'
  }

  /** `s.lstrip()`: the suffix of `s` left after dropping its leading whitespace. */
  function TrimStart(s: string): (r: string)
    ensures |r| <= |s| && r == s[|s| - |r|..]
    ensures forall i :: 0 <= i < |s| - |r| ==> IsSpace(s[i])
    ensures r == [] || !IsSpace(r[0])
    decreases |s|
  {
    if s != [] && IsSpace(s[0]) then TrimStart(s[1..]) else s
  }

  /** `s.rstrip()`: the prefix of `s` left after dropping its trailing whitespace. */
  function TrimEnd(s: string): (r: string)
    ensures |r| <= |s| && r == s[..|r|]
    ensures forall i :: |r| <= i < |s| ==> IsSpace(s[i])
    ensures r == [] || !IsSpace(r[|r| - 1])
    decreases |s|
  {
    if s != [] && IsSpace(s[|s| - 1]) then TrimEnd(s[..|s| - 1]) else s
  }

  /** `s.strip()`: the middle of `s`, neither starting nor ending with whitespace, with only whitespace cut away. */
  function Strip(s: string): (r: string)
    ensures exists i, j :: 0 <= i <= j <= |s| && r == s[i..j] &&
                           (forall k :: 0 <= k < i ==> IsSpace(s[k])) &&
                           (forall k :: j <= k < |s| ==> IsSpace(s[k]))
    ensures r == [] || (!IsSpace(r[0]) && !IsSpace(r[|r| - 1]))
  {
    var t := TrimStart(s);
    var r := TrimEnd(t);
    StripCuts(s, t, r);
    r
  }

  /**
   * Cutting a whitespace prefix of `s` down to `t`, which starts with no
   * whitespace, then a whitespace suffix of `t` down to `r`, which ends with
   * none, leaves a middle slice of `s` with no whitespace at either end.
   */
  lemma StripCuts(s: string, t: string, r: string)
    requires |t| <= |s| && t == s[|s| - |t|..]
    requires forall k :: 0 <= k < |s| - |t| ==> IsSpace(s[k])
    requires t == [] || !IsSpace(t[0])
    requires |r| <= |t| && r == t[..|r|]
    requires forall k :: |r| <= k < |t| ==> IsSpace(t[k])
    requires r == [] || !IsSpace(r[|r| - 1])
    ensures exists i, j :: 0 <= i <= j <= |s| && r == s[i..j] &&
                           (forall k :: 0 <= k < i ==> IsSpace(s[k])) &&
                           (forall k :: j <= k < |s| ==> IsSpace(s[k]))
    ensures r == [] || (!IsSpace(r[0]) && !IsSpace(r[|r| - 1]))
  {
    var i := |s| - |t|;
    var j := i + |r|;
    forall k | j <= k < |s|
      ensures IsSpace(s[k])
    {
      assert s[k] == t[k - i];
    }
    assert r == s[i..j];
    if r != [] {
      assert r[0] == t[0];
    }
  }

  /** A string is stripped to nothing exactly when it is all whitespace. */
  lemma StripEmptyIffBlank(s: string)
    ensures Strip(s) == "" <==> forall k :: 0 <= k < |s| ==> IsSpace(s[k])
  {
  }

  // ---------------------------------------------------------------------------
  // pathlib

  /** `s.rfind(c)`: the last position holding `c`, or -1. */
  function LastIndexOf(s: string, c: char): (i: int)
    ensures -1 <= i < |s|
    ensures i >= 0 ==> s[i] == c
    ensures forall j :: i < j < |s| ==> s[j] != c
    decreases |s|
  {
    if s == [] then -1
    else if s[|s| - 1] == c then |s| - 1
    else LastIndexOf(s[..|s| - 1], c)
  }

  /** `PurePath(name).stem`: the name without its last suffix; a leading or trailing dot is no suffix. */
  function Stem(name: string): (r: string)
    ensures |r| <= |name|
  {
    var i := LastIndexOf(name, '.');
    if 0 < i < |name| - 1 then name[..i] else name
  }

  /** The stem is the name itself, or the part before its last dot, which is neither first nor last. */
  lemma StemCutsLastSuffix(name: string)
    ensures Stem(name) <= name
    ensures Stem(name) != name ==>
              && 0 < |Stem(name)| < |name| - 1
              && name[|Stem(name)|] == '.'
              && forall j :: |Stem(name)| < j < |name| ==> name[j] != '.'
  {
  }

  /** A last dot that is neither first nor last is where the stem ends. */
  lemma StemCutsAtLastInteriorDot(name: string, i: int)
    requires 0 < i < |name| - 1 && name[i] == '.'
    requires forall j :: i < j < |name| ==> name[j] != '.'
    ensures Stem(name) == name[..i]
  {
  }

  /** The stem of a non-empty `x` followed by ".pdf" is `x` itself. */
  lemma StemOfPdf(x: string)
    requires x != ""
    ensures Stem(x + ".pdf") == x
  {
    var s := x + ".pdf";
    var i := LastIndexOf(s, '.');
    assert s[|x|] == '.' && s[|x| + 1] == 'p' && s[|x| + 2] == 'd' && s[|x| + 3] == 'f';
    assert i == |x|;
    assert s[..|x|] == x;
  }

  /** A name ending in ".pdf" (in any case) loses exactly those four characters to its stem, unless nothing precedes them. */
  lemma StemOfPdfName(name: string)
    requires IsPdfName(name)
    ensures |Stem(name)| >= |name| - 4
    ensures |name| > 4 ==> Stem(name) == name[..|name| - 4]
  {
    var n := |name|;
    PdfNameEnding(name);
    assert name[n - 3] != '.' && name[n - 2] != '.' && name[n - 1] != '.';
    assert LastIndexOf(name, '.') == n - 4;
    if n > 4 {
      StemCutsAtLastInteriorDot(name, n - 4);
    }
  }

  // ---------------------------------------------------------------------------
  // Decimal formatting

  function DigitChar(d: nat): (c: char)
    requires d < 10
    ensures '0' <= c <= '9'
  {
    ('0' as int + d) as char
  }

  /** `str(n)` / an f-string of a non-negative integer: at least one digit and nothing else. */
  function DecimalString(n: nat): (r: string)
    ensures |r| >= 1
    ensures forall k :: 0 <= k < |r| ==> '0' <= r[k] <= '9'
  {
    if n < 10 then [DigitChar(n)] else DecimalString(n / 10) + [DigitChar(n % 10)]
  }

  /** The number a string of decimal digits spells, most significant digit first. */
  function DigitsValue(s: string): nat
    requires forall k :: 0 <= k < |s| ==> '0' <= s[k] <= '9'
  {
    if s == [] then 0 else 10 * DigitsValue(s[..|s| - 1]) + (s[|s| - 1] as int - '0' as int)
  }

  /** The digits `DecimalString` writes spell `n` again. */
  lemma {:induction false} DecimalStringValue(n: nat)
    ensures DigitsValue(DecimalString(n)) == n
  {
    if n >= 10 {
      var r := DecimalString(n);
      assert r[..|r| - 1] == DecimalString(n / 10);
      DecimalStringValue(n / 10);
    }
  }

  /** So different counters are written differently. */
  lemma DecimalStringInjective(a: nat, b: nat)
    ensures DecimalString(a) == DecimalString(b) ==> a == b
  {
    DecimalStringValue(a);
    DecimalStringValue(b);
  }

  // ---------------------------------------------------------------------------
  // "\n".join and split("\n")

  /** `"\n".join(parts)`: starts with the first part and ends with the last. */
  function JoinLines(parts: seq<string>): (r: string)
    ensures |parts| >= 1 ==> parts[0] <= r && EndsWith(r, parts[|parts| - 1])
  {
    if |parts| == 0 then ""
    else if |parts| == 1 then parts[0]
    else parts[0] + "\n" + JoinLines(parts[1..])
  }

  /** The first position holding `c`, or `|s|` when there is none. */
  function IndexOf(s: string, c: char): (i: nat)
    ensures i <= |s|
    ensures i < |s| ==> s[i] == c
    ensures forall j :: 0 <= j < i ==> s[j] != c
  {
    if s == [] then 0
    else if s[0] == c then 0
    else 1 + IndexOf(s[1..], c)
  }

  /** `s.split("\n")`: always at least one piece, and no piece holds a line break. */
  function SplitLines(s: string): (r: seq<string>)
    ensures |r| >= 1
    ensures forall k :: 0 <= k < |r| ==> '\n' !in r[k]
    decreases |s|
  {
    var i := IndexOf(s, '\n');
    if i == |s| then [s] else [s[..i]] + SplitLines(s[i + 1..])
  }

  /** Joining lines that hold no line break and splitting again gives the lines back. */
  lemma {:induction false} SplitJoin(parts: seq<string>)
    requires |parts| >= 1
    requires forall k :: 0 <= k < |parts| ==> '\n' !in parts[k]
    ensures SplitLines(JoinLines(parts)) == parts
    decreases |parts|
  {
    if |parts| == 1 {
      assert IndexOf(parts[0], '\n') == |parts[0]|;
    } else {
      assert '\n' !in parts[0];
      SplitAtFirstBreak(parts[0], JoinLines(parts[1..]));
      SplitJoin(parts[1..]);
      assert parts == [parts[0]] + parts[1..];
    }
  }

  /** A line without a break, then a break: splitting cuts there first. */
  lemma SplitAtFirstBreak(head: string, rest: string)
    requires '\n' !in head
    ensures SplitLines(head + "\n" + rest) == [head] + SplitLines(rest)
  {
    var s := head + "\n" + rest;
    assert s[|head|] == '\n';
    forall j | 0 <= j < |head|
      ensures s[j] != '\n'
    {
      assert s[j] == head[j];
    }
    assert IndexOf(s, '\n') == |head|;
    assert s[..|head|] == head;
    assert s[|head| + 1..] == rest;
  }
}
