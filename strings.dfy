/** The parts of Python's `str` that the markdown reconstruction relies on:
    `split` on a literal separator, `join`, `strip`, `startswith`,
    `endswith`, `isupper` and `str` of a non-negative integer. Character
    classes are those of ASCII (see README). */
module Strings {

  /** Python's default `strip()` whitespace, restricted to ASCII. */
  predicate IsSpace(c: char)
  {
    c == ' ' || c == '\t' || c == '\n' || c == '\r' || c == '\U{B}' || c == '\U{C}'
    || c == '\U{1C}' || c == '\U{1D}' || c == '\U{1E}' || c == '\U{1F}'
  }

  predicate AllSpace(s: string)
  {
    forall i | 0 <= i < |s| :: IsSpace(s[i])
  }

  /** The first position at or after `i` that does not hold whitespace, or
      `|s|` when there is none. */
  function SkipSpaces(s: string, i: nat): (r: nat)
    requires i <= |s|
    ensures i <= r <= |s|
    decreases |s| - i
  {
    if i < |s| && IsSpace(s[i]) then SkipSpaces(s, i + 1) else i
  }

  /** The position just after the last non-whitespace character of
      `s[lo..j]`, or `lo` when there is none. */
  function SkipSpacesBack(s: string, lo: nat, j: nat): (r: nat)
    requires lo <= j <= |s|
    ensures lo <= r <= j
    decreases j
  {
    if lo < j && IsSpace(s[j - 1]) then SkipSpacesBack(s, lo, j - 1) else j
  }

  /** `s.strip()`: the slice of `s` between its leading and its trailing
      whitespace. */
  function Strip(s: string): (r: string)
    ensures |r| <= |s|
  {
    var a := SkipSpaces(s, 0);
    s[a..SkipSpacesBack(s, a, |s|)]
  }

  /** `SkipSpaces` passes over whitespace only, and stops at a non-space. */
  lemma {:induction false} SkipSpacesSpec(s: string, i: nat)
    requires i <= |s|
    ensures forall k | i <= k < SkipSpaces(s, i) :: IsSpace(s[k])
    ensures SkipSpaces(s, i) < |s| ==> !IsSpace(s[SkipSpaces(s, i)])
    decreases |s| - i
  {
    if i < |s| && IsSpace(s[i]) {
      SkipSpacesSpec(s, i + 1);
    }
  }

  /** `SkipSpacesBack` passes over whitespace only, and stops after a
      non-space. */
  lemma {:induction false} SkipSpacesBackSpec(s: string, lo: nat, j: nat)
    requires lo <= j <= |s|
    ensures forall k | SkipSpacesBack(s, lo, j) <= k < j :: IsSpace(s[k])
    ensures lo < SkipSpacesBack(s, lo, j) ==> !IsSpace(s[SkipSpacesBack(s, lo, j) - 1])
    decreases j
  {
    if lo < j && IsSpace(s[j - 1]) {
      SkipSpacesBackSpec(s, lo, j - 1);
    }
  }

  /** `Strip(s)` is the slice `s[a..b]` with only whitespace outside it. */
  lemma StripIsTrimmedSlice(s: string) returns (a: nat, b: nat)
    ensures a <= b <= |s| && Strip(s) == s[a..b]
    ensures forall k | 0 <= k < a :: IsSpace(s[k])
    ensures forall k | b <= k < |s| :: IsSpace(s[k])
  {
    a := SkipSpaces(s, 0);
    b := SkipSpacesBack(s, a, |s|);
    SkipSpacesSpec(s, 0);
    SkipSpacesBackSpec(s, a, |s|);
  }

  /** A non-empty `Strip(s)` starts and ends with a non-space character. */
  lemma StripEnds(s: string)
    requires Strip(s) != []
    ensures !IsSpace(Strip(s)[0]) && !IsSpace(Strip(s)[|Strip(s)| - 1])
  {
    var a := SkipSpaces(s, 0);
    var b := SkipSpacesBack(s, a, |s|);
    SkipSpacesSpec(s, 0);
    SkipSpacesBackSpec(s, a, |s|);
    assert Strip(s)[0] == s[a];
    assert Strip(s)[|Strip(s)| - 1] == s[b - 1];
  }

  /** A string strips to nothing exactly when it is all whitespace. */
  lemma StripEmpty(s: string)
    ensures Strip(s) == [] <==> AllSpace(s)
  {
    var a := SkipSpaces(s, 0);
    var b := SkipSpacesBack(s, a, |s|);
    SkipSpacesSpec(s, 0);
    SkipSpacesBackSpec(s, a, |s|);
    if a < |s| {
      assert !IsSpace(s[a]);
    }
  }

  /** True when `sep` occurs in `s` at position `i`. */
  predicate OccursAt(s: string, sep: string, i: nat)
  {
    i + |sep| <= |s| && s[i..i + |sep|] == sep
  }

  /** True when `sep` occurs nowhere in `s`. */
  ghost predicate Free(s: string, sep: string)
  {
    forall i: nat :: !OccursAt(s, sep, i)
  }

  /** The first position at or after `from` where `sep` occurs, or `|s|`
      when there is none. */
  function Find(s: string, sep: string, from: nat): (i: nat)
    requires sep != [] && from <= |s|
    ensures from <= i <= |s|
    ensures i < |s| ==> OccursAt(s, sep, i)
    decreases |s| - from
  {
    if from == |s| then |s|
    else if OccursAt(s, sep, from) then from
    else Find(s, sep, from + 1)
  }

  /** `Find` stops at the first occurrence: there is none before it. */
  lemma {:induction false} FindFirst(s: string, sep: string, from: nat, j: nat)
    requires sep != [] && from <= j
    requires from <= |s|
    requires j < Find(s, sep, from) || Find(s, sep, from) == |s|
    ensures !OccursAt(s, sep, j)
    decreases |s| - from
  {
    if from < |s| && !OccursAt(s, sep, from) && from < j {
      FindFirst(s, sep, from + 1, j);
    }
  }

  /** Python's `s.split(sep)` for a non-empty separator: the pieces between
      the occurrences of `sep`, scanning left to right. */
  function Split(s: string, sep: string): (parts: seq<string>)
    requires sep != []
    ensures |parts| >= 1
    decreases |s|
  {
    var i := Find(s, sep, 0);
    if i == |s| then [s] else [s[..i]] + Split(s[i + |sep|..], sep)
  }

  /** String concatenation is associative (a helper that keeps the
      extensionality argument out of larger proofs). */
  lemma ConcatAssoc(x: string, y: string, z: string)
    ensures (x + y) + z == x + (y + z)
  {
  }

  /** A string is the part before a newline at `i`, the newline, and the
      part after it. */
  lemma SplitAround(s: string, i: nat)
    requires i < |s| && s[i] == '\n'
    ensures s == s[..i] + "\n" + s[i + 1..]
  {
    assert s[i..i + 1] == "\n";
    assert s == s[..i] + s[i..i + 1] + s[i + 1..];
  }

  /** Python's `sep.join(parts)`. */
  function Join(parts: seq<string>, sep: string): string
  {
    if |parts| == 0 then []
    else if |parts| == 1 then parts[0]
    else parts[0] + sep + Join(parts[1..], sep)
  }

  lemma JoinCons(first: string, rest: seq<string>, sep: string)
    requires rest != []
    ensures Join([first] + rest, sep) == first + sep + Join(rest, sep)
  {
    assert ([first] + rest)[1..] == rest;
  }

  /** Round trip: joining the pieces of a split with the same separator
      gives back the original string. */
  lemma {:induction false} JoinSplit(s: string, sep: string)
    requires sep != []
    ensures Join(Split(s, sep), sep) == s
    decreases |s|
  {
    var i := Find(s, sep, 0);
    if i < |s| {
      var head, rest := s[..i], s[i + |sep|..];
      var tail := Split(rest, sep);
      assert Split(s, sep) == [head] + tail;
      JoinSplit(rest, sep);
      JoinCons(head, tail, sep);
      assert s[i..i + |sep|] == sep;
      assert s == head + s[i..i + |sep|] + rest;
    }
  }

  /** No piece of a split contains the separator. */
  lemma {:induction false} SplitPartsFree(s: string, sep: string)
    requires sep != []
    ensures forall p <- Split(s, sep) :: Free(p, sep)
    decreases |s|
  {
    var i := Find(s, sep, 0);
    if i == |s| {
      forall j: nat ensures !OccursAt(s, sep, j) {
        FindFirst(s, sep, 0, j);
      }
    } else {
      SplitPartsFree(s[i + |sep|..], sep);
      forall j: nat ensures !OccursAt(s[..i], sep, j) {
        if OccursAt(s[..i], sep, j) {
          assert s[..i][j..j + |sep|] == s[j..j + |sep|];
          FindFirst(s, sep, 0, j);
        }
      }
    }
  }

  /** Splitting gives a single piece exactly when the separator does not
      occur. */
  lemma SplitSingle(s: string, sep: string)
    requires sep != []
    ensures |Split(s, sep)| == 1 <==> Free(s, sep)
  {
    var i := Find(s, sep, 0);
    if i < |s| {
      assert OccursAt(s, sep, i);
      assert Split(s, sep) == [s[..i]] + Split(s[i + |sep|..], sep);
    } else {
      assert Split(s, sep) == [s];
      forall j: nat ensures !OccursAt(s, sep, j) {
        FindFirst(s, sep, 0, j);
      }
    }
  }

  /** The split cuts at the leftmost occurrence of the separator: when
      there are several pieces, the first one runs up to the first place
      where `sep` occurs, and the remaining pieces join back to what
      follows that occurrence. This fixes the pieces even when `sep` can
      overlap itself. */
  lemma SplitLeftmost(s: string, sep: string)
    requires sep != []
    ensures |Split(s, sep)| > 1 <==> Find(s, sep, 0) < |s|
    ensures |Split(s, sep)| > 1 ==>
              var i := Find(s, sep, 0);
              OccursAt(s, sep, i) &&
              (forall j: nat | j < i :: !OccursAt(s, sep, j)) &&
              Split(s, sep)[0] == s[..i] &&
              Join(Split(s, sep)[1..], sep) == s[i + |sep|..]
  {
    var i := Find(s, sep, 0);
    if i < |s| {
      var rest := s[i + |sep|..];
      assert Split(s, sep) == [s[..i]] + Split(rest, sep);
      assert Split(s, sep)[1..] == Split(rest, sep);
      JoinSplit(rest, sep);
      forall j: nat | j < i ensures !OccursAt(s, sep, j) {
        FindFirst(s, sep, 0, j);
      }
    }
  }

  predicate StartsWith(s: string, prefix: string)
  {
    |prefix| <= |s| && s[..|prefix|] == prefix
  }

  predicate EndsWith(s: string, c: char)
  {
    s != [] && s[|s| - 1] == c
  }

  predicate IsUpperLetter(c: char) { 'A' <= c <= 'Z' }

  predicate IsLowerLetter(c: char) { 'a' <= c <= 'z' }

  /** Some character of `s` is an upper-case letter. */
  predicate HasUpper(s: string)
  {
    s != [] && (IsUpperLetter(s[0]) || HasUpper(s[1..]))
  }

  /** No character of `s` is a lower-case letter. */
  predicate NoLower(s: string)
  {
    s == [] || (!IsLowerLetter(s[0]) && NoLower(s[1..]))
  }

  /** Python's `s.isupper()` over ASCII letters: at least one cased
      character, and no lower-case one. */
  predicate IsUpper(s: string)
  {
    HasUpper(s) && NoLower(s)
  }

  /** `IsUpper` against its description: some upper-case letter and no
      lower-case letter anywhere. */
  lemma {:induction false} IsUpperMeans(s: string)
    ensures HasUpper(s) <==> exists i | 0 <= i < |s| :: IsUpperLetter(s[i])
    ensures NoLower(s) <==> forall i | 0 <= i < |s| :: !IsLowerLetter(s[i])
  {
    if s != [] {
      IsUpperMeans(s[1..]);
      assert forall i | 1 <= i < |s| :: s[i] == s[1..][i - 1];
      if HasUpper(s[1..]) {
        var j :| 0 <= j < |s| - 1 && IsUpperLetter(s[1..][j]);
        assert IsUpperLetter(s[j + 1]);
      }
    }
  }

  function DigitChar(d: nat): (c: char)
    requires d < 10
    ensures '0' <= c <= '9'
  {
    "0123456789"[d]
  }

  /** Python's `str(n)` for a non-negative integer: its decimal digits,
      without leading zeros. */
  function NatToString(n: nat): (r: string)
    ensures r != []
    ensures forall i | 0 <= i < |r| :: '0' <= r[i] <= '9'
    ensures |r| > 1 ==> r[0] != '0'
  {
    if n < 10 then [DigitChar(n)] else NatToString(n / 10) + [DigitChar(n % 10)]
  }

  /** The value of a string of decimal digits. */
  function DecimalValue(s: string): nat
    requires forall i | 0 <= i < |s| :: '0' <= s[i] <= '9'
  {
    if s == [] then 0 else DecimalValue(s[..|s| - 1]) * 10 + (s[|s| - 1] - '0') as nat
  }

  /** Round trip: the decimal rendering reads back as the same number. */
  lemma {:induction false} NatToStringValue(n: nat)
    ensures DecimalValue(NatToString(n)) == n
  {
    var r := NatToString(n);
    if n < 10 {
      assert r[..0] == [];
    } else {
      NatToStringValue(n / 10);
      assert r[..|r| - 1] == NatToString(n / 10);
    }
  }
}
