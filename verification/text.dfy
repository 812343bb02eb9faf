/** The parts of Python's `str` that the task code relies on: `isspace`,
    `strip`, `lower` (ASCII letters only), the `in` operator, `replace`, and
    decimal digits. */
module Text {

  /** Python's `str.isspace` for a single character: the controls \t..\r and
      \x1c..\x1f, the space, and the Unicode separators. */
  predicate IsSpace(c: char) {
    c == ' ' || '\U{9}' <= c <= '\U{D}' || '\U{1C}' <= c <= '\U{1F}'
    || c == '\U{85}' || c == '\U{A0}' || c == '\U{1680}' || '\U{2000}' <= c <= '\U{200A}'
    || c == '\U{2028}' || c == '\U{2029}' || c == '\U{202F}' || c == '\U{205F}' || c == '\U{3000}'
  }

  /** Every character is white space (so `s.strip()` is empty). */
  predicate Blank(s: string) {
    forall i :: 0 <= i < |s| ==> IsSpace(s[i])
  }

  /** Neither end is white space. */
  predicate Trimmed(s: string) {
    s == "" || (!IsSpace(s[0]) && !IsSpace(s[|s| - 1]))
  }

  /** The index of the first character at or after `from` that is not
      white space, or the length when there is none. */
  function SkipSpaces(s: string, from: nat): (i: nat)
    requires from <= |s|
    ensures from <= i <= |s|
    ensures forall j :: from <= j < i ==> IsSpace(s[j])
    ensures i < |s| ==> !IsSpace(s[i])
    decreases |s| - from
  {
    if from < |s| && IsSpace(s[from]) then SkipSpaces(s, from + 1) else from
  }

  /** The index just after the last character before `hi` that is not
      white space, or 0 when there is none. */
  function SkipSpacesBack(s: string, hi: nat): (i: nat)
    requires hi <= |s|
    ensures i <= hi
    ensures forall j :: i <= j < hi ==> IsSpace(s[j])
    ensures 0 < i ==> !IsSpace(s[i - 1])
    decreases hi
  {
    if 0 < hi && IsSpace(s[hi - 1]) then SkipSpacesBack(s, hi - 1) else hi
  }

  /** Python's `s.strip()`: the result is the part of `s` between a blank
      prefix and a blank suffix, and has no white space at either end; the
      interior is kept as it is. */
  function Strip(s: string): (r: string)
    ensures Trimmed(r)
    ensures r == "" <==> Blank(s)
    ensures exists i :: 0 <= i <= |s| - |r| && r == s[i..i + |r|] && Blank(s[..i]) && Blank(s[i + |r|..])
  {
    var i := SkipSpaces(s, 0);
    if i == |s| then
      assert s[..0] == "" && s[0..] == s;
      ""
    else
      var j := SkipSpacesBack(s, |s|);
      assert i < j;
      assert Blank(s[..i]);
      assert Blank(s[j..]);
      s[i..j]
  }

  lemma StripTrimmed(s: string)
    requires Trimmed(s)
    ensures Strip(s) == s
  {
    if s != "" {
      assert SkipSpaces(s, 0) == 0;
      assert SkipSpacesBack(s, |s|) == |s|;
      assert s[0..|s|] == s;
    }
  }

  /** Stripping twice is stripping once. */
  lemma StripIdempotent(s: string)
    ensures Strip(Strip(s)) == Strip(s)
  {
    StripTrimmed(Strip(s));
  }

  /** White space holds no visible character. */
  lemma BlankHasNo(s: string, c: char)
    requires Blank(s) && !IsSpace(c)
    ensures c !in s
  {
  }

  /** A character that is not white space occurs in `s.strip()` exactly
      when it occurs in `s`. */
  lemma StripKeepsVisible(s: string, c: char)
    requires !IsSpace(c)
    ensures c in Strip(s) <==> c in s
  {
    var r := Strip(s);
    var i := SkipSpaces(s, 0);
    if i < |s| {
      var hi := SkipSpacesBack(s, |s|);
      assert i < hi;
      assert r == s[i..hi];
      if c in s {
        var j :| 0 <= j < |s| && s[j] == c;
        assert i <= j < hi;
        assert r[j - i] == c;
      }
    } else {
      assert r == "";
      assert forall j :: 0 <= j < |s| ==> s[j] != c;
    }
  }

  /** The null character, which Django's text fields refuse. */
  predicate HasNul(s: string) {
    '\U{0}' in s
  }

  /** Python's `str.lower` restricted to ASCII letters. */
  function LowerChar(c: char): char {
    if 'A' <= c <= 'Z' then (c as int + 32) as char else c
  }

  predicate IsUpper(c: char) {
    'A' <= c <= 'Z'
  }

  function Lower(s: string): string {
    seq(|s|, i requires 0 <= i < |s| => LowerChar(s[i]))
  }

  /** No ASCII capital letter occurs. */
  predicate NoUpper(s: string) {
    forall i :: 0 <= i < |s| ==> !IsUpper(s[i])
  }

  /** `Lower` leaves no capital behind, keeps the length, and lower-cases
      each character in place. */
  lemma LowerFacts(s: string)
    ensures NoUpper(Lower(s)) && |Lower(s)| == |s|
    ensures Lower(Lower(s)) == Lower(s)
    ensures NoUpper(s) ==> Lower(s) == s
  {
  }

  predicate IsPrefix(k: string, s: string) {
    |k| <= |s| && s[..|k|] == k
  }

  /** `k` occurs in `s` starting at index `i`. */
  predicate OccursAt(s: string, k: string, i: nat) {
    i + |k| <= |s| && s[i..i + |k|] == k
  }

  /** Python's `k in s`, by scanning from the left. */
  predicate Contains(s: string, k: string)
    decreases |s|
  {
    IsPrefix(k, s) || (s != "" && Contains(s[1..], k))
  }

  /** The scan finds `k` exactly when `k` occurs at some index. */
  lemma {:induction false} ContainsOccurs(s: string, k: string)
    ensures Contains(s, k) <==> exists i: nat :: OccursAt(s, k, i)
    decreases |s|
  {
    if IsPrefix(k, s) {
      assert OccursAt(s, k, 0);
    } else if s == "" {
      assert forall i: nat :: !OccursAt(s, k, i);
    } else {
      ContainsOccurs(s[1..], k);
      if Contains(s[1..], k) {
        var i: nat :| OccursAt(s[1..], k, i);
        assert s[1..][i..i + |k|] == s[i + 1..i + 1 + |k|];
        assert OccursAt(s, k, i + 1);
      } else {
        assert OccursAt(s, k, 0) == IsPrefix(k, s);
        forall i: nat | 0 < i
          ensures OccursAt(s, k, i) == OccursAt(s[1..], k, i - 1)
        {
          if i + |k| <= |s| {
            assert s[1..][i - 1..i - 1 + |k|] == s[i..i + |k|];
          }
        }
      }
    }
  }

  /** A keyword found in a slice of `s` is found in `s`. */
  lemma ContainsInfix(s: string, i: nat, j: nat, k: string)
    requires i <= j <= |s|
    ensures Contains(s[i..j], k) ==> Contains(s, k)
  {
    var r := s[i..j];
    ContainsOccurs(r, k);
    ContainsOccurs(s, k);
    if Contains(r, k) {
      var p: nat :| OccursAt(r, k, p);
      forall x | 0 <= x < |k|
        ensures s[i + p + x] == k[x]
      {
        assert r[p + x] == k[x];
      }
      assert OccursAt(s, k, i + p);
    }
  }

  /** Text shorter than the keyword cannot hold it. */
  lemma {:induction false} ShorterThanKeyword(s: string, k: string)
    requires |s| < |k|
    ensures !Contains(s, k)
    decreases |s|
  {
    if s != "" {
      ShorterThanKeyword(s[1..], k);
    }
  }

  /** No occurrence of `k` starts before index `n` of `s`. */
  predicate NoStartBefore(s: string, k: string, n: nat) {
    n <= |s| && forall i :: 0 <= i < n ==> !IsPrefix(k, s[i..])
  }

  /** A lead in which no occurrence of the keyword starts passes `replace`
      unchanged. */
  lemma {:induction false} ReplaceAllSkip(a: string, s: string, k: string, r: string)
    requires k != "" && NoStartBefore(a + s, k, |a|)
    ensures ReplaceAll(a + s, k, r) == a + ReplaceAll(s, k, r)
    decreases |a|
  {
    var whole := a + s;
    if a != "" {
      assert whole[0..] == whole;
      assert whole[1..] == a[1..] + s;
      forall i | 0 <= i < |a| - 1
        ensures !IsPrefix(k, (a[1..] + s)[i..])
      {
        assert (a[1..] + s)[i..] == whole[i + 1..];
      }
      ReplaceAllSkip(a[1..], s, k, r);
      assert whole[0] == a[0];
      assert ReplaceAll(whole, k, r) == [a[0]] + ReplaceAll(a[1..] + s, k, r);
      assert [a[0]] + a[1..] == a;
    } else {
      assert whole == s;
    }
  }

  /** A lead holding no first character of the keyword starts no
      occurrence of it. */
  lemma NoCharStart(a: string, s: string, k: string)
    requires k != "" && forall i :: 0 <= i < |a| ==> a[i] != k[0]
    ensures NoStartBefore(a + s, k, |a|)
  {
    forall i | 0 <= i < |a|
      ensures !IsPrefix(k, (a + s)[i..])
    {
      assert (a + s)[i..][0] == a[i];
    }
  }

  /** A text without `k` followed by a space starts no occurrence of a
      keyword that holds no space, up to and including that space. */
  lemma SpaceBlocksKeyword(head: string, s: string, k: string)
    requires k != "" && !Contains(head, k) && s != "" && s[0] == ' '
    requires forall j :: 0 <= j < |k| ==> k[j] != ' '
    ensures NoStartBefore(head + s, k, |head| + 1)
  {
    var text := head + s;
    forall i | 0 <= i < |head| + 1
      ensures !IsPrefix(k, text[i..])
    {
      if i + |k| <= |head| {
        ContainsOccurs(head, k);
        assert !OccursAt(head, k, i);
        assert head[i..i + |k|] == text[i..i + |k|];
      } else {
        assert text[i..][|head| - i] == ' ';
      }
    }
  }

  /** A text without `k` followed by two spaces starts no occurrence, up
      to and including those spaces, of a keyword that neither starts nor
      ends with a space and holds no two spaces in a row. */
  lemma DoubleSpaceBlocksKeyword(head: string, s: string, k: string)
    requires k != "" && !Contains(head, k) && |s| >= 2 && s[0] == ' ' && s[1] == ' '
    requires k[0] != ' ' && k[|k| - 1] != ' '
    requires forall j :: 0 <= j < |k| - 1 ==> k[j] != ' ' || k[j + 1] != ' '
    ensures NoStartBefore(head + s, k, |head| + 2)
  {
    var text := head + s;
    forall i | 0 <= i < |head| + 2
      ensures !IsPrefix(k, text[i..])
    {
      if i + |k| <= |head| {
        ContainsOccurs(head, k);
        assert !OccursAt(head, k, i);
        assert head[i..i + |k|] == text[i..i + |k|];
      } else if i < |head| {
        var j := |head| - i;
        assert text[i..][j] == ' ';
        if j + 1 < |k| {
          assert text[i..][j + 1] == ' ';
        }
      } else {
        assert text[i..][0] == ' ';
      }
    }
  }

  /** A text none of whose characters starts the keyword does not hold
      it. */
  lemma {:induction false} NoCharNoContains(s: string, k: string)
    requires k != "" && forall i :: 0 <= i < |s| ==> s[i] != k[0]
    ensures !Contains(s, k)
    decreases |s|
  {
    if s != "" {
      if |k| <= |s| {
        assert s[..|k|][0] == s[0];
      }
      NoCharNoContains(s[1..], k);
    }
  }

  /** One occurrence, with no occurrence starting before it and nothing to
      replace after it, is replaced. */
  lemma ReplaceOne(a: string, k: string, b: string, r: string)
    requires k != "" && NoStartBefore(a + k + b, k, |a|)
    requires ReplaceAll(b, k, r) == b
    ensures ReplaceAll(a + k + b, k, r) == a + r + b
  {
    assert a + k + b == a + (k + b);
    ReplaceAllSkip(a, k + b, k, r);
    ReplaceAtStart(k, b, r);
    assert a + (r + b) == a + r + b;
  }

  lemma ReplaceAtStart(k: string, b: string, r: string)
    requires k != ""
    ensures ReplaceAll(k + b, k, r) == r + ReplaceAll(b, k, r)
  {
    assert (k + b)[..|k|] == k;
    assert (k + b)[|k|..] == b;
  }

  /** Stripping a trimmed text followed by white space gives the text. */
  lemma StripTrailing(t: string, w: string)
    requires t != "" && Trimmed(t) && Blank(w)
    ensures Strip(t + w) == t
  {
    var s := t + w;
    assert s[0] == t[0] && s[|t| - 1] == t[|t| - 1];
    assert forall j :: |t| <= j < |s| ==> s[j] == w[j - |t|];
    assert SkipSpaces(s, 0) == 0;
    assert SkipSpacesBack(s, |s|) == |t|;
    assert s[0..|t|] == t;
  }

  /** Stripping a trimmed text with white space on both sides gives the
      text. */
  lemma StripPadded(p: string, t: string, w: string)
    requires t != "" && Trimmed(t) && Blank(p) && Blank(w)
    ensures Strip(p + t + w) == t
  {
    var s := p + t + w;
    assert s[|p|] == t[0] && s[|p| + |t| - 1] == t[|t| - 1];
    assert forall j :: 0 <= j < |p| ==> s[j] == p[j];
    assert forall j :: |p| + |t| <= j < |s| ==> s[j] == w[j - |p| - |t|];
    assert SkipSpaces(s, 0) == |p|;
    assert SkipSpacesBack(s, |s|) == |p| + |t|;
    assert s[|p|..|p| + |t|] == t;
  }

  /** White space holds no keyword that starts with a visible character. */
  lemma BlankContainsNothing(s: string, k: string)
    requires Blank(s) && k != "" && !IsSpace(k[0])
    ensures !Contains(s, k)
  {
    forall i: nat | i + |k| <= |s|
      ensures !OccursAt(s, k, i)
    {
      assert s[i..i + |k|][0] == s[i];
    }
    ContainsOccurs(s, k);
  }

  /** Case-insensitive containment, as Django's `icontains` lookup does it
      for ASCII text. */
  predicate ContainsIgnoreCase(s: string, k: string) {
    Contains(Lower(s), Lower(k))
  }

  /** Removing a keyword neither adds nor drops a character that is not
      part of the keyword. */
  lemma {:induction false} RemovalKeepsChar(s: string, k: string, c: char)
    requires k != "" && c !in k
    ensures c in ReplaceAll(s, k, "") <==> c in s
    decreases |s|
  {
    if IsPrefix(k, s) {
      RemovalKeepsChar(s[|k|..], k, c);
      assert s == k + s[|k|..];
    } else if s != "" {
      RemovalKeepsChar(s[1..], k, c);
      assert s == [s[0]] + s[1..];
    }
  }

  /** Python's `s.replace(k, r)` for a non-empty `k`: a single left-to-right
      pass that replaces non-overlapping occurrences. */
  function ReplaceAll(s: string, k: string, r: string): string
    requires k != ""
    decreases |s|
  {
    if IsPrefix(k, s) then r + ReplaceAll(s[|k|..], k, r)
    else if s == "" then ""
    else [s[0]] + ReplaceAll(s[1..], k, r)
  }

  /** Python's `s.split(k)`: the pieces between the occurrences the same
      left-to-right pass finds. */
  function Split(s: string, k: string): (pieces: seq<string>)
    requires k != ""
    ensures |pieces| >= 1
    decreases |s|
  {
    if IsPrefix(k, s) then [""] + Split(s[|k|..], k)
    else if s == "" then [""]
    else
      var rest := Split(s[1..], k);
      [[s[0]] + rest[0]] + rest[1..]
  }

  /** Python's `sep.join(pieces)`. */
  function Join(pieces: seq<string>, sep: string): string
    requires |pieces| >= 1
  {
    if |pieces| == 1 then pieces[0] else pieces[0] + sep + Join(pieces[1..], sep)
  }

  lemma JoinConsChar(c: char, pieces: seq<string>, sep: string)
    requires |pieces| >= 1
    ensures Join([[c] + pieces[0]] + pieces[1..], sep) == [c] + Join(pieces, sep)
  {
    var p := [[c] + pieces[0]] + pieces[1..];
    if |pieces| > 1 {
      assert p[1..] == pieces[1..];
    }
  }

  lemma JoinConsEmpty(pieces: seq<string>, sep: string)
    requires |pieces| >= 1
    ensures Join([""] + pieces, sep) == sep + Join(pieces, sep)
  {
    assert ([""] + pieces)[1..] == pieces;
  }

  /** Splitting on `k` and joining back with `k` gives the original text. */
  lemma {:induction false} SplitJoin(s: string, k: string)
    requires k != ""
    ensures Join(Split(s, k), k) == s
    decreases |s|
  {
    if IsPrefix(k, s) {
      SplitJoin(s[|k|..], k);
      JoinConsEmpty(Split(s[|k|..], k), k);
      assert s == k + s[|k|..];
    } else if s != "" {
      SplitJoin(s[1..], k);
      JoinConsChar(s[0], Split(s[1..], k), k);
      assert s == [s[0]] + s[1..];
    }
  }

  /** Replacing is splitting and joining with the replacement. */
  lemma {:induction false} ReplaceAllIsSplitJoin(s: string, k: string, r: string)
    requires k != ""
    ensures ReplaceAll(s, k, r) == Join(Split(s, k), r)
    decreases |s|
  {
    if IsPrefix(k, s) {
      ReplaceAllIsSplitJoin(s[|k|..], k, r);
      JoinConsEmpty(Split(s[|k|..], k), r);
    } else if s != "" {
      ReplaceAllIsSplitJoin(s[1..], k, r);
      JoinConsChar(s[0], Split(s[1..], k), r);
    }
  }

  lemma {:induction false} FirstPieceIsPrefix(s: string, k: string)
    requires k != ""
    ensures Split(s, k)[0] <= s
    decreases |s|
  {
    if !IsPrefix(k, s) && s != "" {
      FirstPieceIsPrefix(s[1..], k);
      var p := Split(s[1..], k)[0];
      assert [s[0]] + p == s[..|p| + 1];
    }
  }

  /** No piece of the split contains the separator. */
  lemma {:induction false} SplitPiecesAvoid(s: string, k: string)
    requires k != ""
    ensures forall i :: 0 <= i < |Split(s, k)| ==> !Contains(Split(s, k)[i], k)
    decreases |s|
  {
    var pieces := Split(s, k);
    if IsPrefix(k, s) {
      SplitPiecesAvoid(s[|k|..], k);
      var rest := Split(s[|k|..], k);
      assert !Contains("", k);
      forall i | 0 < i < |pieces|
        ensures !Contains(pieces[i], k)
      {
        assert pieces[i] == rest[i - 1];
      }
    } else if s == "" {
      assert !Contains("", k);
    } else {
      SplitPiecesAvoid(s[1..], k);
      FirstPieceIsPrefix(s[1..], k);
      var rest := Split(s[1..], k);
      var first := [s[0]] + rest[0];
      assert first[1..] == rest[0];
      assert first == s[..|first|];
      PrefixExtends(k, first, s);
      forall i | 0 < i < |pieces|
        ensures !Contains(pieces[i], k)
      {
        assert pieces[i] == rest[i];
      }
    }
  }

  lemma PrefixExtends(k: string, a: string, s: string)
    requires |a| <= |s| && a == s[..|a|]
    ensures IsPrefix(k, a) ==> IsPrefix(k, s)
  {
    if IsPrefix(k, a) {
      assert s[..|k|] == a[..|k|];
    }
  }

  /** Text without the keyword passes `replace` unchanged. */
  lemma {:induction false} ReplaceAllAbsent(s: string, k: string, r: string)
    requires k != ""
    requires !Contains(s, k)
    ensures ReplaceAll(s, k, r) == s
    decreases |s|
  {
    if s != "" {
      ReplaceAllAbsent(s[1..], k, r);
    }
  }

  predicate IsDigit(c: char) {
    '0' <= c <= '9'
  }

  predicate IsDigits(s: string) {
    forall i :: 0 <= i < |s| ==> IsDigit(s[i])
  }

  function DigitChar(d: nat): char
    requires d < 10
  {
    ('0' as int + d) as char
  }

  function DigitValue(c: char): nat
    requires IsDigit(c)
  {
    c as int - '0' as int
  }

  /** Python's `str(n)` for a natural number. */
  function NatToDecimal(n: nat): (r: string)
    ensures r != "" && IsDigits(r)
  {
    if n < 10 then [DigitChar(n)] else NatToDecimal(n / 10) + [DigitChar(n % 10)]
  }

  /** The value of a string of decimal digits (leading zeros allowed). */
  function ParseDecimal(s: string): nat
    requires IsDigits(s)
  {
    if s == "" then 0 else ParseDecimal(s[..|s| - 1]) * 10 + DigitValue(s[|s| - 1])
  }

  /** Reading back the decimal rendering of `n` gives `n`. */
  lemma {:induction false} DecimalRoundTrip(n: nat)
    ensures ParseDecimal(NatToDecimal(n)) == n
  {
    if n >= 10 {
      DecimalRoundTrip(n / 10);
      var s := NatToDecimal(n);
      assert s[..|s| - 1] == NatToDecimal(n / 10);
    }
  }

  /** `n` below 10^w has at most `w` digits. */
  lemma {:induction false} DecimalWidth(n: nat, w: nat, bound: nat)
    requires w >= 1 && bound == Pow10(w) && n < bound
    ensures |NatToDecimal(n)| <= w
  {
    if n >= 10 {
      DecimalWidth(n / 10, w - 1, Pow10(w - 1));
    }
  }

  function Pow10(w: nat): nat {
    if w == 0 then 1 else 10 * Pow10(w - 1)
  }

  function Zeros(n: nat): (r: string)
    ensures |r| == n && IsDigits(r)
  {
    if n == 0 then "" else "0" + Zeros(n - 1)
  }

  /** Leading zeros do not change the value. */
  lemma {:induction false} LeadingZero(t: string)
    requires IsDigits(t)
    ensures ParseDecimal("0" + t) == ParseDecimal(t)
    decreases |t|
  {
    if t != "" {
      var u := "0" + t;
      assert u[..|u| - 1] == "0" + t[..|t| - 1];
      LeadingZero(t[..|t| - 1]);
    }
  }

  lemma {:induction false} LeadingZeros(n: nat, t: string)
    requires IsDigits(t)
    ensures IsDigits(Zeros(n) + t) && ParseDecimal(Zeros(n) + t) == ParseDecimal(t)
  {
    if n > 0 {
      var rest := Zeros(n - 1) + t;
      LeadingZeros(n - 1, t);
      assert Zeros(n) + t == "0" + rest;
      LeadingZero(rest);
      assert ParseDecimal("0" + rest) == ParseDecimal(t);
    } else {
      assert Zeros(n) + t == t;
    }
  }
}
