/**
  The few java.lang.String operations the gazetteer loader relies on (`trim`,
  `split("\\s")` and decimal numerals), and an `indexOf` used to read the
  point text back, written over `seq<char>`.
 */
module JavaText {
  import opened Options

  /** `String.trim` removes every leading and trailing character at or below U+0020. */
  predicate IsTrimmable(c: char) {
    c <= ' '
  }

  /** How many characters `trim` drops from the front of `s`. */
  function LeadingTrimmed(s: string): (n: nat)
    ensures n <= |s|
    ensures forall i :: 0 <= i < n ==> IsTrimmable(s[i])
    ensures n < |s| ==> !IsTrimmable(s[n])
  {
    if s != [] && IsTrimmable(s[0]) then 1 + LeadingTrimmed(s[1..]) else 0
  }

  function TrimStart(s: string): (r: string)
    ensures |s| - |r| == LeadingTrimmed(s) && r == s[LeadingTrimmed(s)..]
    ensures r != [] ==> !IsTrimmable(r[0])
  {
    if s != [] && IsTrimmable(s[0]) then TrimStart(s[1..]) else s
  }

  function TrimEnd(s: string): (r: string)
    ensures |r| <= |s| && r == s[..|r|]
    ensures r != [] ==> !IsTrimmable(r[|r| - 1])
    ensures forall i :: |r| <= i < |s| ==> IsTrimmable(s[i])
  {
    if s != [] && IsTrimmable(s[|s| - 1]) then TrimEnd(s[..|s| - 1]) else s
  }

  /**
    `String.trim`: the result is the part of `s` left after dropping every
    leading and every trailing character at or below U+0020; it neither
    starts nor ends with such a character, and a string that already does
    not is returned as it is.
   */
  function Trim(s: string): (r: string)
    ensures LeadingTrimmed(s) + |r| <= |s| && r == s[LeadingTrimmed(s)..LeadingTrimmed(s) + |r|]
    ensures forall i :: LeadingTrimmed(s) + |r| <= i < |s| ==> IsTrimmable(s[i])
    ensures r != [] ==> !IsTrimmable(r[0]) && !IsTrimmable(r[|r| - 1])
    ensures s != [] && !IsTrimmable(s[0]) && !IsTrimmable(s[|s| - 1]) ==> r == s
  {
    var t := TrimStart(s);
    var r := TrimEnd(t);
    var n := LeadingTrimmed(s);
    assert forall i :: n + |r| <= i < |s| ==> s[i] == t[i - n];
    r
  }

  /** The character class `\s` of java.util.regex: space, tab, line feed, vertical tab, form feed, carriage return. */
  predicate IsRegexSpace(c: char) {
    c == ' ' || '\t' <= c <= '\r'
  }

  predicate NoSpace(t: string) {
    forall i :: 0 <= i < |t| ==> !IsRegexSpace(t[i])
  }

  /** The `\s` characters of `s`, in order. */
  function Separators(s: string): string
  {
    if s == [] then [] else (if IsRegexSpace(s[0]) then [s[0]] else []) + Separators(s[1..])
  }

  /** The pieces joined back together, the i-th separator between piece i and piece i + 1. */
  function Interleave(pieces: seq<string>, separators: string): string
    requires |pieces| == |separators| + 1
    decreases |separators|
  {
    if separators == [] then pieces[0]
    else pieces[0] + [separators[0]] + Interleave(pieces[1..], separators[1..])
  }

  /**
    The pieces of `s` between single `\s` characters, empty pieces included:
    one more piece than separators, none holding a separator, and joined back
    with the separators they give `s` again.
   */
  function SplitOnSpaces(s: string): (r: seq<string>)
    ensures |r| == |Separators(s)| + 1
    ensures forall k :: 0 <= k < |r| ==> NoSpace(r[k])
    ensures Interleave(r, Separators(s)) == s
  {
    if s == [] then [""]
    else
      var rest := SplitOnSpaces(s[1..]);
      assert [s[0]] + s[1..] == s;
      if IsRegexSpace(s[0]) then
        var r := [""] + rest;
        assert r[1..] == rest;
        r
      else
        assert Separators(s) == Separators(s[1..]);
        InterleaveGlue(s[0], rest, Separators(s[1..]));
        [[s[0]] + rest[0]] + rest[1..]
  }

  /** Gluing a character to the front of the first piece puts it in front of the joined text. */
  lemma InterleaveGlue(c: char, pieces: seq<string>, separators: string)
    requires |pieces| == |separators| + 1
    ensures Interleave([[c] + pieces[0]] + pieces[1..], separators) == [c] + Interleave(pieces, separators)
  {
    var r := [[c] + pieces[0]] + pieces[1..];
    assert r[1..] == pieces[1..];
    if separators != [] {
      assert Interleave(r, separators) == r[0] + [separators[0]] + Interleave(pieces[1..], separators[1..]);
    }
  }

  /** The pieces with their trailing empty ones removed. */
  function DropTrailingEmpty(pieces: seq<string>): (r: seq<string>)
    ensures |r| <= |pieces| && r == pieces[..|r|]
    ensures r != [] ==> r[|r| - 1] != ""
    ensures forall k :: |r| <= k < |pieces| ==> pieces[k] == ""
  {
    if pieces != [] && pieces[|pieces| - 1] == "" then DropTrailingEmpty(pieces[..|pieces| - 1]) else pieces
  }

  /**
    `String.split("\\s")`: a string without separator comes back whole;
    otherwise the pieces between separators, with the trailing empty ones
    removed.
   */
  function JavaSplit(s: string): (r: seq<string>)
    ensures forall k :: 0 <= k < |r| ==> NoSpace(r[k])
    ensures NoSpace(s) ==> r == [s]
    ensures !NoSpace(s) ==>
      && |r| <= |SplitOnSpaces(s)| && r == SplitOnSpaces(s)[..|r|]
      && (forall k :: |r| <= k < |SplitOnSpaces(s)| ==> SplitOnSpaces(s)[k] == "")
      && (r != [] ==> r[|r| - 1] != "")
  {
    if NoSpace(s) then [s]
    else
      var pieces := SplitOnSpaces(s);
      var r := DropTrailingEmpty(pieces);
      assert forall k :: 0 <= k < |r| ==> r[k] == pieces[k];
      r
  }

  lemma {:induction false} SplitWithoutSpace(a: string)
    requires NoSpace(a)
    ensures SplitOnSpaces(a) == [a]
  {
    if a != [] {
      SplitWithoutSpace(a[1..]);
      assert [a[0]] + a[1..] == a;
    }
  }

  lemma {:induction false} SplitAfterWord(a: string, c: char, b: string)
    requires NoSpace(a) && IsRegexSpace(c)
    ensures SplitOnSpaces(a + [c] + b) == [a] + SplitOnSpaces(b)
  {
    var s := a + [c] + b;
    if a == [] {
      assert s[1..] == b;
    } else {
      assert s[1..] == a[1..] + [c] + b;
      SplitAfterWord(a[1..], c, b);
      assert [a[0]] + a[1..] == a;
    }
  }

  /** Two words separated by one `\s` character split into exactly those two words. */
  lemma SplitTwoWords(a: string, c: char, b: string)
    requires NoSpace(a) && NoSpace(b) && b != "" && IsRegexSpace(c)
    ensures JavaSplit(a + [c] + b) == [a, b]
  {
    var s := a + [c] + b;
    assert s[|a|] == c;
    SplitAfterWord(a, c, b);
    SplitWithoutSpace(b);
    assert SplitOnSpaces(s) == [a, b];
  }

  /** A word followed by nothing or by a separator is the first piece. */
  lemma {:induction false} SplitFirstWord(b: string, tail: string)
    requires NoSpace(b) && (tail == [] || IsRegexSpace(tail[0]))
    ensures SplitOnSpaces(b + tail)[0] == b
  {
    if b != [] {
      assert (b + tail)[1..] == b[1..] + tail;
      SplitFirstWord(b[1..], tail);
      assert [b[0]] + b[1..] == b;
    }
  }

  /**
    Two words separated by one `\s` character and followed by nothing or by
    further separated text are the first two pieces of `split`.
   */
  lemma SplitLeadingWords(a: string, c: char, b: string, tail: string)
    requires NoSpace(a) && NoSpace(b) && b != "" && IsRegexSpace(c)
    requires tail == [] || IsRegexSpace(tail[0])
    ensures |JavaSplit(a + [c] + b + tail)| >= 2
    ensures JavaSplit(a + [c] + b + tail)[0] == a && JavaSplit(a + [c] + b + tail)[1] == b
  {
    var s := a + [c] + b + tail;
    assert s == a + [c] + (b + tail);
    assert s[|a|] == c;
    SplitAfterWord(a, c, b + tail);
    SplitFirstWord(b, tail);
    var pieces := SplitOnSpaces(s);
    assert pieces[0] == a && pieces[1] == b;
  }

  predicate IsDigit(c: char) {
    '0' <= c <= '9'
  }

  predicate AllDigits(s: string) {
    forall i :: 0 <= i < |s| ==> IsDigit(s[i])
  }

  function DigitValue(c: char): (d: nat)
    requires IsDigit(c)
    ensures d < 10
  {
    c as int - '0' as int
  }

  function DigitChar(d: nat): (c: char)
    requires d < 10
    ensures IsDigit(c) && DigitValue(c) == d
  {
    ('0' as int + d) as char
  }

  function Pow10(k: nat): (p: nat)
    ensures p >= 1
  {
    if k == 0 then 1 else 10 * Pow10(k - 1)
  }

  /** The value of a decimal numeral, most significant digit first. */
  function DigitsValue(s: string): (n: nat)
    requires AllDigits(s)
    ensures n < Pow10(|s|)
  {
    if s == [] then 0 else DigitsValue(s[..|s| - 1]) * 10 + DigitValue(s[|s| - 1])
  }

  /** Reading of an unsigned decimal numeral; None for the empty string or one holding a non-digit. */
  function ParseUnsigned(s: string): Option<nat>
  {
    if s != [] && AllDigits(s) then Some(DigitsValue(s)) else None
  }

  lemma {:induction false} DigitsValueAppend(s: string, c: char)
    requires AllDigits(s) && IsDigit(c)
    ensures AllDigits(s + [c]) && DigitsValue(s + [c]) == DigitsValue(s) * 10 + DigitValue(c)
  {
    assert (s + [c])[..|s|] == s;
  }

  /** The numeral of `n` without leading zeros, as `Long.toString` writes it. */
  function NatToString(n: nat): (r: string)
    ensures r != [] && AllDigits(r) && DigitsValue(r) == n
    ensures r[0] == '0' ==> r == "0"
  {
    if n < 10 then
      DigitsValueAppend([], DigitChar(n));
      [DigitChar(n)]
    else
      var prefix := NatToString(n / 10);
      DigitsValueAppend(prefix, DigitChar(n % 10));
      prefix + [DigitChar(n % 10)]
  }

  /** The numeral of `n` zero-padded to exactly `width` digits. */
  function Padded(n: nat, width: nat): (r: string)
    requires n < Pow10(width)
    ensures |r| == width && AllDigits(r) && DigitsValue(r) == n
  {
    if width == 0 then ""
    else
      assert n / 10 < Pow10(width - 1);
      var prefix := Padded(n / 10, width - 1);
      DigitsValueAppend(prefix, DigitChar(n % 10));
      prefix + [DigitChar(n % 10)]
  }

  /** `String.indexOf(c)`, with None for -1. */
  function IndexOf(s: string, c: char): (r: Option<nat>)
    ensures r.Some? ==> r.value < |s| && s[r.value] == c && c !in s[..r.value]
    ensures r.None? ==> c !in s
  {
    if s == [] then None
    else if s[0] == c then Some(0)
    else match IndexOf(s[1..], c)
      case None => None
      case Some(k) =>
        assert s[..k + 1] == [s[0]] + s[1..][..k];
        Some(k + 1)
  }

  lemma IndexOfAfterWord(a: string, c: char, b: string)
    requires c !in a
    ensures IndexOf(a + [c] + b, c) == Some(|a|)
  {
    var s := a + [c] + b;
    assert s[|a|] == c;
    assert forall j :: 0 <= j < |a| ==> s[j] == a[j];
  }
}
