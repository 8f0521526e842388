/**
 Plain string helpers the exporter takes from Go's `strings`, `fmt` and
 `encoding/hex` packages, plus reads of string maps: substring search,
 splitting on one separator character, lower-case hexadecimal and decimal
 rendering of numbers.
 Strings are sequences of characters; no encoding is modelled.
 */
module Text {

  /** True when `needle` occurs in `s` starting at index `i`. */
  predicate OccursAt(s: string, needle: string, i: nat)
  {
    i + |needle| <= |s| && s[i..i + |needle|] == needle
  }

  /** Go's `strings.Contains`: does `needle` occur anywhere in `s`?
      The empty needle occurs in every string. */
  function Contains(s: string, needle: string): (b: bool)
    ensures b <==> exists i: nat :: OccursAt(s, needle, i)
    decreases |s|
  {
    if |needle| > |s| then
      assert forall i: nat :: !OccursAt(s, needle, i);
      false
    else if s[..|needle|] == needle then
      assert OccursAt(s, needle, 0);
      true
    else
      var rest := Contains(s[1..], needle);
      assert forall i: nat :: OccursAt(s[1..], needle, i) <==> OccursAt(s, needle, i + 1) by {
        forall i: nat ensures OccursAt(s[1..], needle, i) <==> OccursAt(s, needle, i + 1) {
          if i + |needle| <= |s[1..]| {
            assert s[1..][i..i + |needle|] == s[i + 1..i + 1 + |needle|];
          }
        }
      }
      assert !OccursAt(s, needle, 0);
      assert forall i: nat :: OccursAt(s, needle, i) ==> i > 0 && OccursAt(s[1..], needle, i - 1);
      rest
  }

  /** Containment is transitive: a string holding `b` holds everything
      `b` holds. */
  lemma ContainsTransitive(a: string, b: string, c: string)
    requires Contains(a, b) && Contains(b, c)
    ensures Contains(a, c)
  {
    var i: nat :| OccursAt(a, b, i);
    var j: nat :| OccursAt(b, c, j);
    assert a[i..i + |b|] == b;
    assert b[j..j + |c|] == c;
    forall k | 0 <= k < |c| ensures a[i + j + k] == c[k] {
      assert c[k] == b[j + k] == a[i..i + |b|][j + k];
    }
    assert a[i + j..i + j + |c|] == c;
    assert OccursAt(a, c, i + j);
  }

  /** A string contains each of its prefixes. */
  lemma ContainsPrefix(s: string, t: string)
    ensures Contains(s + t, s)
  {
    assert (s + t)[0..|s|] == s;
    assert OccursAt(s + t, s, 0);
  }

  /** A read of a Go map of strings (a digest field, a header): a missing
      key reads as the empty string. */
  function Field(d: map<string, string>, key: string): (v: string)
    ensures key in d ==> v == d[key]
    ensures key !in d ==> v == ""
  {
    if key in d then d[key] else ""
  }

  /** Position of the first `c` in `s`. */
  function IndexOf(s: string, c: char): (i: nat)
    requires c in s
    ensures i < |s| && s[i] == c && c !in s[..i]
  {
    if s[0] == c then 0
    else
      var j := IndexOf(s[1..], c);
      assert s[..j + 1] == [s[0]] + s[1..][..j];
      j + 1
  }

  /** `parts` glued back together with `sep` between neighbours
      (Go's `strings.Join` with a one-character separator). */
  function Join(parts: seq<string>, sep: char): string
  {
    if |parts| == 0 then ""
    else if |parts| == 1 then parts[0]
    else parts[0] + [sep] + Join(parts[1..], sep)
  }

  /** The first separator of `a + sep + b` is the one after `a` when `a`
      holds none. */
  lemma IndexOfAfter(a: string, sep: char, b: string)
    requires sep !in a
    ensures IndexOf(a + [sep] + b, sep) == |a|
  {
    var s := a + [sep] + b;
    assert s[|a|] == sep && s[..|a|] == a;
  }

  /** Go's `strings.Split(s, sep)` for a one-character separator: the text
      before the first separator, then the pieces of the text after it; a
      string without the separator is a single piece. A string with k
      separators yields k + 1 pieces, so the empty string yields one empty
      piece. */
  function Split(s: string, sep: char): (parts: seq<string>)
    ensures |parts| >= 1
    ensures |parts| >= 2 <==> sep in s
    ensures forall i :: 0 <= i < |parts| ==> sep !in parts[i]
    decreases |s|
  {
    if sep in s then
      var i := IndexOf(s, sep);
      [s[..i]] + Split(s[i + 1..], sep)
    else [s]
  }

  /** Round trip: joining the pieces with the separator gives back the
      string. */
  lemma {:induction false} JoinSplit(s: string, sep: char)
    ensures Join(Split(s, sep), sep) == s
    decreases |s|
  {
    if sep in s {
      var i := IndexOf(s, sep);
      var rest := Split(s[i + 1..], sep);
      JoinSplit(s[i + 1..], sep);
      var parts := [s[..i]] + rest;
      assert parts[1..] == rest;
      assert s == s[..i] + [sep] + s[i + 1..];
    }
  }

  /** A string without the separator is its own single piece. */
  lemma SplitWithoutSeparator(s: string, sep: char)
    requires sep !in s
    ensures Split(s, sep) == [s]
  {
  }

  /** Round trip the other way: pieces without the separator come back
      unchanged from splitting their join. */
  lemma {:induction false} SplitJoin(parts: seq<string>, sep: char)
    requires |parts| >= 1
    requires forall i :: 0 <= i < |parts| ==> sep !in parts[i]
    ensures Split(Join(parts, sep), sep) == parts
    decreases |parts|
  {
    if |parts| > 1 {
      var first, tail := parts[0], Join(parts[1..], sep);
      var s := first + [sep] + tail;
      assert Join(parts, sep) == s;
      IndexOfAfter(first, sep, tail);
      assert s[..|first|] == first && s[|first| + 1..] == tail;
      assert Split(s, sep) == [first] + Split(tail, sep);
      SplitJoin(parts[1..], sep);
      assert parts == [first] + parts[1..];
    } else {
      SplitWithoutSeparator(parts[0], sep);
    }
  }

  /** The first piece of a split is the text up to the first separator,
      or the whole string when there is none. */
  lemma FirstPieceLocated(s: string, sep: char)
    ensures var v := Split(s, sep)[0];
            |v| <= |s| && s[..|v|] == v && (|v| == |s| || s[|v|] == sep)
  {
    if sep in s {
      assert Split(s, sep)[0] == s[..IndexOf(s, sep)];
    } else {
      assert Split(s, sep)[0] == s;
    }
  }

  /** The second piece of a split, located in the string: it starts just
      after the first separator and runs to the next separator or to the
      end of the string. */
  lemma SecondPieceLocated(s: string, sep: char)
    requires sep in s
    ensures var i := IndexOf(s, sep); var v := Split(s, sep)[1];
            i + 1 + |v| <= |s| && s[i + 1..i + 1 + |v|] == v &&
            (i + 1 + |v| == |s| || s[i + 1 + |v|] == sep)
  {
    var i := IndexOf(s, sep);
    var t := s[i + 1..];
    assert Split(s, sep)[1] == Split(t, sep)[0];
    FirstPieceLocated(t, sep);
    PrefixOfSuffix(s, i + 1, Split(t, sep)[0], sep);
  }

  /** A prefix of the suffix `s[k..]`, ended by `sep` or by the end of
      that suffix, is located at `k` in `s`. */
  lemma PrefixOfSuffix(s: string, k: nat, v: string, sep: char)
    requires k <= |s|
    requires |v| <= |s[k..]| && s[k..][..|v|] == v
    requires |v| == |s[k..]| || s[k..][|v|] == sep
    ensures k + |v| <= |s| && s[k..k + |v|] == v
    ensures k + |v| == |s| || s[k + |v|] == sep
  {
    assert s[k..][..|v|] == s[k..k + |v|];
  }

  // ---------------------------------------------------------------------
  // Bytes and lower-case hexadecimal (Go's `%x` verb on a byte slice)
  // ---------------------------------------------------------------------

  type Byte = x: int | 0 <= x < 256

  predicate IsHexDigit(c: char)
  {
    ('0' <= c <= '9') || ('a' <= c <= 'f')
  }

  /** The lower-case hexadecimal digit for `d`: 0-9 then a-f. */
  function HexDigit(d: nat): (c: char)
    requires d < 16
    ensures IsHexDigit(c)
  {
    if d < 10 then ('0' as int + d) as char else ('a' as int + d - 10) as char
  }

  /** Value of one lower-case hexadecimal digit. */
  function HexValue(c: char): (v: nat)
    requires IsHexDigit(c)
    ensures v < 16 && HexDigit(v) == c
  {
    if '0' <= c <= '9' then c as int - '0' as int else c as int - 'a' as int + 10
  }

  /** Two lower-case hexadecimal digits per byte, high nibble first. */
  function HexEncode(bytes: seq<Byte>): (h: string)
    ensures |h| == 2 * |bytes|
    ensures forall i :: 0 <= i < |h| ==> IsHexDigit(h[i])
  {
    if |bytes| == 0 then ""
    else [HexDigit(bytes[0] / 16), HexDigit(bytes[0] % 16)] + HexEncode(bytes[1..])
  }

  /** Inverse of `HexEncode` on well-formed input. */
  function HexDecode(h: string): seq<Byte>
    requires |h| % 2 == 0
    requires forall i :: 0 <= i < |h| ==> IsHexDigit(h[i])
  {
    if |h| == 0 then []
    else [HexValue(h[0]) * 16 + HexValue(h[1])] + HexDecode(h[2..])
  }

  lemma {:induction false} HexRoundTrip(bytes: seq<Byte>)
    ensures HexDecode(HexEncode(bytes)) == bytes
  {
    if |bytes| > 0 {
      var b := bytes[0];
      var h := HexEncode(bytes);
      assert h[2..] == HexEncode(bytes[1..]);
      assert HexValue(h[0]) == b / 16 && HexValue(h[1]) == b % 16;
      HexRoundTrip(bytes[1..]);
      assert bytes == [b] + bytes[1..];
    }
  }

  // ---------------------------------------------------------------------
  // Decimal numbers (Go's `%d` verb and the digit strings the device sends)
  // ---------------------------------------------------------------------

  predicate IsDigit(c: char)
  {
    '0' <= c <= '9'
  }

  predicate IsDigits(s: string)
  {
    forall i :: 0 <= i < |s| ==> IsDigit(s[i])
  }

  function DigitChar(d: nat): (c: char)
    requires d < 10
    ensures IsDigit(c)
  {
    ('0' as int + d) as char
  }

  /** The number written by a string of decimal digits. */
  function DigitsValue(s: string): nat
    requires IsDigits(s)
  {
    if |s| == 0 then 0
    else DigitsValue(s[..|s| - 1]) * 10 + (s[|s| - 1] as int - '0' as int)
  }

  /** Shortest decimal rendering of `n`, as Go's `%d` prints it. */
  function DecimalString(n: nat): (s: string)
    ensures |s| >= 1 && IsDigits(s)
  {
    if n < 10 then [DigitChar(n)] else DecimalString(n / 10) + [DigitChar(n % 10)]
  }

  lemma {:induction false} DecimalRoundTrip(n: nat)
    ensures DigitsValue(DecimalString(n)) == n
  {
    if n >= 10 {
      var s := DecimalString(n);
      assert s[..|s| - 1] == DecimalString(n / 10);
      DecimalRoundTrip(n / 10);
    }
  }
}
