/** The .NET string and number formatting primitives the core relies on:
    `string.IsNullOrWhiteSpace`, `string.IsNullOrEmpty`, ordinal case-insensitive
    `Contains`, and the decimal text of integers and booleans. */
module Text {
  import opened Wrappers

  /** `char.IsWhiteSpace`: the Unicode space separators, line and paragraph
      separators, U+0009..U+000D and U+0085. */
  predicate IsWhiteSpace(c: char)
  {
    || c == ' ' || '\t' <= c <= '\r' || c == '\U{85}' || c == '\U{A0}' || c == '\U{1680}'
    || '\U{2000}' <= c <= '\U{200A}' || c == '\U{2028}' || c == '\U{2029}'
    || c == '\U{202F}' || c == '\U{205F}' || c == '\U{3000}'
  }

  /** Every character of `s` is white space. */
  function AllWhiteSpace(s: string): (r: bool)
    ensures r <==> forall i :: 0 <= i < |s| ==> IsWhiteSpace(s[i])
  {
    if s == [] then true else IsWhiteSpace(s[0]) && AllWhiteSpace(s[1..])
  }

  /** `string.IsNullOrWhiteSpace`; `None` is C#'s `null`. */
  predicate IsNullOrWhiteSpace(s: Option<string>)
  {
    s.None? || AllWhiteSpace(s.value)
  }

  /** `string.IsNullOrEmpty`. */
  predicate IsNullOrEmpty(s: Option<string>)
  {
    s.None? || s.value == ""
  }

  /** Ordinal case folding, restricted to ASCII letters: `a`..`z` map to
      `A`..`Z`, every other character to itself. */
  function ToUpper(c: char): char
  {
    if 'a' <= c <= 'z' then (c as int - 32) as char else c
  }

  function ToUpperAll(s: string): (r: string)
    ensures |r| == |s|
    ensures forall i :: 0 <= i < |s| ==> r[i] == ToUpper(s[i])
  {
    if s == [] then [] else [ToUpper(s[0])] + ToUpperAll(s[1..])
  }

  /** `needle` occurs in `hay` at position `i`. */
  predicate OccursAt(hay: string, needle: string, i: int)
  {
    0 <= i && i + |needle| <= |hay| && hay[i..i + |needle|] == needle
  }

  /** Ordinal `string.Contains`: `needle` occurs somewhere in `hay`. */
  function Contains(hay: string, needle: string): (r: bool)
    ensures r <==> exists i :: OccursAt(hay, needle, i)
  {
    if |hay| < |needle| then false
    else if hay[..|needle|] == needle then
      assert OccursAt(hay, needle, 0);
      true
    else
      var r := Contains(hay[1..], needle);
      assert forall i :: OccursAt(hay[1..], needle, i) <==> OccursAt(hay, needle, i + 1);
      assert forall i :: 0 < i && OccursAt(hay, needle, i) ==> OccursAt(hay[1..], needle, i - 1);
      r
  }

  /** `hay.Contains(needle, StringComparison.OrdinalIgnoreCase)`. */
  function ContainsIgnoreCase(hay: string, needle: string): bool
  {
    Contains(ToUpperAll(hay), ToUpperAll(needle))
  }

  /** `needle` occurs in `hay` at position `i` when each character is
      compared after case folding. */
  predicate OccursIgnoringCaseAt(hay: string, needle: string, i: int)
  {
    0 <= i && i + |needle| <= |hay| &&
    forall k :: 0 <= k < |needle| ==> ToUpper(hay[i + k]) == ToUpper(needle[k])
  }

  /** The case-insensitive test finds `needle` at some position, comparing
      each character after case folding. */
  lemma ContainsIgnoreCaseMeaning(hay: string, needle: string)
    ensures ContainsIgnoreCase(hay, needle) <==> exists i :: OccursIgnoringCaseAt(hay, needle, i)
  {
    var H, N := ToUpperAll(hay), ToUpperAll(needle);
    forall i | 0 <= i && i + |needle| <= |hay|
      ensures OccursAt(H, N, i) <==> OccursIgnoringCaseAt(hay, needle, i)
    {
      if OccursIgnoringCaseAt(hay, needle, i) {
        assert H[i..i + |N|] == N;
      }
      if OccursAt(H, N, i) {
        forall k | 0 <= k < |needle| ensures ToUpper(hay[i + k]) == ToUpper(needle[k]) {
          assert H[i..i + |N|][k] == N[k];
        }
      }
    }
    if ContainsIgnoreCase(hay, needle) {
      var i :| OccursAt(H, N, i);
      assert OccursIgnoringCaseAt(hay, needle, i);
    }
    if exists i :: OccursIgnoringCaseAt(hay, needle, i) {
      var i :| OccursIgnoringCaseAt(hay, needle, i);
      assert OccursAt(H, N, i);
    }
  }

  /** The decimal digit for `d`. */
  function DigitChar(d: nat): char
    requires d < 10
  {
    "0123456789"[d]
  }

  predicate IsDigit(c: char)
  {
    '0' <= c <= '9'
  }

  function DigitValue(c: char): nat
    requires IsDigit(c)
  {
    c as int - '0' as int
  }

  /** Decimal text of a natural number, without leading zeros. */
  function NatToString(n: nat): (r: string)
    ensures |r| > 0 && forall i :: 0 <= i < |r| ==> IsDigit(r[i])
  {
    if n < 10 then [DigitChar(n)] else NatToString(n / 10) + [DigitChar(n % 10)]
  }

  /** `int.ToString()`: decimal text with a leading `-` when negative. */
  function IntToString(n: int): (r: string)
    ensures |r| > 0
    ensures forall i :: 0 <= i < |r| ==> IsDigit(r[i]) || (i == 0 && r[i] == '-')
    ensures r[0] == '-' <==> n < 0
  {
    if n < 0 then "-" + NatToString(-n) else NatToString(n)
  }

  /** `bool.ToString()`, as string interpolation uses it. */
  function BoolToString(b: bool): string
  {
    if b then "True" else "False"
  }

  /** The value of a non-empty string of decimal digits. */
  function ParseNat(s: string): (r: Option<nat>)
    ensures r.Some? <==> |s| > 0 && forall i :: 0 <= i < |s| ==> IsDigit(s[i])
  {
    if s == [] then None
    else if !IsDigit(s[|s| - 1]) then None
    else if |s| == 1 then Some(DigitValue(s[0]))
    else match ParseNat(s[..|s| - 1])
      case None => None
      case Some(v) => Some(10 * v + DigitValue(s[|s| - 1]))
  }

  /** An optional `-` followed by decimal digits. */
  function ParseInt(s: string): Option<int>
  {
    var digits := if |s| > 0 && s[0] == '-' then s[1..] else s;
    match ParseNat(digits)
    case None => None
    case Some(v) => if digits == s then Some(v) else Some(0 - v)
  }

  lemma {:induction false} ParseNatToString(n: nat)
    ensures ParseNat(NatToString(n)) == Some(n)
  {
    if n >= 10 {
      var s := NatToString(n);
      assert s[..|s| - 1] == NatToString(n / 10);
      ParseNatToString(n / 10);
    }
  }

  /** The decimal text of an integer reads back as that integer, so the text
      determines the number. */
  lemma IntToStringRoundTrip(n: int)
    ensures ParseInt(IntToString(n)) == Some(n)
  {
    if n < 0 {
      assert IntToString(n)[1..] == NatToString(-n);
      ParseNatToString(-n);
    } else {
      ParseNatToString(n);
    }
  }

  lemma IntToStringInjective(m: int, n: int)
    requires IntToString(m) == IntToString(n)
    ensures m == n
  {
    IntToStringRoundTrip(m);
    IntToStringRoundTrip(n);
  }

  /** The parts separated by `sep` (`string.Join`); empty for no parts. */
  function Join(sep: string, parts: seq<string>): string
  {
    if parts == [] then ""
    else if |parts| == 1 then parts[0]
    else parts[0] + sep + Join(sep, parts[1..])
  }

  /** The position of the first `c` in `s`, if any. */
  function IndexOf(s: string, c: char): (r: Option<nat>)
    ensures r.None? <==> c !in s
    ensures r.Some? ==> r.value < |s| && s[r.value] == c && c !in s[..r.value]
  {
    if s == [] then None
    else if s[0] == c then Some(0)
    else match IndexOf(s[1..], c)
      case None => None
      case Some(i) =>
        assert s[..i + 1] == [s[0]] + s[1..][..i];
        Some(i + 1)
  }

  /** `c` first occurs right after a prefix that does not contain it. */
  lemma IndexOfAfter(a: string, c: char, b: string)
    requires c !in a
    ensures IndexOf(a + [c] + b, c) == Some(|a|)
  {
    var s := a + [c] + b;
    assert s[|a|] == c;
  }

  /** `s.Split(c)`: the pieces between occurrences of `c`, empty pieces
      included; one piece when `c` does not occur. */
  function SplitOn(s: string, c: char): (r: seq<string>)
    ensures |r| > 0
    decreases |s|
  {
    match IndexOf(s, c)
    case None => [s]
    case Some(i) => [s[..i]] + SplitOn(s[i + 1..], c)
  }

  /** Splitting undoes joining when no part contains the separator. */
  lemma {:induction false} SplitJoin(parts: seq<string>, c: char)
    requires parts != []
    requires forall k :: 0 <= k < |parts| ==> c !in parts[k]
    ensures SplitOn(Join([c], parts), c) == parts
  {
    if |parts| > 1 {
      var rest := Join([c], parts[1..]);
      IndexOfAfter(parts[0], c, rest);
      var s := parts[0] + [c] + rest;
      assert s[..|parts[0]|] == parts[0];
      assert s[|parts[0]| + 1..] == rest;
      SplitJoin(parts[1..], c);
    }
  }
}
