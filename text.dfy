/**
 * The Python string built-ins the cog relies on, over `string` = `seq<char>`:
 * `str.isdigit`, `str.upper`, `str(int)`, `int(str)` and `str.rsplit` with a
 * one-character separator. Only the ASCII behaviour is modelled.
 */
module Text {
  import opened Wrappers

  predicate IsDigit(c: char) {
    '0' <= c <= '9'
  }

  /** Every character is an ASCII digit (the empty string qualifies). */
  predicate AllDigits(s: string) {
    forall i :: 0 <= i < |s| ==> IsDigit(s[i])
  }

  /** `s.isdigit()`: false on the empty string. */
  predicate IsDigitString(s: string) {
    |s| > 0 && AllDigits(s)
  }

  function UpperChar(c: char): char {
    if 'a' <= c <= 'z' then (c as int - 32) as char else c
  }

  /** `s.upper()`: ASCII lower-case letters become upper case, everything else stays. */
  function Upper(s: string): (r: string)
    ensures |r| == |s|
    ensures forall i :: 0 <= i < |s| ==> r[i] == UpperChar(s[i])
  {
    if s == [] then [] else [UpperChar(s[0])] + Upper(s[1..])
  }

  /** Upper-casing twice is upper-casing once. */
  lemma UpperIdempotent(s: string)
    ensures Upper(Upper(s)) == Upper(s)
  {
  }

  function DigitChar(d: nat): (c: char)
    requires d < 10
    ensures IsDigit(c)
  {
    (d + '0' as int) as char
  }

  function DigitValue(c: char): nat
    requires IsDigit(c)
  {
    c as int - '0' as int
  }

  /** `str(n)` for a non-negative integer: its decimal digits, most significant first. */
  function Decimal(n: nat): (s: string)
    ensures IsDigitString(s)
    decreases n
  {
    if n < 10 then [DigitChar(n)] else Decimal(n / 10) + [DigitChar(n % 10)]
  }

  /** `int(s)` for a string of ASCII digits. */
  function DecimalValue(s: string): nat
    requires AllDigits(s)
  {
    if s == [] then 0 else 10 * DecimalValue(s[..|s| - 1]) + DigitValue(s[|s| - 1])
  }

  /** `int(str(n)) == n`. */
  lemma {:induction false} DecimalRoundTrip(n: nat)
    ensures DecimalValue(Decimal(n)) == n
  {
    if n >= 10 {
      var s := Decimal(n);
      assert s[..|s| - 1] == Decimal(n / 10);
      DecimalRoundTrip(n / 10);
    }
  }

  /** Distinct integers print as distinct strings. */
  lemma DecimalInjective(a: nat, b: nat)
    requires Decimal(a) == Decimal(b)
    ensures a == b
  {
    DecimalRoundTrip(a);
    DecimalRoundTrip(b);
  }

  /** The index of the last occurrence of `c` in `s`, if any. */
  function LastIndexOf(s: string, c: char): (r: Option<nat>)
    ensures r.None? <==> c !in s
    ensures r.Some? ==> r.value < |s| && s[r.value] == c && c !in s[r.value + 1..]
  {
    if s == [] then None
    else if s[|s| - 1] == c then Some(|s| - 1)
    else
      assert s == s[..|s| - 1] + [s[|s| - 1]];
      LastIndexOf(s[..|s| - 1], c)
  }

  /** `s.rpartition(sep)` when `sep` occurs: what lies left and right of its last occurrence. */
  function SplitLast(s: string, sep: char): (r: Option<(string, string)>)
    ensures r.None? <==> sep !in s
    ensures r.Some? ==> s == r.value.0 + [sep] + r.value.1 && sep !in r.value.1
  {
    match LastIndexOf(s, sep)
    case None => None
    case Some(j) =>
      assert s == s[..j] + [sep] + s[j + 1..];
      Some((s[..j], s[j + 1..]))
  }

  /** `sep.join(parts)`. */
  function Join(parts: seq<string>, sep: char): string {
    if parts == [] then ""
    else if |parts| == 1 then parts[0]
    else Join(parts[..|parts| - 1], sep) + [sep] + parts[|parts| - 1]
  }

  /** The parts of `left`, then `right`, join back to `left + [sep] + right`. */
  lemma JoinOneMore(parts: seq<string>, left: string, right: string, sep: char)
    requires parts != [] && Join(parts, sep) == left
    ensures Join(parts + [right], sep) == left + [sep] + right
  {
    var all := parts + [right];
    assert all[..|all| - 1] == parts;
  }

  /**
   * `s.rsplit(sep, maxsplit)`: split at the last `maxsplit` occurrences of
   * `sep`, counting from the right; the leftmost part keeps any other
   * occurrences. Splitting loses nothing: the parts join back into `s`.
   */
  function RSplit(s: string, sep: char, maxsplit: nat): (parts: seq<string>)
    ensures 1 <= |parts| <= maxsplit + 1
    ensures forall i :: 0 < i < |parts| ==> sep !in parts[i]
    ensures |parts| <= maxsplit ==> sep !in parts[0]
    ensures Join(parts, sep) == s
    decreases maxsplit
  {
    if maxsplit == 0 then [s]
    else
      match SplitLast(s, sep)
      case None => [s]
      case Some((left, right)) =>
        var init := RSplit(left, sep, maxsplit - 1);
        JoinOneMore(init, left, right, sep);
        init + [right]
  }

  /** The last separator of `a + [sep] + t` is the one after `a` when `t` has none. */
  lemma LastSeparator(a: string, sep: char, t: string)
    requires sep !in t
    ensures SplitLast(a + [sep] + t, sep) == Some((a, t))
  {
    var s := a + [sep] + t;
    assert s[|a|] == sep;
    assert LastIndexOf(s, sep) == Some(|a|);
    assert s[..|a|] == a;
    assert s[|a| + 1..] == t;
  }

  /** `rsplit(sep, 2)` takes apart `a + sep + b + sep + d` when `b` and `d` are free of `sep`. */
  lemma RSplitThree(a: string, b: string, d: string, sep: char)
    requires sep !in b && sep !in d
    ensures RSplit(a + [sep] + b + [sep] + d, sep, 2) == [a, b, d]
  {
    var head := a + [sep] + b;
    assert a + [sep] + b + [sep] + d == head + [sep] + d;
    LastSeparator(head, sep, d);
    LastSeparator(a, sep, b);
  }
}
