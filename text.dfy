/** The string handling the experiment-log records rely on: case-insensitive
    comparison, decimal rendering of integers, the digit-guarded numeric parse,
    and a flat view of an XML element as its (name, text) children. */
module Text {
  import opened Common

  const IntMax: nat := 2147483647
  const LongMax: nat := 9223372036854775807

  /** The four characters outside ASCII that Character.toUpperCase or
      Character.toLowerCase carries onto an ASCII letter: dotted capital I,
      dotless small i, long s and the Kelvin sign. */
  const DottedCapitalI: char := '\U{0130}'
  const DotlessSmallI: char := '\U{0131}'
  const LongS: char := '\U{017F}'
  const KelvinSign: char := '\U{212A}'

  /** Character.toLowerCase(Character.toUpperCase(c)) wherever the result is
      an ASCII letter; every other character is left as it is. */
  function FoldCase(c: char): (r: char)
    ensures 'A' <= c <= 'Z' ==> r == (c as int + 32) as char
    ensures c == DottedCapitalI || c == DotlessSmallI ==> r == 'i'
    ensures c == LongS ==> r == 's'
    ensures c == KelvinSign ==> r == 'k'
    ensures r != c ==>
              'a' <= r <= 'z' && ('A' <= c <= 'Z' || c in {DottedCapitalI, DotlessSmallI, LongS, KelvinSign})
  {
    if 'A' <= c <= 'Z' then (c as int + 32) as char
    else if c == DottedCapitalI || c == DotlessSmallI then 'i'
    else if c == LongS then 's'
    else if c == KelvinSign then 'k'
    else c
  }

  /** String.equalsIgnoreCase: equal length, and each pair of characters equal
      once folded. Against a string of ASCII characters this is exactly the
      Java relation. */
  predicate EqualsIgnoreCase(a: string, b: string)
  {
    |a| == |b| && forall i :: 0 <= i < |a| ==> FoldCase(a[i]) == FoldCase(b[i])
  }

  /** Equal-ignoring-case is an equivalence: symmetric and transitive. */
  lemma EqualsIgnoreCaseTransitive(a: string, b: string, c: string)
    requires EqualsIgnoreCase(a, b) && EqualsIgnoreCase(b, c)
    ensures EqualsIgnoreCase(a, c) && EqualsIgnoreCase(c, a)
  {
  }

  /** Two strings that differ in some position where neither holds a letter
      of either case, nor one of the four characters that fold onto one, are
      never equal-ignoring-case. */
  lemma DifferentNonLetterNotEqual(a: string, b: string, i: nat)
    requires i < |a| && i < |b| && a[i] != b[i]
    requires !('A' <= a[i] <= 'Z') && !('a' <= a[i] <= 'z')
    requires a[i] !in {DottedCapitalI, DotlessSmallI, LongS, KelvinSign}
    ensures !EqualsIgnoreCase(a, b)
  {
  }

  /** The characters Java matches against the ASCII letters i, s and k,
      beyond the two ASCII cases. */
  lemma FoldsOntoAsciiLetters()
    ensures EqualsIgnoreCase([DottedCapitalI], "i") && EqualsIgnoreCase([DotlessSmallI], "I")
    ensures EqualsIgnoreCase([LongS], "S") && EqualsIgnoreCase([KelvinSign], "k")
    ensures !EqualsIgnoreCase([DottedCapitalI], "j")
  {
    assert FoldCase([DottedCapitalI][0]) != FoldCase("j"[0]);
  }

  predicate IsDigit(c: char)
  {
    '0' <= c <= '9'
  }

  /** The Java regular expression [0-9]+, matched against the whole string. */
  predicate IsDigits(s: string)
  {
    |s| > 0 && forall i :: 0 <= i < |s| ==> IsDigit(s[i])
  }

  function DigitChar(d: nat): (c: char)
    requires d < 10
    ensures IsDigit(c) && c as int - '0' as int == d
  {
    ('0' as int + d) as char
  }

  /** The decimal digits of a natural number, without leading zeros. */
  function Digits(n: nat): (s: string)
    decreases n
  {
    if n < 10 then [DigitChar(n)] else Digits(n / 10) + [DigitChar(n % 10)]
  }

  /** Integer.toString and Long.toString (what StringBuilder.append writes). */
  function Decimal(n: int): string
  {
    if n < 0 then "-" + Digits(-n) else Digits(n)
  }

  /** The value of a string of decimal digits (leading zeros allowed). */
  function DigitsValue(s: string): nat
    requires forall i :: 0 <= i < |s| ==> IsDigit(s[i])
  {
    if s == [] then 0
    else
      assert IsDigit(s[|s| - 1]);
      DigitsValue(s[..|s| - 1]) * 10 + (s[|s| - 1] as int - '0' as int)
  }

  datatype Parsed = NotANumber | Overflow | Number(value: int)

  /** `text.matches("[0-9]+")` guarding Integer.parseInt (max IntMax) or
      Long.parseLong (max LongMax): text that is not all digits is skipped,
      digits beyond the maximum make parseInt throw NumberFormatException. */
  function ParseDigits(s: string, max: nat): (r: Parsed)
    ensures r.Number? ==> IsDigits(s) && 0 <= r.value <= max
    ensures r.NotANumber? <==> !IsDigits(s)
  {
    if !IsDigits(s) then NotANumber
    else if DigitsValue(s) > max then Overflow
    else Number(DigitsValue(s))
  }

  lemma {:induction false} DigitsRoundTrip(n: nat)
    ensures IsDigits(Digits(n)) && DigitsValue(Digits(n)) == n
  {
    if n >= 10 {
      DigitsRoundTrip(n / 10);
      var s := Digits(n);
      assert s[..|s| - 1] == Digits(n / 10);
    }
  }

  /** What the log writer renders, the log reader parses back. */
  lemma ParseDecimalRoundTrip(n: int, max: nat)
    requires 0 <= n <= max
    ensures ParseDigits(Decimal(n), max) == Number(n)
  {
    DigitsRoundTrip(n);
  }

  /** A negative number is rendered with a minus sign, which the digit guard
      rejects: the reader keeps its previous value. */
  lemma NegativeDecimalIsSkipped(n: int, max: nat)
    requires n < 0
    ensures ParseDigits(Decimal(n), max) == NotANumber
  {
    assert Decimal(n)[0] == '-';
  }

  /** An XML element as the log readers see it: its name, its attributes in
      document order, its text content and its child elements in document
      order. */
  datatype XmlNode = XmlNode(name: string, attributes: seq<(string, string)>, text: string, children: seq<XmlNode>)

  /** Element.getAttributes().getNamedItem(name): the value of the first
      attribute with exactly this name, if any. */
  function NamedItem(attributes: seq<(string, string)>, name: string): (r: Option<string>)
    ensures r.Some? <==> exists i :: 0 <= i < |attributes| && attributes[i].0 == name
    ensures r.Some? ==> exists i :: 0 <= i < |attributes| && attributes[i] == (name, r.value)
  {
    if attributes == [] then None
    else if attributes[0].0 == name then Some(attributes[0].1)
    else
      var r := NamedItem(attributes[1..], name);
      assert forall i :: 1 <= i < |attributes| ==> attributes[i] == attributes[1..][i - 1];
      r
  }
}
