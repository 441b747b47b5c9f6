/**
 * The three regular expressions of the invoice extractor, written as scanners.
 * Go's regexp engine reports the leftmost match and, among matches starting
 * there, the one its greedy `+` gives: the longest run. A scanner therefore
 * looks for the first position where a match can start (LeftmostMatch) and
 * then takes the maximal run of the repeated class (SpanEnd).
 */
module Patterns {
  import opened GoStrings

  /** The repeated classes of the patterns: `\d` and `[0-9,.]`. */
  datatype ByteClass = Digits | NumberChars

  predicate InClass(c: ByteClass, b: Byte) {
    match c
    case Digits => IsDigit(b)
    case NumberChars => IsDigit(b) || b == ',' || b == '.'
  }

  /** "Código: " in UTF-8 (the o-acute is the two bytes C3 B3). */
  const CodeMarker: Bytes := "C\U{C3}\U{B3}digo: "

  const CnpjMarker: Bytes := "CNPJ: "

  /** Length of a formatted CNPJ, `dd.ddd.ddd/dddd-dd`. */
  const CnpjLength: nat := 18

  /** t is a CNPJ written as `\d{2}\.\d{3}\.\d{3}\/\d{4}\-\d{2}`. */
  predicate CnpjShape(t: Bytes) {
    && |t| == CnpjLength
    && forall k | 0 <= k < CnpjLength ::
         if k == 2 || k == 6 then t[k] == '.'
         else if k == 10 then t[k] == '/'
         else if k == 15 then t[k] == '-'
         else IsDigit(t[k])
  }

  /** `[0-9,.]+`, `Código: (\d+)` and `CNPJ: (\d{2}\.\d{3}\.\d{3}\/\d{4}\-\d{2})`. */
  datatype Pattern = NumberRun | CodeField | CnpjField

  /** The literal lit occurs in s at byte p. */
  predicate HasAt(s: Bytes, p: nat, lit: Bytes) {
    p + |lit| <= |s| && s[p..p + |lit|] == lit
  }

  /** A match of the pattern begins at byte p of s. */
  predicate MatchesAt(pat: Pattern, s: Bytes, p: nat) {
    match pat
    case NumberRun =>
      p < |s| && InClass(NumberChars, s[p])
    case CodeField =>
      var q := p + |CodeMarker|;
      HasAt(s, p, CodeMarker) && q < |s| && IsDigit(s[q])
    case CnpjField =>
      var q := p + |CnpjMarker|;
      HasAt(s, p, CnpjMarker) && q + CnpjLength <= |s| && CnpjShape(s[q..q + CnpjLength])
  }

  ghost predicate NoMatch(pat: Pattern, s: Bytes) {
    forall p | 0 <= p <= |s| :: !MatchesAt(pat, s, p)
  }

  /** p is the leftmost position where a match begins. */
  ghost predicate FirstMatch(pat: Pattern, s: Bytes, p: nat) {
    MatchesAt(pat, s, p) && forall q | 0 <= q < p :: !MatchesAt(pat, s, q)
  }

  /** r is the maximal run of class c that starts at byte i of s. */
  ghost predicate RunAt(c: ByteClass, s: Bytes, i: nat, r: Bytes) {
    && i + |r| <= |s|
    && s[i..i + |r|] == r
    && (forall k | 0 <= k < |r| :: InClass(c, r[k]))
    && (i + |r| == |s| || !InClass(c, s[i + |r|]))
  }

  /** The first position at or after from where a match begins, |s| if none. */
  function LeftmostMatch(pat: Pattern, s: Bytes, from: nat): (p: nat)
    requires from <= |s|
    ensures from <= p <= |s|
    ensures forall q | from <= q < p :: !MatchesAt(pat, s, q)
    ensures MatchesAt(pat, s, p) <==> p < |s|
    decreases |s| - from
  {
    if from == |s| || MatchesAt(pat, s, from) then from
    else LeftmostMatch(pat, s, from + 1)
  }

  /** The end of the maximal run of class c that starts at i. */
  function SpanEnd(c: ByteClass, s: Bytes, i: nat): (j: nat)
    requires i <= |s|
    ensures i <= j <= |s|
    ensures forall k | i <= k < j :: InClass(c, s[k])
    ensures j < |s| ==> !InClass(c, s[j])
    decreases |s| - i
  {
    if i < |s| && InClass(c, s[i]) then SpanEnd(c, s, i + 1) else i
  }

  /** `reNumber.FindString(s)`: the leftmost maximal run of digits, commas and
      periods; empty exactly when s holds none of them. */
  function FindNumber(s: Bytes): (r: Bytes)
    ensures r == [] <==> NoMatch(NumberRun, s)
    ensures forall k | 0 <= k < |r| :: InClass(NumberChars, r[k])
    ensures r != [] ==> exists p: nat :: FirstMatch(NumberRun, s, p) && RunAt(NumberChars, s, p, r)
  {
    var p := LeftmostMatch(NumberRun, s, 0);
    var r := s[p..SpanEnd(NumberChars, s, p)];
    assert r != [] ==> FirstMatch(NumberRun, s, p) && RunAt(NumberChars, s, p, r);
    r
  }

  /** The capture group of `reCode.FindStringSubmatch(s)`, or empty when there
      is no match: the digits after the leftmost "Código: " that a digit follows. */
  function FindCode(s: Bytes): (r: Bytes)
    ensures r == [] <==> NoMatch(CodeField, s)
    ensures forall k | 0 <= k < |r| :: IsDigit(r[k])
    ensures r != [] ==> exists p: nat :: FirstMatch(CodeField, s, p) && RunAt(Digits, s, p + |CodeMarker|, r)
  {
    var p := LeftmostMatch(CodeField, s, 0);
    if p == |s| then []
    else
      var q := p + |CodeMarker|;
      var r := s[q..SpanEnd(Digits, s, q)];
      assert FirstMatch(CodeField, s, p) && RunAt(Digits, s, q, r);
      r
  }

  /** The capture group of `reCNPJ.FindStringSubmatch(s)`, or empty when there
      is no match: the formatted CNPJ after the leftmost "CNPJ: " it follows. */
  function FindCnpj(s: Bytes): (r: Bytes)
    ensures r == [] <==> NoMatch(CnpjField, s)
    ensures r == [] || CnpjShape(r)
    ensures r != [] ==> exists p: nat :: FirstMatch(CnpjField, s, p) && HasAt(s, p + |CnpjMarker|, r)
  {
    var p := LeftmostMatch(CnpjField, s, 0);
    if p == |s| then []
    else
      var q := p + |CnpjMarker|;
      var r := s[q..q + CnpjLength];
      assert FirstMatch(CnpjField, s, p) && HasAt(s, q, r);
      r
  }

  /** Two leftmost matches are the same position. */
  lemma FirstMatchUnique(pat: Pattern, s: Bytes, p: nat, q: nat)
    requires FirstMatch(pat, s, p) && FirstMatch(pat, s, q)
    ensures p == q
  {
  }

  /** A maximal run is determined by where it starts. */
  lemma RunAtUnique(c: ByteClass, s: Bytes, i: nat, r1: Bytes, r2: Bytes)
    requires RunAt(c, s, i, r1) && RunAt(c, s, i, r2)
    ensures r1 == r2
  {
    assert forall k | 0 <= k < |r1| :: InClass(c, s[i..][k]) by {
      assert s[i..][..|r1|] == r1;
    }
    assert forall k | 0 <= k < |r2| :: InClass(c, s[i..][k]) by {
      assert s[i..][..|r2|] == r2;
    }
  }

  /** The contract of FindNumber pins its result down: it is the only string
      that is empty exactly when there is no match and otherwise the maximal
      run at the leftmost match. */
  lemma FindNumberUnique(s: Bytes, r: Bytes)
    requires r == [] <==> NoMatch(NumberRun, s)
    requires r != [] ==> exists p: nat :: FirstMatch(NumberRun, s, p) && RunAt(NumberChars, s, p, r)
    ensures r == FindNumber(s)
  {
    var f := FindNumber(s);
    if r != [] {
      var p: nat :| FirstMatch(NumberRun, s, p) && RunAt(NumberChars, s, p, r);
      var q: nat :| FirstMatch(NumberRun, s, q) && RunAt(NumberChars, s, q, f);
      FirstMatchUnique(NumberRun, s, p, q);
      RunAtUnique(NumberChars, s, p, r, f);
    }
  }

  /** Likewise, the contract of FindCode determines its result. */
  lemma FindCodeUnique(s: Bytes, r: Bytes)
    requires r == [] <==> NoMatch(CodeField, s)
    requires r != [] ==> exists p: nat :: FirstMatch(CodeField, s, p) && RunAt(Digits, s, p + |CodeMarker|, r)
    ensures r == FindCode(s)
  {
    var f := FindCode(s);
    if r != [] {
      var p: nat :| FirstMatch(CodeField, s, p) && RunAt(Digits, s, p + |CodeMarker|, r);
      var q: nat :| FirstMatch(CodeField, s, q) && RunAt(Digits, s, q + |CodeMarker|, f);
      FirstMatchUnique(CodeField, s, p, q);
      RunAtUnique(Digits, s, p + |CodeMarker|, r, f);
    }
  }

  /** Likewise, the contract of FindCnpj determines its result. */
  lemma FindCnpjUnique(s: Bytes, r: Bytes)
    requires r == [] <==> NoMatch(CnpjField, s)
    requires r == [] || CnpjShape(r)
    requires r != [] ==> exists p: nat :: FirstMatch(CnpjField, s, p) && HasAt(s, p + |CnpjMarker|, r)
    ensures r == FindCnpj(s)
  {
    var f := FindCnpj(s);
    if r != [] {
      var p: nat :| FirstMatch(CnpjField, s, p) && HasAt(s, p + |CnpjMarker|, r);
      var q: nat :| FirstMatch(CnpjField, s, q) && HasAt(s, q + |CnpjMarker|, f);
      FirstMatchUnique(CnpjField, s, p, q);
    }
  }

  /** Whether a CNPJ match begins at q depends only on the bytes it spans. */
  lemma CnpjMatchInPrefix(a: Bytes, b: Bytes, q: nat)
    requires q + |CnpjMarker| + CnpjLength <= |a|
    ensures MatchesAt(CnpjField, a + b, q) == MatchesAt(CnpjField, a, q)
  {
    var s := a + b;
    var m := q + |CnpjMarker|;
    assert s[q..m] == a[q..m];
    assert s[m..m + CnpjLength] == a[m..m + CnpjLength];
  }

  /** A CNPJ found in a text is still the one found once more text is appended:
      a CNPJ match has a fixed length, so text after it cannot extend or
      precede it. (A number or code run at the very end of a, by contrast, can
      grow into b.) */
  lemma FindCnpjPrefixStable(a: Bytes, b: Bytes)
    requires FindCnpj(a) != []
    ensures FindCnpj(a + b) == FindCnpj(a)
  {
    var s := a + b;
    var r := FindCnpj(a);
    var p: nat :| FirstMatch(CnpjField, a, p) && HasAt(a, p + |CnpjMarker|, r);
    CnpjMatchInPrefix(a, b, p);
    forall q | 0 <= q < p ensures !MatchesAt(CnpjField, s, q) {
      CnpjMatchInPrefix(a, b, q);
    }
    var m := p + |CnpjMarker|;
    assert s[m..m + CnpjLength] == a[m..m + CnpjLength];
    assert FirstMatch(CnpjField, s, p) && HasAt(s, m, r);
    FindCnpjUnique(s, r);
  }

  /** The currency sign is dropped and the decimal comma kept. */
  lemma PriceExample()
    ensures FindNumber("R$ 9,90") == "9,90"
  {
    var s: Bytes := "R$ 9,90";
    assert FirstMatch(NumberRun, s, 3);
    assert RunAt(NumberChars, s, 3, "9,90");
    FindNumberUnique(s, "9,90");
  }

  /** Only the first run counts, thousands and decimal separators included. */
  lemma QuantityExample()
    ensures FindNumber("1.234,56 UN 7") == "1.234,56"
  {
    var s: Bytes := "1.234,56 UN 7";
    assert FirstMatch(NumberRun, s, 0);
    assert RunAt(NumberChars, s, 0, "1.234,56");
    FindNumberUnique(s, "1.234,56");
  }

  /** A run made of a period alone is a result. */
  lemma PeriodOnlyExample()
    ensures FindNumber("Un.") == "."
  {
    var s: Bytes := "Un.";
    assert FirstMatch(NumberRun, s, 2);
    assert RunAt(NumberChars, s, 2, ".");
    FindNumberUnique(s, ".");
  }

  /** No digit, comma or period: the empty string. */
  lemma NoNumberExample()
    ensures FindNumber("UN") == []
  {
    var s: Bytes := "UN";
    assert NoMatch(NumberRun, s);
    FindNumberUnique(s, []);
  }

  /** The code stops at the first non-digit. */
  lemma CodeExample()
    ensures FindCode("C\U{C3}\U{B3}digo: 00123abc") == "00123"
  {
    var s: Bytes := "C\U{C3}\U{B3}digo: 00123abc";
    assert HasAt(s, 0, CodeMarker);
    assert FirstMatch(CodeField, s, 0);
    assert RunAt(Digits, s, |CodeMarker|, "00123");
    FindCodeUnique(s, "00123");
  }

  /** The code follows the product name in the first cell. */
  lemma CodeAfterNameExample()
    ensures FindCode("WidgetC\U{C3}\U{B3}digo: 42") == "42"
  {
    var s: Bytes := "WidgetC\U{C3}\U{B3}digo: 42";
    assert HasAt(s, 6, CodeMarker);
    assert FirstMatch(CodeField, s, 6);
    assert RunAt(Digits, s, 6 + |CodeMarker|, "42");
    FindCodeUnique(s, "42");
  }

  /** A label before the quantity is dropped. */
  lemma LabelledQuantityExample()
    ensures FindNumber("qty 3,0") == "3,0"
  {
    var s: Bytes := "qty 3,0";
    assert FirstMatch(NumberRun, s, 4);
    assert RunAt(NumberChars, s, 4, "3,0");
    FindNumberUnique(s, "3,0");
  }

  /** A marker with no digit after it is skipped, not matched. */
  lemma SkippedMarkerExample()
    ensures FindCode("C\U{C3}\U{B3}digo: x C\U{C3}\U{B3}digo: 42") == "42"
  {
    var s: Bytes := "C\U{C3}\U{B3}digo: x C\U{C3}\U{B3}digo: 42";
    assert HasAt(s, 11, CodeMarker);
    assert FirstMatch(CodeField, s, 11);
    assert RunAt(Digits, s, 11 + |CodeMarker|, "42");
    FindCodeUnique(s, "42");
  }

  /** The CNPJ is taken without its marker. */
  lemma CnpjExample()
    ensures FindCnpj("CNPJ: 12.345.678/0001-99") == "12.345.678/0001-99"
  {
    var s: Bytes := "CNPJ: 12.345.678/0001-99";
    var r: Bytes := "12.345.678/0001-99";
    assert s == CnpjMarker + r;
    CnpjShapeExample(r);
    assert s[|CnpjMarker|..] == r;
    assert FirstMatch(CnpjField, s, 0);
    FindCnpjUnique(s, r);
  }

  lemma CnpjShapeExample(r: Bytes)
    requires r == "12.345.678/0001-99"
    ensures CnpjShape(r)
  {
  }

  /** A CNPJ cut short is not matched, nor the rest of it without its marker. */
  lemma TornCnpjExample()
    ensures FindCnpj("CNPJ: 12.345.") == []
    ensures FindCnpj("678/0001-99 (CNPJ)") == []
  {
    var a: Bytes := "CNPJ: 12.345.";
    assert NoMatch(CnpjField, a);
    FindCnpjUnique(a, []);
    var b: Bytes := "678/0001-99 (CNPJ)";
    assert NoMatch(CnpjField, b);
    FindCnpjUnique(b, []);
  }

  /** An unformatted CNPJ is not matched. */
  lemma UnformattedCnpjExample()
    ensures FindCnpj("CNPJ: 12345678000199") == []
  {
    var s: Bytes := "CNPJ: 12345678000199";
    assert NoMatch(CnpjField, s);
    FindCnpjUnique(s, []);
  }
}
