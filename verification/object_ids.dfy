/**
 * The two conversions of the driver's 12-byte document id that the user
 * service relies on: parsing the 24-character hexadecimal text a client
 * sends (ObjectIDFromHex) and printing an id back as lowercase hex (Hex).
 */
module ObjectIds {
  import opened Wrappers
  import opened GoStrings

  /** A document id: exactly twelve bytes. */
  type ObjectId = s: Bytes | |s| == 12 witness "000000000000"

  predicate IsHexDigit(c: Byte) {
    ('0' <= c <= '9') || ('a' <= c <= 'f') || ('A' <= c <= 'F')
  }

  predicate IsLowerHex(s: Bytes) {
    forall i | 0 <= i < |s| :: ('0' <= s[i] <= '9') || ('a' <= s[i] <= 'f')
  }

  /** The value of one hexadecimal digit, either case. */
  function HexValue(c: Byte): (v: nat)
    requires IsHexDigit(c)
    ensures v < 16
  {
    if '0' <= c <= '9' then c as int - '0' as int
    else if 'a' <= c <= 'f' then c as int - 'a' as int + 10
    else c as int - 'A' as int + 10
  }

  /** The lowercase digit of a value below 16. */
  function HexDigit(v: nat): (c: Byte)
    requires v < 16
    ensures IsHexDigit(c) && HexValue(c) == v
    ensures ('0' <= c <= '9') || ('a' <= c <= 'f')
  {
    if v < 10 then ('0' as int + v) as char else ('a' as int + v - 10) as char
  }

  /** The byte spelled by the two hex digits at positions 2i and 2i + 1. */
  function PairAt(s: Bytes, i: nat): (b: Byte)
    requires 2 * i + 1 < |s| && IsHexDigit(s[2 * i]) && IsHexDigit(s[2 * i + 1])
    ensures b as int == HexValue(s[2 * i]) * 16 + HexValue(s[2 * i + 1])
  {
    (HexValue(s[2 * i]) * 16 + HexValue(s[2 * i + 1])) as char
  }

  /** ObjectIDFromHex: 24 hex digits, either case, two per byte; anything
      else is an error. */
  function FromHex(s: Bytes): (r: Option<ObjectId>)
    ensures r.Some? <==> |s| == 24 && forall i | 0 <= i < |s| :: IsHexDigit(s[i])
    ensures r.Some? ==> forall i | 0 <= i < 12 ::
      r.value[i] as int == HexValue(s[2 * i]) * 16 + HexValue(s[2 * i + 1])
  {
    if |s| == 24 && forall i | 0 <= i < |s| :: IsHexDigit(s[i]) then
      Some(seq(12, i requires 0 <= i < 12 => PairAt(s, i)))
    else
      None
  }

  /** ObjectID.Hex: two lowercase digits per byte, high nibble first. */
  function ToHex(id: ObjectId): (s: Bytes)
    ensures |s| == 24 && IsLowerHex(s)
    ensures forall j | 0 <= j < 24 :: IsHexDigit(s[j])
  {
    seq(24, j requires 0 <= j < 24 => NibbleDigit(id, j))
  }

  /** Digit j of the hex text of id: the high nibble of byte j / 2 for even j,
      the low nibble for odd j. */
  function NibbleDigit(id: ObjectId, j: nat): (c: Byte)
    requires j < 24
    ensures ('0' <= c <= '9') || ('a' <= c <= 'f')
    ensures IsHexDigit(c)
    ensures j % 2 == 0 ==> HexValue(c) == id[j / 2] as int / 16
    ensures j % 2 == 1 ==> HexValue(c) == id[j / 2] as int % 16
  {
    var b := id[j / 2] as int;
    if j % 2 == 0 then HexDigit(b / 16) else HexDigit(b % 16)
  }

  /** Byte i of an id is spelled by digits 2i (high nibble) and 2i + 1 (low
      nibble) of its hex text. */
  lemma ToHexNibbles(id: ObjectId, i: nat)
    requires i < 12
    ensures HexValue(ToHex(id)[2 * i]) == id[i] as int / 16
    ensures HexValue(ToHex(id)[2 * i + 1]) == id[i] as int % 16
  {
    assert (2 * i) / 2 == i && (2 * i) % 2 == 0;
    assert (2 * i + 1) / 2 == i && (2 * i + 1) % 2 == 1;
  }

  /** Printing an id and parsing it back gives the id. */
  lemma FromHexToHex(id: ObjectId)
    ensures FromHex(ToHex(id)) == Some(id)
  {
    var s := ToHex(id);
    var r := FromHex(s);
    forall i | 0 <= i < 12 ensures r.value[i] == id[i] {
      ToHexNibbles(id, i);
      var b := id[i] as int;
      assert r.value[i] as int == (b / 16) * 16 + b % 16;
    }
    assert r.value == id;
  }

  /** A lowercase hex text is the printed form of the id it parses to. */
  lemma ToHexFromHex(s: Bytes)
    requires FromHex(s).Some? && IsLowerHex(s)
    ensures ToHex(FromHex(s).value) == s
  {
    var id := FromHex(s).value;
    var t := ToHex(id);
    forall j | 0 <= j < 24 ensures t[j] == s[j] {
      var i := j / 2;
      var hi := HexValue(s[2 * i]);
      var lo := HexValue(s[2 * i + 1]);
      NibblesOfPair(hi, lo);
      ToHexNibbles(id, i);
      assert j == 2 * i || j == 2 * i + 1;
      LowerHexDigitUnique(t[j], s[j]);
    }
  }

  /** The two nibbles of hi * 16 + lo are hi and lo. */
  lemma NibblesOfPair(hi: nat, lo: nat)
    requires hi < 16 && lo < 16
    ensures (hi * 16 + lo) / 16 == hi && (hi * 16 + lo) % 16 == lo
  {
  }

  /** A lowercase hex digit is determined by its value. */
  lemma LowerHexDigitUnique(a: Byte, b: Byte)
    requires IsHexDigit(a) && IsHexDigit(b) && HexValue(a) == HexValue(b)
    requires ('0' <= a <= '9') || ('a' <= a <= 'f')
    requires ('0' <= b <= '9') || ('a' <= b <= 'f')
    ensures a == b
  {
  }

  /** Upper- and lowercase spellings name the same id: only digit values
      matter. */
  lemma CaseInsensitive(s: Bytes, t: Bytes)
    requires FromHex(s).Some? && FromHex(t).Some?
    requires forall i | 0 <= i < 24 :: HexValue(s[i]) == HexValue(t[i])
    ensures FromHex(s) == FromHex(t)
  {
    var x := FromHex(s).value;
    var y := FromHex(t).value;
    forall i | 0 <= i < 12 ensures x[i] == y[i] {
      assert HexValue(s[2 * i]) == HexValue(t[2 * i]);
      assert HexValue(s[2 * i + 1]) == HexValue(t[2 * i + 1]);
    }
    assert x == y;
  }
}
