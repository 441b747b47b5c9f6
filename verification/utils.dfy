/**
 * The two helpers of the utility package that carry logic of their own:
 * the CPF check-digit test and the masking of an e-mail address.
 */
module Utils {
  import opened GoStrings

  // ---------------------------------------------------------------------
  // CPF (Brazilian taxpayer number) validation
  // ---------------------------------------------------------------------

  /** `strconv.Atoi(string(b))` with its error discarded: the value of a digit,
      and 0 for any other byte. */
  function AtoiByte(b: Byte): (n: nat)
    ensures n <= 9
    ensures IsDigit(b) ==> b == ('0' as int + n) as char
    ensures !IsDigit(b) ==> n == 0
  {
    if IsDigit(b) then b as int - '0' as int else 0
  }

  /** `strconv.Itoa(d)` for a single digit d. */
  function DigitChar(d: nat): (b: Byte)
    requires d <= 9
    ensures IsDigit(b) && AtoiByte(b) == d
  {
    ('0' as int + d) as char
  }

  /** The CPF with every '.' and then every '-' removed. */
  function Stripped(cpf: Bytes): (s: Bytes)
    ensures '.' !in s && '-' !in s
  {
    var noDots := RemoveAll(cpf, '.');
    RemoveAllKeepsAbsent(noDots, '-', '.');
    RemoveAll(noDots, '-')
  }

  /** The sum over i < n of AtoiByte(s[i]) * (top - i). */
  function WeightedSum(s: Bytes, n: nat, top: int): int
    requires n <= |s|
  {
    if n == 0 then 0 else WeightedSum(s, n - 1, top) + AtoiByte(s[n - 1]) * (top - (n - 1))
  }

  /** Each loop adds one digit value, at most 9, times a positive weight: so
      while the weights stay positive the sum lies between 0 and 9 times the
      sum of the weights. */
  lemma {:induction false} WeightedSumBounds(s: Bytes, n: nat, top: int)
    requires n <= |s| && top >= n
    ensures 0 <= WeightedSum(s, n, top) <= 9 * Weights(n, top)
  {
    if n > 0 {
      WeightedSumBounds(s, n - 1, top);
      var w := top - (n - 1);
      assert 0 <= AtoiByte(s[n - 1]) * w <= 9 * w;
    }
  }

  /** The mod-11 check digit of a weighted sum: 0 when the remainder is 0 or 1,
      11 minus the remainder otherwise. */
  function CheckDigit(sum: int): (d: nat)
    ensures d <= 9
  {
    var r := sum % 11;
    if r < 2 then 0 else 11 - r
  }

  /** The acceptance rule of IsValidCPF: eleven bytes once separators are gone,
      byte 9 spelling the check digit of the first nine bytes weighted 10 down
      to 2, and byte 10 that of the first ten weighted 11 down to 2. */
  predicate Accepted(cpf: Bytes)
    ensures Accepted(cpf) ==>
      var s := Stripped(cpf);
      |s| == 11 && IsDigit(s[9]) && IsDigit(s[10])
  {
    var s := Stripped(cpf);
    && |s| == 11
    && s[9] == DigitChar(CheckDigit(WeightedSum(s, 9, 10)))
    && s[10] == DigitChar(CheckDigit(WeightedSum(s, 10, 11)))
  }

  /** IsValidCPF. */
  method IsValidCpf(cpf: Bytes) returns (valid: bool)
    ensures valid == Accepted(cpf)
  {
    var s := RemoveAll(cpf, '.');
    s := RemoveAll(s, '-');
    if |s| != 11 {
      return false;
    }
    var sum := 0;
    for i := 0 to 9
      invariant sum == WeightedSum(s, i, 10)
    {
      sum := sum + AtoiByte(s[i]) * (10 - i);
    }
    var firstDigit := sum % 11;
    if firstDigit < 2 {
      firstDigit := 0;
    } else {
      firstDigit := 11 - firstDigit;
    }
    sum := 0;
    for i := 0 to 10
      invariant sum == WeightedSum(s, i, 11)
    {
      sum := sum + AtoiByte(s[i]) * (11 - i);
    }
    var secondDigit := sum % 11;
    if secondDigit < 2 {
      secondDigit := 0;
    } else {
      secondDigit := 11 - secondDigit;
    }
    valid := s[9] == DigitChar(firstDigit) && s[10] == DigitChar(secondDigit);
  }

  /** Acceptance in numbers: after stripping, eleven bytes of which bytes 9 and
      10 are digit characters whose values are the two check digits. Bytes 0 to 8
      need not be digits. */
  lemma AcceptedIffCheckDigits(cpf: Bytes)
    ensures Accepted(cpf) <==>
      var s := Stripped(cpf);
      && |s| == 11
      && IsDigit(s[9]) && AtoiByte(s[9]) == CheckDigit(WeightedSum(s, 9, 10))
      && IsDigit(s[10]) && AtoiByte(s[10]) == CheckDigit(WeightedSum(s, 10, 11))
  {
  }

  /** A CPF of the wrong length once separators are removed is rejected. */
  lemma WrongLengthRejected(cpf: Bytes)
    requires |Stripped(cpf)| != 11
    ensures !Accepted(cpf)
  {
  }

  /** Stripping works piece by piece. */
  lemma StrippedConcat(x: Bytes, y: Bytes)
    ensures Stripped(x + y) == Stripped(x) + Stripped(y)
  {
    RemoveAllConcat(x, y, '.');
    RemoveAllConcat(RemoveAll(x, '.'), RemoveAll(y, '.'), '-');
  }

  /** A piece that strips to nothing can be dropped before stripping. */
  lemma StrippedDropsEmptyPiece(a: Bytes, m: Bytes, b: Bytes)
    requires Stripped(m) == []
    ensures Stripped(a + m + b) == Stripped(a + b)
  {
    StrippedConcat(a + m, b);
    StrippedConcat(a, m);
    StrippedConcat(a, b);
  }

  /** Inserting a '.' or a '-' anywhere never changes the verdict. */
  lemma SeparatorIgnored(a: Bytes, b: Bytes, sep: Byte)
    requires sep == '.' || sep == '-'
    ensures Accepted(a + [sep] + b) == Accepted(a + b)
  {
    if sep == '.' {
      assert RemoveAll([sep], '.') == [];
    } else {
      assert RemoveAll([sep], '.') == [sep];
    }
    StrippedDropsEmptyPiece(a, [sep], b);
  }

  /** Weighted sums agree when the bytes they weigh have the same values. */
  lemma {:induction false} WeightedSumByValues(s: Bytes, t: Bytes, n: nat, top: int)
    requires n <= |s| && n <= |t|
    requires forall i | 0 <= i < n :: AtoiByte(s[i]) == AtoiByte(t[i])
    ensures WeightedSum(s, n, top) == WeightedSum(t, n, top)
  {
    if n > 0 {
      WeightedSumByValues(s, t, n - 1, top);
    }
  }

  /** For separator-free input, only the values of the first nine bytes and
      the last two bytes themselves matter. */
  lemma AcceptedByValues(x: Bytes, y: Bytes)
    requires |x| == 11 && |y| == 11 && Stripped(x) == x && Stripped(y) == y
    requires forall i | 0 <= i < 9 :: AtoiByte(x[i]) == AtoiByte(y[i])
    requires x[9] == y[9] && x[10] == y[10]
    ensures Accepted(x) == Accepted(y)
  {
    WeightedSumByValues(x, y, 9, 10);
    WeightedSumByValues(x, y, 10, 11);
    AcceptedBySums(x, y);
  }

  /** Acceptance of separator-free input is decided by the two weighted sums
      and the last two bytes. */
  lemma AcceptedBySums(x: Bytes, y: Bytes)
    requires |x| == 11 && |y| == 11 && Stripped(x) == x && Stripped(y) == y
    requires WeightedSum(x, 9, 10) == WeightedSum(y, 9, 10)
    requires WeightedSum(x, 10, 11) == WeightedSum(y, 10, 11)
    requires x[9] == y[9] && x[10] == y[10]
    ensures Accepted(x) == Accepted(y)
  {
  }

  /** Replacing one byte by another that is no separator keeps a
      separator-free string separator-free. */
  lemma UpdateKeepsStripped(s: Bytes, i: nat, b: Byte)
    requires i < |s| && Stripped(s) == s && b != '.' && b != '-'
    ensures Stripped(s[i := b]) == s[i := b]
  {
    var x := s[i := b];
    assert '.' !in x && '-' !in x by {
      forall k | 0 <= k < |x| ensures x[k] != '.' && x[k] != '-' {
        if k != i {
          assert x[k] == s[k];
        }
      }
    }
  }

  /** A non-digit byte among the first nine counts as the digit 0. */
  lemma NonDigitCountsAsZero(s: Bytes, i: nat, b: Byte)
    requires |s| == 11 && Stripped(s) == s
    requires i < 9 && !IsDigit(b) && b != '.' && b != '-'
    ensures Accepted(s[i := b]) == Accepted(s[i := '0'])
  {
    UpdateKeepsStripped(s, i, b);
    UpdateKeepsStripped(s, i, '0');
    AcceptedByValues(s[i := b], s[i := '0']);
  }

  /** The sum of the weights top, top - 1, ..., top - n + 1. */
  function Weights(n: nat, top: int): int {
    if n == 0 then 0 else Weights(n - 1, top) + (top - (n - 1))
  }

  /** Bytes of one value v weigh v times the sum of the weights. */
  lemma {:induction false} WeightedSumOfRepeat(s: Bytes, n: nat, top: int, v: nat)
    requires n <= |s|
    requires forall i | 0 <= i < n :: AtoiByte(s[i]) == v
    ensures WeightedSum(s, n, top) == v * Weights(n, top)
  {
    if n > 0 {
      WeightedSumOfRepeat(s, n - 1, top, v);
      assert v * Weights(n, top) == v * Weights(n - 1, top) + v * (top - (n - 1));
    }
  }

  /** 54 and 65 are both -1 modulo 11, so the check digit of 54 v and of 65 v
      is v itself. */
  lemma CheckDigitOfRepeat(v: nat)
    requires v <= 9
    ensures CheckDigit(v * 54) == v && CheckDigit(v * 65) == v
  {
    if v == 0 {} else if v == 1 {} else if v == 2 {} else if v == 3 {} else if v == 4 {}
    else if v == 5 {} else if v == 6 {} else if v == 7 {} else if v == 8 {} else {}
  }

  /** Eleven equal digits pass: the rule has no special case for them. */
  lemma RepeatedDigitAccepted(d: Byte)
    requires IsDigit(d)
    ensures Accepted(Repeat(d, 11))
  {
    var s := Repeat(d, 11);
    var v := AtoiByte(d);
    assert Stripped(s) == s by {
      assert '.' !in s && '-' !in s;
    }
    WeightedSumOfRepeat(s, 9, 10, v);
    WeightedSumOfRepeat(s, 10, 11, v);
    assert Weights(9, 10) == 54 && Weights(10, 11) == 65;
    CheckDigitOfRepeat(v);
    assert DigitChar(v) == d;
  }

  /** The two weighted sums of the CPF 529.982.247-25 once stripped. */
  lemma ValidCpfFirstSum()
    ensures WeightedSum("52998224725", 9, 10) == 295
  {
  }

  lemma ValidCpfSecondSum()
    ensures WeightedSum("52998224725", 10, 11) == 347
  {
  }

  /** A CPF with correct check digits: 295 leaves 9 modulo 11 and 347 leaves
      6, so the check digits are 2 and 5. */
  lemma ValidCpfExample(cpf: Bytes)
    requires cpf == "52998224725"
    ensures Accepted(cpf)
  {
    assert '.' !in cpf && '-' !in cpf;
    assert Stripped(cpf) == cpf;
    ValidCpfFirstSum();
    ValidCpfSecondSum();
  }

  /** The same CPF with a wrong last digit is rejected. */
  lemma WrongCheckDigitExample(cpf: Bytes)
    requires cpf == "52998224726"
    ensures !Accepted(cpf)
  {
    assert '.' !in cpf && '-' !in cpf;
    assert Stripped(cpf) == cpf;
    WeightedSumByValues(cpf, "52998224725", 10, 11);
    ValidCpfFirstSum();
    ValidCpfSecondSum();
  }

  /** A letter among the first nine bytes is read as 0, so this passes. */
  lemma NonDigitQuirkExample(cpf: Bytes)
    requires cpf == "a0000000000"
    ensures Accepted(cpf)
  {
    assert '.' !in cpf && '-' !in cpf;
    assert Stripped(cpf) == cpf;
    WeightedSumOfRepeat(cpf, 9, 10, 0);
    WeightedSumOfRepeat(cpf, 10, 11, 0);
  }

  // ---------------------------------------------------------------------
  // E-mail masking
  // ---------------------------------------------------------------------

  function Min(a: nat, b: nat): nat {
    if a < b then a else b
  }

  /** The local part as shown: its first two bytes, then one '*' for each
      further byte. */
  function MaskLocal(local: Bytes): (m: Bytes)
    ensures |m| == |local|
    ensures m[..Min(|local|, 2)] == local[..Min(|local|, 2)]
    ensures forall i | 2 <= i < |local| :: m[i] == '*'
  {
    if |local| > 2 then local[..2] + Repeat('*', |local| - 2) else local
  }

  /** The shape of a masked address local@domain. */
  lemma MaskedShape(local: Bytes, domain: Bytes)
    requires '@' !in local && '@' !in domain
    ensures var email := local + ['@'] + domain;
      var r := MaskLocal(local) + ['@'] + domain;
      && |r| == |email|
      && multiset(r)['@'] == 1
      && IndexOf(email, '@') == |local|
      && r[|local|..] == email[|local|..]
      && r[..Min(|local|, 2)] == email[..Min(|local|, 2)]
      && forall i | 2 <= i < |local| :: r[i] == '*'
  {
    var email := local + ['@'] + domain;
    var masked := MaskLocal(local);
    assert '@' !in masked;
    assert forall i | 0 <= i < |local| :: email[i] == local[i];
    IndexOfUnique(email, '@', |local|);
    var inMasked: multiset<Byte> := multiset(masked);
    var inDomain: multiset<Byte> := multiset(domain);
    assert inMasked['@'] == 0 && inDomain['@'] == 0;
  }

  /** HideEmailPart: with exactly one '@', the local part keeps its first two
      bytes and the rest of it becomes '*'; the '@' and the domain are kept.
      Any other input is returned unchanged. The length never changes. */
  function HideEmailPart(email: Bytes): (r: Bytes)
    ensures |r| == |email|
    ensures multiset(r)['@'] == multiset(email)['@']
    ensures multiset(email)['@'] != 1 ==> r == email
    ensures multiset(email)['@'] == 1 ==>
      var k := IndexOf(email, '@');
      && r[k..] == email[k..]
      && r[..Min(k, 2)] == email[..Min(k, 2)]
      && forall i | 2 <= i < k :: r[i] == '*'
  {
    var parts := Split(email, '@');
    if |parts| != 2 then email
    else
      var local := parts[0];
      var domain := parts[1];
      assert email == local + ['@'] + domain by {
        assert parts[1..] == [domain];
      }
      MaskedShape(local, domain);
      MaskLocal(local) + ['@'] + domain
  }

  /** Two strings of one length that agree from k on, agree on their first
      Min(k, 2) bytes and both hold '*' at 2 .. k-1 are equal: the shape
      HideEmailPart promises determines its result. */
  lemma MaskDetermined(x: Bytes, y: Bytes, k: nat)
    requires |x| == |y| && k <= |x|
    requires x[k..] == y[k..] && x[..Min(k, 2)] == y[..Min(k, 2)]
    requires forall i | 2 <= i < k :: x[i] == '*' && y[i] == '*'
    ensures x == y
  {
    forall i | 0 <= i < |x| ensures x[i] == y[i] {
      if i >= k {
        assert x[i] == x[k..][i - k];
        assert y[i] == y[k..][i - k];
      } else if i < 2 {
        assert x[i] == x[..Min(k, 2)][i];
        assert y[i] == y[..Min(k, 2)][i];
      }
    }
  }

  /** Masking leaves the '@' where it was. */
  lemma HideEmailPartKeepsAt(email: Bytes)
    requires multiset(email)['@'] == 1
    ensures IndexOf(HideEmailPart(email), '@') == IndexOf(email, '@')
  {
    var r := HideEmailPart(email);
    var k := IndexOf(email, '@');
    assert '@' in email by {
      assert multiset(email)['@'] > 0;
    }
    assert r[k] == '@' by {
      assert r[k] == r[k..][0] == email[k..][0];
    }
    forall i | 0 <= i < k ensures r[i] != '@' {
      if i < 2 {
        assert r[i] == r[..Min(k, 2)][i] == email[..Min(k, 2)][i];
      }
    }
    IndexOfUnique(r, '@', k);
  }

  /** Masking twice is masking once. */
  lemma HideEmailPartIdempotent(email: Bytes)
    ensures HideEmailPart(HideEmailPart(email)) == HideEmailPart(email)
  {
    var r := HideEmailPart(email);
    if multiset(email)['@'] == 1 {
      HideEmailPartKeepsAt(email);
      MaskDetermined(HideEmailPart(r), r, IndexOf(email, '@'));
    }
  }

  /** A local part of two bytes or fewer is not masked. */
  lemma ShortLocalPartUnchanged(email: Bytes)
    requires IndexOf(email, '@') <= 2
    ensures HideEmailPart(email) == email
  {
    var r := HideEmailPart(email);
    if multiset(email)['@'] == 1 {
      var k := IndexOf(email, '@');
      assert r == r[..k] + r[k..];
      assert email == email[..k] + email[k..];
    }
  }

  lemma AtCountExample(email: Bytes)
    requires email == "john@mail.com"
    ensures multiset(email)['@'] == 1
  {
    assert email == "john" + ['@'] + "mail.com";
  }

  /** HideEmailPart gives the one string of the promised shape: so any
      string of that shape is its result. */
  lemma MaskMatches(email: Bytes, shown: Bytes)
    requires multiset(email)['@'] == 1
    requires var k := IndexOf(email, '@');
      && |shown| == |email| && shown[k..] == email[k..] && shown[..Min(k, 2)] == email[..Min(k, 2)]
      && forall i | 2 <= i < k :: shown[i] == '*'
    ensures HideEmailPart(email) == shown
  {
    MaskDetermined(HideEmailPart(email), shown, IndexOf(email, '@'));
  }

  /** The case of a four-byte local part. */
  lemma MaskedAtFour(email: Bytes, shown: Bytes)
    requires multiset(email)['@'] == 1 && IndexOf(email, '@') == 4
    requires |shown| == |email| && shown[4..] == email[4..] && shown[..2] == email[..2]
    requires shown[2] == '*' && shown[3] == '*'
    ensures HideEmailPart(email) == shown
  {
    assert Min(4, 2) == 2;
    assert forall i | 2 <= i < 4 :: shown[i] == '*';
    MaskMatches(email, shown);
  }

  lemma ShownExample(email: Bytes, shown: Bytes)
    requires email == "john@mail.com" && shown == "jo**@mail.com"
    ensures |shown| == |email| && shown[4..] == email[4..] && shown[..2] == email[..2]
    ensures shown[2] == '*' && shown[3] == '*'
  {
  }

  lemma AtIndexExample(email: Bytes)
    requires email == "john@mail.com"
    ensures IndexOf(email, '@') == 4
  {
    assert email[4] == '@' && forall i | 0 <= i < 4 :: email[i] != '@';
    IndexOfUnique(email, '@', 4);
  }

  /** "john@mail.com" is shown as "jo**@mail.com". */
  lemma HideEmailExample(email: Bytes, shown: Bytes)
    requires email == "john@mail.com" && shown == "jo**@mail.com"
    ensures HideEmailPart(email) == shown
  {
    AtCountExample(email);
    AtIndexExample(email);
    ShownExample(email, shown);
    MaskedAtFour(email, shown);
  }
}
