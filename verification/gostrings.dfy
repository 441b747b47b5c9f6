/**
 * Byte strings, and the functions of Go's `strings` package that the core calls:
 * TrimSpace, ReplaceAll (with an empty replacement), Split, Join, Repeat, Index.
 * Go strings are byte sequences; `len` and indexing count bytes.
 */
module GoStrings {
  /** A byte. It is written as the character with the same code so that ASCII
      literals read naturally; text outside ASCII appears as its UTF-8 bytes. */
  type Byte = ch: char | ch as int < 256 witness ' '

  type Bytes = seq<Byte>

  /** `\d` in Go's regexp syntax and the digits `strconv.Atoi` accepts: ASCII only. */
  predicate IsDigit(b: Byte) {
    '0' <= b <= '9'
  }

  /** The ASCII white space that `strings.TrimSpace` removes: tab, newline,
      vertical tab, form feed, carriage return and space. */
  predicate IsSpace(b: Byte) {
    b == ' ' || b == '\t' || b == '\n' || b == '\U{0B}' || b == '\U{0C}' || b == '\r'
  }

  ghost predicate AllSpace(s: Bytes) {
    forall k | 0 <= k < |s| :: IsSpace(s[k])
  }

  /** Neither the first nor the last byte is white space. */
  predicate NoOuterSpace(s: Bytes) {
    s == [] || (!IsSpace(s[0]) && !IsSpace(s[|s| - 1]))
  }

  /** r occurs in s at i, with only white space before and after it. */
  ghost predicate TrimmedAt(s: Bytes, i: nat, r: Bytes) {
    && i + |r| <= |s|
    && s[i..i + |r|] == r
    && AllSpace(s[..i])
    && AllSpace(s[i + |r|..])
  }

  /** Length of the white-space prefix of s. */
  function LeadingSpaces(s: Bytes): (n: nat)
    ensures n <= |s|
    ensures AllSpace(s[..n])
    ensures n < |s| ==> !IsSpace(s[n])
  {
    if s != [] && IsSpace(s[0]) then 1 + LeadingSpaces(s[1..]) else 0
  }

  /** Length of the white-space suffix of s. */
  function TrailingSpaces(s: Bytes): (n: nat)
    ensures n <= |s|
    ensures AllSpace(s[|s| - n..])
    ensures n < |s| ==> !IsSpace(s[|s| - n - 1])
  {
    if s != [] && IsSpace(s[|s| - 1]) then 1 + TrailingSpaces(s[..|s| - 1]) else 0
  }

  /** strings.TrimSpace: s without its leading and trailing white space. */
  function TrimSpace(s: Bytes): (r: Bytes)
    ensures NoOuterSpace(r)
    ensures TrimmedAt(s, LeadingSpaces(s), r)
  {
    var t := s[LeadingSpaces(s)..];
    t[..|t| - TrailingSpaces(t)]
  }

  /** TrimSpace is the only function with its contract: any r free of outer
      white space that s surrounds with white space only is TrimSpace(s). */
  lemma {:induction false} TrimSpaceUnique(s: Bytes, i: nat, r: Bytes)
    requires NoOuterSpace(r) && TrimmedAt(s, i, r)
    ensures r == TrimSpace(s)
  {
    var a := LeadingSpaces(s);
    var t := TrimSpace(s);
    if r != [] {
      assert s[i] == r[0];
    }
  }

  /** Text without outer white space is left as it is. */
  lemma TrimSpaceOfTrimmed(s: Bytes)
    requires NoOuterSpace(s)
    ensures TrimSpace(s) == s
  {
    assert TrimmedAt(s, 0, s);
    TrimSpaceUnique(s, 0, s);
  }

  /** Trimming twice is trimming once. */
  lemma TrimSpaceIdempotent(s: Bytes)
    ensures TrimSpace(TrimSpace(s)) == TrimSpace(s)
  {
    var r := TrimSpace(s);
    assert TrimmedAt(r, 0, r);
    TrimSpaceUnique(r, 0, r);
  }

  /** Surrounding tabs, spaces and line breaks go; inner spaces stay. */
  lemma TrimSpaceExample(s: Bytes)
    requires s == " \tWidget Pro \r\n"
    ensures TrimSpace(s) == "Widget Pro"
  {
    var r: Bytes := "Widget Pro";
    assert s[2..12] == r;
    assert AllSpace(s[..2]) && AllSpace(s[12..]);
    TrimSpaceUnique(s, 2, r);
  }

  /** strings.ReplaceAll(s, string(c), ""): s with every c removed. */
  function RemoveAll(s: Bytes, c: Byte): (r: Bytes)
    ensures c !in r
    ensures c !in s ==> r == s
  {
    if s == [] then []
    else if s[0] == c then RemoveAll(s[1..], c)
    else [s[0]] + RemoveAll(s[1..], c)
  }

  /** Removing bytes adds no byte that was not there. */
  lemma {:induction false} RemoveAllKeepsAbsent(s: Bytes, c: Byte, d: Byte)
    requires d !in s
    ensures d !in RemoveAll(s, c)
  {
    if s != [] {
      assert d !in s[1..] by {
        assert forall i | 0 <= i < |s[1..]| :: s[1..][i] == s[i + 1];
      }
      RemoveAllKeepsAbsent(s[1..], c, d);
    }
  }

  /** Removal distributes over concatenation. */
  lemma {:induction false} RemoveAllConcat(a: Bytes, b: Bytes, c: Byte)
    ensures RemoveAll(a + b, c) == RemoveAll(a, c) + RemoveAll(b, c)
  {
    if a == [] {
      assert a + b == b;
    } else {
      assert (a + b)[0] == a[0] && (a + b)[1..] == a[1..] + b;
      RemoveAllConcat(a[1..], b, c);
    }
  }

  /** strings.Index for a one-byte separator, with |s| standing for "absent". */
  function IndexOf(s: Bytes, c: Byte): (k: nat)
    ensures k <= |s|
    ensures forall i | 0 <= i < k :: s[i] != c
    ensures k < |s| ==> s[k] == c
  {
    if s == [] then 0
    else if s[0] == c then 0
    else 1 + IndexOf(s[1..], c)
  }

  /** The first occurrence is the one IndexOf reports. */
  lemma IndexOfUnique(s: Bytes, c: Byte, k: nat)
    requires k < |s| && s[k] == c && forall i | 0 <= i < k :: s[i] != c
    ensures IndexOf(s, c) == k
  {
  }

  /** strings.Join with a one-byte separator. */
  function Join(parts: seq<Bytes>, sep: Byte): Bytes {
    if parts == [] then []
    else if |parts| == 1 then parts[0]
    else parts[0] + [sep] + Join(parts[1..], sep)
  }

  /** strings.Split with a one-byte separator: the pieces between separators,
      one more piece than there are separators; Join puts s back together. */
  function Split(s: Bytes, sep: Byte): (parts: seq<Bytes>)
    ensures |parts| == multiset(s)[sep] + 1
    ensures forall k | 0 <= k < |parts| :: sep !in parts[k]
    ensures Join(parts, sep) == s
    decreases |s|
  {
    var k := IndexOf(s, sep);
    if k == |s| then
      SplitNone(s, sep);
      [s]
    else
      var head, tail := s[..k], s[k + 1..];
      assert sep !in head;
      var rest := Split(tail, sep);
      SplitCons(s, sep, head, tail, rest);
      [head] + rest
  }

  /** Without a separator, s is its only piece. */
  lemma SplitNone(s: Bytes, sep: Byte)
    requires sep !in s
    ensures |[s]| == multiset(s)[sep] + 1
    ensures Join([s], sep) == s
  {
    var inS: multiset<Byte> := multiset(s);
    assert inS[sep] == 0;
  }

  /** The pieces of s are its separator-free head followed by the pieces of
      what follows the first separator. */
  lemma SplitCons(s: Bytes, sep: Byte, head: Bytes, tail: Bytes, rest: seq<Bytes>)
    requires sep !in head && s == head + [sep] + tail
    requires |rest| == multiset(tail)[sep] + 1
    requires forall k | 0 <= k < |rest| :: sep !in rest[k]
    requires Join(rest, sep) == tail
    ensures |[head] + rest| == multiset(s)[sep] + 1
    ensures forall k | 0 <= k < |[head] + rest| :: sep !in ([head] + rest)[k]
    ensures Join([head] + rest, sep) == s
  {
    SeparatorCount(head, tail, sep);
    JoinCons(head, rest, sep);
  }

  /** Join of a first part and at least one more. */
  lemma JoinCons(head: Bytes, rest: seq<Bytes>, sep: Byte)
    requires rest != []
    ensures Join([head] + rest, sep) == head + [sep] + Join(rest, sep)
  {
    assert ([head] + rest)[1..] == rest;
  }

  /** One separator after a separator-free head adds one to the count. */
  lemma SeparatorCount(head: Bytes, tail: Bytes, sep: Byte)
    requires sep !in head
    ensures multiset(head + [sep] + tail)[sep] == multiset(tail)[sep] + 1
  {
    var inHead: multiset<Byte> := multiset(head);
    assert inHead[sep] == 0;
    assert multiset(head + [sep] + tail) == inHead + multiset([sep]) + multiset(tail);
  }

  /** strings.Repeat(string(b), n). */
  function Repeat(b: Byte, n: nat): (r: Bytes)
    ensures |r| == n && forall i | 0 <= i < n :: r[i] == b
  {
    seq(n, _ => b)
  }
}
