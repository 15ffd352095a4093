/**
 The scalar values and the octet grammar of UTF-8 (sections 3 and 4 of RFC 3629), as the
 decoders of the terminal code use them: the size of the rune at the head of a byte string,
 its value, and the encoding that inverts both.
 */
module Utf8 {
  import opened Bytes

  predicate IsScalar(r: int) {
    0 <= r < 0xD800 || 0xE000 <= r <= 0x10FFFF
  }

  predicate IsContinuation(b: Byte) {
    0x80 <= b < 0xC0
  }

  /** How many continuation bytes a lead byte announces; 0 for a byte that leads no multi-byte rune. */
  function Continuations(lead: Byte): nat {
    if 0xC2 <= lead <= 0xDF then 1
    else if 0xE0 <= lead <= 0xEF then 2
    else if 0xF0 <= lead <= 0xF4 then 3
    else 0
  }

  /** The second octet, which also excludes overlong forms, surrogates and values above 0x10FFFF. */
  predicate SecondAllowed(lead: Byte, second: Byte) {
    IsContinuation(second)
    && (lead == 0xE0 ==> 0xA0 <= second)
    && (lead == 0xED ==> second < 0xA0)
    && (lead == 0xF0 ==> 0x90 <= second)
    && (lead == 0xF4 ==> second < 0x90)
  }

  /** Length of the well-formed rune at the head of s, 0 when there is none. */
  function RuneSize(s: seq<Byte>): (n: nat)
    ensures n <= |s| && n <= 4
  {
    if s == [] then 0
    else if s[0] < 0x80 then 1
    else
      var k := Continuations(s[0]);
      if k == 0 || |s| <= k || !SecondAllowed(s[0], s[1]) then 0
      else if k >= 2 && !IsContinuation(s[2]) then 0
      else if k == 3 && !IsContinuation(s[3]) then 0
      else k + 1
  }

  /** The payload bits of an octet: what is left above its tag. */
  function Payload(b: Byte, tag: int): int {
    b - tag
  }

  function RuneValue(s: seq<Byte>): int
    requires RuneSize(s) > 0
  {
    match RuneSize(s)
    case 1 => s[0]
    case 2 => Payload(s[0], 0xC0) * 64 + Payload(s[1], 0x80)
    case 3 => Payload(s[0], 0xE0) * 4096 + Payload(s[1], 0x80) * 64 + Payload(s[2], 0x80)
    case _ => Payload(s[0], 0xF0) * 262144 + Payload(s[1], 0x80) * 4096 + Payload(s[2], 0x80) * 64 + Payload(s[3], 0x80)
  }

  function Encode(r: int): (s: seq<Byte>)
    requires IsScalar(r)
    ensures 1 <= |s| <= 4
  {
    if r < 0x80 then [r]
    else if r < 0x800 then [0xC0 + r / 64, 0x80 + r % 64]
    else if r < 0x10000 then [0xE0 + r / 4096, 0x80 + r / 64 % 64, 0x80 + r % 64]
    else [0xF0 + r / 262144, 0x80 + r / 4096 % 64, 0x80 + r / 64 % 64, 0x80 + r % 64]
  }

  /** Every byte belongs to a well-formed rune. */
  predicate Valid(s: seq<Byte>) {
    s == [] || (RuneSize(s) > 0 && Valid(s[RuneSize(s)..]))
  }

  lemma DecodeThenEncode(s: seq<Byte>)
    requires RuneSize(s) > 0
    ensures IsScalar(RuneValue(s))
    ensures Encode(RuneValue(s)) == s[..RuneSize(s)]
  {
    match RuneSize(s)
    case 1 =>
    case 2 =>
      SplitDigit(Payload(s[0], 0xC0), Payload(s[1], 0x80));
    case 3 => DecodeThenEncode3(s);
    case _ => DecodeThenEncode4(s);
  }

  lemma DecodeThenEncode3(s: seq<Byte>)
    requires RuneSize(s) == 3
    ensures IsScalar(RuneValue(s)) && 0x800 <= RuneValue(s) < 0x10000
    ensures Encode(RuneValue(s)) == s[..3]
  {
    var high := Payload(s[0], 0xE0) * 64 + Payload(s[1], 0x80);
    SplitDigit(Payload(s[0], 0xE0), Payload(s[1], 0x80));
    SplitDigit(high, Payload(s[2], 0x80));
    assert RuneValue(s) == high * 64 + Payload(s[2], 0x80);
  }

  lemma DecodeThenEncode4(s: seq<Byte>)
    requires RuneSize(s) == 4
    ensures IsScalar(RuneValue(s)) && 0x10000 <= RuneValue(s)
    ensures Encode(RuneValue(s)) == s[..4]
  {
    var top := Payload(s[0], 0xF0) * 64 + Payload(s[1], 0x80);
    var high := top * 64 + Payload(s[2], 0x80);
    SplitDigit(Payload(s[0], 0xF0), Payload(s[1], 0x80));
    SplitDigit(top, Payload(s[2], 0x80));
    SplitDigit(high, Payload(s[3], 0x80));
    assert RuneValue(s) == high * 64 + Payload(s[3], 0x80);
  }

  lemma SplitDigit(high: int, low: int)
    requires 0 <= high && 0 <= low < 64
    ensures (high * 64 + low) / 64 == high
    ensures (high * 64 + low) % 64 == low
  {
  }

  /** Whatever follows an encoded rune, the decoder takes exactly that rune off the front. */
  lemma EncodeThenDecode(r: int, rest: seq<Byte>)
    requires IsScalar(r)
    ensures RuneSize(Encode(r) + rest) == |Encode(r)|
    ensures RuneValue(Encode(r) + rest) == r
  {
    var s := Encode(r) + rest;
    assert s[..|Encode(r)|] == Encode(r);
    forall i | 0 <= i < |Encode(r)| ensures s[i] == Encode(r)[i] { }
    var q := r / 64;
    var p := q / 64;
    assert r == q * 64 + r % 64 && q == p * 64 + q % 64;
    assert r / 4096 == p && r / 262144 == p / 64;
  }

  /** The rune at the head depends on its own bytes only. */
  lemma RuneIsLocal(s: seq<Byte>, k: nat)
    requires k <= |s|
    ensures RuneSize(s[..k]) > 0 ==> RuneSize(s) == RuneSize(s[..k]) && RuneValue(s) == RuneValue(s[..k])
    ensures 0 < RuneSize(s) <= k ==> RuneSize(s[..k]) == RuneSize(s)
  {
  }

  // ----- the grammar and the order of RFC 3629 -----

  predicate Tail(b: Byte) {
    0x80 <= b <= 0xBF
  }

  /** One rune is what the syntax of section 4 of RFC 3629 says, range by range. */
  lemma GrammarOfRfc3629(s: seq<Byte>)
    requires s != []
    ensures RuneSize(s) == |s| <==>
            || (|s| == 1 && s[0] <= 0x7F)
            || (|s| == 2 && 0xC2 <= s[0] <= 0xDF && Tail(s[1]))
            || (|s| == 3 && s[0] == 0xE0 && 0xA0 <= s[1] <= 0xBF && Tail(s[2]))
            || (|s| == 3 && 0xE1 <= s[0] <= 0xEC && Tail(s[1]) && Tail(s[2]))
            || (|s| == 3 && s[0] == 0xED && 0x80 <= s[1] <= 0x9F && Tail(s[2]))
            || (|s| == 3 && 0xEE <= s[0] <= 0xEF && Tail(s[1]) && Tail(s[2]))
            || (|s| == 4 && s[0] == 0xF0 && 0x90 <= s[1] <= 0xBF && Tail(s[2]) && Tail(s[3]))
            || (|s| == 4 && 0xF1 <= s[0] <= 0xF3 && Tail(s[1]) && Tail(s[2]) && Tail(s[3]))
            || (|s| == 4 && s[0] == 0xF4 && 0x80 <= s[1] <= 0x8F && Tail(s[2]) && Tail(s[3]))
  {
  }

  /**
   The bytes of encodings are ordered as the scalar values are. With the grammar above this leaves
   one encoding only.
   */
  lemma OrderIsPreserved(p: int, q: int) returns (i: nat)
    requires IsScalar(p) && IsScalar(q) && p < q
    ensures i < |Encode(p)| && i < |Encode(q)|
    ensures Encode(p)[..i] == Encode(q)[..i] && Encode(p)[i] < Encode(q)[i]
  {
    EncodedSizes(p);
    EncodedSizes(q);
    if |Encode(p)| < |Encode(q)| {
      LeadRanges(p);
      LeadRanges(q);
      i := 0;
    } else {
      i := SameSizeInOrder(p, q);
    }
  }

  lemma SameSizeInOrder(p: int, q: int) returns (i: nat)
    requires IsScalar(p) && IsScalar(q) && p < q && |Encode(p)| == |Encode(q)|
    ensures i < |Encode(p)| && Encode(p)[..i] == Encode(q)[..i] && Encode(p)[i] < Encode(q)[i]
  {
    var p1, p2, p3 := p / 64, p / 4096, p / 262144;
    var q1, q2, q3 := q / 64, q / 4096, q / 262144;
    assert p1 / 64 == p2 && q1 / 64 == q2 && p2 / 64 == p3 && q2 / 64 == q3;
    HigherDigits(p, q);
    HigherDigits(p1, q1);
    HigherDigits(p2, q2);
    var n := |Encode(p)|;
    if n == 1 {
      i := 0;
    } else if n == 2 {
      i := if p1 < q1 then 0 else 1;
    } else if n == 3 {
      i := if p2 < q2 then 0 else if p1 < q1 then 1 else 2;
    } else {
      i := if p3 < q3 then 0 else if p2 < q2 then 1 else if p1 < q1 then 2 else 3;
    }
  }

  lemma LeadRanges(r: int)
    requires IsScalar(r)
    ensures var lead := Encode(r)[0];
            if r < 0x80 then lead < 0x80
            else if r < 0x800 then 0x80 <= lead < 0xE0
            else if r < 0x10000 then 0xE0 <= lead < 0xF0
            else 0xF0 <= lead
  {
  }

  /** Of two numbers in order the higher digits are in order, and where these agree the last digits are. */
  lemma HigherDigits(p: int, q: int)
    requires 0 <= p <= q
    ensures p / 64 <= q / 64
    ensures p / 64 == q / 64 ==> p % 64 <= q % 64 && (p < q ==> p % 64 < q % 64)
  {
  }

  /** Exactly the values below 0x80, 0x800 and 0x10000 take one, two and three bytes. */
  lemma EncodedSizes(r: int)
    requires IsScalar(r)
    ensures |Encode(r)| == if r < 0x80 then 1 else if r < 0x800 then 2 else if r < 0x10000 then 3 else 4
  {
  }

  predicate IsAscii(s: seq<Byte>) {
    forall i :: 0 <= i < |s| ==> s[i] < 0x80
  }

  lemma AsciiIsValid(s: seq<Byte>)
    requires IsAscii(s)
    ensures Valid(s)
  {
    if s != [] {
      AsciiIsValid(s[1..]);
    }
  }
}
