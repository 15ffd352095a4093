/**
 The encoding is the one of section 5 of RFC 4648: its symbols, as digits of the alphabet printed there,
 write the very number that the bytes write, followed by as many zero bits as fill the last symbol.
 */
module Base64Rfc {
  import opened Bytes
  import opened Base64Url

  const UPPER := "ABCDEFGHIJKLMNOPQRSTUVWXYZ"
  const LOWER := "abcdefghijklmnopqrstuvwxyz"
  const DIGITS_AND_MARKS := "0123456789-_"
  const ALPHABET := UPPER + LOWER + DIGITS_AND_MARKS

  /** Big-endian. */
  function Number(digits: seq<nat>, base: nat): nat {
    if digits == [] then 0 else Number(digits[..|digits| - 1], base) * base + digits[|digits| - 1]
  }

  /** The symbols are the digits, in the alphabet. */
  predicate Writes(s: seq<Byte>, digits: seq<nat>) {
    |s| == |digits| && forall i :: 0 <= i < |s| ==> digits[i] < 64 && s[i] == ALPHABET[digits[i]] as int
  }

  /** What the zero bits behind the last byte multiply the number by. */
  function Padding(n: nat): nat {
    if n % 3 == 0 then 1 else if n % 3 == 1 then 16 else 4
  }

  /** The text is the unpadded base64url encoding of the bytes. */
  ghost predicate IsEncodingOf(s: seq<Byte>, b: seq<Byte>) {
    && |s| == (4 * |b| + 2) / 3
    && exists digits :: Writes(s, digits) && Number(digits, 64) == Number(b, 256) * Padding(|b|)
  }

  // ----- numbers of concatenated digits -----

  function Power(base: nat, n: nat): nat {
    if n == 0 then 1 else Power(base, n - 1) * base
  }

  lemma {:induction false} NumberConcat(a: seq<nat>, b: seq<nat>, base: nat)
    ensures Number(a + b, base) == Number(a, base) * Power(base, |b|) + Number(b, base)
    decreases |b|
  {
    if b == [] {
      assert a + b == a;
    } else {
      var init := b[..|b| - 1];
      NumberConcat(a, init, base);
      assert (a + b)[..|a + b| - 1] == a + init;
      Distribute(Number(a, base), Power(base, |init|), Number(init, base), base);
    }
  }

  lemma Distribute(x: nat, p: nat, y: nat, base: nat)
    ensures (x * p + y) * base == x * (p * base) + y * base
  {
  }

  lemma AtMost(a: nat, b: nat, base: nat)
    requires a <= b
    ensures a * base <= b * base
  {
  }

  /** Digits of one length that write one number are the same digits. */
  lemma {:induction false} NumberDeterminesDigits(a: seq<nat>, b: seq<nat>, base: nat)
    requires base > 0 && |a| == |b| && Number(a, base) == Number(b, base)
    requires (forall i :: 0 <= i < |a| ==> a[i] < base) && forall i :: 0 <= i < |b| ==> b[i] < base
    ensures a == b
    decreases |a|
  {
    if a != [] {
      var n := |a| - 1;
      LastDigit(Number(a[..n], base), a[n], Number(b[..n], base), b[n], base);
      NumberDeterminesDigits(a[..n], b[..n], base);
      assert a == a[..n] + [a[n]] && b == b[..n] + [b[n]];
    }
  }

  lemma LastDigit(x: nat, p: nat, y: nat, q: nat, base: nat)
    requires p < base && q < base && x * base + p == y * base + q
    ensures x == y && p == q
  {
    Gap(x, y, base);
    Gap(y, x, base);
  }

  lemma Gap(x: nat, y: nat, base: nat)
    ensures x < y ==> x * base + base <= y * base
  {
    if x < y {
      AtMost(x + 1, y, base);
    }
  }

  // ----- one quantum -----

  lemma UpperLetters(v: nat)
    requires v < 26
    ensures UPPER[v] as int == 0x41 + v
  {
  }

  lemma LowerLetters(v: nat)
    requires v < 26
    ensures LOWER[v] as int == 0x61 + v
  {
  }

  lemma AlphabetIsSymbols(v: nat)
    requires v < 64
    ensures |ALPHABET| == 64 && ALPHABET[v] as int == Symbol(v)
  {
    if v < 26 {
      assert ALPHABET[v] == UPPER[v];
      UpperLetters(v);
    } else if v < 52 {
      assert ALPHABET[v] == LOWER[v - 26];
      LowerLetters(v - 26);
    } else {
      assert ALPHABET[v] == DIGITS_AND_MARKS[v - 52];
    }
  }

  lemma QuantumNumber(b: seq<Byte>)
    requires 1 <= |b| <= 3
    ensures Number(Sextets(b), 64) == Number(b, 256) * Padding(|b|)
  {
    hide Number, EncodeQuantum, Symbol, Sextets;
    if |b| == 3 {
      assert b == [b[0], b[1], b[2]];
      ThreeBytesNumber(b[0], b[1], b[2]);
    } else if |b| == 2 {
      assert b == [b[0], b[1]];
      TwoBytesNumber(b[0], b[1]);
    } else {
      assert b == [b[0]];
      OneByteNumber(b[0]);
    }
  }

  lemma OneByteNumber(x: Byte)
    ensures Number(Sextets([x]), 64) == Number([x], 256) * 16
  {
    hide Number, EncodeQuantum, Symbol;
    NumberOfFew([x], 256);
    NumberOfFew([x / 4, x % 4 * 16], 64);
  }

  lemma TwoBytesNumber(x: Byte, y: Byte)
    ensures Number(Sextets([x, y]), 64) == Number([x, y], 256) * 4
  {
    hide Number, EncodeQuantum, Symbol;
    NumberOfFew([x, y], 256);
    NumberOfFew([x / 4, x % 4 * 16 + y / 16, y % 16 * 4], 64);
    TwoBytes(x, y);
  }

  lemma ThreeBytesNumber(x: Byte, y: Byte, z: Byte)
    ensures Number(Sextets([x, y, z]), 64) == Number([x, y, z], 256)
  {
    hide Number, EncodeQuantum, Symbol;
    NumberOfFew([x, y, z], 256);
    NumberOfFew([x / 4, x % 4 * 16 + y / 16, y % 16 * 4 + z / 64, z % 64], 64);
    ThreeBytes(x, y, z);
  }

  lemma TwoBytes(x: Byte, y: Byte)
    ensures ((x / 4) * 64 + (x % 4 * 16 + y / 16)) * 64 + y % 16 * 4 == (x * 256 + y) * 4
  {
  }

  lemma ThreeBytes(x: Byte, y: Byte, z: Byte)
    ensures (((x / 4) * 64 + (x % 4 * 16 + y / 16)) * 64 + (y % 16 * 4 + z / 64)) * 64 + z % 64
         == (x * 256 + y) * 256 + z
  {
  }

  lemma NoDigits()
    ensures Number([], 64) == 0 && Number([], 256) == 0
  {
  }

  lemma NumberOfFew(d: seq<nat>, base: nat)
    ensures |d| == 1 ==> Number(d, base) == d[0]
    ensures |d| == 2 ==> Number(d, base) == d[0] * base + d[1]
    ensures |d| == 3 ==> Number(d, base) == (d[0] * base + d[1]) * base + d[2]
    ensures |d| == 4 ==> Number(d, base) == ((d[0] * base + d[1]) * base + d[2]) * base + d[3]
  {
    if 1 <= |d| <= 4 {
      var e := d[..|d| - 1];
      if |e| > 0 {
        var f := e[..|e| - 1];
        if |f| > 0 {
          var g := f[..|f| - 1];
          assert |g| > 0 ==> g[..|g| - 1] == [];
        }
      }
    }
  }

  lemma QuantumWrites(b: seq<Byte>)
    requires 1 <= |b| <= 3
    ensures Writes(EncodeQuantum(b), Sextets(b))
  {
    hide EncodeQuantum, Symbol;
    QuantumLength(b);
    var s, v := EncodeQuantum(b), Sextets(b);
    forall i | 0 <= i < |s| ensures v[i] < 64 && s[i] == ALPHABET[v[i]] as int {
      AlphabetIsSymbols(v[i]);
    }
  }

  // ----- the whole text -----

  lemma {:induction false} PowersAgree(n: nat)
    ensures Power(64, (4 * n + 2) / 3) == Power(256, n) * Padding(n)
  {
    if n < 3 {
      SmallPowers();
    } else {
      PowersAgree(n - 3);
      var m := (4 * (n - 3) + 2) / 3;
      assert (4 * n + 2) / 3 == m + 4;
      Steps(m, n - 3);
      hide Power;
      Regroup(Power(256, n - 3), Padding(n), 16777216);
    }
  }

  lemma SmallPowers()
    ensures Power(64, 0) == 1 && Power(64, 2) == 256 * 16 && Power(64, 3) == 65536 * 4
    ensures Power(256, 0) == 1 && Power(256, 1) == 256 && Power(256, 2) == 65536
  {
    assert Power(64, 1) == 64;
  }

  lemma Steps(m: nat, n: nat)
    ensures Power(64, m + 4) == Power(64, m) * 16777216
    ensures Power(256, n + 3) == Power(256, n) * 16777216
  {
    assert Power(64, m + 1) == Power(64, m) * 64 && Power(64, m + 2) == Power(64, m + 1) * 64;
    assert Power(64, m + 3) == Power(64, m + 2) * 64;
    assert Power(256, n + 1) == Power(256, n) * 256 && Power(256, n + 2) == Power(256, n + 1) * 256;
  }

  lemma Regroup(x: nat, p: nat, k: nat)
    ensures x * p * k == x * k * p
  {
  }

  /** The digits that the encoding writes. */
  function Digits(b: seq<Byte>): seq<nat> {
    if b == [] then [] else if |b| <= 3 then Sextets(b) else Sextets(b[..3]) + Digits(b[3..])
  }

  lemma {:induction false} EncodeWrites(b: seq<Byte>)
    ensures Writes(Encode(b), Digits(b))
    decreases |b|
  {
    hide EncodeQuantum, Sextets, Symbol;
    if 1 <= |b| <= 3 {
      QuantumWrites(b);
    } else if b != [] {
      QuantumWrites(b[..3]);
      EncodeWrites(b[3..]);
      WritesTwo(EncodeQuantum(b[..3]), Sextets(b[..3]), Encode(b[3..]), Digits(b[3..]));
    }
  }

  lemma WritesTwo(s: seq<Byte>, v: seq<nat>, t: seq<Byte>, w: seq<nat>)
    requires Writes(s, v) && Writes(t, w)
    ensures Writes(s + t, v + w)
  {
    hide ALPHABET;
  }

  lemma {:induction false} DigitsNumber(b: seq<Byte>)
    ensures |Digits(b)| == (4 * |b| + 2) / 3
    ensures Number(Digits(b), 64) == Number(b, 256) * Padding(|b|)
    decreases |b|
  {
    hide EncodeQuantum, Sextets, Symbol, Number;
    if b == [] {
      NoDigits();
    } else if |b| <= 3 {
      QuantumNumber(b);
    } else {
      QuantumNumber(b[..3]);
      DigitsNumber(b[3..]);
      NumberOfTwo(b[..3], Sextets(b[..3]), b[3..], Digits(b[3..]));
      assert b == b[..3] + b[3..];
    }
  }

  lemma NumberOfTwo(head: seq<nat>, v: seq<nat>, rest: seq<nat>, w: seq<nat>)
    requires |head| == 3 && |w| == (4 * |rest| + 2) / 3
    requires Number(v, 64) == Number(head, 256) && Number(w, 64) == Number(rest, 256) * Padding(|rest|)
    ensures Number(v + w, 64) == Number(head + rest, 256) * Padding(|rest|)
  {
    hide Number, Power;
    NumberConcat(head, rest, 256);
    NumberConcat(v, w, 64);
    PowersAgree(|rest|);
    Shift(Number(head, 256), Power(256, |rest|), Padding(|rest|), Number(rest, 256));
  }

  lemma Shift(x: nat, p: nat, k: nat, y: nat)
    ensures x * (p * k) + y * k == (x * p + y) * k
  {
  }

  /** `Encode` is the encoding of the standard, and nothing else is. */
  lemma EncodeIsTheEncoding(s: seq<Byte>, b: seq<Byte>)
    ensures s == Encode(b) <==> IsEncodingOf(s, b)
  {
    hide Number, Encode, Digits;
    EncodedLength(b);
    EncodeWrites(b);
    DigitsNumber(b);
    var v := Digits(b);
    if IsEncodingOf(s, b) {
      var w :| Writes(s, w) && Number(w, 64) == Number(b, 256) * Padding(|b|);
      NumberDeterminesDigits(v, w, 64);
      assert forall i :: 0 <= i < |s| ==> s[i] == Encode(b)[i];
    }
  }

  /** The shipped gate accepts exactly the encodings of the standard, each as the bytes it encodes. */
  lemma GateAcceptsTheStandard(s: seq<Byte>, b: seq<Byte>)
    ensures DecodeCanonical(s) == Some(b) <==> IsEncodingOf(s, b)
  {
    AcceptsExactlyEncodings(s, b);
    EncodeIsTheEncoding(s, b);
  }

  /** What the scan lets through is the alphabet. */
  lemma SymbolsAreTheAlphabet(c: Byte)
    ensures IsSymbol(c) <==> exists v: nat :: v < 64 && ALPHABET[v] as int == c
  {
    if IsSymbol(c) {
      AlphabetIsSymbols(Value(c));
    }
    if v: nat :| v < 64 && ALPHABET[v] as int == c {
      AlphabetIsSymbols(v);
      SymbolThenValue(v);
    }
  }
}
