/**
 Unpadded base64url (section 5 of RFC 4648), the lenient decoder the standard library offers, and
 the gate that accepts exactly one spelling of every byte string.
 */
module Base64Url {
  import opened Bytes

  function Symbol(v: nat): Byte
    requires v < 64
  {
    if v < 26 then 0x41 + v
    else if v < 52 then 0x61 + (v - 26)
    else if v < 62 then 0x30 + (v - 52)
    else if v == 62 then 0x2d
    else 0x5f
  }

  predicate IsSymbol(c: Byte) {
    0x61 <= c <= 0x7a || 0x41 <= c <= 0x5a || 0x30 <= c <= 0x39 || c == 0x2d || c == 0x5f
  }

  function Value(c: Byte): (v: nat)
    requires IsSymbol(c)
    ensures v < 64 && Symbol(v) == c
  {
    if 0x41 <= c <= 0x5a then c - 0x41
    else if 0x61 <= c <= 0x7a then c - 0x61 + 26
    else if 0x30 <= c <= 0x39 then c - 0x30 + 52
    else if c == 0x2d then 62
    else 63
  }

  lemma SymbolThenValue(v: nat)
    requires v < 64
    ensures IsSymbol(Symbol(v)) && Value(Symbol(v)) == v
  {
  }

  // ----- one quantum: up to three bytes, up to four symbols -----

  function EncodeQuantum(b: seq<Byte>): seq<Byte>
    requires 1 <= |b| <= 3
  {
    var head := Symbol(b[0] / 4);
    if |b| == 1 then [head, Symbol(b[0] % 4 * 16)]
    else if |b| == 2 then [head, Symbol(b[0] % 4 * 16 + b[1] / 16), Symbol(b[1] % 16 * 4)]
    else [head, Symbol(b[0] % 4 * 16 + b[1] / 16), Symbol(b[1] % 16 * 4 + b[2] / 64), Symbol(b[2] % 64)]
  }

  function Encode(b: seq<Byte>): seq<Byte> {
    if |b| == 0 then []
    else if |b| <= 3 then EncodeQuantum(b)
    else EncodeQuantum(b[..3]) + Encode(b[3..])
  }

  /** The bytes of two to four symbol values; strict refuses unused bits that are not zero. */
  function DecodeQuantum(v: seq<nat>, strict: bool): Option<seq<Byte>>
    requires 2 <= |v| <= 4 && forall i :: 0 <= i < |v| ==> v[i] < 64
  {
    var b0 := v[0] * 4 + v[1] / 16;
    if |v| == 2 then
      if strict && v[1] % 16 != 0 then None else Some([b0])
    else
      var b1 := v[1] % 16 * 16 + v[2] / 4;
      if |v| == 3 then
        if strict && v[2] % 4 != 0 then None else Some([b0, b1])
      else Some([b0, b1, v[2] % 4 * 64 + v[3]])
  }

  predicate AllSymbols(s: seq<Byte>) {
    forall i :: 0 <= i < |s| ==> IsSymbol(s[i])
  }

  function Values(s: seq<Byte>): (v: seq<nat>)
    requires AllSymbols(s)
    ensures |v| == |s| && forall i :: 0 <= i < |s| ==> v[i] == Value(s[i])
  {
    seq(|s|, i requires 0 <= i < |s| => Value(s[i]))
  }

  /** Decoding of symbols alone. */
  function DecodeSymbols(s: seq<Byte>, strict: bool): Option<seq<Byte>>
    requires AllSymbols(s)
  {
    if |s| == 0 then Some([])
    else if |s| == 1 then None
    else if |s| <= 4 then DecodeQuantum(Values(s), strict)
    else
      match DecodeSymbols(s[4..], strict)
      case None => None
      case Some(rest) => Some(DecodeQuantum(Values(s[..4]), strict).value + rest)
  }

  function WithoutLineBreaks(s: seq<Byte>): seq<Byte> {
    if s == [] then []
    else (if s[0] == CR || s[0] == LF then [] else [s[0]]) + WithoutLineBreaks(s[1..])
  }

  /** The standard library's unpadded decoder: it skips CR and LF even when strict. */
  function LibraryDecode(s: seq<Byte>, strict: bool): Option<seq<Byte>> {
    var symbols := WithoutLineBreaks(s);
    if AllSymbols(symbols) then DecodeSymbols(symbols, strict) else None
  }

  // ----- encoding is inverted by every decoder above -----

  /** The symbol values an encoded quantum spells. */
  function Sextets(b: seq<Byte>): (v: seq<nat>)
    requires 1 <= |b| <= 3
    ensures |v| == |b| + 1 && forall i :: 0 <= i < |v| ==> v[i] < 64 && EncodeQuantum(b)[i] == Symbol(v[i])
  {
    var head := b[0] / 4;
    if |b| == 1 then [head, b[0] % 4 * 16]
    else if |b| == 2 then [head, b[0] % 4 * 16 + b[1] / 16, b[1] % 16 * 4]
    else [head, b[0] % 4 * 16 + b[1] / 16, b[1] % 16 * 4 + b[2] / 64, b[2] % 64]
  }

  lemma SextetsDecode(b: seq<Byte>, strict: bool)
    requires 1 <= |b| <= 3
    ensures DecodeQuantum(Sextets(b), strict) == Some(b)
  {
    Split16(b[0] % 4, if |b| == 1 then 0 else b[1] / 16);
    if |b| > 1 {
      Split4(b[1] % 16, if |b| == 2 then 0 else b[2] / 64);
      Recombine(b[1]);
    }
    assert b == if |b| == 1 then [b[0]] else if |b| == 2 then [b[0], b[1]] else [b[0], b[1], b[2]];
  }

  lemma Split16(high: nat, low: nat)
    requires low < 16
    ensures (high * 16 + low) / 16 == high && (high * 16 + low) % 16 == low
  {
  }

  lemma Split4(high: nat, low: nat)
    requires low < 4
    ensures (high * 4 + low) / 4 == high && (high * 4 + low) % 4 == low
  {
  }

  lemma Recombine(b: Byte)
    ensures b / 16 * 16 + b % 16 == b
  {
  }

  lemma QuantumRoundTrip(b: seq<Byte>, strict: bool)
    requires 1 <= |b| <= 3
    ensures |EncodeQuantum(b)| == |b| + 1 && AllSymbols(EncodeQuantum(b))
    ensures DecodeQuantum(Values(EncodeQuantum(b)), strict) == Some(b)
  {
    hide EncodeQuantum, DecodeQuantum, Symbol, Value;
    var s, v := EncodeQuantum(b), Sextets(b);
    QuantumLength(b);
    forall i | 0 <= i < |s| ensures IsSymbol(s[i]) && Value(s[i]) == v[i] {
      SymbolThenValue(v[i]);
    }
    assert Values(s) == v;
    SextetsDecode(b, strict);
  }

  lemma QuantumLength(b: seq<Byte>)
    requires 1 <= |b| <= 3
    ensures |EncodeQuantum(b)| == |b| + 1
  {
  }

  lemma {:induction false} EncodeThenDecode(b: seq<Byte>, strict: bool)
    ensures AllSymbols(Encode(b)) && |Encode(b)| % 4 != 1
    ensures DecodeSymbols(Encode(b), strict) == Some(b)
    decreases |b|
  {
    hide EncodeQuantum, DecodeQuantum, Value, Symbol;
    if 0 < |b| <= 3 {
      QuantumRoundTrip(b, strict);
    } else if |b| > 3 {
      var head, tail := EncodeQuantum(b[..3]), Encode(b[3..]);
      QuantumRoundTrip(b[..3], strict);
      EncodeThenDecode(b[3..], strict);
      var s := head + tail;
      assert s[..4] == head && s[4..] == tail;
      assert b == b[..3] + b[3..];
      assert tail != [];
    }
  }

  lemma NothingToStrip(s: seq<Byte>)
    requires AllSymbols(s)
    ensures WithoutLineBreaks(s) == s
  {
    if s != [] {
      NothingToStrip(s[1..]);
    }
  }

  lemma LibraryInvertsEncode(b: seq<Byte>, strict: bool)
    ensures LibraryDecode(Encode(b), strict) == Some(b)
  {
    EncodeThenDecode(b, strict);
    NothingToStrip(Encode(b));
  }

  /** No two byte strings share a spelling. */
  lemma EncodeIsInjective(a: seq<Byte>, b: seq<Byte>)
    requires Encode(a) == Encode(b)
    ensures a == b
  {
    EncodeThenDecode(a, true);
    EncodeThenDecode(b, true);
  }

  /** How long an encoding is, and which lengths occur. */
  lemma {:induction false} EncodedLength(b: seq<Byte>)
    ensures |Encode(b)| == (4 * |b| + 2) / 3
    decreases |b|
  {
    if |b| > 3 {
      EncodedLength(b[3..]);
    }
  }

  // ----- the gate -----

  /** What the gate makes of any inner decoder: its result only when it re-encodes to the input. */
  function Gate(inner: seq<Byte> -> Option<seq<Byte>>, s: seq<Byte>): Option<seq<Byte>> {
    if |s| % 4 != 1 && AllSymbols(s) && inner(s).Some? && Encode(inner(s).value) == s then inner(s) else None
  }

  function StrictLibrary(): seq<Byte> -> Option<seq<Byte>> {
    (s: seq<Byte>) => LibraryDecode(s, true)
  }

  /** The function every link, token and blob is decoded by. */
  function DecodeCanonical(s: seq<Byte>): Option<seq<Byte>> {
    Gate(StrictLibrary(), s)
  }

  /** However lenient the inner decoder, what passes is the encoding of what comes out. */
  lemma GateIsCanonical(inner: seq<Byte> -> Option<seq<Byte>>, s: seq<Byte>, b: seq<Byte>)
    ensures Gate(inner, s) == Some(b) ==> Encode(b) == s
    ensures inner(s) == Some(b) && Encode(b) == s ==> Gate(inner, s) == Some(b)
  {
    EncodeThenDecode(b, true);
  }

  /** The shipped gate accepts exactly the encodings, each as the bytes it encodes. */
  lemma AcceptsExactlyEncodings(s: seq<Byte>, b: seq<Byte>)
    ensures DecodeCanonical(s) == Some(b) <==> Encode(b) == s
  {
    GateIsCanonical(StrictLibrary(), s, b);
    if Encode(b) == s {
      LibraryInvertsEncode(b, true);
    }
  }

  /** A 32-byte credential is exactly an accepted text of 43 characters. */
  lemma CredentialLength(s: seq<Byte>)
    requires DecodeCanonical(s).Some?
    ensures |DecodeCanonical(s).value| == 32 <==> |s| == 43
  {
    var b := DecodeCanonical(s).value;
    AcceptsExactlyEncodings(s, b);
    EncodedLength(b);
  }

  // ----- what the library alone would accept -----

  /** Two to four symbols decode strictly only to the bytes whose encoding they are. */
  lemma QuantumIsExact(s: seq<Byte>, b: seq<Byte>)
    requires 2 <= |s| <= 4 && AllSymbols(s) && DecodeQuantum(Values(s), true) == Some(b)
    ensures |b| == |s| - 1 && EncodeQuantum(b) == s
  {
    hide Symbol, Value, EncodeQuantum;
    var v := Values(s);
    StrictQuantum(v, b);
    var t := EncodeQuantum(b);
    QuantumLength(b);
    assert forall i :: 0 <= i < |s| ==> t[i] == Symbol(v[i]) && Symbol(Value(s[i])) == s[i];
  }

  lemma StrictQuantum(v: seq<nat>, b: seq<Byte>)
    requires 2 <= |v| <= 4 && (forall i :: 0 <= i < |v| ==> v[i] < 64) && DecodeQuantum(v, true) == Some(b)
    ensures |b| == |v| - 1 && Sextets(b) == v
  {
    hide EncodeQuantum;
    Split4(v[0], v[1] / 16);
    Split16Parts(v[1]);
    if |v| > 2 {
      Split16(v[1] % 16, v[2] / 4);
      Split4Parts(v[2]);
    }
    if |v| > 3 {
      Split64(v[2] % 4, v[3]);
    }
  }

  lemma Split16Parts(v: nat)
    requires v < 64
    ensures v / 16 < 4 && v / 16 * 16 + v % 16 == v
  {
  }

  lemma Split4Parts(v: nat)
    requires v < 64
    ensures v / 4 < 16 && v / 4 * 4 + v % 4 == v
  {
  }

  lemma Split64(high: nat, low: nat)
    requires low < 64
    ensures (high * 64 + low) / 64 == high && (high * 64 + low) % 64 == low
  {
  }

  /** Of symbols alone the strict decoder accepts exactly the encodings. */
  lemma {:induction false} StrictIsExact(s: seq<Byte>, b: seq<Byte>)
    requires AllSymbols(s)
    ensures DecodeSymbols(s, true) == Some(b) <==> Encode(b) == s
    decreases |s|
  {
    hide EncodeQuantum, DecodeQuantum, Value, Symbol;
    EncodeThenDecode(b, true);
    if DecodeSymbols(s, true) == Some(b) {
      if 2 <= |s| <= 4 {
        QuantumIsExact(s, b);
      } else if |s| > 4 {
        FourSymbols(s[..4]);
        var head, rest := DecodeQuantum(Values(s[..4]), true).value, DecodeSymbols(s[4..], true).value;
        QuantumIsExact(s[..4], head);
        StrictIsExact(s[4..], rest);
        assert rest != [];
        assert (head + rest)[..3] == head && (head + rest)[3..] == rest;
        assert s == s[..4] + s[4..];
      }
    }
  }

  /** Four symbols have no unused bits: both modes take them, as the same three bytes. */
  lemma FourSymbols(s: seq<Byte>)
    requires |s| == 4 && AllSymbols(s)
    ensures DecodeQuantum(Values(s), true).Some? && |DecodeQuantum(Values(s), true).value| == 3
    ensures DecodeQuantum(Values(s), false) == DecodeQuantum(Values(s), true)
  {
  }

  /** The bits of the last symbol that belong to no byte. */
  function SpareBits(s: seq<Byte>): nat
    requires AllSymbols(s)
  {
    if |s| % 4 == 2 then Value(s[|s| - 1]) % 16 else if |s| % 4 == 3 then Value(s[|s| - 1]) % 4 else 0
  }

  /** The same symbols with those bits zero. */
  function Cleared(s: seq<Byte>): (r: seq<Byte>)
    requires AllSymbols(s)
    ensures |r| == |s| && AllSymbols(r)
    ensures s != [] ==> Value(r[|s| - 1]) == Value(s[|s| - 1]) - SpareBits(s) && r[..|s| - 1] == s[..|s| - 1]
    ensures r == s <==> SpareBits(s) == 0
  {
    if s == [] then s
    else
      var v := Value(s[|s| - 1]) - SpareBits(s);
      SymbolThenValue(v);
      s[..|s| - 1] + [Symbol(v)]
  }

  lemma ClearedQuantum(s: seq<Byte>)
    requires 2 <= |s| <= 4 && AllSymbols(s)
    ensures DecodeQuantum(Values(s), false) == DecodeQuantum(Values(Cleared(s)), true)
    ensures DecodeQuantum(Values(s), false).Some?
  {
    hide Value, Symbol, Cleared;
    var t := Cleared(s);
    forall i | 0 <= i < |s| - 1 ensures Values(t)[i] == Values(s)[i] {
      assert t[i] == t[..|s| - 1][i] == s[..|s| - 1][i] == s[i];
    }
  }

  /** The lenient decoder reads symbols as the strict one reads them without their unused bits. */
  lemma {:induction false} LenientClears(s: seq<Byte>)
    requires AllSymbols(s)
    ensures DecodeSymbols(s, false) == DecodeSymbols(Cleared(s), true)
    ensures DecodeSymbols(s, false).Some? <==> |s| % 4 != 1
    decreases |s|
  {
    hide DecodeQuantum, Value, Symbol, Cleared, DecodeSymbols;
    var t := Cleared(s);
    DecodeFront(s, false);
    DecodeFront(t, true);
    if 2 <= |s| <= 4 {
      ClearedQuantum(s);
    } else if |s| > 4 {
      ClearedTail(s);
      LenientClears(s[4..]);
      FourSymbols(s[..4]);
    }
  }

  /** How the decoder takes the first quantum. */
  lemma DecodeFront(s: seq<Byte>, strict: bool)
    requires AllSymbols(s)
    ensures |s| == 0 ==> DecodeSymbols(s, strict) == Some([])
    ensures |s| == 1 ==> DecodeSymbols(s, strict) == None
    ensures 2 <= |s| <= 4 ==> DecodeSymbols(s, strict) == DecodeQuantum(Values(s), strict)
    ensures |s| > 4 ==>
              DecodeSymbols(s, strict) == Behind(DecodeQuantum(Values(s[..4]), strict), DecodeSymbols(s[4..], strict))
  {
    hide DecodeQuantum;
    if |s| > 4 {
      FourSymbols(s[..4]);
    }
  }

  function Behind(head: Option<seq<Byte>>, rest: Option<seq<Byte>>): Option<seq<Byte>> {
    if head.Some? && rest.Some? then Some(head.value + rest.value) else None
  }

  lemma ClearedTail(s: seq<Byte>)
    requires |s| > 4 && AllSymbols(s)
    ensures Cleared(s)[..4] == s[..4] && Cleared(s)[4..] == Cleared(s[4..])
  {
    var rest, t := s[4..], Cleared(s);
    SpareTail(s);
    hide Value, Symbol, SpareBits;
    assert t[..|s| - 1][..4] == t[..4] && s[..|s| - 1][..4] == s[..4];
    assert t[..|s| - 1][4..] == t[4..][..|rest| - 1] && s[..|s| - 1][4..] == rest[..|rest| - 1];
    assert t[|s| - 1] == Cleared(rest)[|rest| - 1];
  }

  lemma SpareTail(s: seq<Byte>)
    requires |s| > 4 && AllSymbols(s)
    ensures SpareBits(s[4..]) == SpareBits(s) && s[4..][|s| - 5] == s[|s| - 1]
  {
    hide Value;
    assert |s[4..]| % 4 == |s| % 4;
  }

  predicate NoLineBreaks(s: seq<Byte>) {
    forall i :: 0 <= i < |s| ==> s[i] != CR && s[i] != LF
  }

  lemma {:induction false} StrippingChanges(s: seq<Byte>)
    ensures |WithoutLineBreaks(s)| <= |s|
    ensures WithoutLineBreaks(s) == s <==> NoLineBreaks(s)
  {
    if s != [] {
      StrippingChanges(s[1..]);
      assert s == [s[0]] + s[1..];
      if NoLineBreaks(s[1..]) && s[0] != CR && s[0] != LF {
        assert NoLineBreaks(s);
      }
    }
  }

  /**
   The strict library decoder accepts exactly the texts that are an encoding once their line breaks
   are dropped. So among what it accepts, its result is the canonical one exactly without line breaks.
   */
  lemma StrictLibrarySkipsLineBreaks(s: seq<Byte>, b: seq<Byte>)
    ensures LibraryDecode(s, true) == Some(b) <==> WithoutLineBreaks(s) == Encode(b)
    ensures LibraryDecode(s, true) == Some(b) ==> (DecodeCanonical(s) == Some(b) <==> NoLineBreaks(s))
  {
    hide Encode, DecodeSymbols;
    var symbols := WithoutLineBreaks(s);
    StrippingChanges(s);
    EncodeThenDecode(b, true);
    if AllSymbols(symbols) {
      StrictIsExact(symbols, b);
    }
    AcceptsExactlyEncodings(s, b);
  }

  /**
   The lenient library decoder accepts exactly the texts that are an encoding once their line breaks
   are dropped and their unused bits are cleared. So its result is the canonical one exactly with no
   line breaks and no unused bit set.
   */
  lemma LenientLibraryDropsBits(s: seq<Byte>, b: seq<Byte>)
    ensures LibraryDecode(s, false) == Some(b)
       <==> AllSymbols(WithoutLineBreaks(s)) && Cleared(WithoutLineBreaks(s)) == Encode(b)
    ensures LibraryDecode(s, false) == Some(b)
        ==> (DecodeCanonical(s) == Some(b) <==> NoLineBreaks(s) && SpareBits(WithoutLineBreaks(s)) == 0)
  {
    hide Encode, DecodeSymbols, Cleared, SpareBits;
    var symbols := WithoutLineBreaks(s);
    StrippingChanges(s);
    if AllSymbols(symbols) {
      LenientClears(symbols);
      StrictIsExact(Cleared(symbols), b);
    }
    AcceptsExactlyEncodings(s, b);
    if Encode(b) == s {
      LibraryInvertsEncode(b, true);
      StrictLibrarySkipsLineBreaks(s, b);
    }
  }

  // ----- the decoder as it runs, with its buffers -----

  predicate IsZero(s: seq<Byte>) {
    forall i :: 0 <= i < |s| ==> s[i] == 0
  }

  method Wipe(a: array<Byte>)
    modifies a
    ensures IsZero(a[..])
  {
    for i := 0 to a.Length
      invariant forall k :: 0 <= k < i ==> a[k] == 0
    {
      a[i] := 0;
    }
  }

  method Filled(s: seq<Byte>) returns (a: array<Byte>)
    ensures fresh(a) && a[..] == s
  {
    a := new Byte[|s|];
    for i := 0 to |s|
      invariant forall k :: 0 <= k < i ==> a[k] == s[k]
    {
      a[i] := s[i];
    }
  }

  /** Compares and wipes: the re-encoding always, what was decoded when they differ. */
  method Confirm(s: seq<Byte>, out: array<Byte>, scratch: array<Byte>) returns (eq: bool)
    requires out != scratch
    modifies out, scratch
    ensures eq <==> old(scratch[..]) == s
    ensures IsZero(scratch[..])
    ensures if eq then out[..] == old(out[..]) else IsZero(out[..])
  {
    eq := scratch[..] == s;
    Wipe(scratch);
    if !eq {
      Wipe(out);
    }
  }

  /** The text passes the scan, and the inner decoder makes something of it. */
  predicate IsDecoded(inner: seq<Byte> -> Option<seq<Byte>>, s: seq<Byte>) {
    |s| % 4 != 1 && AllSymbols(s) && inner(s).Some?
  }

  /**
   Scan, decode, re-encode and compare. On refusal the decoded bytes are wiped, and the
   re-encoding is wiped in every case.
   */
  method RunGate(inner: seq<Byte> -> Option<seq<Byte>>, s: seq<Byte>)
    returns (ok: bool, out: array<Byte>, scratch: array<Byte>)
    ensures fresh(out) && fresh(scratch) && out != scratch
    ensures ok <==> Gate(inner, s).Some?
    ensures ok ==> Gate(inner, s) == Some(out[..])
    ensures !ok ==> IsZero(out[..])
    ensures IsZero(scratch[..])
    ensures out.Length == if IsDecoded(inner, s) then |inner(s).value| else 0
    ensures scratch.Length == if IsDecoded(inner, s) then |Encode(inner(s).value)| else 0
  {
    out, scratch := new Byte[0], new Byte[0];
    if |s| % 4 == 1 {
      return false, out, scratch;
    }
    for i := 0 to |s|
      invariant forall k :: 0 <= k < i ==> IsSymbol(s[k])
    {
      if !IsSymbol(s[i]) {
        return false, out, scratch;
      }
    }
    var decoded := inner(s);
    if decoded.None? {
      return false, out, scratch;
    }
    out := Filled(decoded.value);
    scratch := Filled(Encode(decoded.value));
    ok := Confirm(s, out, scratch);
  }
}
