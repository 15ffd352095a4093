/**
 Display tokens of untrusted bytes: a line break, a graphic rune shown as it is, or an ASCII
 escape for everything else. Which runes are graphic is a parameter.
 */
module ViewerTokens {
  import opened Bytes
  import Utf8

  datatype Token = Token(sourceBytes: nat, columns: nat, rendered: seq<Byte>, newline: bool)

  function HexDigit(d: nat): Byte
    requires d < 16
  {
    if d < 10 then 0x30 + d else 0x61 + (d - 10)
  }

  /** The n low hexadecimal digits of v, most significant first. */
  function Hex(v: nat, n: nat): (s: seq<Byte>)
    ensures |s| == n
    ensures forall i :: 0 <= i < n ==> 0x30 <= s[i] < 0x67
  {
    if n == 0 then [] else Hex(v / 16, n - 1) + [HexDigit(v % 16)]
  }

  const BACKSLASH: Byte := 0x5c

  /** Go's escape of a rune it does not print. */
  function Escape(r: nat): (s: seq<Byte>)
    requires Utf8.IsScalar(r)
    ensures 2 <= |s| <= 10
    ensures forall i :: 0 <= i < |s| ==> 0x20 <= s[i] < 0x7f
  {
    if r == 0x27 || r == 0x5c then [BACKSLASH, r]
    else if r == 0x07 then [BACKSLASH, 0x61]
    else if r == 0x08 then [BACKSLASH, 0x62]
    else if r == 0x0c then [BACKSLASH, 0x66]
    else if r == 0x0a then [BACKSLASH, 0x6e]
    else if r == 0x0d then [BACKSLASH, 0x72]
    else if r == 0x09 then [BACKSLASH, 0x74]
    else if r == 0x0b then [BACKSLASH, 0x76]
    else if r < 0x20 || r == 0x7f then [BACKSLASH, 0x78] + Hex(r, 2)
    else if r < 0x10000 then [BACKSLASH, 0x75] + Hex(r, 4)
    else [BACKSLASH, 0x55] + Hex(r, 8)
  }

  function NextToken(graphic: int -> bool, b: seq<Byte>): (t: Token)
    requires b != []
    ensures 1 <= t.sourceBytes <= |b|
    ensures !t.newline ==> 1 <= t.columns <= 10
    ensures t.newline ==> t.columns == 0 && t.rendered == []
  {
    if b[0] == LF then Token(1, 0, [], true)
    else if b[0] == CR && |b| > 1 && b[1] == LF then Token(2, 0, [], true)
    else
      var size := Utf8.RuneSize(b);
      if size == 0 then Token(1, 4, [BACKSLASH, 0x78] + Hex(b[0], 2), false)
      else
        Utf8.DecodeThenEncode(b);
        var r := Utf8.RuneValue(b);
        if graphic(r) then Token(size, if r >= 0x80 then 2 else 1, b[..size], false)
        else var escaped := Escape(r); Token(size, |escaped|, escaped, false)
  }

  /** A token depends on its own bytes only: cutting the text behind it changes nothing. */
  lemma TokenIsLocal(graphic: int -> bool, b: seq<Byte>, k: nat)
    requires b != [] && NextToken(graphic, b).sourceBytes <= k <= |b|
    ensures NextToken(graphic, b[..k]) == NextToken(graphic, b)
  {
    Utf8.RuneIsLocal(b, k);
    if Utf8.RuneSize(b) > 0 {
      assert b[..k][..Utf8.RuneSize(b)] == b[..Utf8.RuneSize(b)];
    }
  }

  function TokensOf(graphic: int -> bool, s: seq<Byte>): seq<Token>
    decreases |s|
  {
    if s == [] then []
    else var t := NextToken(graphic, s); [t] + TokensOf(graphic, s[t.sourceBytes..])
  }

  /** Offset i is reached from `from` by whole tokens of s. */
  predicate IsBoundary(graphic: int -> bool, s: seq<Byte>, from: nat, i: nat)
    decreases |s| - from
  {
    from == i || (from < |s| && IsBoundary(graphic, s, from + NextToken(graphic, s[from..]).sourceBytes, i))
  }

  lemma BoundaryInRange(graphic: int -> bool, s: seq<Byte>, from: nat, i: nat)
    requires IsBoundary(graphic, s, from, i) && from <= |s|
    ensures from <= i <= |s|
    decreases |s| - from
  {
    hide NextToken;
    if from != i {
      BoundaryInRange(graphic, s, from + NextToken(graphic, s[from..]).sourceBytes, i);
    }
  }

  lemma BoundaryTransitive(graphic: int -> bool, s: seq<Byte>, a: nat, b: nat, c: nat)
    requires IsBoundary(graphic, s, a, b) && IsBoundary(graphic, s, b, c)
    ensures IsBoundary(graphic, s, a, c)
    decreases |s| - a
  {
    hide NextToken;
    if a != b {
      BoundaryTransitive(graphic, s, a + NextToken(graphic, s[a..]).sourceBytes, b, c);
    }
  }

  /** Cutting a text at a token boundary cuts its token list: no slice reads differently. */
  lemma {:induction false} TokensSplit(graphic: int -> bool, s: seq<Byte>, a: nat, b: nat)
    requires a <= |s| && IsBoundary(graphic, s, a, b)
    ensures a <= b <= |s|
    ensures TokensOf(graphic, s[a..]) == TokensOf(graphic, s[a..b]) + TokensOf(graphic, s[b..])
    decreases |s| - a
  {
    hide NextToken;
    BoundaryInRange(graphic, s, a, b);
    if a == b {
      assert s[a..b] == [];
    } else {
      var t := NextToken(graphic, s[a..]);
      var next := a + t.sourceBytes;
      BoundaryInRange(graphic, s, next, b);
      TokensSplit(graphic, s, next, b);
      assert s[a..][..b - a] == s[a..b];
      TokenIsLocal(graphic, s[a..], b - a);
      assert s[a..][t.sourceBytes..] == s[next..] && s[a..b][t.sourceBytes..] == s[next..b];
      assert TokensOf(graphic, s[a..b]) == [t] + TokensOf(graphic, s[next..b]);
    }
  }

  // ----- what reaches the terminal -----

  /** C0 controls, DEL and C1 controls are not graphic. */
  ghost predicate ControlsNotGraphic(graphic: int -> bool) {
    forall r: int :: r < 0x20 || 0x7f <= r < 0xa0 ==> !graphic(r)
  }

  /** No byte of a token is a terminal control: it is printable ASCII or the encoding of a graphic rune. */
  lemma TokensCarryNoControls(graphic: int -> bool, b: seq<Byte>)
    requires b != [] && ControlsNotGraphic(graphic)
    ensures var t := NextToken(graphic, b);
            || (forall i :: 0 <= i < |t.rendered| ==> 0x20 <= t.rendered[i] < 0x7f)
            || (Utf8.RuneSize(b) > 0 && Utf8.RuneValue(b) >= 0xa0 && graphic(Utf8.RuneValue(b))
                && t.rendered == Utf8.Encode(Utf8.RuneValue(b)))
  {
    if Utf8.RuneSize(b) > 0 {
      Utf8.DecodeThenEncode(b);
      assert !graphic(Utf8.RuneValue(b)) || 0x20 <= Utf8.RuneValue(b) < 0x7f || Utf8.RuneValue(b) >= 0xa0;
    }
  }

  /** What a token writes when line breaks are written as `newline`. */
  function Shown(t: Token, newline: seq<Byte>): seq<Byte> {
    if t.newline then newline else t.rendered
  }

  function Body(tokens: seq<Token>, newline: seq<Byte>): seq<Byte> {
    if tokens == [] then [] else Shown(tokens[0], newline) + Body(tokens[1..], newline)
  }

  /** The scrollback rendition. */
  method WriteViewerBody(graphic: int -> bool, b: seq<Byte>, newline: seq<Byte>) returns (out: seq<Byte>)
    ensures out == Body(TokensOf(graphic, b), newline)
  {
    hide NextToken, TokensOf, Body;
    out := [];
    var rest := b;
    while |rest| > 0
      invariant out + Body(TokensOf(graphic, rest), newline) == Body(TokensOf(graphic, b), newline)
      decreases |rest|
    {
      var token := NextToken(graphic, rest);
      BodyStep(graphic, rest, newline);
      if token.newline {
        out := out + newline;
      } else {
        out := out + token.rendered;
      }
      rest := rest[token.sourceBytes..];
    }
    assert Body(TokensOf(graphic, rest), newline) == [] by { NoBody(graphic, rest, newline); }
  }

  lemma NoBody(graphic: int -> bool, rest: seq<Byte>, newline: seq<Byte>)
    requires rest == []
    ensures Body(TokensOf(graphic, rest), newline) == []
  {
  }

  lemma BodyStep(graphic: int -> bool, rest: seq<Byte>, newline: seq<Byte>)
    requires rest != []
    ensures var t := NextToken(graphic, rest);
            Body(TokensOf(graphic, rest), newline)
              == Shown(t, newline) + Body(TokensOf(graphic, rest[t.sourceBytes..]), newline)
  {
    var t := NextToken(graphic, rest);
    assert TokensOf(graphic, rest)[1..] == TokensOf(graphic, rest[t.sourceBytes..]);
  }
}
