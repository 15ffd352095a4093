/**
 The passphrase envelope around an abstract cipher: framing, and the way back from the recovery
 file a claim leaves behind.
 */
module Envelope {
  import opened Bytes
  import Base64Url

  const SUITE: Byte := 0x02
  const SALT_LEN := 16
  const IV_LEN := 12
  const TAG_LEN := 16
  const MIN_LEN := 1 + SALT_LEN + IV_LEN + TAG_LEN
  const MAX_PLAINTEXT := 65_491
  const MAX_BLOB_FILE := 100_000

  /** Key derivation and an authenticated cipher: seal(key, iv, plaintext, aad), open(key, iv, sealed, aad). */
  datatype Cipher = Cipher(
    derive: (seq<Byte>, seq<Byte>) -> seq<Byte>,
    seal: (seq<Byte>, seq<Byte>, seq<Byte>, seq<Byte>) -> seq<Byte>,
    open: (seq<Byte>, seq<Byte>, seq<Byte>, seq<Byte>) -> Option<seq<Byte>>)

  /** Opening accepts exactly what sealing the same plaintext under the same inputs yields. */
  ghost predicate Sound(c: Cipher) {
    && (forall k, iv, p, a :: |c.seal(k, iv, p, a)| == |p| + TAG_LEN)
    && (forall k, iv, p, a, x :: x == c.seal(k, iv, p, a) ==> c.open(k, iv, x, a) == Some(p))
    && (forall k, iv, x, a :: c.open(k, iv, x, a).Some? ==> x == c.seal(k, iv, c.open(k, iv, x, a).value, a))
  }

  const ZERO_TAG: seq<Byte> := seq(TAG_LEN, i => 0)

  /** The assumption can be met: a cipher that appends a fixed tag satisfies it. */
  lemma SomeCipherIsSound()
    ensures exists c :: Sound(c)
  {
    var c := Cipher(
      (phrase: seq<Byte>, salt: seq<Byte>) => [],
      (k: seq<Byte>, iv: seq<Byte>, p: seq<Byte>, a: seq<Byte>) => p + ZERO_TAG,
      (k: seq<Byte>, iv: seq<Byte>, x: seq<Byte>, a: seq<Byte>) =>
        if |x| >= TAG_LEN && x[|x| - TAG_LEN..] == ZERO_TAG then Some(x[..|x| - TAG_LEN]) else None);
    forall k, iv, p, a, x | x == c.seal(k, iv, p, a) ensures c.open(k, iv, x, a) == Some(p) {
      assert x[|x| - TAG_LEN..] == ZERO_TAG && x[..|x| - TAG_LEN] == p;
    }
    assert Sound(c);
  }

  /** Suite, version and the whole header are authenticated. */
  function Aad(salt: seq<Byte>, iv: seq<Byte>): seq<Byte> {
    [SUITE, 0x02] + salt + iv
  }

  function Encrypt(c: Cipher, phrase: seq<Byte>, salt: seq<Byte>, iv: seq<Byte>, plaintext: seq<Byte>): seq<Byte> {
    [SUITE] + salt + iv + c.seal(c.derive(phrase, salt), iv, plaintext, Aad(salt, iv))
  }

  datatype Opened = Plaintext(bytes: seq<Byte>) | Truncated | UnsupportedSuite | AuthFail

  function Decrypt(c: Cipher, blob: seq<Byte>, phrase: seq<Byte>): Opened {
    if blob == [] then Truncated
    else if blob[0] != SUITE then UnsupportedSuite
    else if |blob| < MIN_LEN then Truncated
    else
      var salt := blob[1..1 + SALT_LEN];
      var iv := blob[1 + SALT_LEN..1 + SALT_LEN + IV_LEN];
      match c.open(c.derive(phrase, salt), iv, blob[1 + SALT_LEN + IV_LEN..], Aad(salt, iv))
      case Some(p) => Plaintext(p)
      case None => AuthFail
  }

  lemma DecryptInvertsEncrypt(c: Cipher, phrase: seq<Byte>, salt: seq<Byte>, iv: seq<Byte>, plaintext: seq<Byte>)
    requires Sound(c) && |salt| == SALT_LEN && |iv| == IV_LEN
    ensures |Encrypt(c, phrase, salt, iv, plaintext)| == |plaintext| + MIN_LEN
    ensures Decrypt(c, Encrypt(c, phrase, salt, iv, plaintext), phrase) == Plaintext(plaintext)
  {
    var blob := Encrypt(c, phrase, salt, iv, plaintext);
    assert blob[1..1 + SALT_LEN] == salt && blob[1 + SALT_LEN..1 + SALT_LEN + IV_LEN] == iv;
    assert blob[1 + SALT_LEN + IV_LEN..] == c.seal(c.derive(phrase, salt), iv, plaintext, Aad(salt, iv));
  }

  /** A blob opens only as the encryption, under its own header, of the plaintext that comes out. */
  lemma OpensOnlyEncryptions(c: Cipher, blob: seq<Byte>, phrase: seq<Byte>, plaintext: seq<Byte>)
    requires Sound(c)
    ensures Decrypt(c, blob, phrase) == Plaintext(plaintext)
       <==> exists salt, iv :: |salt| == SALT_LEN && |iv| == IV_LEN && blob == Encrypt(c, phrase, salt, iv, plaintext)
  {
    if Decrypt(c, blob, phrase) == Plaintext(plaintext) {
      var salt := blob[1..1 + SALT_LEN];
      var iv := blob[1 + SALT_LEN..1 + SALT_LEN + IV_LEN];
      assert blob == [SUITE] + salt + iv + blob[1 + SALT_LEN + IV_LEN..];
      assert blob == Encrypt(c, phrase, salt, iv, plaintext);
    }
    if salt, iv :| |salt| == SALT_LEN && |iv| == IV_LEN && blob == Encrypt(c, phrase, salt, iv, plaintext) {
      DecryptInvertsEncrypt(c, phrase, salt, iv, plaintext);
    }
  }

  // ----- the recovery file -----

  /** What a claim writes when asked to keep the ciphertext. */
  function RecoveryFile(blob: seq<Byte>): seq<Byte> {
    Base64Url.Encode(blob) + [LF]
  }

  function TrimOneNewline(b: seq<Byte>): seq<Byte> {
    if b == [] || b[|b| - 1] != LF then b
    else
      var t := b[..|b| - 1];
      if t != [] && t[|t| - 1] == CR then t[..|t| - 1] else t
  }

  datatype Recovered = Secret(plaintext: seq<Byte>) | TooLarge | NotCanonical | NotOpened(reason: Opened)

  /** The local decrypt command: bounded read, one newline trimmed, canonical decoding, opening. */
  function OpenRecoveryFile(c: Cipher, file: seq<Byte>, phrase: seq<Byte>): Recovered {
    if |file| > MAX_BLOB_FILE then TooLarge
    else
      match Base64Url.DecodeCanonical(TrimOneNewline(file))
      case None => NotCanonical
      case Some(blob) =>
        match Decrypt(c, blob, phrase)
        case Plaintext(p) => Secret(p)
        case reason => NotOpened(reason)
  }

  lemma TrimUndoesNewline(b: seq<Byte>)
    requires Base64Url.AllSymbols(b)
    ensures TrimOneNewline(b + [LF]) == b
  {
    assert (b + [LF])[..|b|] == b;
    if b != [] {
      assert Base64Url.IsSymbol(b[|b| - 1]);
    }
  }

  /** Every secret small enough to create is recovered from its file under the same phrase. */
  lemma KeptCiphertextIsRecoverable(c: Cipher, phrase: seq<Byte>, salt: seq<Byte>, iv: seq<Byte>, plaintext: seq<Byte>)
    requires Sound(c) && |salt| == SALT_LEN && |iv| == IV_LEN && |plaintext| <= MAX_PLAINTEXT
    ensures OpenRecoveryFile(c, RecoveryFile(Encrypt(c, phrase, salt, iv, plaintext)), phrase) == Secret(plaintext)
  {
    var blob := Encrypt(c, phrase, salt, iv, plaintext);
    DecryptInvertsEncrypt(c, phrase, salt, iv, plaintext);
    Base64Url.EncodedLength(blob);
    Base64Url.EncodeThenDecode(blob, true);
    Base64Url.AcceptsExactlyEncodings(Base64Url.Encode(blob), blob);
    TrimUndoesNewline(Base64Url.Encode(blob));
  }

  /** Within the bound, a recovery file opens under any phrase to what its blob opens to. */
  lemma RecoveryFileOpensAsBlob(c: Cipher, blob: seq<Byte>, key: seq<Byte>, plaintext: seq<Byte>)
    ensures OpenRecoveryFile(c, RecoveryFile(blob), key) == Secret(plaintext)
       <==> |RecoveryFile(blob)| <= MAX_BLOB_FILE && Decrypt(c, blob, key) == Plaintext(plaintext)
  {
    hide Decrypt, Base64Url.Encode, Base64Url.DecodeCanonical;
    Base64Url.EncodeThenDecode(blob, true);
    Base64Url.AcceptsExactlyEncodings(Base64Url.Encode(blob), blob);
    TrimUndoesNewline(Base64Url.Encode(blob));
  }

  /** And a recovery file opens only if it spells, canonically, an encryption under that phrase. */
  lemma RecoveryOpensOnlyEncryptions(c: Cipher, file: seq<Byte>, phrase: seq<Byte>, plaintext: seq<Byte>)
    requires Sound(c) && |file| <= MAX_BLOB_FILE
    ensures OpenRecoveryFile(c, file, phrase) == Secret(plaintext)
       <==> exists blob ::
              TrimOneNewline(file) == Base64Url.Encode(blob) && Decrypt(c, blob, phrase) == Plaintext(plaintext)
  {
    var text := TrimOneNewline(file);
    if OpenRecoveryFile(c, file, phrase) == Secret(plaintext) {
      Base64Url.AcceptsExactlyEncodings(text, Base64Url.DecodeCanonical(text).value);
    }
    if blob :| text == Base64Url.Encode(blob) && Decrypt(c, blob, phrase) == Plaintext(plaintext) {
      Base64Url.AcceptsExactlyEncodings(text, blob);
    }
  }
}
