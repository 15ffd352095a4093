/**
 The bytes of an envelope, offset by offset, and what every blob and every recovery file opens to.
 Stated over the abstract sealing alone, so that another client can be checked against it.
 */
module EnvelopeBytes {
  import opened Bytes
  import opened Envelope
  import Base64Url
  import Base64Rfc

  /** Suite, sixteen bytes of salt, twelve of nonce, and a seal over suite, version and this header. */
  ghost predicate Spells(c: Cipher, blob: seq<Byte>, phrase: seq<Byte>, plaintext: seq<Byte>) {
    && |blob| >= 29 && blob[0] == 2
    && blob[29..] == c.seal(c.derive(phrase, blob[1..17]), blob[17..29], plaintext, [2, 2] + blob[1..29])
  }

  lemma EncryptionSpells(c: Cipher, phrase: seq<Byte>, salt: seq<Byte>, iv: seq<Byte>, plaintext: seq<Byte>)
    requires |salt| == 16 && |iv| == 12
    ensures var blob := Encrypt(c, phrase, salt, iv, plaintext);
            Spells(c, blob, phrase, plaintext) && blob[1..17] == salt && blob[17..29] == iv
  {
    var blob := Encrypt(c, phrase, salt, iv, plaintext);
    assert blob[1..17] == salt && blob[17..29] == iv;
    assert blob[1..29] == salt + iv;
    assert [2, 2] + (salt + iv) == Aad(salt, iv);
    assert blob[29..] == c.seal(c.derive(phrase, salt), iv, plaintext, Aad(salt, iv));
  }

  lemma WhatSpells(c: Cipher, blob: seq<Byte>, phrase: seq<Byte>, plaintext: seq<Byte>)
    ensures Spells(c, blob, phrase, plaintext)
       <==> exists salt, iv :: |salt| == 16 && |iv| == 12 && blob == Encrypt(c, phrase, salt, iv, plaintext)
  {
    if Spells(c, blob, phrase, plaintext) {
      var salt, iv := blob[1..17], blob[17..29];
      assert [2, 2] + blob[1..29] == Aad(salt, iv);
      assert blob == [2] + salt + iv + blob[29..];
      assert blob == Encrypt(c, phrase, salt, iv, plaintext);
    }
    if salt, iv :| |salt| == 16 && |iv| == 12 && blob == Encrypt(c, phrase, salt, iv, plaintext) {
      EncryptionSpells(c, phrase, salt, iv, plaintext);
    }
  }

  /** Each way a blob can fail to open, and when: forty-five bytes are the least that can open. */
  lemma WhatABlobOpensTo(c: Cipher, blob: seq<Byte>, phrase: seq<Byte>, plaintext: seq<Byte>)
    requires Sound(c)
    ensures Decrypt(c, blob, phrase) == Plaintext(plaintext) <==> Spells(c, blob, phrase, plaintext)
    ensures Decrypt(c, blob, phrase) == Truncated <==> blob == [] || (blob[0] == 2 && |blob| < 45)
    ensures Decrypt(c, blob, phrase) == UnsupportedSuite <==> blob != [] && blob[0] != 2
    ensures Decrypt(c, blob, phrase) == AuthFail
       <==> |blob| >= 45 && blob[0] == 2 && forall p: seq<Byte> :: !Spells(c, blob, phrase, p)
  {
    hide Encrypt;
    forall p: seq<Byte>
      ensures Decrypt(c, blob, phrase) == Plaintext(p) <==> Spells(c, blob, phrase, p)
    {
      OpensOnlyEncryptions(c, blob, phrase, p);
      WhatSpells(c, blob, phrase, p);
    }
  }

  /** A recovery file is the encoding of the blob with a line feed behind it. */
  lemma RecoveryFileSpells(blob: seq<Byte>)
    ensures var file := RecoveryFile(blob);
            && |file| > 0 && file[|file| - 1] == 0x0a
            && Base64Rfc.IsEncodingOf(file[..|file| - 1], blob)
  {
    var file := RecoveryFile(blob);
    assert file[..|file| - 1] == Base64Url.Encode(blob);
    Base64Rfc.EncodeIsTheEncoding(Base64Url.Encode(blob), blob);
  }

  /** What an editor leaves behind the text is dropped once: CR LF, LF, or nothing. */
  predicate IsWithNewline(file: seq<Byte>, text: seq<Byte>) {
    || file == text + [0x0d, 0x0a]
    || (file == text + [0x0a] && (text == [] || text[|text| - 1] != 0x0d))
    || (file == text && (text == [] || text[|text| - 1] != 0x0a))
  }

  lemma OneNewlineIsTrimmed(file: seq<Byte>, text: seq<Byte>)
    ensures TrimOneNewline(file) == text <==> IsWithNewline(file, text)
  {
    var n := |file|;
    if n > 0 && file[n - 1] == LF {
      assert file == file[..n - 1] + [0x0a];
      if n > 1 && file[n - 2] == CR {
        assert file[..n - 1][..n - 2] == file[..n - 2];
        assert file == file[..n - 2] + [0x0d, 0x0a];
      }
      if file == text + [0x0d, 0x0a] {
        assert text == file[..n - 2] && file[n - 2] == 0x0d;
      }
      if file == text + [0x0a] {
        assert text == file[..n - 1];
      }
    }
  }

  /**
   Every recovery file and every phrase: too long above 100000 bytes, refused unless some blob is
   spelled canonically, and else opened exactly as that blob.
   */
  lemma WhatARecoveryFileOpensTo(c: Cipher, file: seq<Byte>, phrase: seq<Byte>, text: seq<Byte>)
    requires IsWithNewline(file, text)
    ensures OpenRecoveryFile(c, file, phrase) == TooLarge <==> |file| > 100_000
    ensures OpenRecoveryFile(c, file, phrase) == NotCanonical
       <==> |file| <= 100_000 && forall blob :: !Base64Rfc.IsEncodingOf(text, blob)
    ensures |file| <= 100_000 ==>
              forall blob | Base64Rfc.IsEncodingOf(text, blob) ::
                OpenRecoveryFile(c, file, phrase) ==
                  if Decrypt(c, blob, phrase).Plaintext? then Secret(Decrypt(c, blob, phrase).bytes)
                  else NotOpened(Decrypt(c, blob, phrase))
  {
    hide Decrypt, Base64Url.DecodeCanonical, Base64Rfc.IsEncodingOf, TrimOneNewline, IsWithNewline;
    OneNewlineIsTrimmed(file, text);
    forall blob: seq<Byte>
      ensures Base64Url.DecodeCanonical(text) == Some(blob) <==> Base64Rfc.IsEncodingOf(text, blob)
    {
      Base64Rfc.GateAcceptsTheStandard(text, blob);
    }
    if Base64Url.DecodeCanonical(text).Some? {
      assert Base64Rfc.IsEncodingOf(text, Base64Url.DecodeCanonical(text).value);
    }
  }

  /** A secret of at most 65491 bytes is created as 45 bytes more, kept, and recovered. */
  lemma CreatedIsRecovered(c: Cipher, blob: seq<Byte>, phrase: seq<Byte>, plaintext: seq<Byte>, file: seq<Byte>)
    requires Sound(c) && |plaintext| <= 65_491 && Spells(c, blob, phrase, plaintext) && file == RecoveryFile(blob)
    ensures |blob| == |plaintext| + 45 && |file| <= 100_000
    ensures OpenRecoveryFile(c, file, phrase) == Secret(plaintext)
  {
    WhatSpells(c, blob, phrase, plaintext);
    var salt, iv :| |salt| == 16 && |iv| == 12 && blob == Encrypt(c, phrase, salt, iv, plaintext);
    DecryptInvertsEncrypt(c, phrase, salt, iv, plaintext);
    Base64Url.EncodedLength(blob);
    KeptCiphertextIsRecoverable(c, phrase, salt, iv, plaintext);
  }
}
