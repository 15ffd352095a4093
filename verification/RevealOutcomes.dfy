/**
 What a reveal comes to, said in terms of its plan: when it claims, keeps and delivers, what every other
 ending exits with, and how many prompts it takes.
 */
module RevealOutcomes {
  import opened Bytes
  import opened Outcomes
  import opened RevealTrace
  import Base64Url
  import Envelope
  import Utf8

  // ----- when there is a claim -----

  /** Everything before the claim went well. */
  predicate MayClaim(plan: Plan, phrase: Retry) {
    && plan.urlAccepted && phrase.Phrase?
    && (plan.destination.ToFile? ==> plan.outReserved)
    && (plan.destination.Viewer? ==> plan.terminalFound)
    && (plan.keep ==> plan.keepReserved)
    && plan.clientBuilt && plan.disclosed
  }

  predicate KeptIfAsked(plan: Plan) {
    plan.keep ==> plan.keepFate.Fine?
  }

  /** The destination takes what it is given. */
  predicate Takes(plan: Plan) {
    if plan.destination.ToFile? then plan.outFate.Fine? else plan.deliveryError.None?
  }

  lemma ClaimedExactlyWhenReady(c: Envelope.Cipher, plan: Plan, phrase: Retry, retries: seq<Retry>, blob: seq<Byte>)
    ensures Claimed(blob) in Effects(c, plan, phrase, retries) <==> MayClaim(plan, phrase) && plan.claim == Gets(blob)
  {
    EffectsInOrder(c, plan, phrase, retries);
    var effects := Effects(c, plan, phrase, retries);
    if Claims(plan, phrase) {
      NoClaimBehind(c, plan, plan.claim.blob, phrase.bytes, retries);
      hide Effects, AfterClaim, Prepared, Prelude, ReserveEffects;
      var head, tail := Prelude(plan), AfterClaim(c, plan, plan.claim.blob, phrase.bytes, retries);
      InThree(head, Claimed(plan.claim.blob), tail, Claimed(blob));
    } else {
      hide Effects;
    }
  }

  lemma NoClaimBehind(c: Envelope.Cipher, plan: Plan, blob: seq<Byte>, phrase: seq<Byte>, retries: seq<Retry>)
    ensures forall k :: 0 <= k < |AfterClaim(c, plan, blob, phrase, retries)| ==>
              !AfterClaim(c, plan, blob, phrase, retries)[k].Claimed?
  {
    hide OpenLocally, Envelope.RecoveryFile, Prompts;
  }

  lemma InThree(head: seq<Effect>, e: Effect, tail: seq<Effect>, x: Effect)
    ensures x in head + [e] + tail <==> x in head || x == e || x in tail
  {
    assert x in head + [e] <==> x in head || x == e;
  }

  // ----- how the attempts to open it end -----

  /** Attempts 0 to k - 1 had wrong phrases, and prompts 0 to k - 1 yielded the next ones. */
  predicate WrongBefore(c: Envelope.Cipher, blob: seq<Byte>, phrase: seq<Byte>, retries: seq<Retry>, k: nat) {
    && k <= |retries|
    && (forall i :: 0 <= i < k ==> retries[i].Phrase?)
    && (forall i :: 0 <= i < k ==> Envelope.Decrypt(c, blob, Tried(phrase, retries, i)) == Envelope.AuthFail)
  }

  /** Attempt k, and nothing behind it but at most one failing prompt, decides. */
  lemma {:induction false} DecidedAt(
    c: Envelope.Cipher, blob: seq<Byte>, phrase: seq<Byte>, retries: seq<Retry>, k: nat)
    requires WrongBefore(c, blob, phrase, retries, k)
    ensures var attempt := Envelope.Decrypt(c, blob, Tried(phrase, retries, k));
            var first := Envelope.Decrypt(c, blob, phrase);
            && OpenLocally(c, blob, phrase, retries) == AfterAttempt(c, blob, attempt, retries[k..])
            && Prompts(c, blob, first, retries) == k + Prompts(c, blob, attempt, retries[k..])
    decreases k
  {
    hide Envelope.Decrypt;
    if k == 0 {
      assert retries[0..] == retries;
    } else {
      DecidedAt(c, blob, phrase, retries, k - 1);
      assert Tried(phrase, retries, k - 1) == Tried(phrase, retries, k - 1);
      NextPrompt(c, blob, retries, k - 1);
    }
  }

  /** Some attempt does: one that is not a wrong phrase, or is the last, or stands before a failing prompt. */
  lemma {:induction false} SomeAttemptDecides(
    c: Envelope.Cipher, blob: seq<Byte>, phrase: seq<Byte>, retries: seq<Retry>, from: nat) returns (k: nat)
    requires WrongBefore(c, blob, phrase, retries, from)
    ensures WrongBefore(c, blob, phrase, retries, k)
    ensures || Envelope.Decrypt(c, blob, Tried(phrase, retries, k)) != Envelope.AuthFail
            || k == |retries|
            || retries[k].PromptFails?
    decreases |retries| - from
  {
    hide Envelope.Decrypt;
    k := from;
    var result := Envelope.Decrypt(c, blob, Tried(phrase, retries, k));
    if result == Envelope.AuthFail && k < |retries| && retries[k].Phrase? {
      k := SomeAttemptDecides(c, blob, phrase, retries, from + 1);
    }
  }

  // ----- what a claimed secret comes to -----

  /** Delivered exactly when some attempt opens it, to valid text, and nothing on the way to the user fails. */
  lemma DeliveredExactlyWhenOpened(c: Envelope.Cipher, plan: Plan, phrase: Retry, retries: seq<Retry>, p: seq<Byte>)
    ensures Delivered(p) in Effects(c, plan, phrase, retries)
       <==> && MayClaim(plan, phrase) && plan.claim.Gets? && KeptIfAsked(plan)
            && (exists k :: OpensAt(c, plan.claim.blob, phrase.bytes, retries, k, p))
            && Utf8.Valid(p) && Takes(plan)
  {
    EffectsInOrder(c, plan, phrase, retries);
    if Claims(plan, phrase) {
      var blob := plan.claim.blob;
      OpensWithFirstRightPhrase(c, blob, phrase.bytes, retries, p);
      DeliveredBehind(c, plan, blob, phrase.bytes, retries, p);
      hide Effects, AfterClaim, Prepared, Prelude, ReserveEffects, OpensAt, OpenLocally, Utf8.Valid;
      InThree(Prelude(plan), Claimed(blob), AfterClaim(c, plan, blob, phrase.bytes, retries), Delivered(p));
    } else {
      hide Effects, OpensAt;
    }
  }

  lemma DeliveredBehind(
    c: Envelope.Cipher, plan: Plan, blob: seq<Byte>, phrase: seq<Byte>, retries: seq<Retry>, p: seq<Byte>)
    ensures Delivered(p) in AfterClaim(c, plan, blob, phrase, retries)
       <==> KeptIfAsked(plan) && OpenLocally(c, blob, phrase, retries) == Opened(p) && Utf8.Valid(p) && Takes(plan)
  {
    hide OpenLocally, Envelope.RecoveryFile, Prompts, Utf8.Valid;
    var tail := AfterClaim(c, plan, blob, phrase, retries);
    if tail != [] {
      assert tail[|tail| - 1] in tail;
    }
  }

  /** Kept exactly when asked for and written: the encoding of the claimed blob and a line feed. */
  lemma KeptExactlyWhenAsked(c: Envelope.Cipher, plan: Plan, phrase: Retry, retries: seq<Retry>, file: seq<Byte>)
    ensures CiphertextKept(file) in Effects(c, plan, phrase, retries)
       <==> && MayClaim(plan, phrase) && plan.claim.Gets? && plan.keep && plan.keepFate.Fine?
            && file == Base64Url.Encode(plan.claim.blob) + [0x0a]
  {
    EffectsInOrder(c, plan, phrase, retries);
    if Claims(plan, phrase) {
      var blob := plan.claim.blob;
      KeptBehind(c, plan, blob, phrase.bytes, retries, file);
      hide Effects, AfterClaim, Prepared, Prelude, ReserveEffects, Base64Url.Encode;
      InThree(Prelude(plan), Claimed(blob), AfterClaim(c, plan, blob, phrase.bytes, retries), CiphertextKept(file));
    } else {
      hide Effects;
    }
  }

  lemma KeptBehind(
    c: Envelope.Cipher, plan: Plan, blob: seq<Byte>, phrase: seq<Byte>, retries: seq<Retry>, file: seq<Byte>)
    ensures CiphertextKept(file) in AfterClaim(c, plan, blob, phrase, retries)
       <==> plan.keep && plan.keepFate.Fine? && file == Base64Url.Encode(blob) + [0x0a]
  {
    hide OpenLocally, Prompts, Base64Url.Encode;
    var tail := AfterClaim(c, plan, blob, phrase, retries);
    if plan.keep {
      assert tail[0] in tail;
    }
  }

  /** The recovery file is written before any phrase is asked for again, and before anything is delivered. */
  lemma KeptBeforeOpened(c: Envelope.Cipher, plan: Plan, phrase: Retry, retries: seq<Retry>, i: nat, j: nat)
    requires i < |Effects(c, plan, phrase, retries)| && Effects(c, plan, phrase, retries)[i].CiphertextKept?
    requires j < |Effects(c, plan, phrase, retries)|
    requires Effects(c, plan, phrase, retries)[j].AskedAgain? || Effects(c, plan, phrase, retries)[j].Delivered?
    ensures i < j
  {
    EffectsInOrder(c, plan, phrase, retries);
    var effects := Effects(c, plan, phrase, retries);
    assert effects[i] in effects;
    KeptExactlyWhenAsked(c, plan, phrase, retries, effects[i].file);
    var head, tail := Prelude(plan), AfterClaim(c, plan, plan.claim.blob, phrase.bytes, retries);
    assert NothingAsked(head) by { PreludeAsksNothing(plan); }
    KeptComesFirst(c, plan, plan.claim.blob, phrase.bytes, retries);
    hide Effects, Prelude, AfterClaim, Base64Url.Encode, ReserveEffects, Prepared;
    assert i == |head| + 1;
  }

  lemma KeptComesFirst(c: Envelope.Cipher, plan: Plan, blob: seq<Byte>, phrase: seq<Byte>, retries: seq<Retry>)
    requires plan.keep && plan.keepFate.Fine?
    ensures var tail := AfterClaim(c, plan, blob, phrase, retries);
            tail != [] && tail[0].CiphertextKept? && forall k :: 0 < k < |tail| ==> !tail[k].CiphertextKept?
  {
    hide OpenLocally, Envelope.RecoveryFile, Prompts;
  }

  predicate NothingAsked(effects: seq<Effect>) {
    forall k :: 0 <= k < |effects| ==> !effects[k].AskedAgain?
  }

  lemma PreludeAsksNothing(plan: Plan)
    requires ReadyToClaim(plan)
    ensures NothingAsked(Prelude(plan))
  {
  }

  // ----- the exits -----

  /** Without a claim: usage, the prompt's own error, a local error, or what the claim failed with. */
  lemma ExitsWithoutClaim(c: Envelope.Cipher, plan: Plan, phrase: Retry, retries: seq<Retry>)
    ensures var r := Result(c, plan, phrase, retries);
            && (!plan.urlAccepted ==> r == Some(Command(2, InvalidInput, None)))
            && (plan.urlAccepted && phrase.PromptFails? ==> r == Some(phrase.err))
            && (plan.urlAccepted && phrase.Phrase? ==>
                  && (plan.destination.ToFile? && !plan.outReserved ==> r == Some(Command(3, LocalIoFailed, None)))
                  && (plan.destination.Viewer? && !plan.terminalFound ==> r == Some(Command(3, LocalIoFailed, None)))
                  && (plan.keep && !plan.keepReserved ==> r == Some(Command(3, LocalIoFailed, None)))
                  && (MayClaim(plan.(clientBuilt := true, disclosed := true), phrase) && !plan.clientBuilt ==>
                        r == Some(Command(2, InvalidInput, None)))
                  && (MayClaim(plan.(disclosed := true), phrase) && !plan.disclosed ==>
                        r == Some(Command(3, LocalIoFailed, None))))
            && (MayClaim(plan, phrase) && plan.claim.ClaimFails? ==> r == Some(MapApiError(plan.claim.err)))
  {
    hide MapApiError, ResultAfterClaim;
  }

  /**
   Behind a claim, by the attempt that decides: every phrase wrong is 5, an unsupported or truncated
   secret is 8, text that is no UTF-8 is 5, a failing prompt is its own error, a file that cannot be
   written is 3, and any other destination fails with its own error. Nothing else fails.
   */
  lemma ExitsBehindClaim(c: Envelope.Cipher, plan: Plan, phrase: Retry, retries: seq<Retry>, k: nat)
    requires MayClaim(plan, phrase) && plan.claim.Gets?
    requires WrongBefore(c, plan.claim.blob, phrase.bytes, retries, k)
    ensures var r := Result(c, plan, phrase, retries);
            var attempt := Envelope.Decrypt(c, plan.claim.blob, Tried(phrase.bytes, retries, k));
            if plan.keep && !plan.keepFate.Fine? then r == Some(Command(3, LocalIoFailed, None))
            else
              && (attempt == Envelope.AuthFail && k == |retries| ==> r == Some(Command(5, PassphraseFailed, None)))
              && (attempt == Envelope.AuthFail && k < |retries| && retries[k].PromptFails? ==>
                    var command := FirstOf(retries[k].err, IsCommand);
                    && (retries[k].err.Command? ==> r == Some(retries[k].err))
                    && r == if command.Some? then command else Some(Command(10, Internal, None)))
              && (attempt == Envelope.Truncated || attempt == Envelope.UnsupportedSuite ==>
                    r == Some(Command(8, UnsupportedSecret, None)))
              && (attempt.Plaintext? && !Utf8.Valid(attempt.bytes) ==> r == Some(Command(5, PlaintextInvalid, None)))
              && (attempt.Plaintext? && Utf8.Valid(attempt.bytes) && Takes(plan) ==> r == None)
              && (attempt.Plaintext? && Utf8.Valid(attempt.bytes) && !Takes(plan) ==>
                    r == if plan.destination.ToFile? then Some(Command(3, LocalIoFailed, None)) else plan.deliveryError)
  {
    DecidedAt(c, plan.claim.blob, phrase.bytes, retries, k);
    hide Envelope.Decrypt, OpenLocally, Utf8.Valid;
  }

  /** How many prompts the deciding attempt takes: one for every wrong phrase before it, and a failing one. */
  lemma PromptsUpToTheDecision(c: Envelope.Cipher, plan: Plan, phrase: Retry, retries: seq<Retry>, k: nat)
    requires MayClaim(plan, phrase) && plan.claim.Gets? && KeptIfAsked(plan)
    requires WrongBefore(c, plan.claim.blob, phrase.bytes, retries, k)
    ensures var attempt := Envelope.Decrypt(c, plan.claim.blob, Tried(phrase.bytes, retries, k));
            && (attempt != Envelope.AuthFail || k == |retries| ==> PromptsInAll(c, plan, phrase, retries) == k)
            && (attempt == Envelope.AuthFail && k < |retries| && retries[k].PromptFails? ==>
                  PromptsInAll(c, plan, phrase, retries) == k + 1)
  {
    DecidedAt(c, plan.claim.blob, phrase.bytes, retries, k);
    hide Envelope.Decrypt;
  }
}
