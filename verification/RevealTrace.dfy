/**
 The one-time reveal as a sequence of effects: what must have succeeded before the claim, where a
 claimed secret ends up, which files remain, and what happens to every phrase that was read.
 */
module RevealTrace {
  import opened Bytes
  import opened Outcomes
  import Base64Url
  import Envelope
  import Utf8

  // ----- files reserved in advance -----

  /** How writing a reserved file goes; a failed write leaves some part of the data. */
  datatype Fate = Fine | WriteFails(cut: nat) | CloseFails

  const WRITE_FAILED := Command(3, LocalIoFailed, None)

  class ReservedFile {
    var exists_: bool
    var content: seq<Byte>
    var written: bool

    constructor ()
      ensures exists_ && content == [] && !written
    {
      exists_, content, written := true, [], false;
    }

    method Write(data: seq<Byte>, fate: Fate) returns (err: Option<Err>)
      modifies this
      ensures err.None? <==> fate.Fine?
      ensures err.Some? ==> err.value == WRITE_FAILED
      ensures fate.Fine? ==> content == data
      ensures exists_ == old(exists_) && written == old(written)
    {
      match fate {
        case WriteFails(cut) =>
          content := if cut <= |data| then data[..cut] else data;
          return Some(WRITE_FAILED);
        case CloseFails =>
          content := data;
          return Some(WRITE_FAILED);
        case Fine =>
          content := data;
          return None;
      }
    }

    method DiscardUnlessWritten()
      modifies this
      ensures exists_ == (old(exists_) && written)
      ensures content == old(content) && written == old(written)
    {
      if !written {
        exists_ := false;
      }
    }
  }

  // ----- what a run leaves behind -----

  datatype Effect =
    | UrlAccepted
    | PhraseRead
    | OutReserved
    | KeepReserved
    | ServerDisclosed
    | Claimed(blob: seq<Byte>)
    | CiphertextKept(file: seq<Byte>)
    | AskedAgain
    | Delivered(plaintext: seq<Byte>)
    | Warned

  function Asks(n: nat): (r: seq<Effect>)
    ensures |r| == n && forall i :: 0 <= i < n ==> r[i] == AskedAgain
  {
    seq(n, i => AskedAgain)
  }

  class Journal {
    var effects: seq<Effect>

    constructor ()
      ensures effects == []
    {
      effects := [];
    }

    method Note(e: Effect)
      modifies this
      ensures effects == old(effects) + [e]
    {
      effects := effects + [e];
    }
  }

  // ----- opening the claimed blob, with local retries -----

  /**
   What a retry prompt yields. The prompts of a run stand in order, and end where the terminal, asked
   for again before every retry, is no longer to be had.
   */
  datatype Retry = Phrase(bytes: seq<Byte>) | PromptFails(err: Err)

  datatype LocalResult = Opened(plaintext: seq<Byte>) | NotOpened(reason: Envelope.Opened) | RetryEnded(err: Err)

  /** Retrying goes on while the phrase is wrong and a prompt is possible; the claim is never repeated. */
  function OpenLocally(c: Envelope.Cipher, blob: seq<Byte>, phrase: seq<Byte>, retries: seq<Retry>): LocalResult
    decreases |retries|, 1
  {
    AfterAttempt(c, blob, Envelope.Decrypt(c, blob, phrase), retries)
  }

  function AfterAttempt(c: Envelope.Cipher, blob: seq<Byte>, attempt: Envelope.Opened, retries: seq<Retry>): LocalResult
    decreases |retries|, 0
  {
    match attempt
    case Plaintext(p) => Opened(p)
    case AuthFail =>
      if retries == [] then NotOpened(Envelope.AuthFail)
      else
        (match retries[0]
         case PromptFails(e) => RetryEnded(e)
         case Phrase(next) => OpenLocally(c, blob, next, retries[1..]))
    case reason => NotOpened(reason)
  }

  /** How many prompts that takes. */
  function Prompts(c: Envelope.Cipher, blob: seq<Byte>, attempt: Envelope.Opened, retries: seq<Retry>): (n: nat)
    ensures n <= |retries|
    decreases |retries|
  {
    if !attempt.AuthFail? || retries == [] then 0
    else
      match retries[0]
      case PromptFails(_) => 1
      case Phrase(next) => 1 + Prompts(c, blob, Envelope.Decrypt(c, blob, next), retries[1..])
  }

  /** The phrase of the k-th attempt. */
  function Tried(phrase: seq<Byte>, retries: seq<Retry>, k: nat): seq<Byte>
    requires k <= |retries| && (k > 0 ==> retries[k - 1].Phrase?)
  {
    if k == 0 then phrase else retries[k - 1].bytes
  }

  /** Attempt k opens the blob, behind k wrong phrases and k prompts that yielded one. */
  predicate OpensAt(c: Envelope.Cipher, blob: seq<Byte>, phrase: seq<Byte>, retries: seq<Retry>, k: nat, p: seq<Byte>) {
    && k <= |retries|
    && (forall i :: 0 <= i < k ==> retries[i].Phrase?)
    && (forall i :: 0 <= i < k ==> Envelope.Decrypt(c, blob, Tried(phrase, retries, i)) == Envelope.AuthFail)
    && Envelope.Decrypt(c, blob, Tried(phrase, retries, k)) == Envelope.Plaintext(p)
  }

  /** The claimed blob is opened exactly by the first right phrase, and only behind wrong ones. */
  lemma {:induction false} OpensWithFirstRightPhrase(
    c: Envelope.Cipher, blob: seq<Byte>, phrase: seq<Byte>, retries: seq<Retry>, p: seq<Byte>)
    ensures OpenLocally(c, blob, phrase, retries) == Opened(p) <==> exists k :: OpensAt(c, blob, phrase, retries, k, p)
    decreases |retries|
  {
    hide Envelope.Decrypt;
    var attempt := Envelope.Decrypt(c, blob, Tried(phrase, retries, 0));
    if attempt == Envelope.Plaintext(p) {
      assert OpensAt(c, blob, phrase, retries, 0, p);
    } else if attempt == Envelope.AuthFail && retries != [] && retries[0].Phrase? {
      var next, rest := retries[0].bytes, retries[1..];
      OpensWithFirstRightPhrase(c, blob, next, rest, p);
      if k :| OpensAt(c, blob, next, rest, k, p) {
        OneAttemptMore(c, blob, phrase, retries, k, p);
      }
      if k :| OpensAt(c, blob, phrase, retries, k, p) {
        OneAttemptLess(c, blob, phrase, retries, k, p);
      }
    }
  }

  lemma OneAttemptMore(
    c: Envelope.Cipher, blob: seq<Byte>, phrase: seq<Byte>, retries: seq<Retry>, k: nat, p: seq<Byte>)
    requires retries != [] && retries[0].Phrase? && Envelope.Decrypt(c, blob, phrase) == Envelope.AuthFail
    requires OpensAt(c, blob, retries[0].bytes, retries[1..], k, p)
    ensures OpensAt(c, blob, phrase, retries, k + 1, p)
  {
    hide Envelope.Decrypt;
    forall i | 0 <= i <= k
      ensures retries[i].Phrase? && Tried(phrase, retries, i + 1) == Tried(retries[0].bytes, retries[1..], i)
    {
      assert i > 0 ==> retries[1..][i - 1] == retries[i];
    }
    forall i | 0 <= i < k + 1 ensures Envelope.Decrypt(c, blob, Tried(phrase, retries, i)) == Envelope.AuthFail {
      if i > 0 {
        assert Tried(phrase, retries, i) == Tried(retries[0].bytes, retries[1..], i - 1);
      }
    }
  }

  lemma OneAttemptLess(
    c: Envelope.Cipher, blob: seq<Byte>, phrase: seq<Byte>, retries: seq<Retry>, k: nat, p: seq<Byte>)
    requires k > 0 && OpensAt(c, blob, phrase, retries, k, p)
    ensures OpensAt(c, blob, retries[0].bytes, retries[1..], k - 1, p)
  {
    hide Envelope.Decrypt;
    forall i | 0 <= i < k
      ensures i > 0 ==> retries[1..][i - 1].Phrase?
      ensures Tried(phrase, retries, i + 1) == Tried(retries[0].bytes, retries[1..], i)
    {
      assert i > 0 ==> retries[1..][i - 1] == retries[i];
    }
  }

  function MapDecryptError(r: LocalResult): Err {
    match r
    case RetryEnded(e) =>
      if FirstOf(e, IsCommand).Some? then FirstOf(e, IsCommand).value else Command(10, Internal, None)
    case NotOpened(AuthFail) => Command(5, PassphraseFailed, None)
    case NotOpened(UnsupportedSuite) => Command(8, UnsupportedSecret, None)
    case NotOpened(Truncated) => Command(8, UnsupportedSecret, None)
    case _ => Command(10, Internal, None)
  }

  /** The local part of a claim's result: what is delivered, or why nothing is. */
  datatype Delivery = Deliver(plaintext: seq<Byte>) | Refuse(err: Err)

  function Deliverable(r: LocalResult): Delivery {
    match r
    case Opened(p) => if Utf8.Valid(p) then Deliver(p) else Refuse(Command(5, PlaintextInvalid, None))
    case _ => Refuse(MapDecryptError(r))
  }

  /** Prompts report commands of their own kind: usage errors, I/O errors, interruption. */
  predicate PromptErrors(retries: seq<Retry>) {
    forall i :: 0 <= i < |retries| && retries[i].PromptFails? ==> IsLocal(retries[i].err)
  }

  /** Every error behind a confirmed claim is one of the command's own: never "outcome unknown". */
  lemma ClaimedErrorsAreLocal(c: Envelope.Cipher, blob: seq<Byte>, phrase: seq<Byte>, retries: seq<Retry>)
    requires PromptErrors(retries)
    ensures var d := Deliverable(OpenLocally(c, blob, phrase, retries)); d.Refuse? ==> IsLocal(d.err)
    decreases |retries|
  {
    hide Envelope.Decrypt;
    if Envelope.Decrypt(c, blob, phrase) == Envelope.AuthFail && retries != [] && retries[0].Phrase? {
      ClaimedErrorsAreLocal(c, blob, retries[0].bytes, retries[1..]);
    }
  }

  /** A prompt's yield in memory: a buffer that its reader owns, or an error. */
  datatype Prompted = Buffer(phrase: array<Byte>) | Failed(err: Err)

  ghost function Value(p: Prompted): Retry
    reads if p.Buffer? then {p.phrase} else {}
  {
    match p
    case Buffer(a) => Phrase(a[..])
    case Failed(e) => PromptFails(e)
  }

  ghost function Buffers(prompts: seq<Prompted>): set<array<Byte>> {
    set i | 0 <= i < |prompts| && prompts[i].Buffer? :: prompts[i].phrase
  }

  ghost function Values(prompts: seq<Prompted>): (r: seq<Retry>)
    reads Buffers(prompts)
    ensures |r| == |prompts| && forall i :: 0 <= i < |r| ==> r[i] == Value(prompts[i])
  {
    seq(|prompts|, i requires 0 <= i < |prompts| reads Buffers(prompts) => Value(prompts[i]))
  }

  /** No prompt hands out a buffer twice. */
  ghost predicate OwnBuffers(phrase: array<Byte>, prompts: seq<Prompted>) {
    && (forall i :: 0 <= i < |prompts| && prompts[i].Buffer? ==> prompts[i].phrase != phrase)
    && (forall i, j :: 0 <= i < j < |prompts| && prompts[i].Buffer? && prompts[j].Buffer? ==>
          prompts[i].phrase != prompts[j].phrase)
  }

  /** What one prompt more adds to the specification of the loop. */
  lemma NextPrompt(c: Envelope.Cipher, blob: seq<Byte>, retries: seq<Retry>, k: nat)
    requires k < |retries|
    ensures retries[k].PromptFails? ==>
              && Prompts(c, blob, Envelope.AuthFail, retries[k..]) == 1
              && AfterAttempt(c, blob, Envelope.AuthFail, retries[k..]) == RetryEnded(retries[k].err)
    ensures retries[k].Phrase? ==>
              var attempt := Envelope.Decrypt(c, blob, retries[k].bytes);
              && Prompts(c, blob, Envelope.AuthFail, retries[k..]) == 1 + Prompts(c, blob, attempt, retries[k + 1..])
              && AfterAttempt(c, blob, Envelope.AuthFail, retries[k..]) ==
                  AfterAttempt(c, blob, attempt, retries[k + 1..])
    ensures Asks(k + 1) == Asks(k) + [AskedAgain]
  {
    hide Envelope.Decrypt;
    assert retries[k..][0] == retries[k] && retries[k..][1..] == retries[k + 1..];
  }

  lemma NoPrompt(c: Envelope.Cipher, blob: seq<Byte>, attempt: Envelope.Opened, rest: seq<Retry>)
    requires attempt.AuthFail? ==> rest == []
    ensures Prompts(c, blob, attempt, rest) == 0
    ensures AfterAttempt(c, blob, attempt, rest) ==
              if attempt.Plaintext? then Opened(attempt.bytes) else NotOpened(attempt)
  {
  }

  /** Tries the phrase and then each replacement, wiping every one before it is let go. */
  method OpenClaimed(c: Envelope.Cipher, blob: seq<Byte>, journal: Journal, phrase: array<Byte>, prompts: seq<Prompted>)
    returns (r: LocalResult, used: nat)
    requires OwnBuffers(phrase, prompts)
    modifies journal, phrase, Buffers(prompts)
    ensures r == OpenLocally(c, blob, old(phrase[..]), old(Values(prompts)))
    ensures used == Prompts(c, blob, Envelope.Decrypt(c, blob, old(phrase[..])), old(Values(prompts))) <= |prompts|
    ensures journal.effects == old(journal.effects) + Asks(used)
    ensures Base64Url.IsZero(phrase[..])
    ensures forall i :: 0 <= i < used && prompts[i].Buffer? ==> Base64Url.IsZero(prompts[i].phrase[..])
  {
    hide Envelope.Decrypt, AfterAttempt, Prompts, Asks;
    ghost var retries := Values(prompts);
    var current := phrase;
    var attempt := Envelope.Decrypt(c, blob, current[..]);
    ghost var total := Prompts(c, blob, attempt, retries);
    used := 0;
    assert retries[0..] == retries;
    while attempt == Envelope.AuthFail && used < |prompts|
      invariant used <= |prompts|
      invariant AfterAttempt(c, blob, attempt, retries[used..]) == OpenLocally(c, blob, old(phrase[..]), retries)
      invariant used + Prompts(c, blob, attempt, retries[used..]) == total
      invariant journal.effects == old(journal.effects) + Asks(used)
      invariant if used == 0 then current == phrase
                else prompts[used - 1].Buffer? && current == prompts[used - 1].phrase
      invariant used > 0 ==> Base64Url.IsZero(phrase[..])
      invariant forall i :: 0 <= i < used - 1 && prompts[i].Buffer? ==> Base64Url.IsZero(prompts[i].phrase[..])
      invariant forall i :: used <= i < |prompts| && prompts[i].Buffer? ==>
          prompts[i].phrase[..] == old(prompts[i].phrase[..])
      decreases |prompts| - used
    {
      Base64Url.Wipe(current);
      journal.Note(AskedAgain);
      var next := prompts[used];
      NextPrompt(c, blob, retries, used);
      used := used + 1;
      match next {
        case Failed(e) => return RetryEnded(e), used;
        case Buffer(replacement) =>
          current := replacement;
          attempt := Envelope.Decrypt(c, blob, current[..]);
      }
    }
    Base64Url.Wipe(current);
    NoPrompt(c, blob, attempt, retries[used..]);
    if attempt.Plaintext? {
      r := Opened(attempt.bytes);
    } else {
      r := NotOpened(attempt);
    }
  }

  // ----- the whole reveal -----

  datatype Destination = Json | ToFile | Viewer | Stdout

  datatype ClaimResult = Gets(blob: seq<Byte>) | ClaimFails(err: Err)

  /** What was asked for, and how every fallible step goes. */
  datatype Plan = Plan(
    urlAccepted: bool, // arguments, URL, origin and the warnings required before the network
    destination: Destination,
    outReserved: bool, // for ToFile
    terminalFound: bool, // for Viewer
    keep: bool, keepReserved: bool,
    clientBuilt: bool, disclosed: bool,
    claim: ClaimResult,
    keepFate: Fate,
    outFate: Fate, // for ToFile
    deliveryError: Option<Err>) // for the other destinations

  const USAGE_ERROR := Command(2, InvalidInput, None)
  const LOCAL_ERROR := Command(3, LocalIoFailed, None)

  /** Displaying is interrupted or fails; the other destinations just fail. */
  predicate PlanErrors(plan: Plan) {
    && (plan.deliveryError.Some? ==> IsLocal(plan.deliveryError.value))
    && (plan.claim.ClaimFails? ==> !plan.claim.err.Command?)
  }

  predicate DestinationReady(plan: Plan) {
    match plan.destination
    case ToFile => plan.outReserved
    case Viewer => plan.terminalFound
    case _ => true
  }

  function DeliveryError(plan: Plan): Option<Err> {
    if plan.destination.ToFile? then
      if plan.outFate.Fine? then None else Some(WRITE_FAILED)
    else plan.deliveryError
  }

  /** Effects of reserving the destinations. */
  function ReserveEffects(plan: Plan): seq<Effect> {
    if !DestinationReady(plan) then []
    else
      (if plan.destination.ToFile? then [OutReserved] else [])
      + if plan.keep && plan.keepReserved then [KeepReserved] else []
  }

  predicate ReadyToClaim(plan: Plan) {
    DestinationReady(plan) && (plan.keep ==> plan.keepReserved) && plan.clientBuilt && plan.disclosed
  }

  function AfterClaim(
    c: Envelope.Cipher, plan: Plan, blob: seq<Byte>, phrase: seq<Byte>, retries: seq<Retry>): seq<Effect>
  {
    if plan.keep && !plan.keepFate.Fine? then [Warned]
    else
      (if plan.keep then [CiphertextKept(Envelope.RecoveryFile(blob))] else [])
      + Asks(Prompts(c, blob, Envelope.Decrypt(c, blob, phrase), retries))
      + match Deliverable(OpenLocally(c, blob, phrase, retries))
        case Refuse(_) => if plan.keep then [] else [Warned]
        case Deliver(p) => if DeliveryError(plan).None? then [Delivered(p)] else if plan.keep then [] else [Warned]
  }

  function ResultAfterClaim(
    c: Envelope.Cipher, plan: Plan, blob: seq<Byte>, phrase: seq<Byte>, retries: seq<Retry>): Option<Err>
  {
    if plan.keep && !plan.keepFate.Fine? then Some(WRITE_FAILED)
    else
      match Deliverable(OpenLocally(c, blob, phrase, retries))
      case Refuse(e) => Some(e)
      case Deliver(_) => DeliveryError(plan)
  }

  function ClaimEffects(c: Envelope.Cipher, plan: Plan, phrase: seq<Byte>, retries: seq<Retry>): seq<Effect> {
    if !ReadyToClaim(plan) then []
    else
      match plan.claim
      case ClaimFails(_) => [ServerDisclosed]
      case Gets(blob) => [ServerDisclosed, Claimed(blob)] + AfterClaim(c, plan, blob, phrase, retries)
  }

  function ClaimOutcome(c: Envelope.Cipher, plan: Plan, phrase: seq<Byte>, retries: seq<Retry>): Option<Err> {
    if !ReadyToClaim(plan) then
      var reserved := DestinationReady(plan) && (plan.keep ==> plan.keepReserved);
      Some(if reserved && !plan.clientBuilt then USAGE_ERROR else LOCAL_ERROR)
    else
      match plan.claim
      case ClaimFails(e) => Some(MapApiError(e))
      case Gets(blob) => ResultAfterClaim(c, plan, blob, phrase, retries)
  }

  /** How many retry prompts are read behind a confirmed claim, and in all. */
  function PromptsAfterClaim(
    c: Envelope.Cipher, plan: Plan, blob: seq<Byte>, phrase: seq<Byte>, retries: seq<Retry>): (n: nat)
    ensures n <= |retries|
  {
    if plan.keep && !plan.keepFate.Fine? then 0 else Prompts(c, blob, Envelope.Decrypt(c, blob, phrase), retries)
  }

  function PromptsInAll(c: Envelope.Cipher, plan: Plan, phrase: Retry, retries: seq<Retry>): (n: nat)
    ensures n <= |retries|
  {
    if plan.urlAccepted && phrase.Phrase? then PromptsOnceRead(c, plan, phrase.bytes, retries) else 0
  }

  function PromptsOnceRead(c: Envelope.Cipher, plan: Plan, phrase: seq<Byte>, retries: seq<Retry>): (n: nat)
    ensures n <= |retries|
  {
    if ReadyToClaim(plan) && plan.claim.Gets? then PromptsAfterClaim(c, plan, plan.claim.blob, phrase, retries) else 0
  }

  predicate Claims(plan: Plan, phrase: Retry) {
    plan.urlAccepted && phrase.Phrase? && ReadyToClaim(plan) && plan.claim.Gets?
  }

  /** Everything a reveal does, in order. */
  function Effects(c: Envelope.Cipher, plan: Plan, phrase: Retry, retries: seq<Retry>): seq<Effect> {
    if !plan.urlAccepted then []
    else if phrase.PromptFails? then [UrlAccepted]
    else [UrlAccepted, PhraseRead] + ReserveEffects(plan) + ClaimEffects(c, plan, phrase.bytes, retries)
  }

  function Result(c: Envelope.Cipher, plan: Plan, phrase: Retry, retries: seq<Retry>): Option<Err> {
    if !plan.urlAccepted then Some(USAGE_ERROR)
    else if phrase.PromptFails? then Some(phrase.err)
    else ClaimOutcome(c, plan, phrase.bytes, retries)
  }

  // ----- what the effects promise -----

  /** Everything that must come before a claim. */
  predicate Prepared(plan: Plan, before: seq<Effect>) {
    && UrlAccepted in before && PhraseRead in before && ServerDisclosed in before
    && (plan.destination.ToFile? ==> OutReserved in before)
    && (plan.keep ==> KeepReserved in before)
  }

  /** What a reveal does up to the claim. */
  function Prelude(plan: Plan): (r: seq<Effect>)
    requires ReadyToClaim(plan)
    ensures Prepared(plan, r)
    ensures forall k :: 0 <= k < |r| ==> !r[k].Claimed? && !r[k].Delivered? && !r[k].CiphertextKept? && r[k] != Warned
  {
    var r := [UrlAccepted, PhraseRead] + ReserveEffects(plan) + [ServerDisclosed];
    assert r[0] == UrlAccepted && r[1] == PhraseRead && r[|r| - 1] == ServerDisclosed;
    assert plan.destination.ToFile? ==> r[2] == OutReserved;
    assert plan.keep ==> r[|r| - 2] == KeepReserved;
    r
  }

  /** A reveal that claims is its prelude, the claim and what follows; any other claims, keeps and delivers nothing. */
  lemma EffectsInOrder(c: Envelope.Cipher, plan: Plan, phrase: Retry, retries: seq<Retry>)
    ensures var effects := Effects(c, plan, phrase, retries);
            if Claims(plan, phrase) then
              effects == Prelude(plan) + [Claimed(plan.claim.blob)]
                  + AfterClaim(c, plan, plan.claim.blob, phrase.bytes, retries)
            else
              forall k :: 0 <= k < |effects| ==>
                !effects[k].Claimed? && !effects[k].Delivered? && !effects[k].CiphertextKept? && effects[k] != Warned
  {
    hide AfterClaim, Prepared;
    if Claims(plan, phrase) {
      var tail := AfterClaim(c, plan, plan.claim.blob, phrase.bytes, retries);
      var claimed := Claimed(plan.claim.blob);
      assert [ServerDisclosed, claimed] + tail == [ServerDisclosed] + [claimed] + tail;
    }
  }

  /** Over all failures and retries: at most one claim, and only behind everything that can fail before it. */
  lemma ClaimsOnceWhenPrepared(c: Envelope.Cipher, plan: Plan, phrase: Retry, retries: seq<Retry>, i: nat)
    requires i < |Effects(c, plan, phrase, retries)| && Effects(c, plan, phrase, retries)[i].Claimed?
    ensures Prepared(plan, Effects(c, plan, phrase, retries)[..i])
    ensures forall j :: i < j < |Effects(c, plan, phrase, retries)| ==> !Effects(c, plan, phrase, retries)[j].Claimed?
  {
    EffectsInOrder(c, plan, phrase, retries);
    hide Effects, OpenLocally, Envelope.RecoveryFile, Prepared, ReserveEffects, Prelude;
    var effects := Effects(c, plan, phrase, retries);
    assert Claims(plan, phrase);
    var head := Prelude(plan);
    var tail := AfterClaim(c, plan, plan.claim.blob, phrase.bytes, retries);
    assert forall k :: 0 <= k < |tail| ==> !tail[k].Claimed?;
    assert i == |head|;
    assert effects[..i] == head;
  }

  /**
   No silent loss and no false alarm: the loss of a claimed secret is warned of exactly when it was
   neither delivered nor kept; and what is kept is the file that recovers it.
   */
  lemma ClaimedSecretIsNeverLostSilently(c: Envelope.Cipher, plan: Plan, phrase: Retry, retries: seq<Retry>)
    ensures var effects := Effects(c, plan, phrase, retries);
            && (Warned in effects
                <==> Claims(plan, phrase)
                     && !(exists p :: Delivered(p) in effects) && !(exists f :: CiphertextKept(f) in effects))
            && (forall f :: CiphertextKept(f) in effects ==>
                  Claims(plan, phrase) && f == Envelope.RecoveryFile(plan.claim.blob))
  {
    var effects := Effects(c, plan, phrase, retries);
    forall f | CiphertextKept(f) in effects
      ensures Claims(plan, phrase) && f == Envelope.RecoveryFile(plan.claim.blob)
    {
      KeptFileIsTheRecoveryFile(c, plan, phrase, retries, f);
    }
    EffectsInOrder(c, plan, phrase, retries);
    hide Effects, AfterClaim, Envelope.RecoveryFile, Prepared, Prelude;
    if Claims(plan, phrase) {
      var tail := AfterClaim(c, plan, plan.claim.blob, phrase.bytes, retries);
      WarnedAfterClaim(c, plan, plan.claim.blob, phrase.bytes, retries);
      OnlyBehindTheClaim(effects, Prelude(plan), Claimed(plan.claim.blob), tail);
    }
  }

  /** What the prelude and the claim are not can only be in what follows. */
  lemma OnlyBehindTheClaim(effects: seq<Effect>, head: seq<Effect>, claim: Effect, tail: seq<Effect>)
    requires effects == head + [claim] + tail && claim.Claimed?
    requires forall k :: 0 <= k < |head| ==> !head[k].Delivered? && !head[k].CiphertextKept? && head[k] != Warned
    ensures Warned in effects <==> Warned in tail
    ensures (exists p :: Delivered(p) in effects) <==> exists p :: Delivered(p) in tail
    ensures (exists f :: CiphertextKept(f) in effects) <==> exists f :: CiphertextKept(f) in tail
  {
    forall e: Effect | e.Delivered? || e.CiphertextKept? || e == Warned ensures e in effects <==> e in tail {
      assert e in head + [claim] <==> e in head || e == claim;
    }
  }

  lemma WarnedAfterClaim(c: Envelope.Cipher, plan: Plan, blob: seq<Byte>, phrase: seq<Byte>, retries: seq<Retry>)
    ensures var tail := AfterClaim(c, plan, blob, phrase, retries);
            Warned in tail <==> !(exists p :: Delivered(p) in tail) && !(exists f :: CiphertextKept(f) in tail)
  {
    hide OpenLocally, Envelope.RecoveryFile, Prompts;
    var tail := AfterClaim(c, plan, blob, phrase, retries);
    if tail != [] {
      var last := tail[|tail| - 1];
      assert tail[0] in tail && last in tail;
      assert last.Delivered? ==> Delivered(last.plaintext) in tail;
    }
  }

  /** What is delivered is what the claimed blob opens to under some phrase tried, and valid text. */
  lemma DeliveredIsTheSecret(c: Envelope.Cipher, plan: Plan, phrase: Retry, retries: seq<Retry>, p: seq<Byte>)
    requires Delivered(p) in Effects(c, plan, phrase, retries)
    ensures phrase.Phrase? && plan.claim.Gets? && Utf8.Valid(p)
    ensures OpenLocally(c, plan.claim.blob, phrase.bytes, retries) == Opened(p)
    ensures Claimed(plan.claim.blob) in Effects(c, plan, phrase, retries)
    ensures Result(c, plan, phrase, retries).None?
  {
    EffectsInOrder(c, plan, phrase, retries);
    hide Effects, OpenLocally, Envelope.RecoveryFile, Prepared, ReserveEffects, Prelude, Utf8.Valid;
    var effects := Effects(c, plan, phrase, retries);
    assert Claims(plan, phrase);
    assert effects[|Prelude(plan)|] == Claimed(plan.claim.blob);
    assert Delivered(p) in AfterClaim(c, plan, plan.claim.blob, phrase.bytes, retries);
  }

  /**
   The claimed blob is, byte for byte, an encryption of what is delivered, under the phrase of some
   attempt; and behind every attempt before it stood a wrong phrase.
   */
  lemma DeliveredWasEncrypted(c: Envelope.Cipher, plan: Plan, phrase: Retry, retries: seq<Retry>, p: seq<Byte>)
    requires Envelope.Sound(c) && Delivered(p) in Effects(c, plan, phrase, retries)
    ensures phrase.Phrase? && plan.claim.Gets?
    ensures exists k, salt, iv ::
              && OpensAt(c, plan.claim.blob, phrase.bytes, retries, k, p)
              && |salt| == Envelope.SALT_LEN && |iv| == Envelope.IV_LEN
              && plan.claim.blob == Envelope.Encrypt(c, Tried(phrase.bytes, retries, k), salt, iv, p)
  {
    DeliveredIsTheSecret(c, plan, phrase, retries, p);
    var blob := plan.claim.blob;
    hide Effects, OpenLocally, Envelope.Decrypt, Envelope.Encrypt, Envelope.Sound;
    OpensWithFirstRightPhrase(c, blob, phrase.bytes, retries, p);
    var k :| OpensAt(c, blob, phrase.bytes, retries, k, p);
    Envelope.OpensOnlyEncryptions(c, blob, Tried(phrase.bytes, retries, k), p);
  }

  /**
   A kept file opens, in the decrypt command, to exactly what the claimed blob opens to under the same
   phrase, as long as it is within that command's bound.
   */
  lemma KeptFileOpensAsTheBlob(c: Envelope.Cipher, plan: Plan, phrase: Retry, retries: seq<Retry>, file: seq<Byte>)
    requires CiphertextKept(file) in Effects(c, plan, phrase, retries)
    ensures plan.claim.Gets?
    ensures forall key, p ::
              Envelope.OpenRecoveryFile(c, file, key) == Envelope.Secret(p) <==>
              |file| <= Envelope.MAX_BLOB_FILE && Envelope.Decrypt(c, plan.claim.blob, key) == Envelope.Plaintext(p)
  {
    KeptFileIsTheRecoveryFile(c, plan, phrase, retries, file);
    hide Effects, Envelope.Decrypt, Envelope.RecoveryFile, Envelope.OpenRecoveryFile;
    forall key, p {
      Envelope.RecoveryFileOpensAsBlob(c, plan.claim.blob, key, p);
    }
  }

  lemma KeptFileIsTheRecoveryFile(c: Envelope.Cipher, plan: Plan, phrase: Retry, retries: seq<Retry>, file: seq<Byte>)
    requires CiphertextKept(file) in Effects(c, plan, phrase, retries)
    ensures Claims(plan, phrase) && file == Envelope.RecoveryFile(plan.claim.blob)
  {
    EffectsInOrder(c, plan, phrase, retries);
    hide Effects, Prelude, Prepared, ReserveEffects, OpenLocally, Envelope.RecoveryFile, Prompts;
    assert Claims(plan, phrase);
    assert CiphertextKept(file) in AfterClaim(c, plan, plan.claim.blob, phrase.bytes, retries);
  }

  /** So what `create` can make is never lost with the claim: the kept file recovers it. */
  lemma KeptSecretIsRecoverable(
    c: Envelope.Cipher, plan: Plan, phrase: Retry, retries: seq<Retry>, file: seq<Byte>,
    key: seq<Byte>, salt: seq<Byte>, iv: seq<Byte>, p: seq<Byte>)
    requires Envelope.Sound(c) && |salt| == Envelope.SALT_LEN && |iv| == Envelope.IV_LEN
    requires |p| <= Envelope.MAX_PLAINTEXT
    requires plan.claim == Gets(Envelope.Encrypt(c, key, salt, iv, p))
    requires CiphertextKept(file) in Effects(c, plan, phrase, retries)
    ensures Envelope.OpenRecoveryFile(c, file, key) == Envelope.Secret(p)
  {
    KeptFileIsTheRecoveryFile(c, plan, phrase, retries, file);
    hide Effects, Envelope.RecoveryFile, Envelope.OpenRecoveryFile, Envelope.Encrypt;
    Envelope.KeptCiphertextIsRecoverable(c, key, salt, iv, p);
  }

  /** The command reports success exactly when the plaintext was delivered. */
  lemma SuccessMeansDelivered(c: Envelope.Cipher, plan: Plan, phrase: Retry, retries: seq<Retry>)
    ensures Result(c, plan, phrase, retries).None? <==> exists p :: Delivered(p) in Effects(c, plan, phrase, retries)
  {
    hide OpenLocally, Envelope.RecoveryFile;
    var effects := Effects(c, plan, phrase, retries);
    if Result(c, plan, phrase, retries).None? {
      var last := effects[|effects| - 1];
      assert last.Delivered? && last in effects;
      assert Delivered(last.plaintext) in effects;
    }
    if p :| Delivered(p) in effects {
      DeliveredIsTheSecret(c, plan, phrase, retries, p);
    }
  }

  /** Once the claim is confirmed the error, if any, is one of the command's own. */
  lemma ClaimedResultIsLocal(c: Envelope.Cipher, plan: Plan, phrase: Retry, retries: seq<Retry>)
    requires PlanErrors(plan) && PromptErrors(retries)
    requires plan.urlAccepted && phrase.Phrase? && ReadyToClaim(plan) && plan.claim.Gets?
    ensures var r := Result(c, plan, phrase, retries); r.Some? ==> IsLocal(r.value)
  {
    hide OpenLocally;
    ClaimedErrorsAreLocal(c, plan.claim.blob, phrase.bytes, retries);
  }

  // ----- the command as it runs -----

  /** Reserves the destinations; what was reserved before a failure is still to be discarded. */
  method ReserveDestinations(plan: Plan, journal: Journal) returns (ok: bool, out: ReservedFile?, kept: ReservedFile?)
    modifies journal
    ensures journal.effects == old(journal.effects) + ReserveEffects(plan)
    ensures ok <==> DestinationReady(plan) && (plan.keep ==> plan.keepReserved)
    ensures out != null ==> fresh(out) && out.exists_ && !out.written
    ensures kept != null ==> fresh(kept) && kept.exists_ && !kept.written && kept != out
    ensures out != null <==> DestinationReady(plan) && plan.destination.ToFile?
    ensures kept != null <==> DestinationReady(plan) && plan.keep && plan.keepReserved
  {
    out, kept := null, null;
    if plan.destination.ToFile? {
      if !plan.outReserved {
        return false, null, null;
      }
      out := new ReservedFile();
      journal.Note(OutReserved);
    }
    if plan.destination.Viewer? && !plan.terminalFound {
      return false, out, null;
    }
    if plan.keep {
      if !plan.keepReserved {
        return false, out, null;
      }
      kept := new ReservedFile();
      journal.Note(KeepReserved);
    }
    ok := true;
  }

  method DeliverPlaintext(plan: Plan, journal: Journal, out: ReservedFile?, plaintext: seq<Byte>)
      returns (err: Option<Err>)
    requires plan.destination.ToFile? ==> out != null && !out.written
    modifies journal, out
    ensures err == DeliveryError(plan)
    ensures journal.effects == old(journal.effects) + if err.None? then [Delivered(plaintext)] else []
    ensures out != null ==> out.exists_ == old(out.exists_)
    ensures out != null && plan.destination.ToFile? ==>
        (out.written <==> err.None?) && (out.written ==> out.content == plaintext)
    ensures out != null && !plan.destination.ToFile? ==> out.written == old(out.written)
  {
    if plan.destination.ToFile? {
      err := out.Write(plaintext, plan.outFate);
      if err.None? {
        out.written := true;
      }
    } else {
      err := plan.deliveryError;
    }
    if err.None? {
      journal.Note(Delivered(plaintext));
    }
  }

  method DecryptAndDeliver(c: Envelope.Cipher, plan: Plan, journal: Journal, out: ReservedFile?, blob: seq<Byte>,
                           phrase: array<Byte>, prompts: seq<Prompted>)
    returns (err: Option<Err>, used: nat)
    requires OwnBuffers(phrase, prompts)
    requires plan.destination.ToFile? <==> out != null
    requires out != null ==> !out.written && out.exists_
    modifies journal, out, phrase, Buffers(prompts)
    ensures var d := Deliverable(OpenLocally(c, blob, old(phrase[..]), old(Values(prompts))));
            && err == (match d case Refuse(e) => Some(e) case Deliver(_) => DeliveryError(plan))
            && journal.effects == old(journal.effects)
                 + Asks(Prompts(c, blob, Envelope.Decrypt(c, blob, old(phrase[..])), old(Values(prompts))))
                 + (if d.Deliver? && err.None? then [Delivered(d.plaintext)] else if plan.keep then [] else [Warned])
            && (out != null ==> out.exists_ && (out.written <==> err.None?))
            && (out != null && out.written ==> d.Deliver? && out.content == d.plaintext)
    ensures used == Prompts(c, blob, Envelope.Decrypt(c, blob, old(phrase[..])), old(Values(prompts))) <= |prompts|
    ensures Base64Url.IsZero(phrase[..])
    ensures forall i :: 0 <= i < used && prompts[i].Buffer? ==> Base64Url.IsZero(prompts[i].phrase[..])
  {
    hide OpenLocally, Prompts;
    var r;
    r, used := OpenClaimed(c, blob, journal, phrase, prompts);
    match Deliverable(r) {
      case Refuse(e) => err := Some(e);
      case Deliver(p) => err := DeliverPlaintext(plan, journal, out, p);
    }
    if err.Some? && !plan.keep {
      journal.Note(Warned);
    }
  }

  /** Behind the claim: keep the ciphertext if asked to, then open and deliver. */
  method KeepAndDeliver(c: Envelope.Cipher, plan: Plan, journal: Journal, out: ReservedFile?, kept: ReservedFile?,
                        blob: seq<Byte>, phrase: array<Byte>, prompts: seq<Prompted>)
    returns (err: Option<Err>, used: nat)
    requires OwnBuffers(phrase, prompts)
    requires (plan.destination.ToFile? <==> out != null) && (plan.keep <==> kept != null)
    requires out != null ==> !out.written && out.exists_ && kept != out
    requires kept != null ==> !kept.written && kept.exists_
    modifies journal, out, kept, phrase, Buffers(prompts)
    ensures var effects := AfterClaim(c, plan, blob, old(phrase[..]), old(Values(prompts)));
            && journal.effects == old(journal.effects) + effects
            && (out != null ==> out.exists_ && (out.written <==> Delivered(out.content) in effects))
            && (kept != null ==> kept.exists_ && (kept.written <==> CiphertextKept(kept.content) in effects))
    ensures err == ResultAfterClaim(c, plan, blob, old(phrase[..]), old(Values(prompts)))
    ensures used == PromptsAfterClaim(c, plan, blob, old(phrase[..]), old(Values(prompts))) <= |prompts|
    ensures forall i :: 0 <= i < used && prompts[i].Buffer? ==> Base64Url.IsZero(prompts[i].phrase[..])
  {
    hide OpenLocally, Envelope.RecoveryFile, Prompts;
    used := 0;
    if kept != null {
      var failure := kept.Write(Envelope.RecoveryFile(blob), plan.keepFate);
      if failure.Some? {
        journal.Note(Warned);
        return failure, used;
      }
      kept.written := true;
      journal.Note(CiphertextKept(kept.content));
    }
    err, used := DecryptAndDeliver(c, plan, journal, out, blob, phrase, prompts);
  }

  /** Everything behind the reservations: disclose the server and claim, once. */
  method ClaimAndDeliver(c: Envelope.Cipher, plan: Plan, journal: Journal, out: ReservedFile?, kept: ReservedFile?,
                         phrase: array<Byte>, prompts: seq<Prompted>)
    returns (err: Option<Err>, used: nat)
    requires OwnBuffers(phrase, prompts)
    requires DestinationReady(plan) && (plan.keep ==> plan.keepReserved)
    requires (plan.destination.ToFile? <==> out != null) && (plan.keep <==> kept != null)
    requires out != null ==> !out.written && out.exists_ && kept != out
    requires kept != null ==> !kept.written && kept.exists_
    modifies journal, out, kept, phrase, Buffers(prompts)
    ensures var effects := ClaimEffects(c, plan, old(phrase[..]), old(Values(prompts)));
            && journal.effects == old(journal.effects) + effects
            && (out != null ==> out.exists_ && (out.written <==> Delivered(out.content) in effects))
            && (kept != null ==> kept.exists_ && (kept.written <==> CiphertextKept(kept.content) in effects))
    ensures err == ClaimOutcome(c, plan, old(phrase[..]), old(Values(prompts)))
    ensures used == PromptsOnceRead(c, plan, old(phrase[..]), old(Values(prompts))) <= |prompts|
    ensures forall i :: 0 <= i < used && prompts[i].Buffer? ==> Base64Url.IsZero(prompts[i].phrase[..])
  {
    hide AfterClaim, ResultAfterClaim, MapApiError, PromptsAfterClaim;
    used := 0;
    if !plan.clientBuilt {
      return Some(USAGE_ERROR), used;
    }
    if !plan.disclosed {
      return Some(LOCAL_ERROR), used;
    }
    journal.Note(ServerDisclosed);
    match plan.claim {
      case ClaimFails(e) => return Some(MapApiError(e)), used;
      case Gets(blob) =>
        journal.Note(Claimed(blob));
        err, used := KeepAndDeliver(c, plan, journal, out, kept, blob, phrase, prompts);
    }
  }

  /** Which reservations are in the trace. */
  lemma ReservedInTrace(c: Envelope.Cipher, plan: Plan, phrase: Retry, retries: seq<Retry>)
    ensures var effects := Effects(c, plan, phrase, retries);
            var reached := plan.urlAccepted && phrase.Phrase? && DestinationReady(plan);
            && (OutReserved in effects <==> reached && plan.destination.ToFile?)
            && (KeepReserved in effects <==> reached && plan.keep && plan.keepReserved)
  {
    ReservedEffects(plan);
    hide ClaimEffects, ReserveEffects;
    if plan.urlAccepted && phrase.Phrase? {
      NothingReservedLater(c, plan, phrase.bytes, retries);
      var head, reserved := [UrlAccepted, PhraseRead], ReserveEffects(plan);
      var tail := ClaimEffects(c, plan, phrase.bytes, retries);
      assert forall e :: e in head + reserved + tail <==> e in head || e in reserved || e in tail;
    }
  }

  lemma NothingReservedLater(c: Envelope.Cipher, plan: Plan, phrase: seq<Byte>, retries: seq<Retry>)
    ensures OutReserved !in ClaimEffects(c, plan, phrase, retries)
    ensures KeepReserved !in ClaimEffects(c, plan, phrase, retries)
  {
    hide OpenLocally, Envelope.RecoveryFile, Prompts;
  }

  lemma ReservedEffects(plan: Plan)
    ensures OutReserved in ReserveEffects(plan) <==> DestinationReady(plan) && plan.destination.ToFile?
    ensures KeepReserved in ReserveEffects(plan) <==> DestinationReady(plan) && plan.keep && plan.keepReserved
  {
    if DestinationReady(plan) && plan.destination.ToFile? {
      assert ReserveEffects(plan)[0] == OutReserved;
    }
    if DestinationReady(plan) && plan.keep && plan.keepReserved {
      assert ReserveEffects(plan)[|ReserveEffects(plan)| - 1] == KeepReserved;
    }
  }

  /**
   The reveal command. Files reserved and not written are gone at the end, the `out` file remains
   exactly when the plaintext was written to it, and no phrase that was read survives.
   */
  method RunReveal(c: Envelope.Cipher, plan: Plan, journal: Journal, phrase: Prompted, prompts: seq<Prompted>)
    returns (err: Option<Err>, out: ReservedFile?, kept: ReservedFile?, used: nat)
    requires phrase.Buffer? ==> OwnBuffers(phrase.phrase, prompts)
    requires journal.effects == []
    modifies journal, Buffers([phrase] + prompts)
    ensures journal.effects == Effects(c, plan, old(Value(phrase)), old(Values(prompts)))
    ensures err == Result(c, plan, old(Value(phrase)), old(Values(prompts)))
    // the files are there exactly when they were reserved, and remain exactly when they were written
    ensures out != null <==> OutReserved in journal.effects
    ensures kept != null <==> KeepReserved in journal.effects
    ensures out != null ==> fresh(out) && (out.exists_ <==> Delivered(out.content) in journal.effects)
    ensures kept != null ==> fresh(kept) && (kept.exists_ <==> CiphertextKept(kept.content) in journal.effects)
    // the phrase and every retry read are zero, and as many retries were read as were asked for
    ensures PhraseRead in journal.effects ==> phrase.Buffer? && Base64Url.IsZero(phrase.phrase[..])
    ensures used == PromptsInAll(c, plan, old(Value(phrase)), old(Values(prompts))) <= |prompts|
    ensures forall i :: 0 <= i < used && prompts[i].Buffer? ==> Base64Url.IsZero(prompts[i].phrase[..])
  {
    ReservedInTrace(c, plan, Value(phrase), Values(prompts));
    hide OpenLocally, AfterClaim, ClaimEffects, ClaimOutcome, ReserveEffects, PromptsAfterClaim;
    out, kept, used := null, null, 0;
    if !plan.urlAccepted {
      return Some(USAGE_ERROR), out, kept, used;
    }
    journal.Note(UrlAccepted);
    match phrase {
      case Failed(e) => return Some(e), out, kept, used;
      case Buffer(own) =>
        BufferSets(phrase, prompts);
        journal.Note(PhraseRead);
        err, out, kept, used := ReserveAndClaim(c, plan, journal, own, prompts);
        if kept != null {
          kept.DiscardUnlessWritten();
        }
        if out != null {
          out.DiscardUnlessWritten();
        }
        WipeApart(own, prompts, used);
    }
  }

  /** The part between reading the phrase and the deferred cleanup. */
  method ReserveAndClaim(c: Envelope.Cipher, plan: Plan, journal: Journal, phrase: array<Byte>, prompts: seq<Prompted>)
    returns (err: Option<Err>, out: ReservedFile?, kept: ReservedFile?, used: nat)
    requires OwnBuffers(phrase, prompts)
    modifies journal, phrase, Buffers(prompts)
    ensures var effects := ReserveEffects(plan) + ClaimEffects(c, plan, old(phrase[..]), old(Values(prompts)));
            && journal.effects == old(journal.effects) + effects
            && (out != null ==> fresh(out) && out.exists_ && (out.written <==> Delivered(out.content) in effects))
            && (kept != null ==> fresh(kept) && kept != out && kept.exists_)
            && (kept != null ==> (kept.written <==> CiphertextKept(kept.content) in effects))
    ensures out != null <==> DestinationReady(plan) && plan.destination.ToFile?
    ensures kept != null <==> DestinationReady(plan) && plan.keep && plan.keepReserved
    ensures err == ClaimOutcome(c, plan, old(phrase[..]), old(Values(prompts)))
    ensures used == PromptsOnceRead(c, plan, old(phrase[..]), old(Values(prompts))) <= |prompts|
    ensures forall i :: 0 <= i < used && prompts[i].Buffer? ==> Base64Url.IsZero(prompts[i].phrase[..])
  {
    hide OpenLocally, AfterClaim, ResultAfterClaim, MapApiError, PromptsAfterClaim;
    used := 0;
    var ok;
    ok, out, kept := ReserveDestinations(plan, journal);
    if !ok {
      return Some(LOCAL_ERROR), out, kept, used;
    }
    err, used := ClaimAndDeliver(c, plan, journal, out, kept, phrase, prompts);
  }

  lemma BufferSets(phrase: Prompted, prompts: seq<Prompted>)
    ensures Buffers(prompts) <= Buffers([phrase] + prompts)
    ensures phrase.Buffer? ==> phrase.phrase in Buffers([phrase] + prompts)
  {
    var all := [phrase] + prompts;
    forall a | a in Buffers(prompts) ensures a in Buffers(all) {
      var i :| 0 <= i < |prompts| && prompts[i].Buffer? && prompts[i].phrase == a;
      assert all[i + 1] == prompts[i];
    }
    assert all[0] == phrase;
  }

  /** The deferred wipe of the first phrase leaves the buffers already wiped alone. */
  method WipeApart(own: array<Byte>, prompts: seq<Prompted>, ghost used: nat)
    requires OwnBuffers(own, prompts) && used <= |prompts|
    requires forall i :: 0 <= i < used && prompts[i].Buffer? ==> Base64Url.IsZero(prompts[i].phrase[..])
    modifies own
    ensures Base64Url.IsZero(own[..])
    ensures forall i :: 0 <= i < used && prompts[i].Buffer? ==> Base64Url.IsZero(prompts[i].phrase[..])
  {
    Base64Url.Wipe(own);
  }
}
