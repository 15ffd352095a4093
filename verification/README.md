# Burnerpad CLI: verified models

Burnerpad's command-line client creates and claims one-time secrets. This project models the parts
of it whose correctness is not obvious from one function at a time, and proves what they promise:

- **Keys** (`KeyTokens`, `KeyMeaning`, `KeyDecoder`, `KeyProperties`, `Utf8`): the byte-at-a-time
  terminal decoder (UTF-8 by sections 3 and 4 of RFC 3629, control sequences, bracketed paste)
  refines a tokenizer that reads a whole buffer at once, and every byte, sequence, rune and paste
  has the event it should have. Chunking is invisible, delivered text is text that was received, a
  paste is one event whatever the timers do.
- **Lines** (`LineReader`, `LineGestures`): the line editor behind URL and token prompts, down to
  what the library takes for the last rune of arbitrary bytes; a typed line comes back byte for
  byte.
- **Phrases** (`WordLists`, `PhraseGrammar`, `PhraseMeaning`, `Phrases`, `Completion`, `PromptSpec`,
  `PromptGestures`, `PromptProperties`, `Machine`, `EntryPaths`): the word list and its
  binary-search index, two independently written readers of one grammar, the autocomplete machine
  proved against a plain scan of the list, and the theorem that every way of entering a phrase gives
  the same bytes.
- **Sampling** (`Sampling`): the phrase generator, and the proof that it favours no phrase, rejected
  draws and redraws included.
- **Viewer** (`ViewerTokens`, `ViewerCells`, `ViewerPages`, `ViewerNavigation`): display tokens of
  untrusted bytes, measured in the cells a terminal gives them, the page-break search, the renderer
  that must agree with it, and the navigation loop.
- **Encoding** (`Base64Url`, `Base64Rfc`, `Envelope`, `EnvelopeBytes`): the canonical gate in front
  of a lenient standard decoder, the encoding as RFC 4648 defines it, and the way back from a kept
  ciphertext to the plaintext.
- **Mutations under signals** (`Outcomes`, `ExitMeaning`, `SignalProtocol`, `RevealTrace`,
  `RevealOutcomes`, `TerminalModes`): which error types keep their cause and what that does to exit
  codes, the run loop as interleaved steps, the reveal command as a trace of effects, and who owns
  the terminal's modes.

Code that updates state in place is a class or a method with loops, and each such method is proved
equal to a specification function; the promises are then proved about those functions. The modules
`KeyMeaning`, `LineGestures`, `PhraseMeaning`, `PromptGestures`, `ViewerCells`, `Base64Rfc`,
`EnvelopeBytes`, `ExitMeaning` and `RevealOutcomes` say what those functions mean without repeating
them: in bytes, list words, cells, numbers and exit codes. Concurrency is a state machine: one step
for each section under a mutex, one for each write behind it.

Four promises turned out to have exact limits. Each has runs or inputs that fail and a condition that
holds if and only if the promise does:

- *A partial word can always be completed.* A paste keeps the partial word and may commit its last
  candidate; on every list this happens with every word that is typed, not committed, and then pasted
  (`EntryPaths.PasteCanStrandPartialWord`). A paste keeps the word completable exactly when there is
  no partial word, or the text is not acceptable, or it spares a candidate
  (`PromptProperties.PasteStaysCompletable`); a run does exactly when each of its pastes does
  (`PromptProperties.RunStaysCompletable`), so in particular without pastes
  (`PromptProperties.PasteFreeRunStaysCompletable`).
- *Terminal cleanups may run at any time.* Modes are undone outside the mutex, so a mode taken while a
  write that undoes it is pending is lost: the terminal can stay raw
  (`TerminalModes.OverlapLeavesTerminalRaw`), and an owned alternate screen can vanish
  (`TerminalModes.OverlapLosesAlternateScreen`). For all three modes and every order of the pending
  writes, a mode just taken survives them if and only if none that undoes it was pending
  (`TerminalModes.LateCleanupUndoesNewMode`). A comment in `internal/term/phrase.go` calls the emergency
  cleanup safe at any time from another goroutine; the failure needs a caller the program does not
  have, for its prompts and the viewer clean up in the routine that goes on to take the next mode, and
  the emergency cleanup runs only behind the join of that routine. Such sequential runs leave the
  terminal as they found it (`TerminalModes.SequentialRunsEndWhereTheyBegan`).
- *An outcome nobody can know survives a signal.* It does exactly when the command was told in time that
  headers went out (`SignalProtocol.OutcomesSurviveSignals`). The transport reports them from another
  goroutine, and the report is read once, when the request returns; a report that comes later leaves
  the signal's code, or a network failure, behind transmitted headers
  (`SignalProtocol.InterruptedBeforeReport`).
- *Base64url text is decoded canonically.* Not by the library alone: what its strict decoder accepts is
  canonical exactly without line breaks (`Base64Url.StrictLibrarySkipsLineBreaks`), and what its lenient
  one accepts exactly without line breaks and unused bits (`Base64Url.LenientLibraryDropsBits`). The gate
  around it accepts exactly the canonical texts.

What is taken as a parameter: the word list (with the assumptions its own test pins), the set of
graphic runes, the cipher (with its round-trip law), the stream of random draws, and, as adversarial
choices, every failure of a file, a prompt, the transport or the server.

## Model

| member | source | states |
|---|---|---|
| Utf8.DecodeThenEncode | internal/term/keys.go:204-208 | a byte string the decoder accepts as one rune is exactly the encoding of a scalar value: overlong forms, surrogates and values past U+10FFFF never decode |
| Utf8.EncodeThenDecode | internal/term/keys.go:204-208 | every encoded scalar value is decoded back, whatever bytes follow |
| Utf8.GrammarOfRfc3629 | internal/term/keys.go:204-208 | the accepted byte strings are, byte range by byte range, the productions of section 4 of RFC 3629 |
| Utf8.OrderIsPreserved | internal/term/keys.go:204-208 | encoded runes compare as bytes the way their scalar values compare; with the grammar and the sizes this leaves one encoding |
| Utf8.EncodedSizes | internal/term/keys.go:204-208 | one byte to U+007F, two to U+07FF, three to U+FFFF, four above |
| KeyTokens.Tokenize | internal/term/keys.go:94-106 | the events of a complete input; there are never more events than bytes |
| KeyTokens.LexemeStable | internal/term/keys.go:120-211 | once the front of the input is decided, bytes that arrive later cannot change it |
| KeyTokens.DrainInChunks | internal/term/keys.go:119-211 | draining a buffer at once equals draining a part and going on from what that part left undecided |
| KeyMeaning.OneByteInput | internal/term/keys.go:226-277 | the event of each of the 256 one-byte inputs, by the byte: Ctrl+C is 0x03, Ctrl+D 0x04, and so on to the ignored and the undecided ones |
| KeyMeaning.KeyByte | internal/term/keys.go:226-277 | the same anywhere in the input: such a byte is that one event and leaves what follows untouched |
| KeyMeaning.CarriageReturnLineFeed | internal/term/keys.go:226-251 | CR LF is one Enter; CR CR, LF CR and LF LF are two |
| KeyMeaning.ControlSequence | internal/term/keys.go:145-164 | any complete control sequence of at most sixteen bytes other than the paste marker is exactly one ignored event and no rune |
| KeyMeaning.EndlessSequence | internal/term/keys.go:145-164 | with no final byte in its first sixteen a sequence is given up as one ignored event with its seventeenth byte |
| KeyMeaning.EscapePair | internal/term/keys.go:124-144 | ESC O and a byte, or ESC and a byte that opens nothing, is exactly one ignored event |
| KeyMeaning.EncodedRune | internal/term/keys.go:196-208 | every encoded rune beyond ASCII is that rune, whatever follows |
| KeyMeaning.MalformedRune | internal/term/keys.go:196-208 | all announced continuation bytes but no rune is one ignored event |
| KeyMeaning.TornRune | internal/term/keys.go:189-195 | too few continuation bytes are one ignored event, and the byte that came instead is read as if nothing stood before it |
| KeyMeaning.PasteBytes | internal/term/keys.go:145-188 | the literal frame around a payload is one paste, or one refusal past 4096 bytes |
| KeyMeaning.PauseAbandons | internal/term/phrase.go:284-305 | a pause behind anything unfinished but a paste gives one ignored event, and the bytes behind it are read afresh |
| KeyMeaning.PauseIsNothing | internal/term/phrase.go:284-305 | a pause between keys or inside a recognised paste changes nothing that follows |
| KeyDecoding.KeyDecoder.constructor | internal/term/keys.go:80 | a new decoder holds nothing and has seen no carriage return |
| KeyDecoding.KeyDecoder.Reset | internal/term/keys.go:108-117 | back to ground with nothing held; the carriage-return mark survives |
| KeyDecoding.KeyDecoder.Flush | internal/term/keys.go:97-106 | one ignored event exactly when something was in flight, and nothing is held afterwards |
| KeyDecoding.KeyDecoder.Feed | internal/term/keys.go:120-211 | one byte: events, held bytes and carriage-return mark are what draining the held bytes plus this one gives |
| KeyDecoding.KeyDecoder.OnGround | internal/term/keys.go:226-277 | the ground state decides a byte as the tokenizer does, CRLF counting as one Enter |
| KeyDecoding.KeyDecoder.StartRune | internal/term/keys.go:279-283 | a lead byte is held with the number of continuation bytes it announces |
| KeyDecoding.KeyDecoder.OnCsi | internal/term/keys.go:145-164 | control sequences end at their final byte or are abandoned past sixteen bytes; the paste marker opens a paste |
| KeyDecoding.KeyDecoder.OnPaste | internal/term/keys.go:165-188 | the hand-made matcher closes a paste at the first terminator and nowhere else |
| KeyDecoding.KeyDecoder.OnPasteMismatch | internal/term/keys.go:179-188 | replaying a broken partial match loses no payload byte and overlooks no terminator that starts at this byte |
| KeyDecoding.KeyDecoder.AppendPaste | internal/term/keys.go:213-224 | the payload is kept up to 4096 bytes; past that only the fact that it was too long |
| KeyDecoding.KeyDecoder.OnRune | internal/term/keys.go:189-208 | a complete rune is one event; a torn one is ignored and the offending byte is read afresh |
| KeyDecoding.KeyDecoder.FeedChunk | internal/term/phrase.go:304-306 | feeding the bytes of one read equals draining the held bytes followed by the chunk |
| KeyDecoding.KeyDecoder.PendingIsHeld | internal/term/keys.go:82-92 | the timer applies exactly when the held bytes are an unfinished sequence other than a recognised paste |
| KeyDecoding.KeyDecoder.Timeout | internal/term/phrase.go:287-295 | an expiry abandons a pending sequence as one ignored event and leaves anything else alone |
| KeyDecoding.DecodeAll | internal/term/phrase.go:277-311 | for every input and every chunking the decoder delivers exactly the tokenizer's events |
| KeyDecoding.MatchGrows | internal/term/keys.go:166-178 | a matching byte extends the only terminator still possible |
| KeyDecoding.MatchBroken | internal/term/keys.go:179-188 | after a mismatch every earlier offset is ruled out for good, because ESC occurs in the terminator only at its start |
| KeyDecoding.TornRune | internal/term/keys.go:190-195 | a torn rune is one lexeme of the bytes before the offending byte |
| KeyDecoding.CompleteRune | internal/term/keys.go:196-208 | the last continuation byte decides the rune, valid or ignored |
| KeyProperties.EventsAreInput | internal/term/keys.go:120-283 | delivered runes and pastes are contiguous, disjoint pieces of the input, in order |
| KeyProperties.TerminatorIsBorderFree | internal/term/keys.go:41-42 | appending the terminator to a payload that has none creates no earlier one |
| KeyProperties.FramedPasteIsOneEvent | internal/term/keys.go:145-188 | a framed payload is one event (the paste, or too long past 4096 bytes) and leaves the ground state |
| KeyProperties.NothingBeforeTheLastByte | internal/term/keys.go:165-188 | before the last byte of its frame a paste delivers nothing |
| KeyProperties.PasteIgnoresTimers | internal/term/phrase.go:284-305 | once the start marker is recognised, no schedule of timer expiries alters the paste |
| KeyProperties.DecodeTicks | internal/term/phrase.go:277-311 | the decoder driven by bytes and timer expiries in any order delivers what the tokenizer with expiries says |
| KeyProperties.NoTimeoutNoDifference | internal/term/phrase.go:284-305 | without expiries the schedule of reads is invisible |
| LineReader.LastRuneFound | internal/term/credentials.go:161-171 | behind arbitrary bytes, the library finds exactly the rune that ends the line |
| LineReader.BackspaceUndoesRune | internal/term/credentials.go:126-129 | Backspace after a typed rune restores the line, whatever bytes it held |
| LineReader.TrimLastWord | internal/term/credentials.go:173-181 | trimming whole runes removes exactly the last word and the blanks behind it |
| LineReader.WordErased | internal/term/credentials.go:135-138 | deleting a word leaves everything that came before it |
| LineGestures.KeysThatAdd | internal/term/credentials.go:95-157 | runes, blanks and pastes add exactly their bytes within the limit; otherwise, or for a rune that is no scalar value, the line is given up |
| LineGestures.KeysThatClear | internal/term/credentials.go:130-153 | Ctrl+U empties the line; an oversized input gives it up |
| LineGestures.KeysThatDoNothing | internal/term/credentials.go:154-156 | the events without a meaning here leave the line alone, and every event leaves a line given up alone |
| LineGestures.BackspaceTakesOne | internal/term/credentials.go:161-171 | Backspace removes the encoded rune the line ends in, whichever it is, or one byte where it ends in none |
| LineGestures.CtrlWTakesTheLastWord | internal/term/credentials.go:173-181 | Ctrl+W cuts the line at the last word, wherever spaces and tabs put it |
| LineGestures.EveryLineHasALastWord | internal/term/credentials.go:173-181 | every line has such a place, so that the rule covers all lines |
| LineGestures.InterruptGivesUp | internal/term/credentials.go:139-141 | Ctrl+C or Ctrl+D interrupts behind any keys that do not end the line, however the line stands |
| LineGestures.EnterTakesTheLine | internal/term/credentials.go:121-125 | Enter gives the line those keys left, or too long, whatever follows |
| LineGestures.EndTakesTheLine | internal/term/credentials.go:78-94 | the table of ends: end of input, other errors, cancellation, with and without a line |
| LineReader.ReadLineContext | internal/term/credentials.go:70-159 | the event loop with its overflow latch reads what the editing specification says, to every kind of end |
| LineReader.ReturnedLineFits | internal/term/credentials.go:72-77 | no returned line exceeds its limit, and no edit makes up for once having exceeded it |
| LineReader.ReturnedLineIsText | internal/term/credentials.go:95-157 | editing never tears a character: with valid pastes the returned line is valid UTF-8 |
| LineReader.LineComesBack | internal/term/credentials.go:70-159 | a line of text and a line feed, decoded and read, come back byte for byte, or are refused whole when too long |
| LineReader.LineIsTaken | internal/term/credentials.go:78-125 | reading that line takes exactly the events of its bytes |
| WordLists.PrefixIsConvex | internal/term/candidates.go:11-17 | words with a common prefix are contiguous in bytewise order |
| WordLists.NeighbourChecksSuffice | wordlist/wordlist_test.go:35-73 | the neighbour comparisons of the list's test establish strict order and prefix-freeness of the whole list |
| PhraseMeaning.ListRules | wordlist/wordlist_test.go:35-73 | what is assumed of the list holds if and only if its words are 3 to 10 small letters or hyphens and neighbours are in order and not prefixes |
| PhraseMeaning.OrderIsBytewise | internal/term/candidates.go:11-17 | the order of the list is: a proper prefix first, otherwise the first byte that differs |
| WordLists.SearchFindsBoundary | internal/term/candidates.go:11-17 | the library's binary search finds the first index at which a monotone test holds |
| WordLists.SearchFindsWord | wordlist/validate.go:54-57 | binary search followed by one comparison decides membership in the list |
| WordLists.PrefixRangeExact | internal/term/candidates.go:11-17 | the index range of a prefix holds exactly the words with that prefix |
| Completion.CountByIndex | internal/term/machine.go:82-87 | range length minus committed words in the range is the number of uncommitted words with the prefix |
| Completion.CandidatesInRange | internal/term/machine.go:89-99 | scanning the index range alone finds every candidate, in list order |
| PhraseMeaning.CandidatesAreInOrder | internal/term/machine.go:89-99 | the candidates are in strictly increasing order |
| Completion.WholeWordIsUnique | internal/term/machine.go:120-130 | a whole list word has itself as its only candidate, unless it is committed |
| Completion.LongestIsLongest | internal/term/machine.go:103-117 | the common prefix is the longest: every prefix of all candidates is a prefix of it |
| Completion.CommonPrefixKeepsCandidates | internal/term/machine.go:103-117 | completing to the common prefix keeps the candidate set and is idempotent |
| PhraseGrammar.ParseAccepts | internal/term/interactive_words.go:30-54 | judging tokens one by one accepts exactly the lists of distinct, uncommitted list words that fit |
| PhraseGrammar.TokensOfLayout | wordlist/validate.go:22-38 | any whitespace layout of tokens reads back as those tokens |
| PhraseGrammar.TextIsLayout | wordlist/validate.go:22-38 | every byte string is a whitespace layout of its own tokens |
| PhraseGrammar.TokensOfJoin | wordlist/validate.go:65-72 | the single-space join of words reads back as those words |
| PhraseGrammar.PhrasesAreAscii | wordlist/validate.go:19-21 | the UTF-8 check never decides alone: input whose folded tokens are list words is ASCII |
| PhraseGrammar.OneLanguage | internal/term/interactive_words.go:19-55 | the strict rule accepts x as y exactly when the interactive rule accepts x with at least seven words joined as y |
| PhraseGrammar.CanonicalOfJoin | wordlist/validate.go:18-73 | the join of 7 to 64 distinct list words is its own canonical form |
| PhraseGrammar.CanonicalIsIdempotent | wordlist/validate.go:18-73 | canonicalising twice changes nothing and keeps every word in its place |
| PhraseGrammar.VariantReadsBack | wordlist/validate.go:22-53 | a text spells words in some case and spacing exactly when its folded tokens are those words |
| PhraseGrammar.AcceptsExactlyVariants | wordlist/validate.go:16-73 | accepted as the phrase of given words are exactly the case and spacing variants of at most 1024 bytes |
| PhraseMeaning.WhatSeparates | wordlist/validate.go:75-77 | six bytes part words, and every other byte is a token by itself |
| PhraseMeaning.WhatIsFolded | wordlist/validate.go:46-52 | folding moves the bytes of A to Z up by 0x20 and no other byte |
| PhraseMeaning.WhatIsAPhrase | wordlist/validate.go:18-73 | a text is accepted exactly when it has at most 1024 bytes and 7 to 64 tokens whose ASCII capitals fold to different list words |
| PhraseMeaning.CanonicalShape | wordlist/validate.go:65-72 | the canonical text is small letters and hyphens with one 0x20 between words and none at the ends, and its tokens are the folded tokens |
| PhraseMeaning.ShapeIsUnique | wordlist/validate.go:65-72 | no other text of that shape has those tokens |
| PhraseMeaning.WhatParsingReports | internal/term/interactive_words.go:19-55 | over 1024 bytes too long; otherwise the first token that no longer fits is complained of, as the 65th word, unknown or a duplicate |
| PhraseMeaning.SomeFirstFault | internal/term/interactive_words.go:30-54 | refused tokens always have such a first fault |
| Phrases.SplitTokens | wordlist/validate.go:22-38 | the index loops find the tokens, and give up exactly when there are more than 64 |
| Phrases.ResolveTokens | wordlist/validate.go:42-64 | folding, binary search and the seen-index map accept exactly distinct list words, in order |
| Phrases.Canonicalize | wordlist/validate.go:18-73 | for every byte string, the canonical phrase or nothing, as the grammar says |
| Phrases.CanonicalInteractiveWord | internal/term/interactive_words.go:57-77 | the linear scan finds the list word a token folds to, if any |
| Phrases.ParseInteractiveWords | internal/term/interactive_words.go:19-55 | all tokens or none, with the first failing check as the issue |
| Phrases.ReadBothWays | wordlist/validate.go:18-73 | the two loops side by side: both accept or both refuse (from seven words), and give the same bytes |
| PromptSpec.GhostOf | internal/term/machine.go:120-130 | the ghost completes a non-empty buffer to its only candidate and is empty otherwise |
| PromptSpec.TypedRuneExtends | internal/term/machine.go:241-257 | a rune is accepted only as the next letter of some candidate |
| PromptGestures.SpaceAndEnterCommitTheOnlyMatch | internal/term/machine.go:259-312 | on a partial word, Space and Enter commit w exactly when fewer than 64 words are committed and w is the one uncommitted list word that starts so; otherwise they ring and change nothing |
| PromptGestures.TabCommitsTheOnlyMatch | internal/term/machine.go:270-290 | Tab commits it under the same condition |
| PromptGestures.TabCompletesToTheLongest | internal/term/machine.go:270-290 | with several matches Tab leaves the longest text that starts them all; with none it rings |
| PromptGestures.RuneIsKeptWhileItMatches | internal/term/machine.go:241-257 | a letter, folded, is kept exactly when some uncommitted list word still starts so; otherwise the bell rings and nothing changes |
| PromptGestures.DeletingKeys | internal/term/machine.go:197-328 | what Backspace, Ctrl+W and Ctrl+U leave of a partial word and of the words, each to the rune or word |
| PromptGestures.OtherKeys | internal/term/machine.go:197-239 | every other event leaves the state alone |
| PromptSpec.NextKeepsInvariant | internal/term/machine.go:197-239 | every gesture in every state keeps committed words distinct, listed and at most 64, and the buffer a prefix of a list word |
| PromptProperties.EveryRunKeepsInvariant | internal/term/machine.go:197-239 | the invariant over every sequence of gestures |
| PromptProperties.SubmitsOnlyOnEnter | internal/term/machine.go:293-313 | the prompt is done exactly on Enter with an empty buffer and enough words, and Enter then changes no word |
| PromptProperties.DoneIsForever | internal/term/machine.go:293-313 | no gesture takes a submission back |
| PromptProperties.PasteIsAtomic | internal/term/machine.go:339-354 | a paste commits all its words in order, or changes nothing and rings the bell |
| PromptProperties.PasteFreeRunStaysCompletable | internal/term/machine.go:197-328 | over whole runs without pastes a non-empty buffer always has an uncommitted candidate |
| PromptProperties.PasteStaysCompletable | internal/term/machine.go:339-354 | a paste keeps the buffer completable if and only if the buffer is empty, the text is too long or its words are not acceptable, or some candidate is none of its words |
| PromptProperties.RunStaysCompletable | internal/term/machine.go:197-354 | over whole runs the buffer is completable throughout if and only if every paste spares a candidate in that sense |
| PromptProperties.TabNeverChangesMeaning | internal/term/machine.go:270-288 | with other than one candidate, Tab keeps committed words and candidates, completes to their longest common prefix, and is idempotent |
| PromptProperties.BackspaceThenSpaceRestores | internal/term/machine.go:315-328 | taking the last word back and committing it again restores the state |
| PromptProperties.GhostIsWhatSpaceCommits | internal/term/machine.go:259-268 | Space and Tab commit the buffer followed by its ghost |
| PromptMachine.Machine.constructor | internal/term/machine.go:37-42 | an empty machine; a minimum of zero or less means seven |
| PromptMachine.Machine.PhraseBytes | internal/term/machine.go:48-57 | the single-space join of the committed words |
| PromptMachine.Machine.CommittedWithPrefix | internal/term/machine.go:63-71 | counts the committed words with a prefix |
| PromptMachine.Machine.CandCount | internal/term/machine.go:84-87 | the index's count is the number of candidates a plain scan finds |
| PromptMachine.Machine.FirstCandidates | internal/term/machine.go:90-99 | the first k candidates in list order |
| PromptMachine.Machine.LcpOfCandidates | internal/term/machine.go:103-117 | the longest common prefix of all candidates, or the prefix itself without any |
| PromptMachine.Machine.Ghost | internal/term/machine.go:120-130 | what is left of the only candidate |
| PromptMachine.Machine.Commit | internal/term/machine.go:180-190 | appends the word and clears the buffer, or rings the bell at 64 words |
| PromptMachine.Machine.OnRune | internal/term/machine.go:241-257 | a control is dropped; a letter is folded and kept exactly when a candidate remains, else the bell rings |
| PromptMachine.Machine.OnSpace | internal/term/machine.go:259-268 | commits the only candidate, rings the bell otherwise, does nothing on an empty buffer |
| PromptMachine.Machine.OnTab | internal/term/machine.go:270-288 | commits the only candidate or completes to the common prefix |
| PromptMachine.Machine.OnEnter | internal/term/machine.go:293-313 | commits the only candidate, or submits once there are enough words |
| PromptMachine.Machine.OnBackspace | internal/term/machine.go:315-328 | removes a letter, or takes the last committed word back into the buffer |
| PromptMachine.Machine.OnPaste | internal/term/machine.go:339-354 | all or nothing; the bell its loop ignores never rings, and the buffer survives |
| PromptMachine.Machine.Handle | internal/term/machine.go:197-239 | one event is one step of the specification; the surface returned shows the new state, its ghost, and the phrase exactly when done |
| EntryPaths.ReadPhrase | internal/term/phrase.go:342-378 | the prompt loop over the machine returns what the specification's run submits, or nothing on interruption |
| EntryPaths.PromptReturnsCanonical | internal/term/phrase.go:342-378 | whatever was typed or pasted, a phrase the prompt returns is canonical already |
| EntryPaths.CtrlCInterrupts | internal/term/phrase.go:342-378 | the byte 0x03 behind any keys that do not submit leaves the prompt without a phrase, whatever follows |
| EntryPaths.TypedPhrase | internal/term/machine.go:241-313 | letters and Space for each word, then Enter, from key bytes to the phrase |
| EntryPaths.PastedPhrase | internal/term/machine.go:339-354 | any variant of at most 1024 bytes, framed as a paste, then Enter, from bytes to the phrase |
| EntryPaths.PasteCanStrandPartialWord | internal/term/machine.go:347-352 | on every list, every word typed to its end and then pasted stands committed and is left over as a buffer without candidates |
| EntryPaths.ReadPhrasePlainLines | internal/term/plain.go:20-56 | the line loop collects parsed words until an empty line finds enough of them |
| EntryPaths.PlainReturnsCanonical | internal/term/plain.go:20-56 | whatever the lines were, a phrase the plain prompt returns is canonical already |
| EntryPaths.PlainLineByLine | internal/term/plain.go:20-56 | the plain prompt line by line: an empty line submits from the minimum on, words are added all or none, each other line only complains |
| EntryPaths.PlainPhrase | internal/term/plain.go:20-56 | words spread over any number of lines, then an empty line, give their join |
| EntryPaths.TypedLinesAreRead | internal/term/plain.go:14-18 | lines of text typed one after the other are read back as those lines, the next reading starting where the last one ended |
| EntryPaths.TypedLinesPhrase | internal/term/plain.go:14-56 | words typed on any number of lines, then an empty line, from key bytes to the phrase |
| EntryPaths.AllEntryPathsAgree | internal/term/phrase.go:321-379 | typed, pasted, entered as lines (given, or typed as key bytes) or read from a file, the same 7 to 64 words give the same phrase |
| Sampling.FoundMeaning | wordlist/phrase.go:40-49 | the indices collected are distinct, and are exactly the residues of the accepted draws |
| Sampling.FoundGrows | wordlist/phrase.go:40-49 | later draws only append: indices stand in order of first appearance |
| Sampling.AcceptedDraws | wordlist/phrase.go:14-25 | a draw is accepted exactly when its whole block of draws fits 16 bits |
| Sampling.Index | wordlist/phrase.go:14-25 | the first draw below the limit, reduced; every draw before it was rejected |
| Sampling.DrawIndices | wordlist/phrase.go:39-49 | stops at the very draw that completes n distinct indices |
| Sampling.SpellOut | wordlist/phrase.go:50-60 | the size computed beforehand is exact: the joined words fill the buffer without growing it |
| Sampling.SpellAndZero | wordlist/phrase.go:50-64 | the phrase an index array stands for, and that very array zeroed |
| Sampling.PhraseN | wordlist/phrase.go:34-65 | the join of the words of the first n distinct accepted draws; the array of n indices is zeroed; a count out of range is refused |
| Sampling.GeneratedIsCanonical | wordlist/phrase.go:27-30 | a generated phrase is accepted by the canonicaliser as it stands |
| Sampling.IndexIsUniform | wordlist/phrase.go:10-25 | for any list size up to 65536 every index has exactly 65536 / size accepted draws |
| Sampling.StringsForMeaning | wordlist/phrase.go:40-49 | the strings counted are those that yield the tuple with no rejection and no redraw |
| Sampling.TupleIsUniform | wordlist/phrase.go:32-49 | each tuple of indices has (65536 / size) to the n such strings |
| Sampling.RunsAreUniform | wordlist/phrase.go:27-49 | among all streams of any one length, rejections and redraws included, every tuple of distinct indices results from equally many |
| ViewerTokens.NextToken | internal/term/viewer.go:332-372 | a token takes at least one byte and, unless a line break, one to ten columns |
| ViewerTokens.TokenIsLocal | internal/term/viewer.go:332-372 | cutting the text behind a token does not change it |
| ViewerTokens.TokensSplit | internal/term/viewer.go:332-372 | a slice between token boundaries has the tokens of the whole text |
| ViewerTokens.TokensCarryNoControls | internal/term/viewer.go:332-372 | for arbitrary bytes, a token writes printable ASCII or the encoding of a graphic rune, never a control |
| ViewerCells.TokenTakesWhatItCounts | internal/term/viewer.go:332-372 | under any width of at most one cell for printable ASCII and two for any rune, a rendering takes no more cells than the columns counted; which columns, bytes and renderings each kind of token has |
| ViewerCells.TokenIsReadBack | internal/term/viewer.go:343-371 | what is rendered can be read back as the rune, or the stray byte, it stands for, so that no two look alike |
| ViewerCells.EscapeForms | internal/term/viewer.go:366-371 | one-letter, two-, four- and eight-digit escapes, each for its own range of runes |
| ViewerTokens.WriteViewerBody | internal/term/viewer.go:377-392 | the scrollback rendition is the text's tokens with the given line break |
| ViewerPages.ViewerPageEnd | internal/term/viewer.go:269-296 | the loop finds the end the wrapping rule defines |
| ViewerPages.PageAdvances | internal/term/viewer.go:269-296 | with at least one row every page takes something |
| ViewerPages.PageEndIsBoundary | internal/term/viewer.go:269-296 | a page ends between tokens of the whole text |
| ViewerPages.PageIsLongestFit | internal/term/viewer.go:269-296 | the page end is the last token boundary up to which every token starts on one of the rows |
| ViewerPages.PagesTileTheText | internal/term/viewer.go:230-243 | the pages concatenate to the text, and their tokens are the text's tokens |
| ViewerPages.WriteViewerPage | internal/term/viewer.go:298-322 | the renderer writes the tokens with its own wrapping, which is the rule of the page-end search |
| ViewerPages.PagesShowTheText | internal/term/viewer.go:269-322 | all page renderings, soft wraps erased, are the scrollback rendition of the whole text, for arbitrary bytes |
| ViewerPages.FrameBoundsBreaks | internal/term/viewer.go:298-322 | a drawing inside the frame has at most as many breaks as rows, and that many only when it ends in a hard one |
| ViewerPages.PageStaysInFrame | internal/term/viewer.go:269-322 | no text beyond the last column or below the last row of a page |
| ViewerCells.PageStaysInFrameInCells | internal/term/viewer.go:269-322 | the same in cells: under any such width no rendering passes the last column or the last row |
| ViewerCells.PageIsLongestDrawing | internal/term/viewer.go:269-296 | a page is the longest text whose drawing keeps to the rows |
| ViewerCells.DrawingWrapsWhereNeeded | internal/term/viewer.go:298-322 | a line is broken in front of a rendering exactly when it would not fit behind what stands there |
| ViewerNavigation.ViewerPageStartsAt | internal/term/viewer.go:230-243 | the reflow loop builds the page-end chain up to the page that holds the target |
| ViewerNavigation.ChainContains | internal/term/viewer.go:230-243 | the last page of that chain starts at or before the target and ends behind it or at the end |
| ViewerNavigation.HandleGesture | internal/term/viewer.go:101-163 | one turn of the loop: geometry first, then the key |
| ViewerNavigation.RespondKeepsChain | internal/term/viewer.go:101-163 | every gesture keeps the page starts on the page-end chain of the current geometry |
| ViewerNavigation.ForwardSkipsNothing | internal/term/viewer.go:137-147 | the next page starts at the byte where the page on screen ends |
| ViewerNavigation.BackIsPreviousPage | internal/term/viewer.go:148-154 | b shows the page that ends where the page on screen starts |
| ViewerNavigation.ForwardThenBack | internal/term/viewer.go:137-154 | forward and back is the page one came from |
| ViewerNavigation.ReflowKeepsPlace | internal/term/viewer.go:114-132 | after a resize the page on screen still contains the byte that was on top, or ends the text |
| ViewerNavigation.SessionShowsValidViews | internal/term/viewer.go:93-164 | over every run, every view drawn is on the chain of its own geometry |
| ViewerNavigation.ShowViewer | internal/term/viewer.go:88-164 | the whole paging loop: the views drawn and how it ends |
| ViewerNavigation.ViewText | internal/term/viewer.go:29-91 | pages where frame and raw mode are available, the whole text as scrollback where not or once a resize takes the frame away |
| ViewerNavigation.BodyStaysAboveFooter | internal/term/viewer.go:172-206 | when the frame fits, the body never reaches the footer line |
| ViewerCells.BodyStaysAboveFooterInCells | internal/term/viewer.go:172-206 | in cells, the body keeps above the footer |
| ViewerCells.FrameNeeds | internal/term/viewer.go:172-177 | how many lines and columns a frame takes |
| ViewerCells.ViewerKeys | internal/term/viewer.go:101-163 | every key by its character: which leave, page, go back, redraw, and which do nothing, at an old and a new size |
| Base64Url.EncodeThenDecode | envelope/b64url.go:61-66 | decoding inverts encoding, strict or not |
| Base64Url.EncodeIsInjective | envelope/b64url.go:61-66 | no two byte strings share a spelling |
| Base64Url.EncodedLength | envelope/b64url.go:61-66 | how long the encoding of n bytes is |
| Base64Url.GateIsCanonical | envelope/b64url.go:31-59 | with any inner decoder whatever, an accepted text is the encoding of its own result |
| Base64Url.AcceptsExactlyEncodings | envelope/b64url.go:21-59 | the shipped gate accepts exactly the results of the encoder, each as the bytes it came from; `Base64Rfc.GateAcceptsTheStandard` says which texts those are |
| Base64Rfc.EncodeIsTheEncoding | envelope/b64url.go:61-66 | a text is the encoding of b exactly when its symbols, as digits of the alphabet of section 5 of RFC 4648, write the number the bytes write, times 1, 16 or 4 |
| Base64Rfc.GateAcceptsTheStandard | envelope/b64url.go:21-59 | the shipped gate accepts a text as b exactly when the text is that encoding of b |
| Base64Rfc.SymbolsAreTheAlphabet | envelope/b64url.go:31-42 | the scan in front of the library lets exactly the alphabet through |
| Base64Url.CredentialLength | internal/api/api.go:196-203 | an accepted text has 32 bytes exactly when it has 43 characters |
| Base64Url.StrictIsExact | envelope/b64url.go:31-59 | of symbols alone the strict decoder accepts exactly the encodings, each as the bytes it encodes |
| Base64Url.StrictLibrarySkipsLineBreaks | envelope/b64url.go:31-59 | the strict library decoder accepts exactly the texts that are an encoding once line breaks are dropped; its result is the gate's if and only if there are none |
| Base64Url.LenientClears | envelope/b64url.go:31-59 | the lenient decoder reads symbols as the strict one reads them with their unused bits cleared, and accepts every length but one more than a multiple of four |
| Base64Url.LenientLibraryDropsBits | envelope/b64url.go:31-59 | the lenient library decoder accepts exactly the texts that are an encoding once line breaks are dropped and unused bits cleared; its result is the gate's if and only if there is neither |
| Base64Url.Wipe | internal/secret/buffer.go:10-16 | every byte of the buffer is zero afterwards |
| Base64Url.Confirm | envelope/b64url.go:50-58 | the comparison zeroes the buffer of the re-encoding in every case, and the decoded one when they differ |
| Base64Url.RunGate | envelope/b64url.go:31-59 | the scanning loop decides as the gate does; refused bytes and the re-encoding, in buffers of their full lengths, are zeroed |
| Envelope.DecryptInvertsEncrypt | envelope/envelope.go:39-63 | a blob is 45 bytes longer than its plaintext and opens to it under the same phrase |
| Envelope.OpensOnlyEncryptions | envelope/envelope.go:51-63 | a blob opens to a plaintext exactly when it is an encryption of it under that phrase and its own header |
| EnvelopeBytes.EncryptionSpells | envelope/envelope.go:22-49 | the blob byte by byte: 2, sixteen of salt, twelve of nonce, the seal under the derived key, authenticating 2, 2 and those 28 |
| EnvelopeBytes.WhatABlobOpensTo | envelope/envelope.go:51-63 | for every blob and phrase which of the four results comes, with 45 bytes as the least that can open |
| EnvelopeBytes.CreatedIsRecovered | internal/cli/reveal.go:102-109 | a secret of at most 65491 bytes is a blob of 45 bytes more whose kept file fits the bound and recovers it |
| EnvelopeBytes.RecoveryFileSpells | internal/cli/reveal.go:103 | a kept file is the encoding of RFC 4648 of the blob, and one line feed |
| Envelope.KeptCiphertextIsRecoverable | internal/cli/reveal.go:102-109 | every plaintext of up to 65,491 bytes is recovered from its kept file, which fits the 100,000-byte bound |
| Envelope.RecoveryOpensOnlyEncryptions | internal/cli/decrypt.go:35-56 | a file opens to a plaintext exactly when, trimmed, it spells a blob that opens to it |
| EnvelopeBytes.WhatARecoveryFileOpensTo | internal/cli/decrypt.go:35-56 | every file: too large above 100000 bytes, not canonical when without its one newline it encodes no blob, else as its blob |
| EnvelopeBytes.OneNewlineIsTrimmed | internal/cli/flags.go:129-140 | one CR LF or LF goes, and nothing else |
| Outcomes.FailedRequestExit | internal/api/errors.go:32-37 | a failed request exits 9 once headers were reported, cancelled or not; otherwise 7, or the signal's code exactly when the cause is cancellation |
| Outcomes.AnsweredExit | internal/api/api.go:224-243 | an answer decides the exit code on its own; a signal changes nothing |
| ExitMeaning.AnswerExits | internal/api/api.go:224-243 | the exit of each operation and status, as numbers, with or without a signal |
| ExitMeaning.AnswerCodes | internal/cli/output.go:72-104 | the machine code printed with it |
| ExitMeaning.UnansweredCodes | internal/cli/output.go:72-104 | without an answer: 9 and the operation's unknown outcome once headers were written, else 7 and no network |
| ExitMeaning.ReportedExit | internal/cli/run.go:218-242 | for every chain of errors the outermost command decides: 128 and above as it is, a published pair as published, else 10, and 3 where JSON cannot be written |
| ExitMeaning.UnnamedExit | internal/cli/run.go:218-242 | no error is 0, and a chain without a command 10 |
| ExitMeaning.ExitBehindSignal | internal/cli/run.go:207-216 | behind a signal its code replaces success, chains that tell of cancellation or interruption, and codes from 128 on, and nothing else |
| Outcomes.LocalExit | internal/cli/run.go:207-242 | the command's own errors exit with local codes, or with the signal's where they say interrupted |
| SignalProtocol.StepKeepsInvariant | internal/cli/run.go:140-198 | every step of the run loop, the command, the network and the sender of signals keeps what is known of the mutation consistent with the error carried |
| SignalProtocol.RunKeepsInvariant | internal/cli/run.go:140-216 | the same over every interleaving |
| SignalProtocol.OutcomesSurviveSignals | internal/cli/run.go:140-242 | at most one request; an exit joins the command; exit 9 (3 if JSON cannot be written) if and only if nothing proves the outcome and the command was told in time that headers went out; a definitive refusal gives its own code; a signal code after transmission means confirmation or a report that came too late; 0 only a confirmed mutation |
| SignalProtocol.QueuedSignalPreventsRequest | internal/cli/run.go:140-156 | a signal waiting at the start prevents the request in every interleaving, and the exit is 130, or 143 for a termination |
| SignalProtocol.ExitIsFinal | internal/cli/run.go:157-176 | nothing changes an exit |
| SignalProtocol.CancelledInFlight | internal/cli/run.go:166-176 | a run from any request in flight whose headers are not reported, sent or not, that ends with 130 for an interrupt and 143 for a termination |
| SignalProtocol.AnsweredBehindSignal | internal/cli/run.go:166-216 | from any request whose headers are out, for every status: a run in which the signal comes first and the exit is the answer's |
| SignalProtocol.InterruptedBeforeReport | internal/api/client.go:19-29 | such runs exist from the start, with and without transmitted headers |
| RevealTrace.ReservedFile.Write | internal/cli/output.go:153-162 | all the data and success, or the fixed error |
| RevealTrace.ReservedFile.DiscardUnlessWritten | internal/cli/output.go:136-140 | the file remains exactly when it was marked written |
| RevealTrace.OpenClaimed | internal/cli/plaintext.go:30-50 | the retry loop, asking for a terminal before every retry, tries the phrase and each replacement as specified, announces each retry, and zeroes every phrase it used |
| RevealTrace.OpensWithFirstRightPhrase | internal/cli/plaintext.go:33-44 | a claimed blob opens to a plaintext if and only if some attempt opens it behind nothing but wrong phrases and answered prompts |
| RevealTrace.ClaimedErrorsAreLocal | internal/cli/output.go:106-119 | no error behind a confirmed claim reads as an unknown outcome |
| RevealTrace.ClaimsOnceWhenPrepared | internal/cli/reveal.go:69-112 | over all failures and any number of announced retries, at most one claim, behind URL, phrase, reservations and disclosure |
| RevealTrace.ClaimedSecretIsNeverLostSilently | internal/cli/reveal.go:97-112 | no silent loss and no false alarm: the loss is warned of if and only if a secret was claimed and neither delivered nor kept; what is kept is its recovery file |
| RevealTrace.DeliveredIsTheSecret | internal/cli/plaintext.go:45-68 | what is delivered is valid text that the claimed blob opens to, and the command then succeeds |
| RevealTrace.DeliveredWasEncrypted | internal/cli/reveal.go:97-112 | the claimed blob is an encryption of what is delivered, under the phrase of an attempt behind nothing but wrong phrases |
| RevealTrace.KeptFileOpensAsTheBlob | internal/cli/reveal.go:102-109 | a kept file opens, under any phrase, to what the claimed blob opens to, if and only if it is within the bound of the decrypt command |
| RevealTrace.KeptSecretIsRecoverable | internal/cli/reveal.go:102-109 | whatever the reveal came to, the file it kept recovers every secret small enough to create, under the phrase it was made with |
| RevealTrace.SuccessMeansDelivered | internal/cli/reveal.go:110-112 | the command succeeds exactly when the plaintext was delivered |
| RevealOutcomes.ClaimedExactlyWhenReady | internal/cli/reveal.go:56-101 | a blob is claimed exactly when URL, phrase, reservations, client and disclosure went well and the server gave it |
| RevealOutcomes.DeliveredExactlyWhenOpened | internal/cli/plaintext.go:30-69 | a plaintext is delivered exactly when a blob was claimed, kept if asked, opened to it by some attempt behind wrong ones, is valid UTF-8, and the destination takes it |
| RevealOutcomes.KeptExactlyWhenAsked | internal/cli/reveal.go:102-109 | the encoded blob and a line feed are kept exactly when asked for and writable |
| RevealOutcomes.KeptBeforeOpened | internal/cli/reveal.go:102-112 | what is kept is kept before any further prompt and any delivery |
| RevealOutcomes.ExitsWithoutClaim | internal/cli/reveal.go:56-101 | the error of each way of not claiming |
| RevealOutcomes.ExitsBehindClaim | internal/cli/plaintext.go:30-139 | the error of each way of not delivering, by the attempt that decides: 5, 8, 3, or the prompt's own |
| RevealOutcomes.SomeAttemptDecides | internal/cli/plaintext.go:33-44 | some attempt always decides |
| RevealOutcomes.PromptsUpToTheDecision | internal/cli/plaintext.go:33-44 | how often the phrase is asked for again |
| RevealTrace.ClaimedResultIsLocal | internal/cli/reveal.go:97-112 | after a confirmed claim the error, if any, is the command's own |
| RevealTrace.ReserveDestinations | internal/cli/plaintext.go:75-90 | which files exist after reserving, also when a later reservation fails |
| RevealTrace.DeliverPlaintext | internal/cli/plaintext.go:92-139 | the output file counts as written exactly when its write succeeded, with the plaintext in it |
| RevealTrace.DecryptAndDeliver | internal/cli/plaintext.go:30-69 | opening, delivering and warning as specified; the phrase and every retry read, counted exactly, are zeroed |
| RevealTrace.KeepAndDeliver | internal/cli/reveal.go:102-112 | the recovery file is written before anything is opened, and a failure there ends the run with a warning |
| RevealTrace.RunReveal | internal/cli/reveal.go:56-113 | effects and result are the specification's; the files are there exactly when reserved, and each remains exactly when its write succeeded; the phrase and every retry read, counted exactly, are zero on return |
| TerminalModes.StepKeepsInvariant | internal/term/phrase.go:80-206 | every saved state is owned, owed or restored, in exactly one of them, and raw and password modes are never both owned |
| TerminalModes.ModesAreUndoneOnce | internal/term/phrase.go:80-206 | in every interleaving no saved state is restored twice; once cleanups finish, each is restored once and each mode entered is left once |
| TerminalModes.CleanupsCanFinish | internal/term/phrase.go:102-206 | the writes cleanups have committed to can always be done |
| TerminalModes.StaleClosureIsHarmless | internal/term/phrase.go:102-178 | over every run without the emergency cleanup, an owned mode is given up by nothing but its own closure |
| TerminalModes.CalmRunsEndWhereTheyBegan | internal/term/phrase.go:80-206 | when no mode is taken while a write that undoes it is pending, the terminal is in each of the three modes exactly when it is owned, whenever no write that undoes it is pending |
| TerminalModes.SequentialRunsEndWhereTheyBegan | internal/term/phrase.go:80-206 | a caller that finishes every cleanup before it goes on finds the terminal in exactly the owned modes between cleanups |
| TerminalModes.LateCleanupUndoesNewMode | internal/term/phrase.go:102-206 | for input modes, bracketed paste and the alternate screen, and every order of the pending writes: a mode just taken survives them if and only if none that undoes it was pending |
| TerminalModes.OverlapLeavesTerminalRaw | internal/term/phrase.go:180-206 | an emergency cleanup overtaken by a new raw mode: every cleanup finishes and the terminal stays raw |
| TerminalModes.OverlapLosesAlternateScreen | internal/term/phrase.go:155-206 | the same with the alternate screen: it is owned and no longer shown |

## Left out

- Status lines, labels and prompt text (`internal/term/machine.go` status functions, `internal/term/render.go`): wording only; the machine's state, bell and ghost are modelled.
- The cipher, key derivation and the random source: abstract functions with the round-trip law, and an arbitrary finite stream of draws. That the sampler stops with probability one is not stated.
- HTTP, TLS, proxies, URL and JSON parsing, response size limits: an answer is a status and a body that is complete and valid or not.
- The value of Retry-After and the server name attached to errors (`retryAfter`, `attachServer`): carried to the output, never part of an exit code.
- Operating-system work: exclusive creation, permissions, memory locking, console modes, a removal that fails. File operations succeed or fail by choice.
- Panics and their recovery, wall-clock time, and what the compiler does to wiping. Wiping is zeroing of arrays.
- Wiping inside the key decoder, the line reader and the prompts: their growing byte slices are sequences here, so stale copies and in-place zeroing are not captured there.
- Writers that fail in the middle of a page or prompt, and cancellation of the viewer's and prompts' waits: the loops run over the events they receive.
- Mode switches that the terminal refuses or that cannot be written (`makeRaw`, `enterAlternateScreen` on error): a mode taken is a mode entered.
- The tables of graphic runes: a parameter; the promise about controls assumes only that no control is graphic.
- Virtual-terminal enabling and the platform part of the emergency cleanup: only saved states and the two mode switches are modelled.
- The order of the writes inside one cleanup: each is a separate step that may happen in any order, which allows more runs than the code has.
- Argument checks and the reading of URLs in front of a reveal: one choice, accepted or not.
- The create, burn and decrypt commands as traces: create and burn share the protocol of `SignalProtocol`, decrypt shares `RevealTrace.DecryptAndDeliver` and `Envelope.OpenRecoveryFile`.
- The line reader used by tests (`readLine`), completion scripts, help, flags, versions, share identifiers, lifetimes and digit grouping: simple code without interplay.
