# Verified model of the EAP-EDHOC stack

The repository joins an EDHOC handshake, classical (methods 0 to 3) and post-quantum (method 4), to EAP over RADIUS, and
brings along the symmetric cryptography, the key schedule and a few utilities it stands on. This project states in Dafny
what those parts compute and proves it. Methods and classes follow the C and C++ loop by loop, each against a
specification function; lemmas then say what the repository promises about those functions.

Four layers, bottom up, and what ties them down:

- **Symmetric cryptography** (`Sponge`, `LaneValues`, `SpongeContext`, `SpongeStandard`, `KeccakF`, `KeccakStandard`,
  `KeccakTwo`, `KeccakFour`, `CShake`, `SBox`, `AesSpec`, `AesStandard`, `Bitslice`, `Layout`, `Aes`, `AesCtr`, `AesKeys`,
  `SeedExpander`, `Sha2`, `Sha2Standard`, `Sha2Context`, `Sha2Functions`, `Sha2Instances`, `Sha2Constants`, `WordBits`).
  Fast in-place code refines the textbook definition: the unrolled Keccak permutation is 24 rounds of the five step
  mappings, chunked and one-shot sponges give the same bytes, the 2-way and 4-way forms act on every half as the scalar
  one does, the bitsliced AES of four blocks is FIPS 197 on each block, down to the S-box as an inverse in the field.
- **Independent statements.** The functions that code and specification share are pinned by a second description that does
  not mention them: `LaneValues` and `SpongeStandard` (lanes as numbers, the sponge on bytes), `KeccakStandard` (the
  permutation on bits), `AesStandard` (key schedule and cipher byte by byte), `Sha2Standard` with `Sha2Instances` and
  `Sha2Constants` (sums modulo 2^n, single bits, roots of primes), `Edhoc03Meaning` and `Edhoc4Meaning` (what the handlers
  compute, accept and refuse, in library calls).
- **Handshakes** (`Edhoc03*`, `XWing`, `Edhoc4*`, `HonestWorld03`, `HonestWorld4`, `Hkdf`). The main theorems are
  `Edhoc03Runs.MatchingConversations` and `Edhoc4Runs.MatchingConversations`: over every run of a system with any number
  of sessions and a network that may deliver to anyone any bytes that fit the handler's local plaintext buffer, an
  accepted message emitted by some session means that both sessions saw the same conversation and hold the same keys; with
  distinct ephemeral keys it is one session on each side (`InjectiveAgreement`, `InjectiveOnMessage3`,
  `InjectiveOnMessage4`). An honest exchange fails only where a primitive fails (`HonestOutcome`), agrees otherwise
  (`HonestRunAgrees`), and is one of those runs (`HonestRunIsRecorded`).
- **Transport** (`Fragmentation`, `FragExchange`, `FragOutcome`, `FragEngine`, `EndToEnd`, `Radius`). Fragmentation in
  lock step is transparent for any handlers (`FragOutcome.ExchangeIsDirect`), and the handshakes over it end in agreement
  (`EndToEnd`). A RADIUS request parses back to its EAP packet and State.
- **Use of the keys and utilities** (`KeySchedule`, `Oscore`, `TreeRemoval`, `BitBuffer`).

How the primitives enter. SHA-256 (in the handshakes), HMAC, AEAD, X25519, Ed25519, ML-KEM and ML-DSA are fields of a
`Suite`; what is asked of them is a hypothesis (`Lawful`: lengths, decryption undoes encryption, Diffie-Hellman commutes,
decapsulation undoes encapsulation). `Primitives.PlainSuiteIsLawful` shows the hypotheses can be met. Security is never an
axiom: the matching theorems assume, about the finite run at hand only, that no two hashed strings collide
(`NoCollisions`), that no ciphertext sealed in the run was opened under other associated data (`DataBound`) and, for
method 4, that no two PRKs of the run give one MAC input the same MAC (`MacsBound`; the static KEM keys are not in the
transcript, so the MACs have to bind them). `HonestWorld03.HypothesesCanBeMet` and `HonestWorld4.HypothesesCanBeMet`
exhibit runs that meet all of them. Randomness and buffer sizes are arguments; a primitive's failure is `None`.

Where the code and its documentation differ, the model follows the code. Cases worth knowing:

- `cshake128`/`cshake256` do not fall back to SHAKE for an empty name and customization; the prefix is always absorbed.
  The code is the standard's cSHAKE if and only if the two are not both empty (`CShake.StandardExactly`).
- The one-shot sponge ors 0x80 into the last padding byte and the incremental one xors it; they agree exactly when the
  domain byte is below 0x80 or does not land on that byte (`Sponge.PaddingFormsAgree`).
- `left_encode` of a bit length computed in 64 bits is right exactly below 2^61 bytes (`CShake.BitLengthWraps`); the
  64-bit byte count of SHA-384/512 gives the right length field exactly below 2^64 bytes (`Sha2Context.LongCountIsLost`).
- The two PRF+ implementations differ for lengths 8161 to 65535, where C wraps its block counter and Python raises, and
  for labels over 253 bytes, which only C refuses (`KeySchedule.PrfParity`).
- `BitBuffer::peek` counts bits from the other end of the octet than `read`; on a whole octet they agree if and only if it
  is its own bit reversal (`BitBuffer.PeekAgreesExactly`).
- A responder context that is not initialised again before a second message_1 accepts the first conversation's message_3
  under another method if and only if that message_1 fails in a key agreement, both initiators sign and the methods differ
  (`Edhoc03Reuse.ReuseExactly`, with a witness for either key agreement); the server module does initialise it.
- The handlers decrypt into a local buffer before they compare a length. The buffers take messages of up to 163 and 131
  bytes (message_2 and message_3, methods 0 to 3) and 2416, 6016, 4991 and 1248 bytes (method 4), and no longer ones
  (`Edhoc03.FitsExactly`, `Edhoc4.FitsExactly`, `Edhoc4.LaterFitsExactly`), while reassembly passes on up to 8192. Honest
  messages stay within them where they belong and exceed them elsewhere (`CrossDeliveryOverruns`); all results about runs
  are about deliveries that stay within them.

Verify with `dafny verify dfyconfig.toml`.

## Model

| member | source | states |
|---|---|---|
| `Primitives.PlainSuiteIsLawful` | edhoc4/edhoc4.h:5-9 | the laws assumed of the crypto libraries can hold together |
| `Hkdf.ExpandC` | edhoc4/edhoc03.c:49-69 | the C loop, with its 8-bit counter and cut last block, yields the first len octets of the RFC 5869 block chain, for every length |
| `Hkdf.BlocksLength` | edhoc4/edhoc4.c:56-77 | n blocks of the chain are 32 n octets |
| `Hkdf.ExpandLength` | edhoc4/edhoc4.c:56-77 | the output has the requested length, so keys, nonces and MACs have their fixed widths |
| `Hkdf.TakeGrows` | bootstrap/bootstrap.c:25-47 | one more loop iteration extends the cut chain by exactly the missing part of the next block |
| `Hkdf.KdfIsExpand` | edhoc4/edhoc03.c:49-69 | up to 64 octets are HMAC(prk, info, 1) and HMAC(prk, that, info, 2), cut |
| `Hkdf.ExpandOctets` | edhoc4/edhoc03.c:49-69 | octet k of the output is octet k mod 32 of block k / 32, each block the HMAC of the one before it, the info string and its number modulo 256 |
| `Edhoc03.MacLength` | edhoc4/edhoc03.c:113-123 | MAC_2 and MAC_3 are 8 octets |
| `Edhoc03.InfosDiffer` | edhoc4/edhoc03.c:71-155 | domain separation: the AEAD, MAC, PRK_out, MSK and EMSK derivations never share an HKDF info string |
| `Edhoc03.BuiltLayout` | edhoc4/edhoc03.c:305-340 | PT2/PT3 is identity, public key, then MAC (43 octets) or signature (99 octets), the MAC keyed by the PRK that mixes in the static-ephemeral secret |
| `Edhoc03.CheckUndoesBuild` | edhoc4/edhoc03.c:368-497 | a receiver that pinned the sender accepts what the sender built and ends with the sender's PRK and identity |
| `Edhoc03.AcceptedBuildAgrees` | edhoc4/edhoc03.c:499-557 | conversely, a receiver that accepts a built plaintext has the builder's PRK and identity and had pinned the builder's key |
| `Edhoc03Meaning.SealMeans` | edhoc4/edhoc03.c:71-110 | sealing and opening are the AEAD under 32 octets of key and 12 of nonce from HMACs over the transcript hash and "E3KEY", with the transcript hash as associated data |
| `Edhoc03Meaning.DerivedIsExported` | edhoc4/edhoc03.c:149-155 | PRK_out is derived from PRK4e3m and TH4; MSK carries the label "EDHOC-EAP-MSK" and EMSK "EDHOC-EAP-EMSK", octet by octet |
| `Edhoc03Meaning.CheckExactly` | edhoc4/edhoc03.c:405-450 | a plaintext is accepted if and only if it has the exact length, carries the pinned key, and its signature verifies over TH, identity and MAC, or its MAC is right under the PRK mixed with the static agreement; and the PRK that follows |
| `Edhoc03Meaning.RefusalCodes` | edhoc4/edhoc03.c:405-450 | the code of every refused plaintext, by the first thing wrong with it |
| `Edhoc03Meaning.CheckLeaves` | edhoc4/edhoc03.c:405-450 | what identity and PRK a refused plaintext leaves in the context |
| `Edhoc03Meaning.BuildExactly` | edhoc4/edhoc03.c:305-340 | what a party shows of itself in either mode, in library calls |
| `Edhoc03Meaning.Message2Means` | edhoc4/edhoc03.c:274-366 | a responder that answers: modes by the method, TH2, PRK2e, PRK3e2m and TH3 as hashes and HMACs of what was received and sent, message_2 as key and sealed PT2 |
| `Edhoc03Meaning.Message3Means` | edhoc4/edhoc03.c:368-497 | an initiator that returns OK opened a message_2 that proves its responder; TH2 to TH4, the PRKs and the exported keys in library calls |
| `Edhoc03Meaning.Message3Accepted` | edhoc4/edhoc03.c:499-557 | message_3 handling returns OK if and only if the message opens to a plaintext that proves the initiator; TH4, PRK4e3m, MSK and EMSK are then these |
| `Edhoc03Meaning.RefusedMessage3` | edhoc4/edhoc03.c:499-557 | a message_3 that opens and does not prove the initiator is refused with its code and leaves the exported keys as they were; a wrong signature gives E3_ERR_SIG |
| `Edhoc03Meaning.RefusedMessage2` | edhoc4/edhoc03.c:368-450 | the same of message_2 at the initiator |
| `Edhoc03Meaning.EarlyRefusals` | edhoc4/edhoc03.c:274-566 | the codes of calls that do not get as far as a plaintext |
| `Edhoc03Meaning.BufferLimits` | edhoc4/edhoc03.c:250-497 | with a smaller output buffer the result is the same if the message fits, and E3_ERR_BUF without output if not |
| `Edhoc03.FitsExactly` | edhoc4/edhoc03.c:368-508 | the bytes written into the local plaintext buffer of 115 stay within it if and only if message_2 is at most 163 and message_3 at most 131 bytes, for a message that reaches the decryption; shorter ones always do |
| `Edhoc03.MakeMsg1Outcome` | edhoc4/edhoc03.c:250-272 | a failed message_1 emits nothing, and no call touches role, credentials or exported keys |
| `Edhoc03.Msg1Outcome` | edhoc4/edhoc03.c:274-366 | on every branch of message_1 handling the exported keys, role, credentials and pinned peer stay, and a failure emits nothing |
| `Edhoc03.Msg2Outcome` | edhoc4/edhoc03.c:368-497 | message_2 handling leaves the context done if it returns OK; a failure emits nothing and leaves the exported keys alone; role, credentials and pinned peer always stay |
| `Edhoc03.Msg3Outcome` | edhoc4/edhoc03.c:499-557 | the same for message_3 handling |
| `Edhoc03Runs.HonestFlight1` | edhoc4/edhoc03.c:250-366 | message_1 and message_2 of an undisturbed exchange succeed, with both contexts in closed form |
| `Edhoc03Runs.HonestMsg2Checked` | edhoc4/edhoc03.c:368-450 | whatever fails later, message_2 of an honest responder passes every check of the initiator it answers |
| `Edhoc03Runs.HonestMsg2Accepted` | edhoc4/edhoc03.c:368-497 | the initiator accepts the answer to its message_1 and emits a message_3 over the same transcript |
| `Edhoc03Runs.HonestRunAgrees` | edhoc4/selftest03.c:30-52 | for each method 0 to 3, all well-formed credentials and all randomness: if message_1 and message_2 handling return OK, so does every handler, message sizes are fixed, both ends are done and agree on TH2 to TH4, all PRKs, MSK and EMSK |
| `Edhoc03Runs.HonestOutcome` | edhoc4/selftest03.c:30-52 | with no assumption on success: every handler of an honest exchange returns OK or the code of a key agreement, signature or encryption of its own that failed, never a parse, MAC, verification or decryption error |
| `Edhoc03Runs.HonestMessagesFit` | edhoc4/edhoc03.c:368-508 | honest messages fit the buffers of the handlers they are meant for |
| `Edhoc03Runs.CrossDeliveryOverruns` | edhoc4/edhoc03.c:499-508 | an honest message_2 handed to its own sender as message_3 puts 131 bytes into 115, exactly when the responder signs |
| `Edhoc03Runs.NewSessionKeepsInv` | edhoc4/edhoc03.c:220-246 | opening a session keeps the invariant of the system |
| `Edhoc03Runs.StartKeepsInv` | edhoc4/edhoc03.c:250-272 | sending message_1, successful or not, keeps it |
| `Edhoc03Runs.Msg1Explained` | edhoc4/edhoc03.c:274-366 | a responder that answered is fully explained by the 34 bytes it received and the PT2 it built |
| `Edhoc03Runs.Deliver1KeepsInv` | freeradius-v3/src/modules/rlm_eap/types/rlm_eap_edhoc/rlm_eap_edhoc.c:345-374 | delivering any bytes as message_1 keeps the invariant, as the module initialises the context first |
| `Edhoc03Runs.Msg2KeepsBasis` | edhoc4/edhoc03.c:368-497 | message_2 handling, successful or not, leaves method, credentials, ephemeral key and H(message_1) alone |
| `Edhoc03Runs.EmissionExplained` | edhoc4/edhoc03.c:368-497 | every message_3 that leaves an initiator is explained by hashed strings, an accepted PT2 and a built PT3 |
| `Edhoc03Runs.Deliver2KeepsInv` | edhoc4/edhoc03.c:368-497 | delivering any bytes that fit the plaintext buffer as message_2, also repeatedly, keeps the invariant |
| `Edhoc03Runs.AcceptanceExplained` | edhoc4/edhoc03.c:499-557 | every accepted message_3 is explained by what was opened and checked |
| `Edhoc03Runs.Deliver3KeepsInv` | edhoc4/edhoc03.c:499-557 | delivering any bytes that fit the plaintext buffer as message_3, also repeatedly, keeps the invariant |
| `Edhoc03Runs.ReachableInv` | edhoc4/edhoc03.c:250-557 | the invariant holds after every sequence of events in which no delivered message overruns a plaintext buffer |
| `Edhoc03Runs.Th3PinsTranscript` | edhoc4/edhoc03.c:285-345 | without collisions, equal TH3 means equal message_1, G_Y, TH2 and PT2 |
| `Edhoc03Runs.TranscriptFixesKeys` | edhoc4/edhoc03.c:285-345 | and then equal ephemeral secret, PRK2e and PRK3e2m, and the responder is the one the initiator named |
| `Edhoc03Runs.Pt3FixesPrk4` | edhoc4/edhoc03.c:499-557 | an accepted ciphertext fixes PT3, PRK4e3m and the initiator's name |
| `Edhoc03Runs.EventsMatch` | edhoc4/edhoc03.c:499-566 | one emission and one acceptance of the same ciphertext agree in any state satisfying the invariant |
| `Edhoc03Runs.MatchingConversations` | edhoc4/edhoc03.c:140-566 | over every run in which no delivered message overruns a plaintext buffer (exact lengths in `Edhoc03.FitsExactly`): if a responder accepted a message_3 that an initiator emitted, both saw the same message_1, PT2 and PT3, play the same method with mirrored modes, and hold the same TH2 to TH4, PRKs, MSK and EMSK |
| `Edhoc03Runs.NextKeepsPlaces` | edhoc4/edhoc03.c:250-566 | every recorded emission and acceptance belongs to one session, whose ephemeral key is the recorded one, and stays so |
| `Edhoc03Runs.InjectiveAgreement` | edhoc4/edhoc03.c:140-566 | with distinct ephemeral keys in the run, all acceptances of one emitted message_3 belong to one responder session and all its emissions to one initiator session |
| `Edhoc03Reuse.KeyAgreementFails` | edhoc4/edhoc03.c:274-315 | a second message_1 on which either key agreement fails leaves its own method, mode and ephemeral key beside TH3 and PRK3e2m of the first conversation |
| `Edhoc03Reuse.FailedMsg1WithoutInitKeepsOldKeys` | edhoc4/edhoc03.c:274-315 | in signature mode such a context, ephemeral or static agreement having failed, accepts the old message_3 with the old TH4, MSK and EMSK under the new method |
| `Edhoc03Reuse.ModesExclude` | edhoc4/edhoc03.c:509-545 | a plaintext accepted in one authentication mode is refused in the other |
| `Edhoc03Reuse.AfterKeyAgreementExactly` | edhoc4/edhoc03.c:274-557 | after a failed key agreement, without hypothesis: the old message_3 is accepted under another method if and only if the methods differ, the modes agree, and they are signatures or the static MAC is right for the new ephemeral key too |
| `Edhoc03Reuse.ReuseExactly` | edhoc4/edhoc03.c:274-557 | for every responder context that accepts a message_3 and every second message_1, whatever its outcome: the context left over accepts it under another method if and only if the code is E3_ERR_DH, both initiators sign and the methods differ, provided the message_3 does not open or MAC under foreign keys |
| `Edhoc03Reuse.ReuseWitness` | edhoc4/edhoc03.c:274-300 | a lawful suite, an honest method-0 exchange and a method-1 message_1 with a low-order G_X for which it happens |
| `Edhoc03Reuse.StaticReuseWitness` | edhoc4/edhoc03.c:305-315 | the same where the ephemeral agreement succeeds and the static one fails |
| `HonestWorld03.HonestPlaintexts` | edhoc4/edhoc03.c:274-557 | in the honest exchange each end opens exactly the plaintext the other built |
| `HonestWorld03.HonestRunIsRecorded` | edhoc4/edhoc03.c:250-557 | the honest exchange is a run of the many-session system; the strings it hashes and the calls it seals and opens are listed exactly |
| `HonestWorld03.HypothesesCanBeMet` | edhoc4/selftest03.c:30-52 | a lawful suite and a run exist that meet all hypotheses of matching conversations with a message_3 emitted and accepted |
| `Edhoc03Context.Context.Initiator` | edhoc4/edhoc03.c:220-232 | a fresh initiator context |
| `Edhoc03Context.Context.Responder` | edhoc4/edhoc03.c:234-246 | a fresh responder context, whose method is only learned from message_1 |
| `Edhoc03Context.Context.DeriveKey` | edhoc4/edhoc03.c:71-82 | 44 octets of HKDF output cut into key and nonce |
| `Edhoc03Context.Context.AeadOpen` | edhoc4/edhoc03.c:98-110 | writes ciphertext length minus 16 bytes into the local buffer, zeros on failure, and nothing behind them |
| `Edhoc03Context.Context.ComputeMac` | edhoc4/edhoc03.c:113-123 | the MAC is the 8-octet HKDF expansion over transcript, identity and key |
| `Edhoc03Context.Context.DeriveSessionKeys` | edhoc4/edhoc03.c:149-155 | PRK_out, MSK and EMSK from PRK4e3m and TH4, and done |
| `Edhoc03Context.Context.MakeMessage1` | edhoc4/edhoc03.c:250-272 | new context, output and code as the specification has them, errors included |
| `Edhoc03Context.Context.BuildPlaintext` | edhoc4/edhoc03.c:305-340 | PT2/PT3 for either auth mode, or the code of the primitive that failed |
| `Edhoc03Context.Context.CheckPlaintext` | edhoc4/edhoc03.c:405-450 | the receiver's checks in the source's order, with what each failure leaves in the context |
| `Edhoc03Context.Context.HandleMessage1` | edhoc4/edhoc03.c:274-366 | every branch of message_1 handling: new context, message_2 and code |
| `Edhoc03Context.Context.HandleMessage2` | edhoc4/edhoc03.c:368-497 | every branch of message_2 handling, for every message that fits the buffer of 115 bytes: new context, message_3 and code; what a failure leaves |
| `Edhoc03Context.Context.AnswerMessage2` | edhoc4/edhoc03.c:433-497 | message_3 and the keys once message_2 was accepted |
| `Edhoc03Context.Context.HandleMessage3` | edhoc4/edhoc03.c:499-557 | every branch of message_3 handling, for every message that fits the buffer of 115 bytes; what a failure leaves |
| `Edhoc03Context.Context.HandleMessage4` | edhoc4/edhoc03.c:559-566 | only an empty message_4 is taken, by an initiator, which is then done; a failure changes nothing |
| `Edhoc03Context.RunHandshake` | edhoc4/selftest03.c:30-52 | two real contexts run through the handlers; they end done and in agreement exactly when no handler of the honest exchange fails, and neither is done otherwise |
| `XWing.PairLengths` | edhoc4/edhoc4.c:151-160 | a generated key pair is 1216 and 2432 octets |
| `XWing.EncapsLengths` | edhoc4/edhoc4.c:171-191 | a ciphertext is 1120 octets and a shared secret 32 |
| `XWing.DecapsUndoesEncaps` | edhoc4/edhoc4.c:162-209 | the holder of a generated secret key recovers the sender's shared secret from the ciphertext |
| `Edhoc4Meaning.EncapsMeans` | edhoc4/edhoc4.c:162-191 | an encapsulation is an ML-KEM one and an X25519 key, and its secret the hash of both secrets, that key and the receiver's key under "XWING-combiner-v1", octet by octet |
| `Edhoc4Meaning.DecapsMeans` | edhoc4/edhoc4.c:162-209 | decapsulation hashes the same in the same order, from the other side |
| `Edhoc4.Pt2Layout` | edhoc4/edhoc4.c:405-420 | the offsets at which PT2 is read are those at which it was written |
| `Edhoc4.Pt3Layout` | edhoc4/edhoc4.c:515-535 | the same for PT3, whose key and signature stand in another order |
| `Edhoc4.InfosDiffer` | edhoc4/edhoc4.c:80-223 | the same domain separation, with MAC_2 and MAC_3 apart |
| `Edhoc4Meaning.SealMeans` | edhoc4/edhoc4.c:80-121 | sealing and opening are the AEAD under 32 octets of key and 12 of nonce from HMACs over the transcript hash and "E4KEY" |
| `Edhoc4Meaning.DerivedIsExported` | edhoc4/edhoc4.c:215-223 | PRK_out from PRK4e3m and TH4, MSK and EMSK under their own labels, octet by octet |
| `Edhoc4Meaning.BuildMeans` | edhoc4/edhoc4.c:405-420 | PT2 and PT3 in library calls: MACs over TH, identity and (PT3) the next key, signatures over TH, identity and MAC |
| `Edhoc4Meaning.Message1Means` | edhoc4/edhoc4.c:307-340 | message_1: TH1 over ephemeral key and ciphertext, PRK1e, and the method and identifier sealed under it |
| `Edhoc4Meaning.Message2Means` | edhoc4/edhoc4.c:349-439 | a responder that answers: the secrets decapsulated and encapsulated, TH1 to TH3 and the PRKs as hashes and HMACs of what was received and sent |
| `Edhoc4Meaning.CheckPt2Exactly` | edhoc4/edhoc4.c:485-503 | PT2 is accepted if and only if its MAC is right and its signature verifies, and the code says which is not |
| `Edhoc4Meaning.CheckPt3Exactly` | edhoc4/edhoc4.c:575-593 | the same of PT3 |
| `Edhoc4Meaning.Message3Means` | edhoc4/edhoc4.c:447-552 | an initiator that returns OK opened a message_2 whose plaintext proves the responder; message_3, TH3, TH4, PRK4e3m and the exported keys in library calls |
| `Edhoc4Meaning.RefusedMessage2` | edhoc4/edhoc4.c:447-503 | a message_2 whose plaintext has a wrong MAC or signature gives E4_ERR_MAC or E4_ERR_SIG, sends nothing and leaves the exported keys alone |
| `Edhoc4Meaning.Message3Accepted` | edhoc4/edhoc4.c:559-613 | message_3 handling that returns OK opened a plaintext that proves the initiator |
| `Edhoc4Meaning.Message4Means` | edhoc4/edhoc4.c:559-613 | conversely a message_3 that proves the initiator makes the responder done with the keys of the transcript, whatever comes after, and message_4 is the next key sealed under PRK4e3m and TH4 |
| `Edhoc4Meaning.RefusedMessage3` | edhoc4/edhoc4.c:559-593 | a message_3 with a wrong MAC or signature gives that code, sends nothing and leaves the exported keys alone |
| `Edhoc4Meaning.AuthenticExactly` | edhoc4/edhoc4.c:559-593 | the condition under which keys are exported, in library calls |
| `Edhoc4Meaning.Message4Accepted` | edhoc4/edhoc4.c:615-625 | message_4 is taken if and only if it opens to 1216 octets, which become the peer's next key |
| `Edhoc4Meaning.EarlyRefusals` | edhoc4/edhoc4.c:349-625 | the codes of calls that do not get as far as a plaintext |
| `Edhoc4Meaning.BufferLimits1` | edhoc4/edhoc4.c:307-340 | message_1 with a smaller output buffer: the same if it fits, E4_ERR_BUF without output if not |
| `Edhoc4Meaning.BufferLimits2` | edhoc4/edhoc4.c:349-439 | the same of message_2 |
| `Edhoc4Meaning.BufferLimits3` | edhoc4/edhoc4.c:447-552 | the same of message_3 |
| `Edhoc4Meaning.BufferLimits4` | edhoc4/edhoc4.c:559-613 | the same of message_4, whose context does not depend on the buffer |
| `Edhoc4.FitsExactly` | edhoc4/edhoc4.c:349-475 | the decrypted bytes stay within the local buffer if and only if message_1 is at most 2416 and message_2 at most 6016 bytes, for a message that reaches the decryption |
| `Edhoc4.LaterFitsExactly` | edhoc4/edhoc4.c:559-625 | the same for message_3 up to 4991 and message_4 up to 1248 bytes |
| `Edhoc4.MakeMsg1Outcome` | edhoc4/edhoc4.c:307-340 | message_1 changes no party and no exported key, and a failure emits nothing |
| `Edhoc4.Msg1Outcome` | edhoc4/edhoc4.c:349-439 | the same for message_1 handling, on every branch |
| `Edhoc4.Msg2Outcome` | edhoc4/edhoc4.c:447-552 | a failed message_2 emits nothing and leaves the exported keys alone; a successful one does not make the initiator done |
| `Edhoc4.Msg3Outcome` | edhoc4/edhoc4.c:559-613 | message_3 handling exports keys if and only if the message was authentic, even where building message_4 then fails, and emits nothing on failure |
| `Edhoc4.Msg4Outcome` | edhoc4/edhoc4.c:615-625 | message_4 handling never changes an exported key; on failure it changes nothing |
| `Edhoc4.KeypairSized` | edhoc4/edhoc4.c:151-160 | key generation keeps the fixed sizes the handlers slice by |
| `Edhoc4Runs.Th3PinsTranscript` | edhoc4/edhoc4.c:349-552 | without collisions, equal TH3 means equal message_1, KEM ciphertext, PT2, TH1 and TH2 |
| `Edhoc4Runs.TranscriptFixesKeys` | edhoc4/edhoc4.c:349-552 | decapsulation then gives both ends the ephemeral secret, and MAC_2 gives them PRK3e2m and the responder's name |
| `Edhoc4Runs.SharedPt3Agrees` | edhoc4/edhoc4.c:559-613 | sharing TH3 and PT3 means sharing the conversation, PRK4e3m, MSK, EMSK and the initiator's next key |
| `Edhoc4Runs.ReachableInv` | edhoc4/edhoc4.c:307-625 | the system invariant holds after every sequence of events, any bytes that fit the plaintext buffers delivered to anyone |
| `Edhoc4Runs.Took3Agrees` | edhoc4/edhoc4.c:559-613 | an accepted message_3 that some initiator sent gives agreement to the responder |
| `Edhoc4Runs.Took4Agrees` | edhoc4/edhoc4.c:615-625 | an accepted message_4 that some responder sent gives the same agreement back, with the responder's next key |
| `Edhoc4Runs.MatchingConversations` | edhoc4/edhoc4.c:307-625 | over every run in which no delivered message overruns a plaintext buffer (exact lengths in `Edhoc4.FitsExactly` and `Edhoc4.LaterFitsExactly`): agreement on message_3, agreement on message_4, and an initiator is done only after message_4 |
| `Edhoc4Runs.InjectiveOnMessage3` | edhoc4/edhoc4.c:307-613 | with distinct ephemerals, all acceptances of one sent message_3 belong to one responder session and all its sendings to one initiator session |
| `Edhoc4Runs.InjectiveOnMessage4` | edhoc4/edhoc4.c:559-625 | the same of message_4, in the other direction |
| `Edhoc4Honest.Msg1Accepted` | edhoc4/edhoc4.c:349-385 | the responder opens an honest message_1 and goes on with the initiator's key and secret |
| `Edhoc4Honest.Msg2Succeeds` | edhoc4/edhoc4.c:385-439 | message_2 is produced, 6000 octets, with the context in closed form |
| `Edhoc4Honest.Msg2Accepted` | edhoc4/edhoc4.c:447-505 | the initiator authenticates an honest message_2 |
| `Edhoc4Honest.Msg3Succeeds` | edhoc4/edhoc4.c:505-552 | message_3 is produced, 4975 octets; keys are derived but the initiator is not done |
| `Edhoc4Honest.Msg3Accepted` | edhoc4/edhoc4.c:559-590 | the responder authenticates an honest message_3 |
| `Edhoc4Honest.Msg4Succeeds` | edhoc4/edhoc4.c:590-613 | message_4 is produced, 1232 octets |
| `Edhoc4Honest.HonestRunAgrees` | edhoc4/selftest.c:40-76 | if no handler of the honest method-4 exchange fails up to message_4, message_4 is accepted, sizes are fixed, both ends share every hash, secret and key and hold each other's next static key |
| `Edhoc4Honest.Stage1` | edhoc4/edhoc4.c:307-385 | once message_1 was sent, the responder opens it and is about to emit message_2, contexts in closed form |
| `Edhoc4Honest.Stage2` | edhoc4/edhoc4.c:349-505 | once message_2 was sent, the initiator accepts it and is about to emit message_3 |
| `Edhoc4Honest.Stage3` | edhoc4/edhoc4.c:447-590 | once message_3 was sent, the responder accepts it and is about to emit message_4 |
| `Edhoc4Honest.HonestOutcome` | edhoc4/selftest.c:40-76 | with no assumption on success: every handler of an honest exchange returns OK or the code of a key generation, encapsulation, signature or encryption of its own that failed, never that of a decapsulation, decryption, MAC or verification |
| `Edhoc4Honest.HonestMessagesFit` | edhoc4/edhoc4.c:349-625 | honest messages fit the buffers of the handlers they are meant for |
| `Edhoc4Honest.CrossDeliveryOverruns` | edhoc4/edhoc4.c:559-625 | an honest message_2 handed back as message_3 puts 5984 bytes into 4975, and an honest message_2 or message_3 as message_4 puts 5984 or 4959 into 1232 |
| `HonestWorld4.HonestShares` | edhoc4/edhoc4.c:307-625 | in the honest exchange each end opens what the other built, over the same transcript and keys |
| `HonestWorld4.HonestRunIsRecorded` | edhoc4/edhoc4.c:307-625 | the honest exchange is a run of the many-session system, with all it hashes, seals, opens and MACs listed |
| `HonestWorld4.HonestRunIsBound` | edhoc4/edhoc4.c:307-625 | that run satisfies the binding hypotheses by the lengths of its ciphertexts and MAC inputs alone |
| `HonestWorld4.HypothesesCanBeMet` | edhoc4/selftest.c:40-76 | a lawful suite and a run exist that meet all hypotheses, with message_3 and message_4 accepted |
| `Edhoc4Context.Context.Initiator` | edhoc4/edhoc4.c:281-299 | a fresh method-4 initiator |
| `Edhoc4Context.Context.Responder` | edhoc4/edhoc4.c:281-299 | a fresh method-4 responder |
| `Edhoc4Context.Context.MakeMessage1` | edhoc4/edhoc4.c:307-340 | new context, message_1 and code on every branch |
| `Edhoc4Context.Context.HandleMessage1` | edhoc4/edhoc4.c:349-439 | every branch of message_1 handling, for any message that fits its 64 bytes of plaintext; what a failure leaves |
| `Edhoc4Context.Context.HandleMessage2` | edhoc4/edhoc4.c:447-552 | every branch of message_2 handling, for any message that fits the plaintext buffer; what a failure leaves |
| `Edhoc4Context.Context.HandleMessage3` | edhoc4/edhoc4.c:559-613 | every branch of message_3 handling, for any message that fits the plaintext buffer; keys are exported before message_4 is built, and only then |
| `Edhoc4Context.Context.HandleMessage4` | edhoc4/edhoc4.c:615-625 | every branch of message_4 handling, for any message that fits the plaintext buffer; what a failure leaves |
| `Edhoc4Context.Context.DeriveSessionKeys` | edhoc4/edhoc4.c:215-223 | PRK_out, MSK and EMSK from PRK4e3m and TH4 |
| `Edhoc4Context.Context.AeadOpen` | edhoc4/edhoc4.c:108-121 | writes ciphertext length minus 16 bytes into the local buffer, zeros on failure, and nothing behind them |
| `Edhoc4Context.RunHandshake` | edhoc4/selftest.c:40-76 | two real contexts run through the handlers; exactly when no handler fails they end with equal keys and swapped next static keys |
| `Fragmentation.FirstFragment` | benchmark/e2e_radius_bench.c:126-213 | the first fragment of a long message is 1000 bytes, announces the length and is acknowledged |
| `Fragmentation.NextFragment` | benchmark/e2e_radius_bench.c:126-213 | each further fragment keeps both ends in step, and the last one delivers the message and leaves both idle |
| `Fragmentation.SingleFragment` | benchmark/e2e_radius_bench.c:155-213 | up to 997 bytes travel in one fragment |
| `Fragmentation.FlagBits` | edhoc4/edhoc4.h:66-67 | bit 7 of the flags announces a length and bit 6 says that more follows, whatever the other bits |
| `Fragmentation.WireBytes` | benchmark/e2e_radius_bench.c:126-152 | the octets of every wire: 0xC0, two octets of length and 997 bytes; 0x40 and 999; 0x00 and the rest |
| `Fragmentation.LengthRead` | benchmark/e2e_radius_bench.c:176-213 | how a wire with an announced length is read, with the code of every refused length |
| `Fragmentation.BodyMeans` | benchmark/e2e_radius_bench.c:190-213 | exactly when a payload completes the message, is one more piece, is too much (-2) or out of place (-3) |
| `FragExchange.RestArrives` | benchmark/e2e_radius_bench.c:221-277 | from any point of a transfer, two wires per remaining fragment complete it |
| `FragExchange.MessageArrives` | benchmark/e2e_radius_bench.c:221-277 | any message up to 8192 bytes arrives whole after 2 F - 1 wires, F = 1 or 1 + ceil((n - 997) / 999), and the core is called once |
| `FragExchange.Leg` | benchmark/e2e_radius_bench.c:221-277 | a message arrives and the answer of the core is on its way |
| `FragExchange.PqExchange` | freeradius-v3/src/modules/rlm_eap/types/rlm_eap_edhoc/rlm_eap_edhoc.c:286-428 | a method-4 exchange calls the handlers on exactly the four messages, in order and once each, and succeeds |
| `FragExchange.ClassicalExchange` | freeradius-v3/src/modules/rlm_eap/types/rlm_eap_edhoc/rlm_eap_edhoc.c:286-428 | a classical exchange succeeds on message_3 |
| `FragExchange.AckedPrefix` | benchmark/e2e_radius_bench.c:176-213 | after any wires that were merely acknowledged, the buffer is their payloads and the first one announced the length |
| `FragExchange.OnlyWholeMessages` | benchmark/e2e_radius_bench.c:176-213 | whatever wires arrive, a message is handed up only when it is all payloads since idle and has exactly the announced length |
| `FragExchange.PendingContinues` | benchmark/e2e_radius_bench.c:221-277 | while fragments are left, the next one goes out whatever arrives and the core is not called |
| `FragExchange.IdleReacts` | benchmark/e2e_radius_bench.c:221-277 | otherwise an error ends the exchange, an incomplete message is acknowledged and only a complete one reaches the core |
| `FragOutcome.LegFails` | benchmark/e2e_radius_bench.c:221-277 | a message whose handler fails ends the exchange when it has arrived |
| `FragOutcome.ExchangeIsDirect` | benchmark/e2e_radius_bench.c:126-277 | for any handlers, failing ones included, the exchange has ended after 70 wires with the verdict and the handler calls of the same handlers run directly on whole messages |
| `FragEngine.Engine.constructor` | benchmark/e2e_radius_bench.c:101-123 | a fresh engine is idle |
| `FragEngine.Engine.SendFragment` | benchmark/e2e_radius_bench.c:126-152 | the next wire and the sender state after it, over the real buffer |
| `FragEngine.Engine.QueueOutgoing` | benchmark/e2e_radius_bench.c:155-173 | a new message is sent whole or its fragmentation begun |
| `FragEngine.Engine.ConsumePayload` | benchmark/e2e_radius_bench.c:190-213 | appending, completing or rejecting a payload |
| `FragEngine.Engine.ConsumeFragment` | benchmark/e2e_radius_bench.c:176-213 | every branch of reassembly, with its error code |
| `FragEngine.Engine.ReactTo` | benchmark/e2e_radius_bench.c:221-277 | one inbound wire has the effect of the abstract reaction, and the wire answered is its wire |
| `EndToEnd.Method4Sizes` | benchmark/e2e_radius_bench.c:126-173 | the four method-4 messages take 5, 13, 9 and 3 wires |
| `EndToEnd.Method4OverFragments` | benchmark/e2e_radius_bench.c:126-277 | the method-4 handlers over the fragmentation layer, no primitive failing: success after 32 wires, the four messages delivered once each, contexts in agreement |
| `EndToEnd.ClassicalOverFragments` | benchmark/e2e_radius_bench.c:126-277 | methods 0 to 3 over it, no primitive failing: success after four wires, contexts in agreement |
| `EndToEnd.Method4Outcome` | benchmark/e2e_radius_bench.c:126-277 | method 4 with primitives failing or not: the exchange has ended after 70 wires, with success exactly when no handler failed, and then in agreement |
| `EndToEnd.ClassicalOutcome` | benchmark/e2e_radius_bench.c:126-277 | the same for methods 0 to 3 |
| `EndToEnd.DispatchLosesNothing` | freeradius-v3/src/modules/rlm_eap/types/rlm_eap_edhoc/rlm_eap_edhoc.c:336-345 | the server's choice of core by length and first byte is exactly the classical core's parse condition, and what it diverts from method 4 that core would refuse to parse |
| `EndToEnd.DispatchFindsTheMaker` | freeradius-v3/src/modules/rlm_eap/types/rlm_eap_edhoc/rlm_eap_edhoc.c:336-345 | each initiator's message_1 reaches the core of its own method |
| `Sponge.AbsorbConcat` | PQClean/common/fips202.c:440-462 | absorbing a concatenation is absorbing the parts in turn |
| `Sponge.AbsorbWithinBlock` | PQClean/common/fips202.c:440-462 | within a block bytes are xored in place, and filling it permutes once |
| `Sponge.PaddingFormsAgree` | PQClean/common/fips202.c:349-380 | the or-form of padding equals the xor-form exactly when the domain byte is below 0x80 or is not the last byte of the block |
| `Sponge.SqueezeConcat` | PQClean/common/fips202.c:498-523 | squeezing in parts is squeezing at once |
| `Sponge.SqueezeWithinBlock` | PQClean/common/fips202.c:498-523 | within a block squeezing only reads |
| `Sponge.PaddingIsPad101` | PQClean/common/fips202.c:477-483 | finalizing is absorbing the padding of FIPS 202, a whole number of blocks |
| `Sponge.AbsorbPosition` | PQClean/common/fips202.c:440-462 | the position is the number of absorbed bytes modulo the rate |
| `LaneValues.LaneByteValue` | PQClean/common/fips202.c:44-48 | byte k of a lane is digit k, lowest first, of its value in base 256 |
| `LaneValues.ShiftedValue` | PQClean/common/fips202.c:27-33 | a byte xored into a zero lane at place k is worth b 256^k |
| `LaneValues.XorBytesAt` | PQClean/common/fips202.c:349-380 | bytes xored in at a place are read back from there, and all other bytes are as they were |
| `LaneValues.SqueezedByte` | PQClean/common/fips202.c:498-523 | byte i of any squeezed output is a digit of a numbered lane of the state after a stated number of permutations |
| `SpongeStandard.AbsorbChain` | PQClean/common/fips202.c:440-462 | absorbing whole blocks is a chain of states, each the permutation of the one before it with a block xored into its first bytes |
| `SpongeStandard.XofIsStandard` | PQClean/common/fips202.c:417-523 | the extendable output of FIPS 202 on bytes: padded message, chain of states, and byte i of the output as byte i mod r of the state after i / r more permutations |
| `SpongeStandard.XofIsOutput` | PQClean/common/fips202.c:695-745 | every extendable output of the model is one in that sense |
| `SpongeContext.Context.constructor` | PQClean/common/fips202.c:417-424 | a zero state at position 0 |
| `SpongeContext.Context.IncAbsorb` | PQClean/common/fips202.c:440-462 | the three-phase loop absorbs exactly its input from any position, and the position stays below the rate |
| `SpongeContext.Context.IncFinalize` | PQClean/common/fips202.c:477-483 | domain byte and final bit go in, and squeezing starts empty |
| `SpongeContext.Context.Drain` | PQClean/common/fips202.c:498-510 | what is left of the block is given out first |
| `SpongeContext.Context.IncSqueeze` | PQClean/common/fips202.c:498-523 | the loop gives out the next bytes of the stream, from any state; each is a digit, in base 256, of a numbered lane after a stated number of permutations |
| `SpongeContext.AbsorbChunks` | PQClean/common/fips202.c:440-462 | any list of chunks absorbs as their concatenation |
| `SpongeContext.SqueezeChunks` | PQClean/common/fips202.c:498-523 | any list of lengths squeezes consecutive pieces of one stream |
| `SpongeContext.Chunked` | PQClean/common/fips202.c:417-523 | split-invariance: any chunks in and any lengths out give the extendable output of the whole message |
| `SpongeContext.Load64` | PQClean/common/fips202.c:27-33 | the lane whose digits in base 256, lowest first, are the eight bytes |
| `SpongeContext.XorLoadPrefix` | PQClean/common/fips202.c:349-380 | xoring a loaded lane in is xoring its bytes in one by one |
| `SpongeContext.TailAbsorbed` | PQClean/common/fips202.c:349-380 | the padded tail after whole blocks is the finalized message, exactly when the padding forms agree |
| `SpongeContext.OneShot.XorLanes` | PQClean/common/fips202.c:349-380 | a block goes in lane by lane |
| `SpongeContext.OneShot.AbsorbBlocks` | PQClean/common/fips202.c:349-380 | all whole blocks are absorbed and the tail is shorter than a block |
| `SpongeContext.OneShot.MakeTail` | PQClean/common/fips202.c:349-380 | the padded tail buffer |
| `SpongeContext.OneShot.KeccakAbsorb` | PQClean/common/fips202.c:349-380 | the one-shot absorb is init, absorb, finalize, if and only if the domain byte does not meet 0x80 |
| `SpongeContext.OneShot.SqueezeBlocks` | PQClean/common/fips202.c:395-405 | whole blocks of the stream, a permutation before each |
| `SpongeContext.OneShot.StoreBlock` | PQClean/common/fips202.c:44-48 | lanes are stored byte by byte: byte i is digit i mod 8, lowest first, of lane i / 8 |
| `SpongeContext.Shake` | PQClean/common/fips202.c:695-745 | one-shot SHAKE gives the bytes that any chunked use gives |
| `SpongeContext.SqueezePrefix` | PQClean/common/fips202.c:695-745 | a shorter output is a prefix of a longer one |
| `KeccakF.ThetaAt` | PQClean/common/fips202.c:125-225 | theta in coordinates, section 3.2.1 of FIPS 202 |
| `KeccakF.ColumnAt` | PQClean/common/fips202.c:125-132 | the column parities theta uses |
| `KeccakF.PiAt` | PQClean/common/fips202.c:132-225 | pi moves lane (x + 3y, x) to (x, y), section 3.2.3 |
| `KeccakF.ChiAt` | PQClean/common/fips202.c:132-225 | chi in coordinates, section 3.2.4 |
| `KeccakF.RhoAt` | PQClean/common/fips202.c:132-225 | the written-out rotations are those of rho's walk, section 3.2.2 |
| `KeccakF.TriangleValue` | PQClean/common/fips202.c:132-225 | step t of that walk rotates by (t + 1)(t + 2) / 2 modulo 64 |
| `KeccakF.WalkTable` | PQClean/common/fips202.c:132-225 | the walk visits the 24 lanes in this order |
| `KeccakF.ConstantsGenerated` | PQClean/common/fips202.c:51-64 | the 24 constants are those of the feedback shift register, section 3.2.5 |
| `KeccakF.ThetaRhoPiChiIota` | PQClean/common/fips202.c:125-225 | the unrolled round is iota after chi after pi after rho after theta, for every state |
| `KeccakF.RoundPairs` | PQClean/common/fips202.c:120-325 | two rounds an iteration make 24 rounds |
| `KeccakStandard.RolBit` | PQClean/common/fips202.c:16 | bit z of a lane rotated by n is bit z - n modulo 64 |
| `KeccakStandard.RoundBits` | PQClean/common/fips202.c:125-225 | one round maps the bits A[x, y, z] as sections 3.2.1 to 3.2.5 of FIPS 202 say |
| `KeccakStandard.PermutationIsStandard` | PQClean/common/fips202.c:73-334 | lane (x, y) is stored at 5 y + x, and 24 such rounds with the constants of the shift register lead from input to output |
| `KeccakF.StatePermute` | PQClean/common/fips202.c:73-334 | the permutation on the 25 lanes in place |
| `KeccakF.KeccakShake` | PQClean/common/fips202.c:695-745 | SHAKE128 and SHAKE256 over this permutation, also in the byte-wise sense of `SpongeStandard.IsOutput` |
| `KeccakTwo.TwoWay.XorPair` | PQClean/common/keccak2x/fips202x2.c:392-485 | two zipped vector loads xor the same two lanes into both halves |
| `KeccakTwo.TwoWay.XorBlock` | PQClean/common/keccak2x/fips202x2.c:392-485 | groups of four lanes and one more are a whole block of each message |
| `KeccakTwo.TwoWay.AbsorbBlocks` | PQClean/common/keccak2x/fips202x2.c:392-485 | whole blocks leave each half as the scalar absorb would |
| `KeccakTwo.TwoWay.XorTailLanes` | PQClean/common/keccak2x/fips202x2.c:392-485 | the 16-byte and 8-byte tails are the whole lanes of the tail |
| `KeccakTwo.TwoWay.XorLastBytes` | PQClean/common/keccak2x/fips202x2.c:392-485 | the masked load xors only the message's bytes in, whatever lies beyond its end |
| `KeccakTwo.MaskedPrefix` | PQClean/common/keccak2x/fips202x2.c:392-485 | masking a loaded lane to n bytes is loading n bytes |
| `KeccakTwo.TailFinal` | PQClean/common/keccak2x/fips202x2.c:392-485 | tail, domain byte and last bit make the finalized state of the whole message |
| `KeccakTwo.TwoWay.FinishTail` | PQClean/common/keccak2x/fips202x2.c:392-485 | both halves are finalized |
| `KeccakTwo.TwoWay.Absorb2` | PQClean/common/keccak2x/fips202x2.c:392-485 | each half equals the scalar absorb of its own message |
| `KeccakTwo.TwoWay.StoreBlock` | PQClean/common/keccak2x/fips202x2.c:499-537 | unzipped stores give each half's bytes |
| `KeccakTwo.TwoWay.SqueezeBlocks` | PQClean/common/keccak2x/fips202x2.c:499-537 | each output is the scalar stream of its half |
| `KeccakTwo.ShakeTwo` | PQClean/common/keccak2x/fips202x2.c:622-684 | shake128x2 and shake256x2 give two scalar SHAKE outputs |
| `KeccakFour.BothTranspose` | PQClean/common/keccak4x/KeccakP-1600-times4-SIMD256.c:66-82 | both shuffle macros transpose a four by four matrix |
| `KeccakFour.UnintleaveUndoesIntleave` | PQClean/common/keccak4x/KeccakP-1600-times4-SIMD256.c:66-82 | and undo each other |
| `KeccakFour.PlacedXor` | PQClean/common/keccak4x/KeccakP-1600-times4-SIMD256.c:92-125 | xoring a lane with bytes copied into it is xoring those bytes at their offset |
| `KeccakFour.FourWay.AddBytes` | PQClean/common/keccak4x/KeccakP-1600-times4-SIMD256.c:92-125 | the bytes go into one instance at the offset; the other three are untouched |
| `KeccakFour.FourWay.XorFourColumns` | PQClean/common/keccak4x/KeccakP-1600-times4-SIMD256.c:127-170 | the transposing load of four lanes equals four lane-by-lane loads |
| `KeccakFour.FourWay.AddLanesAll` | PQClean/common/keccak4x/KeccakP-1600-times4-SIMD256.c:127-170 | each instance has the lanes of its own stream xored in |
| `KeccakFour.FourWay.ExtractBytes` | PQClean/common/keccak4x/KeccakP-1600-times4-SIMD256.c:264-292 | exactly the requested bytes of one instance |
| `KeccakFour.FourWay.ExtractLanesAll` | PQClean/common/keccak4x/KeccakP-1600-times4-SIMD256.c:294-342 | the beginning of each instance goes to its own place in one buffer, and no other byte of the buffer changes |
| `KeccakFour.FourWay.PermuteAll` | PQClean/common/keccak4x/KeccakP-1600-times4-SIMD256.c:805-815 | every instance goes through the permutation |
| `KeccakFour.FourWay.FastLoopAbsorb` | PQClean/common/keccak4x/KeccakP-1600-times4-SIMD256.c:830-928 | for any lane count, 21 included, each instance absorbs the blocks of its stream, and the bytes consumed are whole steps, for all lengths for which the loop ends within the data |
| `KeccakFour.StaysExactly` | PQClean/common/keccak4x/KeccakP-1600-times4-SIMD256.c:830-928 | these are the lengths below one step's span or with a remainder modulo the serial stride below it: exactly those for which every step finds the bytes it takes |
| `CShake.ByteLenIsMinimal` | PQClean/common/sp800-185.c:6-20 | left_encode uses the fewest bytes that hold the value |
| `CShake.LeftEncodeC` | PQClean/common/sp800-185.c:6-20 | the two loops produce left_encode of section 2.3.1 of SP 800-185 |
| `CShake.LeftEncodeDecodes` | PQClean/common/sp800-185.c:6-20 | left_encode is injective and prefix-free |
| `CShake.EncodeStringDecodes` | PQClean/common/sp800-185.c:22-40 | an encoded string can be told from what follows it |
| `CShake.PrefixIsInjective` | PQClean/common/sp800-185.c:22-40 | name and customization can be read back from the padded prefix |
| `CShake.LeftEncodeMeans` | PQClean/common/sp800-185.c:6-20 | left_encode is the number of octets and the value in them, most significant first, without a leading zero |
| `CShake.PaddedPrefixMeans` | PQClean/common/sp800-185.c:22-40 | the prefix is rate, bit length of the name, name, bit length of the customization, customization, and fewer than r zeros up to a multiple of the rate |
| `CShake.BitLengthWraps` | PQClean/common/sp800-185.c:22-40 | the 64-bit bit count encodes the length if and only if the string is below 2^61 bytes |
| `CShake.JumpIsZeroPadding` | PQClean/common/sp800-185.c:22-40 | jumping to the last byte of the block and absorbing one zero is absorbing the zero pad |
| `CShake.PaddedPrefix` | PQClean/common/sp800-185.c:22-40 | at a block boundary no jump is needed, elsewhere it completes bytepad |
| `CShake.AbsorbPrefix` | PQClean/common/sp800-185.c:22-40 | the five absorbs are the whole prefix |
| `CShake.CshakeInit` | PQClean/common/sp800-185.c:64-82 | after init the state is that of absorbing bytepad(encode_string(N) \|\| encode_string(S), rate) |
| `CShake.StandardExactly` | PQClean/common/sp800-185.c:64-156 | domain byte and absorbed bytes are those of section 3.3 of SP 800-185 if and only if name and customization are not both empty; if they are, both differ |
| `CShake.Cshake` | PQClean/common/sp800-185.c:120-156 | one-shot cSHAKE is the extendable output of prefix and input with domain byte 0x04, which is the standard's cSHAKE unless both strings are empty |
| `SBox.UnaffinedIsInverse` | PQClean/common/aes.c:68-240 | undoing the affine map on the circuit's output gives the inverse in GF(2^8), 0 for 0 |
| `SBox.SubByteIsAffineOfInverse` | PQClean/common/aes.c:68-240 | the 115-gate circuit is the AES S-box, section 5.1.1 of FIPS 197, on all bytes |
| `Bitslice.BitsliceSbox` | PQClean/common/aes.c:68-240 | on words, the circuit is the S-box in every one of the 64 slots |
| `Bitslice.AddRoundKeySlot` | PQClean/common/aes.c:405-414 | key addition per slot |
| `Bitslice.ShiftRowsSlot` | PQClean/common/aes.c:416-431 | the masks move row r by r columns and keep every bit in its block |
| `Bitslice.MixColumnsSlot` | PQClean/common/aes.c:437-466 | the rotated xors are MixColumns per slot, within each block |
| `AesSpec.MixIsMixColumn` | PQClean/common/aes.c:437-466 | the field coefficients are 2, 3, 1, 1 |
| `AesStandard.FeedbackByte` | PQClean/common/aes.c:334-358 | for each key size, what is xored onto a word: rotated, substituted and with the round constant at multiples of nk; substituted at 8 k + 4 for AES-256; plain otherwise |
| `AesStandard.ExpansionIsSchedule` | PQClean/common/aes.c:334-358 | byte by byte and for each key size, the 11, 13 or 15 round keys of section 5.2 of FIPS 197, in terms of the S-box and the tabulated constants |
| `AesStandard.CipherIsStandard` | PQClean/common/aes.c:473-500 | byte by byte, the states of section 5.1: first key addition, the rounds with field products 2, 3, 1, 1 of the shifted columns, and the last round without them |
| `AesStandard.AesIsStandard` | PQClean/common/aes.c:605-627 | the cipher of the model enciphers in that sense |
| `AesStandard.EnciphersOnce` | PQClean/common/aes.c:605-627 | and that sense determines the output |
| `Layout.OrthoSlot` | PQClean/common/aes.c:242-269 | the transposition turns byte k of word l into slot 8 k + l |
| `Layout.OrthoIsInvolution` | PQClean/common/aes.c:242-269 | transposing twice changes nothing |
| `Layout.OutUndoesIn` | PQClean/common/aes.c:271-317 | interleave_out undoes interleave_in |
| `Layout.InUndoesOut` | PQClean/common/aes.c:271-317 | and the other way round |
| `Layout.LoadSlot` | PQClean/common/aes.c:271-296 | loading four blocks puts every byte into the slot of its block, row and column |
| `Layout.StoreSlot` | PQClean/common/aes.c:298-317 | storing takes every slot back to its byte |
| `Aes.SboxStep` | PQClean/common/aes.c:68-240 | in place, SubBytes on each of the four blocks |
| `Aes.ShiftRowsLane` | PQClean/common/aes.c:416-431 | ShiftRows on each block by itself |
| `Aes.MixColumnsLane` | PQClean/common/aes.c:437-466 | MixColumns on each block by itself |
| `Aes.AddRoundKeyLane` | PQClean/common/aes.c:405-414 | AddRoundKey on each block by itself |
| `Aes.LoadLane` | PQClean/common/aes.c:271-296 | block j of a batch is lane j |
| `Aes.StoreLane` | PQClean/common/aes.c:298-317 | lane j is stored as block j |
| `Aes.InterleaveIn` | PQClean/common/aes.c:271-296 | the loading loop |
| `Aes.InterleaveOut` | PQClean/common/aes.c:298-317 | the storing loop |
| `Aes.FullRounds` | PQClean/common/aes.c:473-500 | the round loop is the rounds of FIPS 197 on every block |
| `Aes.Ecb4x` | PQClean/common/aes.c:473-500 | four blocks at once, each enciphered by itself, for any round count |
| `Aes.EcbBatch` | PQClean/common/aes.c:512-529 | a batch of one to four blocks; what the unset lanes hold does not matter |
| `Aes.Ecb` | PQClean/common/aes.c:512-529 | for any number of blocks, block i is enciphered by itself |
| `Aes.Encode` | PQClean/common/aes.c:54-66 | words leave as little-endian bytes |
| `Aes.RangeDecode` | PQClean/common/aes.c:34-46 | words are read little-endian and the rest of the buffer is kept |
| `AesCtr.SwapTwice` | PQClean/common/aes.c:48-52 | the byte swap is its own inverse |
| `AesCtr.BatchBlock` | PQClean/common/aes.c:502-557 | lane j of a batch is the nonce and the counter c + j, big-endian |
| `AesCtr.CtrBlockMeans` | PQClean/common/aes.c:502-557 | block i is the nonce and the number i modulo 2^32, most significant octet first |
| `AesCtr.BatchStep` | PQClean/common/aes.c:468-510 | incrementing the four counter words by four makes the next batch |
| `AesCtr.Inc4` | PQClean/common/aes.c:468-471 | the counter is incremented in big-endian order, modulo 2^32, and nothing else changes |
| `AesCtr.Ctr4x` | PQClean/common/aes.c:502-510 | the next 64 keystream bytes |
| `AesCtr.Ctr` | PQClean/common/aes.c:531-557 | for any length, 64-byte batches and a cut last one give the keystream |
| `AesCtr.StreamPrefix` | PQClean/common/aes.c:531-557 | a shorter keystream is a prefix of a longer one |
| `AesKeys.ExpandUndoesCompress` | PQClean/common/aes.c:359-403 | four uniform words survive compression to one word |
| `AesKeys.CopiesAreUniform` | PQClean/common/aes.c:359-381 | transposing four copies of a round key makes every nibble uniform |
| `AesKeys.RoundKeySurvives` | PQClean/common/aes.c:359-403 | for every round key, expanding the compressed pair gives back the eight words |
| `AesKeys.SlicesLane` | PQClean/common/aes.c:359-381 | every lane of those words is the round key |
| `AesKeys.SubWordC` | PQClean/common/aes.c:323-332 | one word through the bitsliced S-box is SubWord |
| `AesKeys.RconIsPower` | PQClean/common/aes.c:319-321 | the table holds the powers of x in the field |
| `AesKeys.FeedbackC` | PQClean/common/aes.c:334-358 | the rotating, substituting and constant branch, and the extra substitution of AES-256 |
| `AesKeys.KeyWords` | PQClean/common/aes.c:334-358 | the running positions j and k produce the key expansion of section 5.2 of FIPS 197 for all three sizes |
| `AesKeys.CompressKey` | PQClean/common/aes.c:359-381 | a compressed round key still holds that key in every lane |
| `AesKeys.Keysched` | PQClean/common/aes.c:334-381 | the compressed schedule holds every round key |
| `AesKeys.SkeyExpand` | PQClean/common/aes.c:383-403 | each compressed word becomes four |
| `AesKeys.KeyExp` | PQClean/common/aes.c:559-603 | every lane holds the standard's key expansion, also in the byte-wise sense of `AesStandard.IsSchedule` |
| `AesKeys.AesEcb` | PQClean/common/aes.c:605-627 | AES-ECB of FIPS 197 under 16, 24 or 32-byte keys, block by block, also in the byte-wise sense of `AesStandard.Enciphers` |
| `AesKeys.AesCtrMode` | PQClean/common/aes.c:605-627 | AES-CTR byte by byte, for any output length |
| `SeedExpander.RippleIsNext` | PQClean/common/nistseedexpander.c:58-101 | incrementing bytes with carry is adding one modulo 256^k |
| `SeedExpander.StreamConcat` | PQClean/common/nistseedexpander.c:58-101 | consecutive pieces of the stream join |
| `SeedExpander.CounterBlocksDiffer` | PQClean/common/nistseedexpander.c:58-101 | below 2^32, counter blocks are equal if and only if their numbers are |
| `SeedExpander.StreamMeans` | PQClean/common/nistseedexpander.c:58-101 | byte n of the stream is byte n mod 16 of the block that AES-256 makes of the twelve fixed bytes and the number n / 16, most significant first |
| `SeedExpander.Expander.constructor` | PQClean/common/nistseedexpander.c:20-43 | key, diversifier, length and counter are laid out, and nothing is produced yet |
| `SeedExpander.Expander.Increment` | PQClean/common/nistseedexpander.c:58-101 | the last four counter bytes are incremented with carry |
| `SeedExpander.Expander.Encrypt` | PQClean/common/nistseedexpander.c:45-50 | the buffer is the encrypted counter |
| `SeedExpander.Expander.Refill` | PQClean/common/nistseedexpander.c:58-101 | buffer, counter and stream position stay consistent |
| `SeedExpander.Expander.TakeFrom` | PQClean/common/nistseedexpander.c:58-101 | the next bytes of the stream leave the buffer |
| `SeedExpander.Expander.Request` | PQClean/common/nistseedexpander.c:58-101 | a request succeeds if and only if it is below what remains; it returns the next bytes of the stream and what remains falls by just that, never to 0 |
| `SeedExpander.RequestMany` | PQClean/common/nistseedexpander.c:58-101 | over any requests, the concatenated successful outputs are one stretch of the stream, however they were split |
| `SeedExpander.CounterNeverWraps` | PQClean/common/nistseedexpander.c:20-101 | with an allowance below 2^32 no counter value is used twice |
| `Sha2.FoldConcat` | PQClean/common/sha2.c:601-625 | compressing whole blocks can be split anywhere between blocks |
| `Sha2.Expand` | PQClean/common/sha2.c:72-106 | replacing sixteen words in place, half of them from replaced ones, gives the next sixteen of the schedule |
| `Sha2.SixteenRounds` | PQClean/common/sha2.c:132-287 | sixteen rounds with one window |
| `Sha2.HashBlock` | PQClean/common/sha2.c:132-287 | a block is compressed as the standard says |
| `Sha2.HashBlocks` | PQClean/common/sha2.c:289-463 | all whole blocks are folded in and the rest is counted |
| `Sha2.LoadUndoesStore` | PQClean/common/sha2.c:132-160 | the state survives storing and loading |
| `Sha2.StoreUndoesLoad` | PQClean/common/sha2.c:132-160 | and loading and storing |
| `Sha2.PaddedLength` | PQClean/common/sha2.c:627-673 | the padded message is whole blocks, section 5.1 |
| `Sha2Standard.CompressIsStandard` | PQClean/common/sha2.c:132-287 | for any algorithm that follows the standard: the schedule words, every round and the final sums of one block, on numbers |
| `Sha2Standard.PaddedIsStandard` | PQClean/common/sha2.c:627-673 | a one, the fewest zeros, and the bit length in two words, whole blocks |
| `Sha2Standard.HashIsStandard` | PQClean/common/sha2.c:497-732 | the hash is the last of a chain of hash values over the blocks of the padded message, big-endian |
| `Sha2Context.LengthBytesAreDigits` | PQClean/common/sha2.c:627-673 | the eight shifted bytes are the big-endian bit count modulo 2^64 |
| `Sha2Context.LongLength` | PQClean/common/sha2.c:684-732 | the nine written bytes and zeros are the 128-bit length below 2^64 bytes |
| `Sha2Context.DigitsMod` | PQClean/common/sha2.c:601-625 | the stored count is the count modulo 2^64 |
| `Sha2Context.LengthBytesWrap` | PQClean/common/sha2.c:627-673 | for SHA-224/256 the wrap of the count does not show |
| `Sha2Context.WrittenIsPadding` | PQClean/common/sha2.c:627-732 | what is written after the tail, in one block or two, is the standard's padding |
| `Sha2Context.LongCountIsLost` | PQClean/common/sha2.c:684-732 | for SHA-384/512 it is, with the wrapped count, if and only if the message is below 2^64 bytes |
| `Sha2Context.WriteLength` | PQClean/common/sha2.c:627-732 | the length goes to the end of the buffer and nothing before it changes |
| `Sha2Context.BuildPadded` | PQClean/common/sha2.c:627-732 | tail and padding in the buffer, for every tail length |
| `Sha2Context.Context.constructor` | PQClean/common/sha2.c:497-547 | the initial value and a zero count |
| `Sha2Context.Context.Bytes64` | PQClean/common/sha2.c:601-625 | the stored count is read back |
| `Sha2Context.Context.IncBlocks` | PQClean/common/sha2.c:601-625 | state and count stay those of all bytes fed so far |
| `Sha2Context.Context.IncFinalize` | PQClean/common/sha2.c:627-732 | the digest of everything fed with the count kept modulo 2^64, for every length; it is the standard's hash for 32-bit words and below 2^64 bytes for 64-bit ones |
| `Sha2Context.HashPadded` | PQClean/common/sha2.c:627-732 | hashing tail and written padding completes the digest, for every length |
| `Sha2Context.FinalBlocks` | PQClean/common/sha2.c:627-732 | whole blocks, then the tail with anything behind it, is the message with that behind it |
| `Sha2Context.CodeHashIsHash` | PQClean/common/sha2.c:627-732 | the digest with the wrapped count is the standard's hash, for every length with 32-bit words and below 2^64 bytes with 64-bit ones |
| `Sha2Context.Incremental` | PQClean/common/sha2.c:497-732 | any split into whole-block calls and a rest gives the digest of the concatenation, for every length; the standard's hash under the same condition |
| `Sha2Functions.Sha256Lawful` | PQClean/common/sha2.c:11-49 | 32-bit big-endian load and store are inverse |
| `Sha2Functions.Sha512Lawful` | PQClean/common/sha2.c:11-49 | 64-bit big-endian load and store are inverse |
| `Sha2Instances.StepIsRound32` | PQClean/common/sha2.c:108-119 | one 32-bit round: the new e and a are sums modulo 2^32 of terms given bit by bit, choice, majority by count, and rotated sums; the rest moves on |
| `Sha2Instances.StepIsRound64` | PQClean/common/sha2.c:120-131 | the same for 64 bits |
| `Sha2Instances.ExpandIsWord32` | PQClean/common/sha2.c:56-69 | one 32-bit schedule word: the sum modulo 2^32 of two words and two shifted functions given bit by bit |
| `Sha2Instances.ExpandIsWord64` | PQClean/common/sha2.c:56-70 | the same for 64 bits |
| `Sha2Instances.LoadValue32` | PQClean/common/sha2.c:12-16 | words are loaded most significant byte first |
| `Sha2Instances.LoadValue64` | PQClean/common/sha2.c:17-22 | the same for 64 bits |
| `Sha2Instances.ShortIsStandard` | PQClean/common/sha2.c:743-755 | the digests of SHA-256 and SHA-224 are the hashes the standard describes, from their start values and cut to their lengths |
| `Sha2Instances.LongIsStandard` | PQClean/common/sha2.c:756-769 | the same for SHA-512 and SHA-384 |
| `Sha2Constants.LongConstants` | PQClean/common/sha2.c:289-463 | the eighty 64-bit round constants are the first 64 bits of the fractional parts of the cube roots of the first eighty primes, by inequalities on cubes |
| `Sha2Constants.ShortConstants` | PQClean/common/sha2.c:132-287 | the 32-bit round constants are their upper halves |
| `Sha2Constants.Start512` | PQClean/common/sha2.c:488-495 | the start value of SHA-512 is the square roots of the first eight primes, by inequalities on squares |
| `Sha2Constants.Start384` | PQClean/common/sha2.c:479-487 | that of SHA-384 those of the next eight |
| `Sha2Constants.Start256` | PQClean/common/sha2.c:472-478 | that of SHA-256 the upper halves of the words of SHA-512 |
| `Sha2Constants.Start224` | PQClean/common/sha2.c:465-471 | that of SHA-224 the lower halves of the words of SHA-384 |
| `Sha2Functions.Sha2Short` | PQClean/common/sha2.c:743-755 | SHA-256 and SHA-224 of every message, however fed |
| `Sha2Functions.Sha2Long` | PQClean/common/sha2.c:756-769 | SHA-512 and SHA-384, however fed, for every length; the standard's below 2^64 bytes |
| `KeySchedule.ExpandPy` | bootstrap/keyschedule.py:58-67 | Python's loop gives the same octets and raises exactly beyond 8160 |
| `KeySchedule.PrfPlusPy` | bootstrap/keyschedule.py:77-98 | PRF+ in Python, for every key, label, data and length |
| `KeySchedule.PrfPlusC` | bootstrap/bootstrap.c:58-91 | PRF+ in C, with its refusals |
| `KeySchedule.PrfInputInjective` | bootstrap/bootstrap.c:58-91 | PRF inputs are equal if and only if label, data and length are, labels having no zero octet |
| `KeySchedule.PrfInputOctets` | bootstrap/bootstrap.c:58-91 | the PRF input is label, zero, data and the length, most significant octet first |
| `KeySchedule.MastersMean` | bootstrap/keyschedule.py:125-132 | sixteen octets of master secret and eight of salt, each one HMAC over its label, octet by octet |
| `KeySchedule.PrfParity` | bootstrap/keyschedule.py:77-98 | the two implementations have the same result exactly for the stated lengths |
| `KeySchedule.HeadInjective` | bootstrap/keyschedule.py:139-160 | one-byte CBOR heads are told apart |
| `KeySchedule.BstrDecodes` | bootstrap/keyschedule.py:139-160 | an encoded byte string can be told from what follows it |
| `KeySchedule.TstrDecodes` | bootstrap/keyschedule.py:139-160 | the same for text strings |
| `KeySchedule.UintDecodes` | bootstrap/keyschedule.py:139-160 | the same for numbers |
| `KeySchedule.InfoInjective` | bootstrap/keyschedule.py:163-171 | the OSCORE info array is injective in all five fields |
| `KeySchedule.InfoOctets` | bootstrap/keyschedule.py:163-171 | the octets of the info array for short fields, heads as numbers |
| `KeySchedule.LongFields` | bootstrap/keyschedule.py:139-160 | the heads of longer fields, and exactly which fields are refused |
| `KeySchedule.InfoC` | bootstrap/bootstrap.c:130-144 | the C encoding equals Python's if and only if its fields are below 24 |
| `Oscore.SwapMirrors` | bootstrap/keyschedule.py:189-221 | swapping the identifiers swaps sender and recipient keys and keeps the Common IV |
| `Oscore.InfosDiffer` | bootstrap/keyschedule.py:189-213 | sender key, recipient key and IV are derived from different info arrays, for different identifiers |
| `Oscore.ContextMeans` | bootstrap/keyschedule.py:189-213 | the sender key is derived from the sender's identifier, the recipient key from the recipient's and the Common IV from none, each one HMAC over the octets of its info array |
| `Oscore.BkContext.DeriveContextC` | bootstrap/bootstrap.c:146-173 | the C context is the Python one, field by field |
| `Oscore.BkContext.FromDsrkC` | bootstrap/bootstrap.c:175-185 | from a root key of at least 32 bytes both derive the same context; C refuses shorter ones |
| `Oscore.PartialInjective` | bootstrap/oscore_lite.py:23-37 | the unmasked nonce determines identifier and partial IV |
| `Oscore.NonceInjective` | bootstrap/oscore_lite.py:23-37 | under one Common IV, nonces are equal if and only if identifier and partial IV are |
| `Oscore.NonceMeans` | bootstrap/oscore_lite.py:23-37 | the nonce is the Common IV xored with the identifier's length, the identifier right-aligned in seven octets and the partial IV in five |
| `Oscore.AadMeans` | bootstrap/oscore_lite.py:40-47 | the octets of the associated data |
| `Oscore.HeaderParses` | bootstrap/oscore_lite.py:68-91 | the slices read back identifier, partial IV and ciphertext |
| `Oscore.RoundTrip` | bootstrap/oscore_lite.py:50-91 | unprotect with the mirrored context undoes protect |
| `Oscore.UnprotectMeans` | bootstrap/oscore_lite.py:68-91 | unprotect gives a payload if and only if the message names the recipient and decrypts to it under the recipient key and the nonce and associated data named |
| `Oscore.ProtectSucceeds` | bootstrap/oscore_lite.py:50-65 | protect succeeds if and only if the identifier is at most 7 bytes, the partial IV below 2^40 and encryption succeeds |
| `Oscore.FirstContact` | bootstrap/oscore_lite.py:94-108 | two parties with one root key and swapped identifiers understand each other |
| `Radius.ParseOne` | benchmark/e2e_radius_bench.c:347-372 | one attribute is consumed whole |
| `Radius.ParseUndoesEncode` | benchmark/e2e_radius_bench.c:347-372 | the loop reads the meaning of any attribute list |
| `Radius.MeaningConcat` | benchmark/e2e_radius_bench.c:347-372 | attributes act in order |
| `Radius.ParseReply` | benchmark/e2e_radius_bench.c:347-372 | the loop over any packet, malformed ones included |
| `Radius.ChunksMean` | benchmark/e2e_radius_bench.c:293-344 | the EAP packet is cut into ceil(n / 253) attributes, at least one, that join to it, section 3.1 of RFC 3579 |
| `Radius.PutAttr` | benchmark/e2e_radius_bench.c:282-289 | an attribute is appended and nothing before it changes |
| `Radius.PutEap` | benchmark/e2e_radius_bench.c:293-344 | the chunk loop |
| `Radius.PutHead` | benchmark/e2e_radius_bench.c:293-344 | the fixed attributes and State if there is one |
| `Radius.BuildAccessRequest` | benchmark/e2e_radius_bench.c:293-344 | the packet, with its Message-Authenticator over the packet with a zero one |
| `Radius.RequestMeans` | benchmark/e2e_radius_bench.c:293-344 | a request means its EAP packet and State whatever its authenticator |
| `Radius.PacketHeader` | benchmark/e2e_radius_bench.c:293-344 | code 1, identifier, the length of the whole packet as a number, and the authenticator |
| `Radius.AttributeOctets` | benchmark/e2e_radius_bench.c:282-289 | type, length including its own two octets, value |
| `Radius.RequestAttributes` | benchmark/e2e_radius_bench.c:293-344 | the attributes by number and in order, and the Message-Authenticator keyed by the secret over the packet with a zero one |
| `Radius.ChunkKinds` | benchmark/e2e_radius_bench.c:293-344 | all EAP-Message pieces but the last are 253 octets |
| `Radius.ParseUndoesBuild` | benchmark/e2e_radius_bench.c:282-372 | parsing a built packet gives exactly the EAP packet and State |
| `Radius.PatchingChangesNeither` | benchmark/e2e_radius_bench.c:293-372 | patching the Message-Authenticator changes neither |
| `TreeRemoval.ChildOnTheWay` | UERANSIM/src/utils/io.cpp:93-108 | an entry below a directory lies in one of its children |
| `TreeRemoval.Visited` | UERANSIM/src/utils/io.cpp:93-108 | visiting the top of the stack and pushing its entries, in any order, keeps the traversal covering the subtree |
| `TreeRemoval.FileSystem.GetEntries` | UERANSIM/src/utils/io.cpp:131-136 | the children, each once |
| `TreeRemoval.FileSystem.RemoveOne` | UERANSIM/src/utils/io.cpp:110-129 | only an existing entry without children can be removed |
| `TreeRemoval.FileSystem.PreOrderEntries` | UERANSIM/src/utils/io.cpp:93-108 | the traversal ends and lists the subtree once, parents before descendants |
| `TreeRemoval.NothingBelow` | UERANSIM/src/utils/io.cpp:110-129 | from the back, the next entry to remove is there and empty |
| `TreeRemoval.FileSystem.Remove` | UERANSIM/src/utils/io.cpp:110-129 | exactly the subtree disappears, and it fails only if the root is missing |
| `BitBuffer.SetGet` | UERANSIM/src/utils/bit_buffer.hpp:74-84 | setting one bit of an octet changes no other |
| `BitBuffer.BitWorth` | UERANSIM/src/utils/bit_buffer.hpp:31-44 | bit k, counted from the most significant, is worth 2^(7 - k) |
| `BitBuffer.ShiftedIsQuotient` | UERANSIM/src/utils/bit_buffer.hpp:86-106 | arithmetic shifts take the remainder modulo a power of two apart, negative numbers included |
| `BitBuffer.SpelledValue` | UERANSIM/src/utils/bit_buffer.hpp:86-106 | len written bits spell the value modulo 2^len |
| `BitBuffer.BitBuffer.Seek` | UERANSIM/src/utils/bit_buffer.hpp:26-29 | the index is set |
| `BitBuffer.BitBuffer.Peek` | UERANSIM/src/utils/bit_buffer.hpp:31-36 | the bit counted from the low end of the octet, without moving |
| `BitBuffer.BitBuffer.Read` | UERANSIM/src/utils/bit_buffer.hpp:38-44 | the next bit counted from the high end |
| `BitBuffer.PeekIsNotRead` | UERANSIM/src/utils/bit_buffer.hpp:31-44 | the octet 0x80, on which the two differ |
| `BitBuffer.ReversedBit` | UERANSIM/src/utils/bit_buffer.hpp:31-44 | bit j of the reversed octet is bit 7 - j of the octet |
| `BitBuffer.PeekAgreesExactly` | UERANSIM/src/utils/bit_buffer.hpp:31-44 | peeking agrees with reading at all eight positions of an octet if and only if the octet is its own bit reversal |
| `BitBuffer.PeekThenRead` | UERANSIM/src/utils/bit_buffer.hpp:31-44 | at any index of any buffer, peeking gives the mirror image, within the octet, of the bit that is read next |
| `BitBuffer.BitBuffer.ReadBits` | UERANSIM/src/utils/bit_buffer.hpp:46-72 | the number the next bits spell |
| `BitBuffer.BitBuffer.Write` | UERANSIM/src/utils/bit_buffer.hpp:74-84 | one bit is written and no other changes |
| `BitBuffer.BitBuffer.WriteBits` | UERANSIM/src/utils/bit_buffer.hpp:86-106 | the bits written spell value modulo 2^len and no bit outside the range changes |
| `BitBuffer.BitBuffer.WrittenOctets` | UERANSIM/src/utils/bit_buffer.hpp:111-114 | the ceiling of index / 8 |
| `BitBuffer.BitBuffer.OctetAlign` | UERANSIM/src/utils/bit_buffer.hpp:121-124 | zero bits up to the octet boundary, the number of octets written unchanged |
| `BitBuffer.WriteAll` | UERANSIM/src/utils/bit_buffer.hpp:86-106 | any list of fields stands one after another |
| `BitBuffer.HeldField` | UERANSIM/src/utils/bit_buffer.hpp:46-106 | later fields do not disturb earlier ones |
| `BitBuffer.WriteThenRead` | UERANSIM/src/utils/bit_buffer.hpp:38-106 | writing any fields and reading them back returns each value modulo 2^len |

## Left out

- Radius.BuildAccessRequest: requires that the request fits the 4096-byte buffer and that identity and State fit one attribute; the identity is an eight-byte constant of the program and a State read by parse_reply is at most 253 bytes.
- CShake.AbsorbPrefix: stated for strings below 2^61 bytes, the exact bound of `CShake.BitLengthWraps`.
- CShake.CshakeInit: the same bound.
- CShake.Cshake: the same bound.
- KeccakTwo.ShakeTwo: rates of one lane more than a multiple of four, as both of its callers have; the group-of-four loops fit no others.
- Edhoc03Runs.MatchingConversations: what a network without an emitted message can make a responder accept (authentication in the symbolic or computational sense) is not stated.
- Edhoc4Runs.MatchingConversations: the peer's verification key is taken from PT2 and PT3, as in the source, so who owns that key is not stated.
- The handshake contexts are one record held in an object and replaced as a whole; aliasing of the C struct's fields is not modelled.
- The server side of the fragmentation layer (rlm_eap_edhoc.c) is a function of its state; only the client engine is a class over real buffers.
- Edhoc03Context.Context.HandleMessage2: what a message does that overruns the local plaintext buffer is undefined in C and not modelled; the exact lengths are proved, and the runs do not deliver such messages. The same holds of every handler that decrypts, in both cores.
- What a failing primitive leaves in an output buffer is not modelled, except for the zeros of a failed decryption.
- The 26th slot of the incremental sponge state, which holds the position, is a separate number.
- The 4-way permutation (unrolling macros) and the NEON permutation are taken as the scalar permutation per instance; the 12-round variant and OverwriteBytes, OverwriteLanesAll, OverwriteWithZeroes, ExtractAndAddBytes and ExtractAndAddLanesAll are left out as near copies.
- KeccakFour.FourWay.ExtractLanesAll: the four places in the buffer must not overlap (a lane offset of at least the lane count); with a smaller one later stores overwrite earlier ones.
- Edhoc03Reuse.ReuseExactly: that the old message_3 neither opens nor has a right MAC under the second conversation's keys is a hypothesis about the two strings at hand; for a failed key agreement `Edhoc03Reuse.AfterKeyAgreementExactly` needs none.
- The macro that is expanded sixteen times in the SHA-2 rounds is one loop body.
- readBits and the two writeBits overloads are one method each, with the bounds of the 64-bit form.
- The counters, timings, CSV output, sockets and credential files of the benchmarks, and the TLS benchmarks.
- The classical session of eng_react after message_3, which would hand a further message to the method-4 handler: no message follows in that mode.
- libsodium, ML-KEM, ML-DSA, OpenSSL, AES-CCM and HMAC-MD5 are abstract functions.
- Secrecy, forward secrecy and compromise: these are properties of an attacker model, not of this code.
- File system races, permissions and symbolic links; the tree is a set of paths closed under parents.
- Easy arithmetic around the core: identifier packing, counters, size tables, reports.
