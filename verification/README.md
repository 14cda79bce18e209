# Verified model of aegis-tunnel

aegis-tunnel carries plaintext byte streams and IP packets between two hosts in encrypted
frames. This project models its core in Dafny and proves what the frames, the buffers, the
handshake, the tables and the threads do in every run.

`dafny verify dfyconfig.toml` checks the whole project.

## What is modelled

- `Bytes`, `Aes`, `Aegis`: bytes and encodings, the keyless AES round (section 5.1 of FIPS 197)
  and the AEAD cipher as functions. `AesField` builds the finite field from the code's doubling
  and ties the tables to it; `AegisBytes` says which bytes the cipher gives. `AegisCipher` is the
  portable code on real buffers, in place or not; `Backends` is the AES-NI, ARM crypto and NEON
  code, proved equal to it.
- `Frames`, `FrameStream`, `FrameReader`: the two frame formats, streams of frames cut anywhere,
  and the buffering reader with its in-place compaction.
- `TunnelSteps`, `TunnelDelivery`, `TunnelProgress`, `TunnelCuts`, `Tunnel`: the event loop. Each
  direction is a sender, a channel and a receiver; a run is any list of actions of either
  endpoint, and each action says how many bytes the operating system took. `Tunnel` is the
  object with its loops, tied to these steps.
- `ThreadPool`, `ThreadPoolRuns`: the linked work queue, and the pool as a state machine whose
  steps are the sections between lock, wait and unlock.
- `Replay`, `Handshake`, `KeyDerivation`, `Listener`: the replay ring, both handshakes over an
  abstract Diffie-Hellman operation and digest, what goes into their keys, and the forking TCP
  servers. The only facts assumed of
  operation and digest are that the operation commutes and that digests and public keys have
  32 bytes.
- `RateLimit`, `Sessions`, `ConnectRequest`: the per-address limiter, the UDP session table with
  its routing, and the proxy request.
- `SessionNonces`, `Rekey`, `EndToEnd`: which frame is encrypted under which counter, what a
  re-key attempt does to that, and handshake followed by delivery.

Time, randomness and the results of system calls are parameters. Machine integers are written
out where they matter: counters are 64-bit through the nonce and its limit, lengths are 16-bit,
timestamps are signed 64-bit. Overflow of a signed difference, which C leaves undefined, is
taken to wrap.

## Where the code and its documentation differ

The model follows the code.

- `src/crypto/aegis.h:65` says a failed decryption leaves a zeroed output. The code zeroes only
  what its last call wrote; `AegisCipher.DecryptInto` states the exact contents.
- `src/crypto/aegis.c:298-299` gives the constants as Fibonacci numbers from the AEGIS
  specification. Bytes 10 and 14 of the first one differ (`AegisBytes.ConstantsAreFibonacci`).
- The cipher has its own initial words and tag step, and its tag does not depend on
  the lengths of message and associated data (`Aegis.TagSeesBlocksOnly`). No conformance to a
  published AEGIS variant is claimed.
- `src/mode_common.c:16` calls the limiter's window sliding. It restarts at the first attempt
  after it has expired, so nine approvals fit into sixty seconds (`RateLimit.NineIsReached`).
- `src/mode_tun_udp.c:848` says sessions idle for more than five minutes are removed. Sending a
  keepalive also refreshes the time of last contact, so with a keepalive interval of 1 to 301
  seconds no session is ever removed (`Sessions.AdmittedForGood`).
- `src/protocol/handshake.c:15` speaks of a window of seen handshakes. Every TCP server forks
  before its handshake, so that window is one connection long: a repeated first message is
  accepted as long as it is fresh and the connection limit and the rate check let the
  connection through (`Listener.RepeatedConnection`). Within one process the window is as
  described (`Handshake.AcceptedOnceOnly`).
- `src/tunnel/tunnel.c:446-450` says the peer answers a re-key by itself. The peer waits for a
  second request first, and each side mixes its own random bytes into the new keys
  (`Rekey.OneRequestIsNotEnough`, `Rekey.NewKeysAgreeExactly`).
- The repository's own `README.md:17` promises several peers. Over TCP each configured peer is
  tried on the next message of the stream, so on one message only the first can succeed
  (`Listener.OnlyTheFirstPeer`); over UDP all are tried on the same datagram.
- `docs/architecture.md:248-249` takes the session keys from the shared secret directly. The code
  hashes the secret with both ephemeral keys and swaps the halves on the server.
- A keepalive or CLOSE frame is written with one `send` whose result is ignored. Delivery is
  proved for runs in which that call takes the whole frame, or in which nothing follows a cut
  one; `TunnelCuts` gives a family of runs in which it fails and says when the data sent next
  is lost.

## Model

| member | source | states |
|---|---|---|
| `TunnelDelivery.Delivery` | src/tunnel/tunnel.c:288-430 | for two endpoints, any keys, any start counters and every interleaving of reads, cut sends, keepalives, CLOSE, fragmented receives and extraction turns: the receiver has taken exactly the first k frames the sender built, its next counter is that of frame k, the bytes written are the plaintext of those k frames (a prefix of it only after a failed write), no frame fails to authenticate, a processed CLOSE means both byte strings are equal, and when nothing is on its way and the receiver waits nothing is missing; holds in each direction until something is sent behind a control frame that `send` accepted only in part |
| `TunnelDelivery.DeliveryOfWholeControl` | src/tunnel/tunnel.c:288-430 | if every keepalive and CLOSE is accepted whole by its single `send`, that guarantee holds in every run without exception |
| `TunnelDelivery.RunsKeep` | src/tunnel/tunnel.c:288-430 | the invariant behind it (bytes on their way are exactly the untaken frames, counters match, output matches) survives every finite schedule of both endpoints |
| `TunnelDelivery.EndpointStepKeeps` | src/tunnel/tunnel.c:302-430 | every single step of an endpoint keeps both directions linked and the endpoint well formed |
| `TunnelDelivery.SendDataKeeps` | src/tunnel/tunnel.c:234-249 | a new data frame joins the stream behind everything before it and adds its payload to what was read |
| `TunnelDelivery.FlushKeeps` | src/tunnel/tunnel.c:252-262 | a `send` that accepts any number of bytes moves exactly those bytes from sender to channel |
| `TunnelDelivery.SendControlKeeps` | src/tunnel/tunnel.c:330-339 | a keepalive or CLOSE, accepted whole or cut anywhere, keeps the direction linked |
| `TunnelDelivery.ReceiveKeeps` | src/protocol/frame_reader.c:61-87 | receiving any number of the channel's bytes keeps the direction linked |
| `TunnelDelivery.NextFrame` | src/tunnel/tunnel.c:364-384 | whatever part of the stream has arrived, extraction waits until the next sent frame is complete and then returns exactly that frame |
| `TunnelDelivery.NothingWholeLeft` | src/tunnel/tunnel.c:364-384 | with every whole frame taken, extraction asks for more and never fails, even on the front part of a cut control frame |
| `TunnelDelivery.OtherKindsAreData` | src/tunnel/tunnel.c:382-409 | every frame kind other than CLOSE, KEEPALIVE, KEYCONFIRM and REKEY is written out like data, and none of those four ever is |
| `TunnelDelivery.ExtractOneKeeps` | src/tunnel/tunnel.c:364-410 | one extraction turn, with any write result, keeps the direction linked |
| `TunnelDelivery.WholeRunsStayIntact` | src/tunnel/tunnel.c:418-430 | runs whose control frames go out whole never reach the excluded state |
| `TunnelDelivery.BeginHolds` | src/tunnel/tunnel.c:179-193 | two freshly created tunnels with swapped keys satisfy the invariant, for every start counter up to the limit |
| `TunnelProgress.EveryRunCatchesUp` | src/tunnel/tunnel.c:355-410 | from every state that satisfies the invariant, with a running receiver whose sender has handed over all its bytes intact below the re-key margin: in whatever order the receiver receives and extracts, it makes no more state-changing steps than a measure of the bytes left, and it stays able to go on until every frame is taken and every byte read is written |
| `TunnelProgress.NotStuck` | src/tunnel/tunnel.c:355-410 | before that point some receiving step always changes the state, so the receiver can stop only when it has everything |
| `TunnelProgress.StepCosts` | src/tunnel/tunnel.c:355-410 | each state-changing receiving step lowers the measure |
| `TunnelProgress.CatchUp` | src/tunnel/tunnel.c:355-410 | and so a run of such steps that ends with everything delivered exists from each of these states |
| `TunnelProgress.ExtractKeepsGoing` | src/tunnel/tunnel.c:364-410 | an extraction turn leaves the receiver able to go on, or ends the epoch with everything delivered |
| `TunnelCuts.CutControlOutcome` | src/tunnel/tunnel.c:418-430 | unconditional delivery is false of the code: from every state in which the receiver has caught up, for every cut of a keepalive after 1 to 19 bytes and every data, keepalive or CLOSE frame behind it, the receiver reads a keepalive of a wrong length and writes nothing; it waits exactly when that length exceeds what is there, and otherwise fails exactly when the bytes it reads are no frame under the counter it expects |
| `TunnelCuts.WaitsExactly` | src/protocol/frame_reader.c:108-120 | with data behind the cut it waits exactly when the cut was after two bytes and fewer than 510 bytes of data follow |
| `TunnelCuts.BeginIsQuiet` | src/tunnel/tunnel.c:179-193 | every run starts in such a state |
| `TunnelCuts.CutBehindHeader` | src/tunnel/tunnel.c:418-430 | for a cut behind the header, authentication fails if and only if the frame behind does not happen to begin with the rest of the keepalive |
| `TunnelCuts.CutControlLosesData` | src/tunnel/tunnel.c:418-430 | a failing family from every such state: two bytes of a keepalive out, up to 509 bytes of data not written although nothing is left on the way and the receiver waits |
| `TunnelCuts.SkippedControl` | src/tunnel/tunnel.c:418-430 | when `send` takes nothing of a keepalive its counter is spent, and the next data is written if and only if both counters happen to give the same frame bytes |
| `Tunnel.DrainIsARun` | src/tunnel/tunnel.c:364-410 | a whole call of the extraction loop is a run of single turns, so everything proved of runs holds of it |
| `Tunnel.SendDataIsARun` | src/tunnel/tunnel.c:234-264 | a call of the send routine is one read step and one flush of what its `send` calls accept |
| `Tunnel.PushAll` | src/tunnel/tunnel.c:252-262 | for every loop that ends, the retry loop hands over the first bytes that the calls accept before a failure, and reports success exactly when that is everything |
| `Tunnel.RoomOf` | src/tunnel/tunnel.c:252-262 | a call that asks to be called again takes nothing away, and nothing behind a failure counts |
| `Tunnel.Drain` | src/tunnel/tunnel.c:364-410 | the extraction loop stops only when more bytes are needed or the epoch is over |
| `Tunnel.Tunnel.constructor` | src/tunnel/tunnel.c:179-193 | both counters start at 1 with an empty reader |
| `Tunnel.Tunnel.SendData` | src/tunnel/tunnel.c:234-264 | exact new counter, bytes accepted by the socket and return code in all cases: counter exhausted, payload too long, cut send, success |
| `Tunnel.Tunnel.SendControl` | src/tunnel/tunnel.c:330-339 | the counter moves on by one and the accepted front part of the control frame reaches the wire |
| `Tunnel.Tunnel.DrainTurn` | src/tunnel/tunnel.c:364-410 | one turn on the real buffers is one extraction step of the receiver, for every frame kind and every write result |
| `Tunnel.Tunnel.DrainFrames` | src/tunnel/tunnel.c:364-410 | the loop on the real buffers ends in the state and with the outcome of its specification |
| `EndToEnd.HandshakeThenDelivery` | src/protocol/handshake.c:113-168 | an accepted handshake with matching static keys, then the key confirmation on the same stream with any amount of early server traffic behind it: the client reads exactly the confirmation, and in every interleaving with whole control frames both directions give the delivery guarantee under the derived keys |
| `EndToEnd.ProxyThenDelivery` | src/mode_socks5.c:166-212 | the same for the proxy: the server reads the client's target and exactly the request, with any amount of early client traffic behind it, and delivery holds from there on with counters that start at 2 |
| `SessionNonces.NoncesNeverRepeat` | src/tunnel/tunnel.c:32-40 | over key confirmation, the proxy request and the tunnel run up to the first re-key attempt, no two frames that one side encrypts under its key have the same nonce; their counters strictly increase and never wrap |
| `SessionNonces.StepAddsWhatItEncrypts` | src/tunnel/tunnel.c:234-262 | the bytes a step of the loop adds to what was sent are a front part of the frame it encrypts, under exactly the counter recorded for it; data frames are added whole, and a step that encrypts nothing adds nothing |
| `SessionNonces.RunSendsWhatItEncrypts` | src/tunnel/tunnel.c:288-430 | every byte one side sends in a run belongs, in order, to a frame it encrypted, and the counters of those frames are consecutive from its start counter and stay below the limit |
| `SessionNonces.ReceiverOpensWhatWasEncrypted` | src/tunnel/tunnel.c:364-384 | in both directions, the frames a receiver opens, each with the counter it is opened under, are the first of the frames its sender encrypted with theirs: the k-th successful extraction uses the k-th counter |
| `SessionNonces.PreludeIsSent` | src/mode_socks5.c:74-92 | the key confirmation and the proxy request on the stream are the frames recorded for them, under counters 0 and 1 |
| `Rekey.RequestRepeatsExactly` | src/tunnel/tunnel.c:446-467 | where uniqueness ends: the frame after a re-key attempt is encrypted under the request's own key and counter if and only if the request was built and the attempt failed |
| `Rekey.AnswerRepeatsExactly` | src/protocol/handshake.c:183-190 | an answer to a re-key request is encrypted under a counter its side has already used with that key if and only if that side's sending counter has passed it |
| `Rekey.InitiateSucceedsExactly` | src/protocol/handshake.c:172-208 | the asking side gets new keys if and only if nothing fails on its side and what arrives begins with a frame of 32 payload bytes, of any kind, under the counter after its request's |
| `Rekey.RespondSucceedsExactly` | src/protocol/handshake.c:172-208 | the asked side, which has already taken the request, answers if and only if a further key frame arrives under its next counter |
| `Rekey.OneRequestIsNotEnough` | src/protocol/handshake.c:172-208 | so one request with nothing behind it gives neither side a new key, and no answer is sent |
| `Rekey.NewKeysAgreeExactly` | src/protocol/handshake.c:191-203 | when both sides do succeed on each other's public keys, their new keys match if and only if two digests are equal that take in bytes each side draws for itself |
| `Rekey.PskAgrees` | src/tunnel/tunnel.c:225-229 | both ends of a tunnel start a re-key from the same value |
| `AegisBytes.EncryptAsRow` | src/crypto/aegis.c:580-607 | encryption from the first words on: one row of blocks is absorbed (ten that alternate key xor nonce with key, then the padded associated data, then the padded message), the tag is that of the last state, and byte i of the ciphertext is byte i of the message xor words 1 and 4 xor the conjunction of words 2 and 3, taken from the state before its block |
| `AegisBytes.CiphertextByte` | src/crypto/aegis.c:322-350 | the ciphertext bytes from any state, for every message and position |
| `AegisBytes.EmptyMessage` | src/crypto/aegis.c:580-607 | with no message, an empty ciphertext and the tag of the row without message blocks |
| `AegisBytes.UpdateTurns` | src/crypto/aegis.c:249-291 | without a block the update treats all five words alike: it commutes with turning them |
| `AegisBytes.UpdateOfZeroWord` | src/crypto/aegis.c:249-291 | a zero word receives exactly the round of the word before it |
| `AegisBytes.UpdateAdds` | src/crypto/aegis.c:249-291 | and any word is added to what it receives |
| `AegisBytes.BlockEntersFirstWord` | src/crypto/aegis.c:249-291 | the absorbed block enters word 0 only, by addition |
| `AegisBytes.FirstWords` | src/crypto/aegis.c:372-397 | key and nonce can be read back from the initial words, and the constants stand in words 1 and 2 |
| `AegisBytes.InitAbsorbs` | src/crypto/aegis.c:397-409 | initialisation absorbs ten blocks, key xor nonce and key in turn |
| `AegisBytes.ConstantsAreFibonacci` | src/crypto/aegis.c:298-309 | the two constants in a row are the Fibonacci numbers modulo 256, except for two bytes of the first |
| `AegisBytes.TagByte` | src/crypto/aegis.c:485-493 | each tag byte is the sum of that byte of all five words after seven rounds of absorbing the sum |
| `Aegis.DecryptExact` | src/crypto/aegis.c:609-637 | decryption returns m if and only if m encrypts, under the same key, nonce and associated data, to the given ciphertext and tag |
| `Aegis.DecryptRejectsExactly` | src/crypto/aegis.c:609-637 | decryption fails if and only if no message at all encrypts to the given pair |
| `Aegis.DecryptInvertsEncrypt` | src/crypto/aegis.c:580-637 | for every key, nonce, associated data and message, of any length, decryption undoes encryption and the ciphertext has the message's length |
| `Aegis.DecipherInvertsEncipher` | src/crypto/aegis.c:330-366 | encryptor and decryptor stay in lockstep: deciphering undoes enciphering from any state |
| `Aegis.EncipherInvertsDecipher` | src/crypto/aegis.c:330-366 | and enciphering undoes deciphering |
| `Aegis.PiecesAgree` | src/crypto/aegis.c:411-494 | however message data is cut at block boundaries into streaming calls, with a last piece of any length, state and ciphertext are those of the uncut data |
| `Aegis.DecipherPiecesAgree` | src/crypto/aegis.c:496-574 | the same for decryption: the recovered plaintext is that of the uncut ciphertext |
| `Aegis.AbsorbSplit` | src/crypto/aegis.c:411-429 | absorbing two pieces one after the other is absorbing their concatenation, when the first is whole blocks |
| `Aegis.EncipherSplit` | src/crypto/aegis.c:431-441 | enciphering in two calls gives the bytes of one call |
| `Aegis.DecipherSplit` | src/crypto/aegis.c:496-502 | deciphering in two calls gives the bytes of one call, with the second starting from the state the first left |
| `Aegis.TagSeesBlocksOnly` | src/crypto/aegis.c:411-494 | tags are equal whenever the zero-padded blocks of associated data and message, in one row, are equal: neither length enters the tag, nor where the one ends and the other begins |
| `Aegis.TagIgnoresLengths` | src/crypto/aegis.c:411-494 | so a zero byte behind a partial block changes no tag, in the message or in the associated data, and a whole-block piece has the same tag counted as either |
| `Aegis.DifferenceCannotCancelEarly` | src/crypto/aegis.c:249-291 | two runs that absorb different blocks from one state have different states after that update and each of the next four, whatever either absorbs meanwhile |
| `Aegis.DifferenceMoves` | src/crypto/aegis.c:249-291 | if word i is the last in which two states differ, it is word i+1 after one update, whatever is absorbed |
| `Aegis.DifferenceEnters` | src/crypto/aegis.c:249-291 | different blocks make word 0 differ |
| `Aegis.DifferenceSurvives` | src/crypto/aegis.c:249-291 | while the difference has not passed the last word, no choice of absorbed blocks makes the states equal |
| `AesField.SboxIsAffineInverse` | src/crypto/aegis.c:100-133 | for every byte x, the table entry is the affine image of i if and only if i is the inverse of x in GF(2^8), or both are zero (section 5.1.1 of FIPS 197), for the multiplication built from the code's own doubling |
| `AesField.XtimeReduces` | src/crypto/aegis.c:138-141 | doubling is the shift, reduced by x^8+x^4+x^3+x+1 exactly when the top bit was set |
| `AesField.MulAssociates` | src/crypto/aegis.c:138-141 | the multiplication built from that doubling associates |
| `AesField.InverseUnique` | src/crypto/aegis.c:100-133 | what the table holds before the affine map is the only inverse |
| `AesField.ShiftRowsMoves` | src/crypto/aegis.c:168-182 | row r of the state moves r columns to the left (section 5.1.2 of FIPS 197) |
| `AesField.RoundBytes` | src/crypto/aegis.c:214-219 | every output byte of a round is a sum of the multiples by 2, 3, 1 and 1 of four substituted bytes from the diagonal of its column |
| `Aes.InvSboxInverts` | src/crypto/aegis.c:100-133 | the substitution table is undone by the inverse S-box of section 5.3.2 of FIPS 197 on all 256 bytes |
| `Aes.InvSubBytesInverts` | src/crypto/aegis.c:151-156 | byte substitution of a block is undone by the inverse table |
| `Aes.InvShiftRowsInverts` | src/crypto/aegis.c:168-182 | the row shift is a permutation with an explicit inverse |
| `Aes.SubBytesShiftRowsCommute` | src/crypto/aegis.c:214-219 | substitution and row shift commute, so the instruction order of hardware rounds does not matter |
| `Aes.XtimeLinear` | src/crypto/aegis.c:138-141 | doubling in the field distributes over addition |
| `Aes.MixColumnTwice` | src/crypto/aegis.c:195-210 | mixing a column twice only combines opposite bytes |
| `Aes.MixColumnFourTimes` | src/crypto/aegis.c:195-210 | the mixing matrix has order four, so three more applications undo one |
| `Aes.InvMixColumnsInverts` | src/crypto/aegis.c:195-210 | column mixing of a block is undone |
| `Aes.InvRoundInverts` | src/crypto/aegis.c:214-219 | the keyless round has a left inverse |
| `Aes.RoundInjective` | src/crypto/aegis.c:214-219 | two blocks have the same round image if and only if they are equal |
| `Aes.SubBytesInPlace` | src/crypto/aegis.c:151-156 | the in-place loop substitutes every byte |
| `Aes.ShiftRowsInPlace` | src/crypto/aegis.c:175-182 | the in-place loop permutes as specified, through its temporary copy |
| `Aes.MixColumnsInPlace` | src/crypto/aegis.c:195-210 | the in-place loop mixes all four columns and nothing else; `AesField.RoundBytes` gives the field multiples this amounts to |
| `Aes.RoundInPlace` | src/crypto/aegis.c:214-219 | the in-place round is the round |
| `AegisCipher.Cipher.constructor` | src/crypto/aegis.c:372-409 | the object holds the initial state after ten updates that alternate key and key xor nonce |
| `AegisCipher.Cipher.StateUpdate` | src/crypto/aegis.c:249-291 | the in-place update computes each new word from old words only |
| `AegisCipher.Cipher.KeyStreamOf` | src/crypto/aegis.c:322-327 | the byte loop fills all sixteen positions with the keystream of the specification, so both directions combine their data with the same block; `AegisBytes.CiphertextByte` says which bytes these are |
| `AegisCipher.Cipher.AdUpdate` | src/crypto/aegis.c:411-429 | the state absorbs the associated data, its last block zero-padded |
| `AegisCipher.Cipher.ProcessEncBlock` | src/crypto/aegis.c:330-350 | one block, possibly in place: the state absorbs the plaintext and not the ciphertext that overwrote it |
| `AegisCipher.Cipher.ProcessDecBlock` | src/crypto/aegis.c:353-366 | one block, possibly in place: the state absorbs the recovered plaintext |
| `AegisCipher.Cipher.EncUpdate` | src/crypto/aegis.c:431-441 | the loop over whole blocks, in place or not, writes exactly the ciphertext and touches no other byte |
| `AegisCipher.Cipher.DecUpdate` | src/crypto/aegis.c:496-502 | likewise for deciphering |
| `AegisCipher.Cipher.MakeTag` | src/crypto/aegis.c:485-493 | seven updates that absorb the sum of the words; the last sum is the tag |
| `AegisCipher.Cipher.EncFinal` | src/crypto/aegis.c:443-494 | from one loop that absorbs each source block after the destination is written: between two buffers, or in place for the documented 0 to 15 bytes, remaining blocks, padded tail and tag are those of the whole remaining message; in place the whole blocks come out deciphered, and tail and tag continue from there |
| `AegisCipher.Cipher.DecFinal` | src/crypto/aegis.c:504-574 | accepts exactly when the tag is that of the recovered message; writes the plaintext, or zeros over the bytes of this call |
| `AegisCipher.TagsEqual` | src/crypto/aegis.c:553-562 | the accumulating comparison decides equality |
| `AegisCipher.EncryptInto` | src/crypto/aegis.c:580-607 | the one-shot call, in place or not, writes the specified ciphertext and tag and nothing else |
| `AegisCipher.DecryptInto` | src/crypto/aegis.c:609-637 | the one-shot call accepts exactly when the specification does and then writes the message; on rejection the whole blocks stay deciphered and only the last partial block is zeroed |
| `Backends.VectorRoundAgrees` | src/crypto/neon/aegis128-plain.c:289-295 | the AES-NI, ARM crypto and NEON table rounds are the portable round on every block |
| `Backends.NeonSboxIsSbox` | src/crypto/neon/aegis128-plain.c:68-146 | four masked 64-byte lookups give the flat table for every byte |
| `Backends.NeonDoubleIsXtime` | src/crypto/neon/aegis128-plain.c:272-276 | the multiply form of doubling is the branch form |
| `Backends.NeonMixColumnsAgrees` | src/crypto/neon/aegis128-plain.c:160-285 | NEON column mixing is the portable one |
| `Backends.VectorXor5Agrees` | src/crypto/neon/aegis128-plain.c:413-415 | the differently associated sum of the five words is the same block |
| `Backends.CutBack` | src/crypto/x86/aegis128-x86.c:182-206 | enciphering a zero-padded block and cutting it back gives the partial block |
| `Backends.VectorCipher.constructor` | src/crypto/x86/aegis128-x86.c:133-153 | the vector initialisation reaches the portable initial state |
| `Backends.VectorCipher.StateUpdate` | src/crypto/x86/aegis128-x86.c:96-116 | the vector update is the portable update |
| `Backends.VectorCipher.AdUpdate` | src/crypto/x86/aegis128-x86.c:155-168 | absorbs associated data as the portable code does |
| `Backends.VectorCipher.EncUpdate` | src/crypto/x86/aegis128-x86.c:170-180 | same ciphertext and state as the portable loop, in place or not |
| `Backends.VectorCipher.DecUpdate` | src/crypto/x86/aegis128-x86.c:220-230 | same plaintext and state as the portable loop, in place or not |
| `Backends.VectorCipher.EncFinal` | src/crypto/x86/aegis128-x86.c:182-218 | same tail and tag as the portable code |
| `Backends.VectorCipher.DecFinal` | src/crypto/x86/aegis128-x86.c:232-287 | same decision, plaintext and zeroing as the portable code |
| `Backends.VectorEncryptInto` | src/crypto/neon/aegis128-armcrypto.c:287-299 | the one-shot encryption of the AES-NI and ARM crypto code, and the same sequence of NEON streaming calls, gives the portable ciphertext and tag for all inputs |
| `Backends.VectorDecryptInto` | src/crypto/neon/aegis128-armcrypto.c:301-314 | likewise for decryption: the portable decision and output for all inputs |
| `Frames.ParseExact` | src/tunnel/tunnel.c:71-101 | a buffer parses to a frame if and only if building that frame under the same counter and key gives the buffer byte for byte |
| `Frames.ParseExplicitExact` | src/tunnel/tunnel.c:145-175 | the same for frames that carry their nonce, with the nonce taken from the buffer |
| `Frames.BuiltParses` | src/tunnel/tunnel.c:44-101 | every frame of at most 65535 payload bytes parses back, and has the announced length |
| `Frames.ParsedBuilds` | src/tunnel/tunnel.c:71-101 | every accepted buffer is the one its frame builds |
| `Frames.BuiltExplicitParses` | src/tunnel/tunnel.c:114-175 | round trip of the explicit form, which carries its eight nonce bytes in place |
| `Frames.ParsedExplicitBuilds` | src/tunnel/tunnel.c:145-175 | every accepted explicit buffer is the one its frame and nonce build |
| `Frames.NonceInjective` | src/tunnel/tunnel.c:32-40 | different 64-bit counters never share a nonce; `Frames.NonceBytes` gives its bytes |
| `Frames.NonceBytes` | src/tunnel/tunnel.c:32-40 | byte i of a nonce is digit i of the counter in base 256, least significant first, and the last eight bytes are zero; the counter is read back from them |
| `Frames.FrameLayout` | src/tunnel/tunnel.c:44-67 | in a built frame the first four bytes are the authenticated header, the payload's ciphertext follows and the tag is last, under the counter's little-endian nonce |
| `Frames.ExplicitLayout` | src/tunnel/tunnel.c:114-143 | in the explicit form twelve bytes are authenticated and bytes 4 to 11 are the nonce's first eight |
| `Frames.HeaderBytes` | src/tunnel/tunnel.c:56-59 | the header bytes are kind, flags, and high and low byte of the length |
| `Frames.LengthBytes` | src/tunnel/tunnel.c:83-83 | the announced length is 256 times the third byte plus the fourth |
| `Frames.HeaderFields` | src/tunnel/tunnel.c:56-59 | the header's bytes read back as kind, flags and length |
| `Frames.HeaderOfBytes` | src/tunnel/tunnel.c:82-84 | every four header bytes are the header of their fields |
| `Frames.BuildFails` | src/tunnel/tunnel.c:50-50 | building fails exactly for payloads above 65535 bytes |
| `Frames.FrameBuild` | src/tunnel/tunnel.c:44-67 | on the real buffer: fails exactly when the specification does and then leaves the buffer alone; otherwise its front is the frame and the rest is unchanged |
| `Frames.FrameParse` | src/tunnel/tunnel.c:71-101 | on the real buffers: the specification's decision, kind, flags and payload |
| `Frames.FrameBuildExplicit` | src/tunnel/tunnel.c:114-143 | fails exactly when the random source fails or the payload is too long; otherwise the specified bytes |
| `Frames.FrameParseExplicit` | src/tunnel/tunnel.c:145-175 | the specification's decision and result on the real buffers |
| `FrameStream.Reassembly` | src/protocol/frame_reader.c:45-134 | for every frame sequence, every cutting of its byte stream and every pattern of extraction attempts: frames come out in order, none lost, none invented, no byte is lost, no failure; and a reader that has received everything and still waits has returned every frame |
| `FrameStream.StepFaithful` | src/protocol/frame_reader.c:61-134 | each receive or extraction attempt keeps that account of the stream |
| `FrameStream.ExtractPrefix` | src/protocol/frame_reader.c:98-134 | on any prefix of a stream that starts with a frame the reader waits until the frame is complete and then returns exactly it |
| `FrameStream.ExtractCut` | src/protocol/frame_reader.c:98-134 | an incomplete frame is never returned and never fails |
| `FrameStream.NeedMoreLeavesRoom` | src/protocol/frame_reader.c:61-87 | waiting for more means the buffer is not full |
| `FrameStream.Extract` | src/protocol/frame_reader.c:98-134 | an extracted frame uses at least header and tag and at most what is buffered |
| `FrameStream.EncodeSnoc` | src/tunnel/tunnel.c:234-249 | a further frame appends its bytes under the next counter |
| `FrameReader.NeverOverflows` | src/protocol/frame_reader.c:138-163 | the blocking reader never meets its buffer-full error, whatever arrives |
| `FrameReader.StreamEnds` | src/protocol/frame_reader.c:61-163 | a stream of frames that ends, cut into any nonempty pieces with any interruptions, is read as exactly those frames and then a clean end; with a proper part of a further frame at its end, a truncated frame is reported |
| `FrameReader.ReadOfEndingStream` | src/protocol/frame_reader.c:138-163 | one blocking read of such a stream takes exactly the next frame and leaves the rest |
| `FrameReader.OtherAnswers` | src/protocol/frame_reader.c:75-83 | an interrupted receive changes nothing, a failed one is reported, and an empty socket is reported like the end of the stream without being remembered as one |
| `FrameReader.Reader.constructor` | src/protocol/frame_reader.c:34-38 | an empty reader |
| `FrameReader.Reader.Compact` | src/protocol/frame_reader.c:45-55 | moving bytes to the front, over itself, loses none of them |
| `FrameReader.Reader.MoveDown` | src/protocol/frame_reader.c:45-55 | the overlapping move keeps every byte in order |
| `FrameReader.Reader.Fill` | src/protocol/frame_reader.c:61-87 | exact result and new contents for data, interruption, would-block, error, end of file and a full buffer |
| `FrameReader.Reader.TryNext` | src/protocol/frame_reader.c:98-134 | the specification's answer on the real buffer; bytes are consumed only for a returned frame |
| `FrameReader.Reader.Next` | src/protocol/frame_reader.c:138-163 | the blocking loop terminates with the specified outcome, buffer, end mark and unread arrivals, and never overflows |
| `ThreadPoolRuns.PoolGuarantees` | src/tunnel/threadpool.c:9-82 | in every interleaving of any number of workers, submissions, wake-ups (spurious ones too) and shutdown: jobs leave in submission order, each is run by one worker and finishes once, `pending` is the queue's length, and queued work never coexists with workers that are all asleep |
| `ThreadPoolRuns.JoinedMeansDone` | src/tunnel/threadpool.c:84-101 | when all workers have exited, every job submitted before shutdown has finished exactly once, and what is left in the queue was submitted after shutdown |
| `ThreadPoolRuns.QueueAfterJoin` | src/tunnel/threadpool.c:61-101 | over whole runs from the start, through the step with which the last worker leaves and any steps after it, the queue is empty at the end if and only if nothing was submitted after that step |
| `ThreadPoolRuns.NobodyServesAfterLastExit` | src/tunnel/threadpool.c:61-101 | from any state with all workers gone and an empty queue, the queue is exactly what is submitted from then on |
| `ThreadPoolRuns.LastExitLeavesNothing` | src/tunnel/threadpool.c:21-24 | the last worker to leave leaves an empty queue |
| `ThreadPoolRuns.LateSubmissionIsStranded` | src/tunnel/threadpool.c:61-82 | a concrete run in which a job submitted after shutdown is never executed, so "every submitted job runs" is false without that condition |
| `ThreadPoolRuns.ShutdownTerminates` | src/tunnel/threadpool.c:9-40 | after shutdown the workers can take only finitely many steps, bounded by a measure of the state |
| `ThreadPoolRuns.WorkerStepCosts` | src/tunnel/threadpool.c:9-40 | each of those steps decreases the measure |
| `ThreadPoolRuns.NoDeadlock` | src/tunnel/threadpool.c:84-101 | after shutdown some worker can always step until all have exited |
| `ThreadPoolRuns.StepKeeps` | src/tunnel/threadpool.c:9-101 | every action keeps the pool invariant, no lost wake-up included |
| `ThreadPoolRuns.SignalWakes` | src/tunnel/threadpool.c:78-78 | a signal wakes one blocked worker if there is one, never two, and changes nothing else |
| `ThreadPool.Pool.constructor` | src/tunnel/threadpool.c:42-59 | an empty linked queue |
| `ThreadPool.Pool.Enqueue` | src/tunnel/threadpool.c:61-82 | linking a node behind the tail appends to the queue |
| `ThreadPool.Pool.Dequeue` | src/tunnel/threadpool.c:26-33 | unlinking the head removes the oldest job and repairs the tail |
| `ThreadPool.Pool.WorkerSection` | src/tunnel/threadpool.c:15-33 | on the linked queue, the locked section blocks, leaves or takes the oldest job exactly as a worker step of the runs does |
| `ThreadPool.Pool.SetShutdown` | src/tunnel/threadpool.c:88-91 | raises the flag and leaves the queue alone |
| `Handshake.Agreement` | src/protocol/handshake.c:113-151 | over TCP and UDP, with matching static keys and unmodified messages, the client accepts the server's answer if and only if it is fresh (and over TCP not a replay), and then each side encrypts with the key the other decrypts with |
| `Handshake.ServerAcceptsExactly` | src/protocol/handshake.c:113-131 | the server answers an unmodified first message if and only if its timestamp is fresh, over TCP it is not a replay and the clock works |
| `Handshake.DerivationsAgree` | src/protocol/handshake.c:99-111 | from a commuting Diffie-Hellman operation both sides derive the same init key and the same shared secret; from what, and in which order, is `KeyDerivation.ExchangesUsed` |
| `KeyDerivation.ExchangesUsed` | src/protocol/handshake.c:99-151 | both sides' shared secret comes from three exchanges in this order: the client's ephemeral with the server's static key, the two static keys, the client's static with the server's ephemeral key; the init key comes from the first two |
| `KeyDerivation.InitKeyInput` | src/protocol/handshake.c:99-103 | the init key digests exactly the two secrets in order and the word init |
| `KeyDerivation.SharedInput` | src/protocol/handshake.c:104-106 | the shared secret digests exactly three secrets in order and the word shared |
| `KeyDerivation.RespKeyInput` | src/protocol/handshake.c:107-107 | the response key digests exactly the shared secret and the word resp |
| `KeyDerivation.SessionInput` | src/protocol/handshake.c:108-111 | the session keys digest the shared secret, over TCP both ephemeral keys in the order initiator, responder, and the word session |
| `KeyDerivation.LabelsSpell` | src/protocol/handshake.c:99-111 | the four labels are the ASCII words |
| `KeyDerivation.InitKeyTakesBoth` | src/protocol/handshake.c:99-103 | if either secret differs, some lawful suite gives different init keys |
| `KeyDerivation.SharedTakesAll` | src/protocol/handshake.c:104-106 | the same for each of the three secrets of the shared secret |
| `KeyDerivation.RespKeyTakesIt` | src/protocol/handshake.c:107-107 | the same for the response key and the shared secret |
| `KeyDerivation.SessionTakesAll` | src/protocol/handshake.c:108-111 | the same for the session keys, the shared secret and both ephemeral keys over TCP |
| `KeyDerivation.KeysAreHalves` | src/protocol/handshake.c:108-151 | the client sends with the first half of the session digest and the server with the second |
| `KeyDerivation.MessageLayout` | src/protocol/handshake.c:85-90 | a handshake message is 60 bytes, authenticates its header and ephemeral key under a zero nonce, and carries the timestamp |
| `KeyDerivation.TsByte` | src/protocol/handshake.c:87-88 | the timestamp's bytes are its digits in base 256, most significant first, in two's complement |
| `KeyDerivation.EightBytesDecide` | src/protocol/handshake.c:32-60 | after a fresh message, another with the same timestamp, neither seen before, is refused exactly when the first eight bytes of its ephemeral key are the same |
| `Handshake.OpenExact` | src/protocol/handshake.c:91-98 | a message opens to a timestamp if and only if it is what the sender builds for that timestamp under that key and ephemeral key |
| `Handshake.MessageOpens` | src/protocol/handshake.c:85-98 | every message opens to its timestamp over both transports |
| `Handshake.TsRoundTrip` | src/protocol/handshake.c:88-97 | every signed 64-bit timestamp survives its eight big-endian bytes |
| `Handshake.TsBytesOf` | src/protocol/handshake.c:88-97 | and every eight bytes are those of a 64-bit timestamp |
| `Handshake.ConfirmationPasses` | src/protocol/handshake.c:155-168 | after agreement, key confirmation under counter zero passes in both directions and consumes exactly the confirmation, whatever follows it |
| `Handshake.ConfirmExactly` | src/protocol/handshake.c:161-168 | a stream confirms the keys if and only if it begins with an empty confirmation frame, with any flags, under counter zero |
| `Handshake.AcceptedOnceOnly` | src/protocol/handshake.c:29-60 | inside one process that keeps its cache, a first message that was accepted is refused, at any later time, until 128 newer handshakes have been recorded there |
| `Listener.Listener.Accept` | src/mode_psk.c:42-77 | one turn of a TCP server's accept loop: connection limit, then rate check (charged even if the fork fails; absent in the TUN server), then a forked child that decides from a copy of the parent's replay cache, which itself never changes |
| `Listener.Listener.OnChildEnd` | src/main.c:55-55 | the end of a child frees a place and changes nothing else |
| `Listener.RepeatedConnection` | src/mode_psk.c:42-77 | in every run, a first message that some connection was accepted with is accepted again if and only if there is a place, the rate allows the address, forking works, the message is still fresh, and key generation, clock and sending work in the child |
| `Listener.AtMostNineAccepted` | src/mode_psk.c:42-77 | a server that checks rates accepts, from at most 32 addresses, at most nine connections of one address in any closed interval of sixty seconds, repeated messages included |
| `Listener.AcceptancesAreApproved` | src/mode_psk.c:42-77 | the parent's rate table is that of the calls it makes, and every accepted connection is one of its approvals |
| `Listener.SameMessageAgain` | src/protocol/handshake.c:113-131 | the same for one peer and any cache |
| `Listener.FiveTimesAndNoMore` | src/mode_psk.c:42-77 | the failing input for acceptance at most once: a client's own first message, repeated within one second on a server that has just started, is accepted on the first five connections and refused from the sixth on |
| `Listener.AlwaysWithoutRateCheck` | src/mode_tun.c:130-159 | the TUN server accepts it on every connection it has a place for |
| `Listener.TryHandshake` | src/mode_common.c:61-70 | the loop over the configured peers: each tries the next message of the stream, failed attempts having consumed theirs, and the first success wins |
| `Listener.OnlyTheFirstPeer` | src/mode_common.c:61-70 | on a stream with one message a peer is authenticated if and only if the first configured one is: the others never see the message |
| `Handshake.FreshExactly` | src/protocol/handshake.c:54-60 | the freshness test accepts exactly what lies within sixty seconds of the clock, and timestamps so far in the past that the 64-bit difference wraps; from 1970 on there are none |
| `Handshake.TcpPeer.constructor` | src/protocol/handshake.c:29-30 | an all-zero replay cache |
| `Handshake.TcpPeer.CheckTs` | src/protocol/handshake.c:54-60 | accepts exactly fresh, unrecorded timestamps; only fresh ones reach the cache |
| `Handshake.TcpPeer.ServerHandshake` | src/protocol/handshake.c:113-131 | the step-by-step server, with short streams and failures of key generation, clock and sending: the specified answer and keys or none, the message consumed in any case, and an opened fresh message recorded even if the handshake then fails |
| `Handshake.TcpPeer.ClientHandshake` | src/protocol/handshake.c:133-151 | the step-by-step client with the same failures: its first message is the specified one, it gets the specified keys or none, and the cache is touched only by an opened fresh answer |
| `Handshake.FindPeer` | src/mode_tun_udp.c:609-631 | the loop over configured peers answers the first one under whose key the retained datagram opens freshly at its own clock reading and for which a key can be generated; the recorded match is the last peer whose key fitted |
| `Handshake.MatchedPeerIsAnswered` | src/mode_tun_udp.c:609-666 | over UDP a peer is answered if and only if it matches and a key can be generated |
| `Replay.RejectedUntilEvicted` | src/protocol/handshake.c:32-45 | a recorded pair is rejected while fewer than 128 newer pairs have been recorded, and the 128th newer one evicts it |
| `Replay.RecordedPairAges` | src/protocol/handshake.c:32-45 | each newer pair moves a recorded one exactly one place towards eviction; repeats do not |
| `Replay.Rotates` | src/protocol/handshake.c:41-43 | overwriting a slot of the ring and stepping on is dropping the oldest and appending |
| `Replay.Cache.constructor` | src/protocol/handshake.c:29-30 | 128 all-zero pairs, as static storage starts |
| `Replay.Cache.IsReplay` | src/protocol/handshake.c:32-45 | true exactly for pairs among the last 128 recorded; otherwise the pair is recorded |
| `RateLimit.BoundExactly` | src/mode_common.c:27-57 | for a set of valid addresses, every run in time order gives each of them at most nine approvals in every closed sixty-second interval if and only if the set has at most 32 members |
| `RateLimit.AllApproved` | src/mode_common.c:48-56 | 33 addresses that call in turn within one second are all approved, however often the turn comes round: every call finds its address evicted |
| `RateLimit.RateBound` | src/mode_common.c:27-57 | for at most 32 addresses and non-decreasing time: no address occupies two slots, each window approves at most five, windows start more than sixty seconds apart, and any closed sixty-second interval holds at most nine approvals of one address |
| `RateLimit.NineIsReached` | src/mode_common.c:27-57 | nine approvals within sixty seconds do happen, so the bound is tight |
| `RateLimit.NewcomersEvict` | src/mode_common.c:48-56 | from any table, 32 new addresses evict every other one, whose next attempt is then approved |
| `RateLimit.NewcomersTakeSlots` | src/mode_common.c:48-56 | new addresses fill the slots in ring order and touch no others |
| `RateLimit.LongAddressesPass` | src/mode_common.c:48-56 | an address longer than its 15-character slot is never recognised, so each of its attempts is approved |
| `RateLimit.RunMatches` | src/mode_common.c:27-57 | in every run the shared table holds, for each address, exactly its own window history |
| `RateLimit.CheckMatches` | src/mode_common.c:27-57 | one call moves the table as it moves its address's own history, and gives the same answer |
| `RateLimit.AtMostNine` | src/mode_common.c:33-45 | any spaced windows of five put at most nine approvals into a closed sixty-second interval |
| `RateLimit.ApprovalsAreHits` | src/mode_common.c:27-57 | the approvals a run gives are those of the address's own windows |
| `RateLimit.Find` | src/mode_common.c:30-31 | the first used slot with that address, or none |
| `RateLimit.RateTable.constructor` | src/mode_common.c:24-25 | an empty table |
| `RateLimit.RateTable.RateCheck` | src/mode_common.c:27-57 | the loop and the updates on the real array give the specified table and answer |
| `Sessions.RunRefines` | src/mode_tun_udp.c:495-854 | in every run of handshakes, datagrams and cleanups the array with linear search is a finite map from address to session: active addresses are distinct and at most 64 slots are used |
| `Sessions.LatestKeysAreUsed` | src/mode_tun_udp.c:735-758 | a datagram is opened with the keys of the latest completed handshake of its address |
| `Sessions.SlotsHoldHistory` | src/mode_tun_udp.c:709-854 | in every run, a session's slot holds the port last heard from, the time of last contact or keepalive, the tunnel address the session was opened with, and the latest keys |
| `Sessions.CompleteRefines` | src/mode_tun_udp.c:709-724 | a completed handshake replaces that address's session, or adds it while slots remain, and changes no other |
| `Sessions.DatagramRefines` | src/mode_tun_udp.c:735-758 | a datagram from an address with a session moves that session's port at once, and its time of last contact only if it authenticates; no other session changes |
| `Sessions.UnauthenticatedDatagramMovesPort` | src/mode_tun_udp.c:748-753 | after any run, a datagram that does not authenticate redirects the replies of its address to its port and changes nothing else |
| `Sessions.CleanupRefines` | src/mode_tun_udp.c:835-854 | the cleanup pass acts on each session alone |
| `Sessions.EndedExactly` | src/mode_tun_udp.c:835-854 | a cleanup pass ends a session exactly when it has been silent for more than 300 seconds and no keepalive was due first |
| `Sessions.AdmittedForGood` | src/mode_tun_udp.c:835-854 | in every run whose keepalive intervals are 1 to 301 seconds, an address that has a session keeps one for ever, however long its client is silent |
| `Sessions.FullTableAdmitsNobody` | src/mode_tun_udp.c:713-717 | slots are never reclaimed: once 64 are used, no further address is ever admitted |
| `Sessions.DstAddrReadsDestination` | src/mode_tun_udp.c:483-492 | a packet is routed by the destination its IPv4 header names |
| `Sessions.DstAddrOfOthers` | src/mode_tun_udp.c:483-492 | anything that is not an IPv4 packet with a whole header has no destination |
| `Sessions.Find` | src/mode_tun_udp.c:495-504 | the first active slot with that address, or none |
| `Sessions.SessionTable.constructor` | src/mode_tun_udp.c:553-554 | an empty table |
| `Sessions.SessionTable.SessionFind` | src/mode_tun_udp.c:495-504 | the loop returns that slot, or -1 |
| `Sessions.SessionTable.CompleteHandshake` | src/mode_tun_udp.c:709-724 | the real array gets the specified contents |
| `Sessions.SessionTable.OnDatagram` | src/mode_tun_udp.c:735-758 | uses the found session's key, and the specified array results |
| `Sessions.SessionTable.CleanupPass` | src/mode_tun_udp.c:835-854 | the in-place loop gives the specified array |
| `Sessions.SessionTable.Route` | src/mode_tun_udp.c:801-827 | a packet goes to exactly the active sessions for which packet or session names no tunnel address or both name the same, in slot order; with distinct tunnel addresses a packet to one of them goes to that session and no other |
| `ConnectRequest.ParseRequestExact` | src/mode_socks5.c:58-70 | a request is read as a target if and only if it begins with that target's encoding |
| `ConnectRequest.RequestRoundTrip` | src/mode_socks5.c:46-70 | the encoding reads back exactly for hosts of at most 255 bytes |
| `ConnectRequest.RequestArrives` | src/mode_socks5.c:74-121 | through the encrypted frame, with anything behind it on the stream, the server reads the client's target and consumes exactly the request |
| `ConnectRequest.ReceiveRequestExact` | src/mode_socks5.c:90-121 | the server reads a target and a length if and only if the stream begins, under counter 1, with a frame of at most 260 payload bytes, of any kind, whose payload begins with the target's encoding |
| `ConnectRequest.BuildConnectReq` | src/mode_socks5.c:46-56 | the bytes written are the encoding |
| `ConnectRequest.ParseConnectReq` | src/mode_socks5.c:58-70 | the parser on the buffer is the specification |

## Left out

- A run of the tunnel ends at the first due or requested re-key; `Rekey` covers the attempt itself, not what the loop does afterwards.
- Secrecy, unforgeability, constant time and the wiping of key material: the proofs are about functional behaviour only.
- X25519, SHA-256 and the random source are parameters. Failure of `ecdh_derive`, whose result the handshake ignores, is not modelled: the operation always gives a value.
- Sockets, poll, errno, signals and time-outs appear only as results of calls; the retry loops of `src/protocol/handshake.c:61-78` are not modelled.
- TUN devices, routes, command line, configuration, key files, logging and the local SOCKS5 negotiation would only add easy members.
- Explicit frames have random nonces, which may repeat; nonce uniqueness is claimed for counter frames only.
- Associated data passed in several calls is covered for pieces that are whole blocks, as `Aegis.PiecesAgree` states.
- Buffers that overlap in part are excluded; the same buffer at the same offset is covered.
- The NEON code loads sixteen bytes of a shorter last ciphertext block and discards them; the load is not modelled.
- UDP handshake messages are values here, not buffers, and the reception of the UDP confirmation is not modelled.
- Allocation failure in the thread pool, and the final freeing of its memory.
- TunnelDelivery.Delivery: covers a direction until something is sent behind a control frame that was accepted only in part; `TunnelDelivery.DeliveryOfWholeControl` is the condition under which nothing is excluded, and `TunnelCuts` says what happens otherwise.
- TunnelCuts.CutControlOutcome: says what the first extraction turn after the cut does; what later turns read depends on cipher output. It starts from states in which the receiver has caught up.
- TunnelProgress.EveryRunCatchesUp: counts the receiving steps of one side while its sender is idle; it does not assume or prove a fair scheduler.
- Tunnel.PushAll: a peer that asks for ever to be called again is not modelled.
- RateLimit.RateBound: does not model overflow of the attempt counter.
- ThreadPoolRuns.NoDeadlock: treats each locked section as one step, which is what the mutex provides.
