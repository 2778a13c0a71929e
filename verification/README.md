# NewZone reference services: models and proofs

Dafny models of the parts of the NewZone reference implementation that hold an algorithm or a
protocol, with proofs of what they guarantee. There are four clusters.

**X25519** (`lib/x25519.js`). `NumberTheory`, `Bits`, `Field`, `Identities`, `Curve`, `XOnly`,
`Ladder`, `LadderCorrectness`, `Twists`, `Encoding`, `X25519`. The loops of the source are methods
with the same variables and the same order of operations, each proved equal to a function on
integers. The functions are then tied to the chord-and-tangent addition on the curves
`b*y^2 = x^3 + 486662*x^2 + x`: b = 1 is Curve25519 and the other nonzero b are its twists, so
that every u-coordinate belongs to a point of one of them. Fermat's little theorem, closure of the
addition and the doubling and differential-addition formulas are proved. Two facts are hypotheses
and appear as `requires` wherever they are used: `IsPrime(P)`, and associativity of the addition,
`Associative(b)`. The latter carries over to b times a square, and every nonzero b is a square or twice
a square, so that b = 1 and b = 2 suffice for every u, and b = 1, Curve25519 itself, for the base
point. Infinity has the x-coordinate zero, as in the source.

**Secure channel** (`lib/handshake.js`, `lib/hkdf.js`, `lib/sessionKeys.js`,
`lib/secureChannel.js`, `lib/nz-crypto-routing.js`). `Handshake`, `Hkdf`, `SessionKeys`,
`SecureChannel`, `ChannelRuns`, `Json`, `KeyOrder`, `Utf8`, `Routing`. HMAC-SHA-512, BLAKE2b,
ChaCha20-Poly1305, Ed25519, base64, the clock and random bytes are parameters. Their laws are named
predicates: fixed lengths (`Lawful`), opening undoes sealing (`CorrectAead`), a signature verifies
(`Correct`). Stronger ideal properties (`NoKeyCollision`, `KeyCommitting`, `Unforgeable`) are asked
for only by the lemmas that need them, and only at the inputs concerned.

**Replication and bounded tables** (`services/replication`, `services/p2p_node`,
`services/state`). `Sequences`, `StableSort`, `Replication`, `Gossip`, `RecencyTable`. The state of
each service is a class whose methods follow the handlers. JavaScript objects are tables with
distinct keys in order of insertion; `Array.prototype.sort` is the stable sort, characterised
independently of the function that computes it.

**Event pipeline and timers** (`services/event`, `services/storage`, `services/queue`,
`services/rules`, `services/scheduler`, `services/directory`). `Storage`, `Queue`, `Rules`,
`Pipeline`, `Scheduler`, `Directory`. The pipeline is a state machine in which every await is a
point where any other step may run and every request may be lost before or after it takes effect. A
request that takes effect does so before its caller goes on.

## What the proofs say about the code

- The ladder with its deferred swaps computes the x-coordinate of a multiple, for every scalar below
  2^255 and every u, so that key agreement holds on every base.
- Nonces repeat within an epoch exactly when more than 2^32 encryption calls are made in it.
- Merging rules and state is a last-writer-wins join; it commutes exactly when equal key and timestamp
  mean equal entry. The event log loses nothing relevant to truncation.
- The hash of a history item leads to its payload in the content-addressed store except when the payload
  is itself marked as a routing packet: the store's server unwraps it and keeps what it carries.
- A publish request can be answered with success although the queue never received its event; the answered
  events are the enqueued ones if and only if no enqueue request was lost.
- An event whose dequeue answer is lost on the way back is lost for good: no action is ever tried for it.
- While the clock does not go back, both bounded tables hold the same slots, and these are the most
  recently written ones if and only if at each eviction the least recent slot comes first among those
  with its timestamp. With equal timestamps a key just written again can be the one evicted.
- The canonical text tells values apart except that the array `[undefined]` prints as the empty array;
  parsed JSON has no such arrays.

Where documentation and code differ, the models follow the code:

- `services/rules/README.md` describes conditional rules with `POST /rule`; the code has a single
  history rule with three switches, set through `/set`.
- `services/queue/README.md` promises FIFO queues with bounded memory; at the bound it is the
  oldest item that is dropped.
- `docs/NZ-CRYPTO-LAYER.md` lists replay protection by nonce; the code checks that the nonce is a non-empty
  string and that the timestamp is recent, and remembers no nonces.
- The derived `decKey` is cut from the output of HKDF but not used by the channel, which derives
  each direction from its own context.

## Model

| member | source | states |
|---|---|---|
| Field.ModIsRemainder | lib/x25519.js:8-11 | The truncating remainder of JavaScript, corrected once, is the least non-negative remainder, for negative operands too. |
| Field.Inv | lib/x25519.js:17-27 | The square-and-multiply loop ends with a^(P-2) reduced; its invariant keeps r*x^e up to congruence. |
| Field.PowerStep | lib/x25519.js:21-25 | One turn of the loop, with or without the multiplication, keeps r*x^e up to congruence. |
| Field.InverseCorrect | lib/x25519.js:17-27 | With P prime, a times the result is 1 modulo P unless P divides a, and the result is 0 exactly then. |
| XOnly.DoubleRepresents | lib/x25519.js:60-61 | Projective doubling represents 2s whenever the pair represents s, infinity included. |
| XOnly.SumRepresents | lib/x25519.js:58-59 | Differential addition represents s+t for pairs that represent s and t = s+q, also when one of them or the sum is infinity. |
| Ladder.StepDoubles | lib/x25519.js:48-61 | The first pair of the loop body is Montgomery doubling; 121665 = (A-2)/4 enters here. |
| Ladder.StepSums | lib/x25519.js:48-59 | The second pair of the loop body is differential addition, up to the common factor 4. |
| Ladder.SummedSymmetric | lib/x25519.js:53-59 | Differential addition does not depend on the order of its two pairs. |
| Ladder.StepIsTextbook | lib/x25519.js:43-66 | The body run on swapped pairs is the step of a one bit, swapped; run on unswapped pairs, of a zero bit. |
| Ladder.MontgomeryLadder | lib/x25519.js:31-77 | The loop with lazy conditional swaps returns the value of the ladder that branches on each bit. |
| LadderCorrectness.LadderInvariant | lib/x25519.js:39-69 | After the top bits with value m the two pairs represent mq and (m+1)q. |
| LadderCorrectness.LadderComputesMultiple | lib/x25519.js:31-77 | For every point q over u and every k below 2^255 the ladder returns the x-coordinate of kq, zero for infinity; u = 0 included. |
| LadderCorrectness.LaddersCommute | lib/x25519.js:31-77 | One ladder on the value of another gives the same in either order, for every u. |
| LadderCorrectness.LadderDependsOnResidue | lib/x25519.js:31-77 | The result depends on u only modulo P, although it starts unreduced, and lies in [0, P); no hypothesis is needed. |
| LadderCorrectness.StepScales | lib/x25519.js:48-66 | Scaling the pairs by l and n scales the outputs of one step by l^4 and (l*n)^2. |
| LadderCorrectness.StepKeepsAffineValues | lib/x25519.js:48-66 | Nonzero scalings of the two pairs before a step leave both affine values after it unchanged. |
| LadderCorrectness.ScalingKeepsLadderValue | lib/x25519.js:39-76 | Nonzero scalings of the two pairs before any step, with any number of bits still to come, leave the final value unchanged. |
| LadderCorrectness.AffineValueScales | lib/x25519.js:76-76 | The final division gives the same value for a pair scaled by anything that is not 0 modulo P. |
| Encoding.BytesToBigIntLE | lib/x25519.js:81-87 | The OR of shifted bytes is the base-256 value. |
| Encoding.BigIntToBytesLE | lib/x25519.js:89-97 | Masking and shifting writes the low base-256 digits into the fresh array. |
| Encoding.ValueOfDigits | lib/x25519.js:81-97 | Decoding an encoded number gives it modulo 256^size, hence itself when it fits. |
| Encoding.DigitsOfValue | lib/x25519.js:81-97 | Encoding a decoded byte string gives it back. |
| Encoding.ClampScalarBytes | lib/x25519.js:101-110 | The masks on the first and the last byte compute the clamped scalar, whose value ClampedValue gives; other lengths than 32 are errors. |
| Encoding.ClampedValue | lib/x25519.js:101-110 | A clamped scalar is 2^254 plus 8 times what is left of the bytes, read little-endian, when bits 0 to 2, 254 and 255 are taken away. |
| Encoding.ClampedRange | lib/x25519.js:101-110 | A clamped scalar lies in [2^254, 2^255) and is a multiple of 8. |
| Encoding.ClampIdempotent | lib/x25519.js:101-110 | Clamping a coded clamped scalar changes nothing. |
| Encoding.ClampedNotMultipleOfOrder | lib/x25519.js:101-110 | A clamped scalar is never a multiple of the subgroup order of section 4.1 of RFC 7748. |
| Encoding.DecodeUCoordinateBytes | lib/x25519.js:112-119 | The top bit is ignored and the rest read little-endian; other lengths than 32 are errors. |
| Encoding.MaskedValue | lib/x25519.js:112-119 | Masking the last byte leaves the value of the 32 bytes modulo 2^255. |
| Encoding.DecodedValue | lib/x25519.js:112-119 | A coded value below 2^255 is unaffected by the mask and decodes to itself. |
| X25519.Apply | lib/x25519.js:123-128 | The composed byte function: it computes the specified result, whose value SharedEndToEnd gives, or the error of the first argument of wrong length. |
| X25519.ApplyBase | lib/x25519.js:130-134 | The same for the base point 9, whose value SharedBaseEndToEnd gives. |
| X25519.SharedEndToEnd | lib/x25519.js:101-128 | From bytes to bytes: the result decodes to the ladder value of 2^254 + 8*((scalar / 8) mod 2^251) on the coordinate modulo 2^255. |
| X25519.SharedBaseEndToEnd | lib/x25519.js:101-134 | The same on 9, from the group law of Curve25519 alone. |
| X25519.LengthErrors | lib/x25519.js:101-134 | A scalar of wrong length is reported before a coordinate of wrong length; both functions fail on nothing else. |
| X25519.BaseIsNine | lib/x25519.js:130-134 | The base-point function is the general one on the coded 9. |
| X25519.SharedIsMultiple | lib/x25519.js:123-128 | The 32 bytes decode to the x-coordinate of kq, reduced, for the clamped k and any point q over the masked u. |
| X25519.ResultDecodes | lib/x25519.js:112-128 | A result, taken as a u-coordinate again, decodes to the ladder value it codes. |
| Twists.TwoCurvesSuffice | lib/x25519.js:31-77 | The group laws of Curve25519 and of the twist b = 2 give that of every curve a u-coordinate can lie on. |
| Twists.BaseIsOnCurve25519 | lib/x25519.js:130-134 | The base point 9 lies on Curve25519, whose group law is enough for it. |
| X25519.Agreement | lib/x25519.js:123-128 | Two scalars applied to any base in either order give the same 32 bytes, from the group laws of two curves. |
| X25519.KeyAgreement | lib/x25519.js:123-134 | x25519(a, x25519Base(b)) = x25519(b, x25519Base(a)) for all 32-byte a and b (section 6.1 of RFC 7748), from the group law of Curve25519 alone. |
| Handshake.HonestRun | lib/handshake.js:67-146 | An unaltered run succeeds on both sides and ends with equal 32-byte secrets. |
| Handshake.AliceSends | lib/handshake.js:67-82 | Alice sends her ephemeral key with her signature over the label followed by that key, for every 32-byte seed and no other. |
| Handshake.BobSends | lib/handshake.js:87-119 | Bob answers exactly when the signature verifies over the label and the received key, all lengths being right, and then signs the label and his own key and holds the secret of his key and hers. |
| Handshake.AliceAccepts | lib/handshake.js:124-146 | Alice finishes exactly when the signature verifies over the label and the received key, with the secret of her key and his. |
| Handshake.ChangedAliceEphemeral | lib/handshake.js:95-102 | If Alice's signature verifies only what she signed, Bob fails with the signature error on every other ephemeral key. |
| Handshake.ChangedBobEphemeral | lib/handshake.js:132-138 | If Bob's signature verifies only what he signed, Alice fails with the signature error on every other ephemeral key. |
| Hkdf.HmacBlake2b | lib/hkdf.js:38-61 | The padding loops compute HMAC of RFC 2104 with BLAKE2b, for short, full and long keys. |
| Hkdf.HmacZeroExtension | lib/hkdf.js:38-61 | A short key and its extension by zeros authenticate alike, since keys are filled with zeros. |
| Hkdf.HmacIsRfc2104 | lib/hkdf.js:38-61 | In terms of BLAKE2b alone: H(K xor 5c.. , H(K xor 36.. , data)) with K the key, or its hash if longer than 128 bytes, filled with zeros, byte by byte. |
| Hkdf.ExtractIs | lib/hkdf.js:77-85 | Extraction authenticates the input key under the salt, and under 64 zeros if the salt is empty; an unknown hash is an error. |
| Hkdf.ExtractZeroExtension | lib/hkdf.js:77-85 | With BLAKE2b a salt followed by zeros, up to 128 bytes, extracts the same key. |
| Hkdf.HkdfExpand | lib/hkdf.js:90-113 | The buffer loop returns the first bytes of T(1), T(2), ...; every write is in bounds and the counter is always a byte; bad lengths and hashes are errors. |
| Hkdf.ExpandBytes | lib/hkdf.js:90-113 | Byte j of the output is byte j mod 64 of block j div 64 + 1 of section 2.3 of RFC 5869. |
| Hkdf.ExpandPrefix | lib/hkdf.js:90-113 | Shorter outputs are prefixes of longer ones. |
| Hkdf.ThreeBlocks | lib/hkdf.js:99-110 | 192 bytes of output are MAC(info 1), MAC(T1 info 2) and MAC(T2 info 3), one after the other. |
| Hkdf.ExpandSucceeds | lib/hkdf.js:90-94 | Expansion succeeds exactly for known hashes and lengths from 1 to 16320, with as many bytes. |
| SessionKeys.KeysPartition | lib/sessionKeys.js:95-101 | encKey, decKey and nonceBase, in this order, cut the HKDF output without gap or overlap, for every key length. |
| SessionKeys.KeysFromPrimitives | lib/sessionKeys.js:80-109 | From BLAKE2b and the MAC alone, for each hash and key length: what every part of the result is, session id and context hash included. |
| SessionKeys.UsualKeys | lib/sessionKeys.js:80-109 | With SHA-512 and 32-byte keys: encKey and decKey are the halves of HMAC(prk, info 1) and nonceBase the first 12 bytes of the next block, prk being HMAC(contextHash, secret). |
| SessionKeys.DeriveErrors | lib/sessionKeys.js:66-78 | The errors of derivation, in the order in which the arguments are examined. |
| SecureChannel.MakeNonce | lib/secureChannel.js:24-35 | The shifts and masks put the counter modulo 2^32 into bytes 8 to 11 and keep bytes 0 to 7 of the base. |
| SecureChannel.NonceSpellsCounter | lib/secureChannel.js:30-33 | Read most significant first, bytes 8 to 11 are the counter modulo 2^32. |
| SecureChannel.NonceEqualIffCongruent | lib/secureChannel.js:24-35 | For one base two nonces are equal if and only if the counters agree modulo 2^32. |
| SecureChannel.ContextInjective | lib/secureChannel.js:75-89 | The context string determines the base, the epoch and the direction, even for bases that contain the separators. |
| SecureChannel.ContextText | lib/secureChannel.js:75-89 | The context is the base, "/epoch-", the epoch in decimal, and the arrow of the sending role. |
| SecureChannel.Open | lib/secureChannel.js:46-72 | The constructor fails exactly on a missing secret, an empty base or failing derivation, with the first of these errors, and otherwise starts in epoch 0. |
| SecureChannel.Channel.constructor | lib/secureChannel.js:61-72 | A new channel has epoch 0, both counters 1 and the keys of its role. |
| SecureChannel.Channel.DeriveKeysForEpoch | lib/secureChannel.js:74-106 | The stored keys become those of the current epoch, sending and receiving chosen by role. |
| SecureChannel.Channel.RekeyChannel | lib/secureChannel.js:112-117 | The epoch advances, the counters restart and the keys follow. |
| SecureChannel.Channel.EncryptToPeer | lib/secureChannel.js:126-133 | The message is sealed under the keys of the epoch and the counter, which is consumed even if sealing fails. |
| SecureChannel.Channel.DecryptFromPeer | lib/secureChannel.js:146-155 | Opens under the receiving keys; only success advances the receive counter. |
| ChannelRuns.EpochCountsRekeys | lib/secureChannel.js:112-117 | After any run the epoch is the number of rekeys. |
| ChannelRuns.MatchingKeys | lib/secureChannel.js:91-105 | Whatever both parties did, if they rekeyed equally often the keys one sends with are those the other receives with, both ways. |
| ChannelRuns.Delivery | lib/secureChannel.js:126-155 | A message sealed after any run opens to its plaintext at the peer after any run with as many rekeys, so in any order and with losses or repetitions. |
| ChannelRuns.OpensIffSameEpochAndDirection | lib/secureChannel.js:74-155 | With an ideal AEAD and key derivation a message opens if and only if epoch and direction match; otherwise the result is null. |
| ChannelRuns.CounterIsPosition | lib/secureChannel.js:112-133 | The counter of an encryption call is one more than the number of those before it in its epoch. |
| ChannelRuns.CounterCountsSends | lib/secureChannel.js:112-133 | After any run the send counter is one more than the encryption calls since the last rekey. |
| ChannelRuns.CounterCountsOpens | lib/secureChannel.js:112-155 | After any run the receive counter is one more than the messages opened since the last rekey. |
| ChannelRuns.MessageSealed | lib/secureChannel.js:74-133 | After any run a message carries its position in the epoch and the number of rekeys, and is sealed under the nonce of that position and the key derived, from the first principles above, for its epoch and direction. |
| ChannelRuns.MessageOpened | lib/secureChannel.js:74-155 | After any run a message is opened under the key derived for the number of rekeys and the opposite direction. |
| ChannelRuns.NonceUniqueness | lib/secureChannel.js:24-133 | Over whole runs with any number of rekeys no (epoch, direction, nonce) repeats if and only if no epoch makes more than 2^32 encryption calls. |
| ChannelRuns.OverLimitRepeats | lib/secureChannel.js:24-133 | Beyond the limit the calls with counters 1 and 2^32 + 1 of the epoch share a nonce. |
| Json.RoundTrip | lib/nz-crypto-routing.js:13-25 | A parser recovers every value from its canonical text up to key order and stops where the text ends, strings being escaped as in section 7 of RFC 8259. |
| Json.EscapeTable | lib/nz-crypto-routing.js:14-16 | For each code unit the characters printed for it: two-character escapes, \u and four lower-case hexadecimal digits for other controls and lone surrogates, and itself otherwise. |
| Json.EscapedAppend | lib/nz-crypto-routing.js:14-16 | Strings are escaped piece by piece unless the cut parts a surrogate pair. |
| Json.ScalarText | lib/nz-crypto-routing.js:14-16 | What null, the truth values, numbers and strings print as, spelled out. |
| Json.ArrayText | lib/nz-crypto-routing.js:18-20 | An array prints its elements in order between brackets, with commas between them. |
| Json.ObjectText | lib/nz-crypto-routing.js:22-24 | An object prints its members in order of sorted names between braces, name, colon and value, with commas between them. |
| Text.DecimalDigit | lib/nz-crypto-routing.js:14-16 | Digit k from the right of the decimal form of n is n / 10^k mod 10. |
| KeyOrder.ParserRecovers | lib/nz-crypto-routing.js:13-25 | Parsing a whole canonical text gives the value with its keys in ascending order at every depth, stated by first differing code units. |
| KeyOrder.SortsAscending | lib/nz-crypto-routing.js:22-22 | Sorted names ascend: of two, the earlier is a proper prefix of the later or has the lesser code unit where they first differ. |
| KeyOrder.CanonicalAscending | lib/nz-crypto-routing.js:22-24 | The names of every object inside the sorted form of a value ascend. |
| KeyOrder.CanonicalIffSame | lib/nz-crypto-routing.js:22-24 | Sorting keys at every depth identifies two values if and only if they are equal up to key order. |
| KeyOrder.TextIffSame | lib/nz-crypto-routing.js:13-25 | Two values have the same canonical text if and only if they are equal up to key order at every depth. |
| KeyOrder.TextIffSameCollapsed | lib/nz-crypto-routing.js:13-25 | For all values, with undefined anywhere: the texts are equal if and only if the values are equal up to key order once each array [undefined] is taken for the empty one. |
| Utf8.Utf8RoundTrip | lib/nz-crypto-routing.js:35-35 | Text without lone surrogates is recovered from its UTF-8 bytes. |
| Utf8.PointLayout | lib/nz-crypto-routing.js:35-35 | The lead and continuation bytes of a code point, bit field by bit field, for one to four bytes. |
| Utf8.SurrogateBytes | lib/nz-crypto-routing.js:35-35 | A surrogate pair gives the four bytes of the code point it stands for. |
| Utf8.AsciiIsUtf8 | lib/nz-crypto-routing.js:35-35 | ASCII text is its own coding. |
| Utf8.TextPaired | lib/nz-crypto-routing.js:13-25 | Canonical text has no lone surrogates, whatever its strings contain. |
| Utf8.BytesIffText | lib/nz-crypto-routing.js:32-36 | Two canonical texts have the same bytes if and only if they are equal. |
| Routing.SigningPayloadIffSameFields | lib/nz-crypto-routing.js:32-36 | Two packets have equal signing payloads if and only if version, node_id, ts, nonce and payload agree up to key order; signature and other properties do not matter. |
| Routing.SigningPayloadText | lib/nz-crypto-routing.js:32-36 | The signed bytes spelled out: the members node_id, nonce, payload, ts and version, in this order, in the JSON text of the values they have in the packet. |
| Routing.SignedPacketAccepted | lib/nz-crypto-routing.js:46-133 | A packet signed by a known node passes every check within the allowed skew and yields its payload. |
| Routing.RejectionNamesFirstFailure | lib/nz-crypto-routing.js:80-126 | A rejected packet is told the first of the eight checks it fails, in the order of the code. |
| Routing.AcceptedMeansSigned | lib/nz-crypto-routing.js:80-133 | If the node's key accepts only what the node signed, an accepted packet agrees in every signed field with a packet that node signed. |
| StableSort.SortCharacterised | services/replication/index.js:30-30 | A sequence is the sort of the events if and only if it is ordered by timestamp and keeps the order of events with equal ones. |
| StableSort.TruncatedMerge | services/replication/index.js:29-31 | Truncating before a merge does not change the truncated result, as a sequence and for every bound. |
| StableSort.LogLosesNothingRelevant | services/replication/index.js:28-31 | Over any run of merges the log is the last n of the stable sort of everything received, in order of arrival. |
| Replication.Store.MergeState | services/replication/index.js:19-26 | The loop over the incoming keys, in any order, computes the last-writer-wins join and touches nothing else. |
| Replication.Store.MergeRules | services/replication/index.js:34-40 | The loop over the rules computes the merged list that MergedRulesAre characterises. |
| Replication.MergedRulesAre | services/replication/index.js:34-40 | The merged list has each id once, earlier ids being those that occurred earlier, and with each id its newest rule, of equal ones the first. |
| Replication.LocalRulesStayInFront | services/replication/index.js:34-40 | Merging into a list of distinct ids keeps those ids in front, in their order. |
| Replication.Store.MergeData | services/replication/index.js:17-41 | One merge updates state, events and rules to the joined map, the truncated stable sort and the merged list of local before incoming rules. |
| Replication.JoinIdempotent | services/replication/index.js:19-26 | Merging the same map again changes nothing. |
| Replication.JoinAssociative | services/replication/index.js:19-26 | The join is associative, without any assumption on timestamps. |
| Replication.JoinCommutesIffConsistent | services/replication/index.js:19-26 | The join commutes if and only if equal key and timestamp mean equal entry. |
| Replication.JoinAllKeepsWinner | services/replication/index.js:19-26 | After any sequence of merges a key holds the newest entry seen, of equal ones the first to arrive, and nothing else. |
| Replication.RulesMergeIsJoin | services/replication/index.js:34-40 | The merged list has distinct ids and is, as a table, the join of the tables of both lists. |
| Replication.MergesJoinTables | services/replication/index.js:17-41 | Over any sequence of merges state and rules are the joins of everything received, starting from any data. |
| Replication.MergesKeepNewestEvents | services/replication/index.js:28-31 | After any merges the log is the newest 200 of the initial and all received events, in stable order. |
| Gossip.TimestampsNeverDecrease | services/replication/index.js:17-41 | In every run of snapshots and deliveries keys stay and their timestamps at a node never decrease, for state and rules. |
| Gossip.RunSummarises | services/replication/index.js:97-103 | In every run each node holds, per key, an entry of some initial data it heard of and none newer; no entry is invented. |
| Gossip.NodeMergesDelivered | services/replication/index.js:97-103 | In every run what a node holds is its initial data merged with the snapshots delivered to it, in order of delivery. |
| Gossip.NodeLog | services/replication/index.js:28-31 | Once anything was delivered, a node's log is the newest 200 of its initial events and those of the snapshots delivered to it, in stable order. |
| Gossip.Convergence | services/replication/index.js:97-103 | Nodes that heard of the same initial data, directly or transitively, hold the same state and rules, whatever was delayed, lost, repeated or reordered. |
| Gossip.AllReachedAllAgree | services/replication/index.js:97-103 | Once every node's initial data has reached every other node, directly or transitively, all nodes agree on state and rules. |
| RecencyTable.PeerRegistry.AddPeer | services/p2p_node/index.js:14-29 | Inserts or refreshes the peer, then evicts the oldest beyond 200, and returns what is now stored for it. |
| RecencyTable.PeerRegistry.MergePeers | services/p2p_node/index.js:43-47 | Adds the listed peers one by one, reading the clock for each. |
| RecencyTable.PutInPlace | services/p2p_node/index.js:14-19 | A key that is there is written in its place, and nothing else moves. |
| RecencyTable.RemoveInPlace | services/p2p_node/index.js:21-26 | A removal takes off the slot of the key and keeps the order of the others. |
| RecencyTable.StateStore.SetState | services/state/index.js:14-29 | At 500 keys a new key evicts the oldest first; the returned entry is the stored one. |
| RecencyTable.StateStore.DeleteState | services/state/index.js:44-46 | Afterwards the key reads as null, every other key reads as before, and exactly the slots of other keys are left. |
| RecencyTable.BoundedStep | services/p2p_node/index.js:14-29 | The last N of the list of most recent writes moves by one bounded step per write. |
| RecencyTable.OrdersAgree | services/p2p_node/index.js:21-26 | When the clock does not go back, inserting before or after the eviction gives the same table, slot by slot. |
| RecencyTable.RefinesTouch | services/state/index.js:14-29 | One write, in either order, takes that step if and only if it need not evict or the least recent slot comes first among those of its age. |
| RecencyTable.RecentIffTiesInOrder | services/state/index.js:14-29 | Over whole runs whose clock does not go back, each table holds the N most recently written keys after every write if and only if at each eviction the least recent slot comes first among those of its age. |
| RecencyTable.TablesKeepMostRecent | services/p2p_node/index.js:14-29 | With a strictly increasing clock both tables hold exactly the N most recently written keys with their latest values. |
| RecencyTable.TiesBreakRecency | services/state/index.js:15-21 | In every full table of one age, writing the first key again and then a new key loses the key just written, in both tables. |
| RecencyTable.RewrittenKeyLost | services/p2p_node/index.js:21-26 | Such a run at 200 peers and at 500 keys. |
| RecencyTable.TableWithinMap | services/state/index.js:14-46 | With deletions and any clock the table has at most N keys and only current entries of the unbounded map. |
| RecencyTable.ReadsAreCurrent | services/state/index.js:36-38 | A read returns the current value of the unbounded map or null, never a stale one. |
| Queue.QueueService.Enqueue | services/queue/index.js:22-38 | Appends to the named queue, dropping its oldest item beyond 500, and leaves other queues alone. |
| Queue.QueueService.Dequeue | services/queue/index.js:45-51 | Takes the oldest item of the named queue, or returns null. |
| Queue.QueueService.Peek | services/queue/index.js:59-62 | The result is the longest prefix of the queue that the limit allows, counted from the end if negative, and no queue changes its contents. |
| Queue.PeekForetells | services/queue/index.js:45-62 | The front a peek shows is what the next dequeue calls return, in order. |
| Queue.QueueHoldsLatest | services/queue/index.js:22-51 | In every run over any queues a queue holds the most recent items sent to it, at most 500, and every item sent was received, dropped or is still there. |
| Queue.ReceivedInOrder | services/queue/index.js:45-51 | Items are received in the order in which they were sent, each at most once. |
| Queue.LosslessIffNoneDropped | services/queue/index.js:32-35 | Sent equals received followed by contents if and only if the bound never dropped an item. |
| Queue.FirstItemsKept | services/queue/index.js:22-38 | The first 500 items sent to a queue are all kept, however the dequeue calls fall between them. |
| Storage.ContentStore.StoreObject | services/storage/index.js:25-29 | The object is stored under the hash of its JSON text and the hash returned. |
| Storage.StoredIsFound | services/storage/index.js:25-48 | After any stores, without collisions, an object is found under its hash and under no other key. |
| Pipeline.StoredIff | services/storage/server.js:70-83 | One published payload enters the store if and only if it is, or carries, an object, and a packet has its signature accepted; what enters is spelled out. |
| Pipeline.RefusedPacketsNeverStored | services/storage/server.js:70-83 | In every run in which no packet signature is accepted, the store holds only payloads that were published as they are. |
| Rules.HistoryRule.SetHistoryRule | services/rules/index.js:19-25 | Switches present in the posted object replace the current ones; anything but an object changes nothing. |
| Rules.Updated | services/rules/index.js:19-25 | Each switch is the posted one if it is present and the current one otherwise. |
| Rules.ActionsOf | services/rules/index.js:92-106 | The awaited actions are exactly the enabled ones, in the order replicate, log, analytics. |
| Rules.ActionsInOrder | services/rules/index.js:92-106 | Each action is awaited exactly when its switch is on; replication comes first, analytics last, logging between them. |
| Rules.UpdatesTakenOver | services/rules/index.js:19-25 | Three posted switches become the settings, each its own; an empty object or anything but an object changes none. |
| Pipeline.NothingSentUnlessSet | services/rules/index.js:9-13 | Until the rule is set no sink is sent anything. |
| Pipeline.SwitchIsLastPosted | services/rules/index.js:19-25 | In every run a switch stands as it was last posted, however long ago, and is off if it never was. |
| Pipeline.RunStores | services/event/server.js:135-149 | In every run every entry of the store verifies against its hash and every event under way has its hash in the store. |
| Pipeline.HistoryIsStored | services/event/server.js:135-163 | In every run the hash of a queued event leads to what the store keeps of its payload, which is the payload if and only if that is no routing packet. |
| Pipeline.PacketInHistory | services/storage/server.js:70-88 | A published routing packet does reach the queue, and the store gives what it carries for its hash: a run for every such packet. |
| Pipeline.RunOrdered | services/rules/server.js:95-115 | In every run the queue is the end of what was enqueued and attempts are made in the order of events and, within one, of actions. |
| Pipeline.SinksReceiveInOrder | services/rules/server.js:95-115 | Each sink receives genuine events in enqueue order, each at most once, under any losses and interleavings. |
| Pipeline.RuleObjectsNeverChange | services/rules/index.js:19-25 | Setting the rule puts a new object in place of the current one; no object that was ever current changes later. |
| Pipeline.OneRulePerEvent | services/rules/index.js:92-106 | Each switch is read only when its turn comes, after earlier awaits, yet the actions tried for an event follow the rule as it stood at one single moment. |
| Pipeline.CalmSinkReceivesAll | services/rules/server.js:95-115 | Without losses and overflow a sink whose switch is on receives exactly the enqueued events in order, except those still queued and one in hand. |
| Pipeline.OnePublishOneEvent | services/event/server.js:154-169 | The bus carries exactly the events of answered requests, and each event was enqueued as often as requests with it are past the queue, less its lost enqueue requests. |
| Pipeline.AllAnsweredEnqueuedIffNoneLost | services/event/server.js:154-169 | With no request between queue and bus, the answered events are exactly the enqueued ones if and only if no enqueue request was lost. |
| Pipeline.AnsweredWithoutEnqueuing | services/event/server.js:154-169 | A request can be answered with success although its event never reached the queue: a run for every payload. |
| Pipeline.NoAnswerNoEvent | services/event/server.js:135-149 | A publish request whose store request is lost, refused or not answered has failed at the end of every run. |
| Pipeline.LostPollLeavesNoTrace | services/rules/server.js:95-115 | A run with a dequeue request that is lost on its way ends as the run without it. |
| Pipeline.LostReplyLosesEvent | services/rules/server.js:95-115 | When the answer to a dequeue request is lost, no action is ever tried for its event, in any continuation. |
| Scheduler.Scheduler.AddTask | services/scheduler/index.js:15-30 | Appends a task that never ran, dropping the oldest beyond 200. |
| Scheduler.Scheduler.RemoveTask | services/scheduler/index.js:44-47 | Removes the first task with the id, if there is one. |
| Scheduler.Scheduler.Tick | services/scheduler/index.js:54-74 | The loop calls back exactly the due tasks, in list order, and sets their last run to now. |
| Scheduler.TasksAsAdded | services/scheduler/index.js:15-30 | In every run a listed task has the id, interval, url and payload it was added with. |
| Scheduler.NewestListed | services/scheduler/index.js:26-27 | In every run there are at most 200 tasks, and without removals these are the newest 200 added, in order. |
| Scheduler.FiredInOrder | services/scheduler/index.js:56-58 | The callbacks of one tick go to exactly the due tasks, in the order in which they were created. |
| Scheduler.CallbacksAreSpaced | services/scheduler/index.js:52-76 | In every run, whatever the clock does, consecutive callbacks of a task are at least its interval apart. |
| Scheduler.WindowBound | services/scheduler/index.js:52-76 | A window of length L holds at most L / interval + 1 callbacks of a task. |
| Scheduler.ListedTasksCalledBack | services/scheduler/index.js:52-76 | After a tick whose time is at least its interval, a listed task has been called back. |
| Scheduler.ListedTasksOnTime | services/scheduler/index.js:52-76 | At each tick a listed task that has run at all has run less than its interval ago. |
| Scheduler.CallbacksArePrompt | services/scheduler/index.js:52-76 | If ticks are at most D apart, consecutive callbacks of a task are less than its interval plus D apart. |
| Directory.Registry.RegisterService | services/directory/index.js:14-29 | Appends an entry with the default time to live, dropping the oldest beyond 200; duplicates are kept. |
| Directory.AtMost200 | services/directory/index.js:25-26 | In every run there are at most 200 entries. |
| Directory.Registry.UpdateHeartbeat | services/directory/index.js:37-45 | Refreshes the first entry for the role and url and no other; the result tells whether there was one. |
| Directory.Registry.CleanupExpired | services/directory/index.js:50-58 | The backward loop of in-place splices equals the order-preserving filter of unexpired entries. |
| Directory.Registry.ListServices | services/directory/index.js:67-78 | The loop builds the listing keyed by role. |
| Directory.LastIsListed | services/directory/index.js:67-78 | A role is listed if and only if it has an entry, and then with its last one. |
| Directory.Registry.RemoveService | services/directory/index.js:93-96 | Removes the first entry with the id, if there is one. |
| Directory.LiveMembers | services/directory/index.js:50-58 | After a sweep exactly the entries that had not expired are left. |
| Directory.SurvivesIffSweepsInTime | services/directory/index.js:37-58 | In every run that does not otherwise displace it, the first entry for a role and url survives if and only if each sweep came within the time to live of the last refresh. |
| Directory.UnrefreshedLivesTenSeconds | services/directory/index.js:14-58 | A registered entry that is never refreshed survives if and only if no sweep comes more than 10000 ms after its registration. |
| Directory.RefreshedSurvives | services/directory/index.js:37-58 | An entry refreshed at gaps within its current time to live is never swept, by any schedule of sweeps. |
| Directory.HeartbeatsKeepAlive | lib/nz-lib.js:40-62 | A service that sends a heartbeat at once and then every half of its time to live is never swept while each arrives within the other half. |

## Left out

- Handshake.HonestRun: equal secrets on unaltered runs only; no claim about who takes part in altered ones.
- ChannelRuns.Delivery: no claim against replay or reordering; the receive counter only counts successes.
- SecureChannel.MakeNonce: counters are unbounded integers; the source's lose exactness beyond 2^53.
- SecureChannel.ContextInjective: base contexts are byte strings; lone surrogates that UTF-8 coding merges are not modelled.
- SecureChannel.Open: a role other than alice or bob is excluded by the type instead of being an error.
- Hkdf.HkdfExpand: lengths are integers; hash names are already matched, so case folding and the default name are not modelled.
- Json.RoundTrip: numbers are integers and printed in full; the exponents JavaScript uses from 10^21 on, fractions, NaN, infinities and negative zero are not modelled, nor objects whose integer-like keys are reordered before sorting.
- Routing.SignedPacketAccepted: key parsing and its errors, and missing key material, are not modelled; the signature scheme accepts what it signed.
- Replication.Store.MergeData: entries have integer timestamps; entries without one, and keys named like prototype properties, are not modelled. Merged entries are values, so sharing of entry objects between snapshots and nodes is not modelled.
- Gossip.Convergence: state and rules only; merging a snapshot again duplicates its events, so event logs do not converge.
- RecencyTable.PeerRegistry.ListPeers: returns the table itself as values; changes by a caller to the returned objects are not modelled.
- Pipeline.HistoryIsStored: hashes of distinct published payloads are assumed distinct; only `/publish` enqueues on "history" and only the rules service dequeues it.
- Pipeline.SinksReceiveInOrder: a request that outlives its failed await and takes effect later is not modelled; nor is the `{source, event, payload}` wrapping of the logging request.
- Rules.HistoryRule.SetHistoryRule: the switches are read as truth values; other properties of the posted object are dropped. The RULES map behind `/get` is left out.
- Scheduler.Scheduler.Tick: intervals are integers; a missing interval, which never comes due, is left out. Tasks are values with a reference number instead of shared objects.
- Directory.Registry.ListServices: the listing keeps the whole entry; the source drops its role, which is the key.
- Periodic snapshot refresh and the synchronisation loop of the replication service: the snapshot replaces state wholesale, with entries that have no timestamp.
- HTTP servers, fetch and forwarding, discovery over UDP, gateway and routing tables, health scans, key files, mnemonics.
- The insides of BLAKE2b, SHA-2, HMAC-SHA-512, ChaCha20-Poly1305 and Ed25519.
- Primality of 2^255 - 19 and associativity of the addition on two curves are hypotheses.
- Logging, analytics, metadata, consensus, identity and the in-memory event log: single maps or ring buffers with no further property.
