# msks, modelled and verified

This project models the algorithmic core of msks in Dafny and proves what that core promises. It covers seven source
files: the two import gates of the repository's checks, the age file format, the ssh wire formats of the crypto leaf and
of the agent, the streaming conversion of chat chunks into Messages events, the sparse import and copy of volumes, and
the timed plaintext cache. `dafny verify dfyconfig.toml` checks all of it.

| files | what they model |
|---|---|
| `Graphs`, `Sccs`, `PackageGates`, `ModuleClosure` | strongly connected components of the package graph, the cycle and rank gates over them, the import closure |
| `CycleSearch`, `ImportCycles` | the three-colour search of the import-cycle gate, its edge filter and its report |
| `Digits`, `Bech32`, `Bech32Text`, `Bech32Format` | bit regrouping, the BIP-173 checksum, the encoder |
| `Bytes`, `Base64`, `Wire`, `AgentWire` | unpadded base64, ssh strings and big integers in both codecs, the agent's listing |
| `Arithmetic`, `Sequences` | laws of multiplication, lists without repetition |
| `Modular`, `Residues`, `Montgomery`, `Curve25519` | arithmetic below a prime, squares, the Edwards-to-Montgomery map and its curve check, and both said of Curve25519 |
| `AgeHeader`, `AgeHeaderGrammar`, `AgeStream`, `AgeFile`, `AgeFormat` | the header writer and parser, the grammar of what is accepted, the chunked payload, whole files, their bytes |
| `AgeKeys`, `AgeRecipients`, `AgentLines` | key lines and identities, which lines are recipients, an agent's listing as key lines |
| `AnthropicStream`, `StreamGrammar`, `StreamConservation`, `StreamRefinement`, `StreamCutting`, `SingleShot`, `MessageReplay` | the stream converter, the grammar of its events, what they carry, the single-shot conversion as its specification, a whole message as a stream |
| `SparseFiles`, `HomeVolumes` | files written window by window, upload and clone |
| `SecretCache`, `SecretCacheRuns`, `SecretCacheTheorems` | the cache, its runs against the log of operations, what follows |

Code that updates state step by step is modelled as classes and methods with loops (`Tarjan`, `Search`, `Reader`,
`Stream`, `File`, `Artifacts`, `PlaintextCache` and the loops of the format code). Each of these is proved against a
function of its inputs or of its old state, and the results about whole runs are lemmas about those functions.

Where the code and its own words differ, the model follows the code:

- `b64d` says it rejects non-canonical encodings and anything outside the alphabet. It accepts texts whose last letter
  has spare bits set, and texts that bring some or all of their padding. `Base64.CanonicalWhenSpareBitsClear` is the
  exact condition over all texts; `Base64.NonCanonicalIsAccepted` and `Base64.PaddedIsAccepted` are instances.
- A comment in `mac_line` says 43 columns decode to exactly 32 bytes. 42 letters and a pad decode to 31
  (`AgeHeader.ParsedMacSize`, `AgeHeader.ShortMacIsParsed`).
- `montgomery_u` gives y = 1 the result zero, which is also that of y = -1. `Montgomery.MapCollides` says that this is
  the only collision.
- Section 5 of RFC 4251 gives zero as an mpint no byte, both codecs give it one. `Wire.MpintMeetsSection5` says that
  they meet the section exactly for the positive numbers.
- The short-body check of an import refuses every body that reaches it, so its second reading of the magic never
  accepts (`HomeVolumes.InstalledBodies`).
- An exemption of a package with itself makes the cycle gate raise rather than report (`PackageGates.CheckCycles`).
- `flush_expired` and lazy deletes are invisible for dated entries, and for session-held ones only while an operator
  stands (`SecretCacheTheorems.FlushIsInvisibleIff`, `SecretCacheTheorems.ProbesFollowTheLog`).
- `events_from_message` announces a text block with its text and then sends the text as a delta. A client that starts
  from the announced text holds it twice (`MessageReplay.ReplayIsReceived`); `MessageReplay.ReplayIsTheMessageIff` is the
  exact condition for it to end with the message.
- An empty stream leaves a client without content, where the single-shot conversion answers one empty text block
  (`StreamRefinement.StreamRefinesSingleShot`). Usage that comes after the first chunk is too late for the input count
  of the frame (`StreamRefinement.LateUsageIsLost`).

The cryptographic library is a datatype of functions. What is assumed of it is written as predicates that the lemmas
take as hypotheses: the seal opens and adds 16 bytes, digests and MACs have 32 bytes, X25519 commutes, a private key is
the half of its public one. `AgeKeys.LawsAreConsistent` gives functions that meet all of them at once. That nothing
in a presented file is forged (`AgeStream.NoForgedBlock`, `AgeFile.NothingForged`) is assumed only where it is named;
`AgeFile.HonestFileIsUnforged` shows that every honest file meets it. That 2^255 - 19 is prime is a hypothesis
of `Montgomery.MontgomeryUOfPoints`, `Curve25519.AcceptsCurve25519` and `Curve25519.MontgomeryUAcceptsPoints`;
everything below a prime, Fermat's and Wilson's theorems included, is proved.

## Model

| member | source | states |
|---|---|---|
| `Sccs.PackageSccs` | scripts/check_import_graph.py:209-242 | For every finite digraph the search terminates; the lists are duplicate-free, cover exactly the nodes (keys and targets), two nodes share a list iff each reaches the other, and every edge out of a list enters that list or an earlier one |
| `Sccs.Tarjan.Visit` | scripts/check_import_graph.py:218-237 | One recursive visit keeps the low-link invariant: low-links name reachable stack nodes and bound every edge into the older stack, what is below on the stack is untouched, everything numbered is on the stack or emitted |
| `Sccs.Tarjan.PopComponent` | scripts/check_import_graph.py:230-236 | The inner loop pops exactly the stack from the root up, as one component in reverse stack order |
| `Sccs.Tarjan.Begin` | scripts/check_import_graph.py:219-222 | The node takes the next number as index and low-link and goes on top of the stack |
| `Sccs.Enter` | scripts/check_import_graph.py:219-222 | Numbering and pushing a node establishes the running invariant of its visit |
| `Sccs.Tarjan.Conclude` | scripts/check_import_graph.py:229-237 | A node with low-link equal to its index emits one whole class; any other stays with a lower anchor under visit |
| `Sccs.SegmentIsMutual` | scripts/check_import_graph.py:229-237 | The stack segment a root emits is mutually reachable |
| `Sccs.SegmentIsClosed` | scripts/check_import_graph.py:229-237 | Nothing in the emitted segment reaches the rest of the stack, so the segment is a whole class |
| `PackageGates.CheckCycles` | scripts/check_import_graph.py:297-302 | No violation iff every two packages on a cycle are configured in one direction or the other and every configured pair imports both ways; the violations name exactly the offending pairs, said of the configuration itself; a package exempted with itself raises instead |
| `PackageGates.ExemptIff` | scripts/check_import_graph.py:113-118 | A pair is exempt iff either of its packages is configured to import the other |
| `PackageGates.UnexemptedPairsAreAll` | scripts/check_import_graph.py:245-255 | The pairs listed for a component are exactly its unordered pairs of distinct members without an exemption |
| `PackageGates.UnexemptedCyclePairs` | scripts/check_import_graph.py:258-278 | One violation for each component that holds an unexempted pair, and no other |
| `PackageGates.StaleExemptions` | scripts/check_import_graph.py:281-294 | Exactly the exempt pairs without edges both ways are reported; a singleton pair is the error |
| `PackageGates.Verdict` | scripts/check_import_graph.py:297-302 | The two violation lists together are empty exactly when the gate is green |
| `PackageGates.RankViolation` | scripts/check_import_graph.py:305-337 | None iff the edge is exempt or runs strictly down; else the first unranked end, or both ranks |
| `PackageGates.CheckRanks` | scripts/check_import_graph.py:340-354 | The issues are exactly those of the counted edges and of ranks without a package, said of ranks and configuration; none iff every edge that neither direction of the configuration exempts strictly descends and every rank names a package |
| `PackageGates.PackageAdjacency` | scripts/check_import_graph.py:94-99 | The collapsed graph has exactly the counted pairs as edges |
| `PackageGates.EveryCycleIsExempted` | scripts/check_import_graph.py:340-354 | If the rank gate is green every cycle of the package graph uses an exempt edge, by rank descent along the walk |
| `PackageGates.CycleEdgesAreExempted` | scripts/check_import_graph.py:297-302 | If the cycle gate is green, the ends of every edge on any cycle are an exempt pair with edges both ways |
| `ModuleClosure.ImportClosure` | scripts/check_import_graph.py:450-466 | The worklist terminates with the least set that holds the real entries and is closed under import edges and ancestor prefixes |
| `ModuleClosure.ClosureIsReachability` | scripts/check_import_graph.py:439-466 | A module is in the closure iff a chain of loads leads to it from a real entry point |
| `CycleSearch.FindCycle` | scripts/check_import_cycles.py:161-191 | A chain iff the edges have a cycle; the chain is a closed walk repeating only its first node; without a chain, a topological order of all nodes exists |
| `CycleSearch.Search.Visit` | scripts/check_import_cycles.py:169-184 | At every step grey nodes are exactly the stack, which is a walk, and no black node has an edge to a grey one |
| `CycleSearch.OrderMeansAcyclic` | scripts/check_import_cycles.py:161-191 | A topological order rules out every cycle |
| `ImportCycles.ImportSites` | scripts/check_import_cycles.py:149-158 | The sites are keyed by exactly the imports that can loop, each mapped to its first statement |
| `ImportCycles.CanLoopIsNotAncestor` | scripts/check_import_cycles.py:152-154 | The dotted-name filter is the ancestor-prefix test on module parts, the same rule the import graph gate writes on tuples |
| `ImportCycles.SiteNamesAreNotEmpty` | scripts/check_import_cycles.py:180-190 | No site names the empty module, so the truth test of the found name is a test for None |
| `ImportCycles.CheckImportCycles` | scripts/check_import_cycles.py:194-209 | The gate reports iff the imports cycle; every lookup of a chain link in the sites succeeds and gives the first import statement of that edge |
| `Bech32.Bech32Polymod` | src/msks/msks/agecrypto.py:109-118 | The bit loop computes the remainder of the words, one step at a time |
| `Bech32.StepStaysInState` | src/msks/msks/agecrypto.py:112-117 | The accumulator never outgrows 30 bits |
| `Bech32.StepLinear` | src/msks/msks/agecrypto.py:112-117 | One step is GF(2)-linear in state and word together |
| `Bech32.ChecksumCompletes` | src/msks/msks/agecrypto.py:121-127 | Appending the checksum makes the whole string verify (BIP-173), for every human-readable part and data |
| `Bech32.ChecksumIsTheOne` | src/msks/msks/agecrypto.py:121-127 | Six words make the string verify iff they are the checksum |
| `Bech32Format.ExpandedIs` | src/msks/msks/agecrypto.py:122-123 | The human-readable part enters the checksum as the quotients of its codes by 32, a zero, and the remainders |
| `Bech32Format.ShortestVector` | src/msks/msks/agecrypto.py:109-152 | The first valid string of BIP-173: no data under the part "a" is "a12uel5l" |
| `Bech32.StepInjective` | src/msks/msks/agecrypto.py:112-117 | No two states become one under the same word |
| `Bech32.SubstitutionIsDetected` | src/msks/msks/agecrypto.py:109-127 | A verifying string with exactly one word replaced never verifies |
| `Digits.ConvertBits` | src/msks/msks/agecrypto.py:130-145 | The words spell the bits of the data followed by fewer zeros than a word has bits; each is below the word size |
| `Digits.RegroupingInjective` | src/msks/msks/agecrypto.py:130-145 | Data of a known length is recovered from its words |
| `Digits.RegroupingUnique` | src/msks/msks/agecrypto.py:130-145 | Data has only one regrouping |
| `Bech32Text.EncodeBech32` | src/msks/msks/agecrypto.py:148-152 | The string is the part, the separator, and one letter for each word of the data and its checksum |
| `Bech32Text.EncodingVerifies` | src/msks/msks/agecrypto.py:148-152 | What stands after the separator verifies and has the right length |
| `Bech32Text.EncodingInjective` | src/msks/msks/agecrypto.py:148-152 | Under one human-readable part no two byte strings of any lengths share an encoding |
| `Base64.B64RoundTrip` | src/msks/msks/agecrypto.py:183-198 | Decoding an encoding gives the bytes back, for every length |
| `Base64.B64eConcat` | src/msks/msks/agecrypto.py:183-186 | Cutting bytes at a multiple of three cuts the letters |
| `Base64.LineOf48` | src/msks/msks/agecrypto.py:183-198 | A 64-column slice of an encoding decodes to a 48-byte slice |
| `Base64.CanonicalWhenSpareBitsClear` | src/msks/msks/agecrypto.py:189-198 | For every text: it is accepted iff it is letters that leave no single one over and at most the padding they need, it decodes as its letters do, and it is the encoding of the result iff it is letters alone with spare bits clear |
| `Base64.LettersWhenSpareBitsClear` | src/msks/msks/agecrypto.py:189-198 | For letters alone: refused iff one is left over, canonical iff the spare bits are clear |
| `Base64.PaddedIsAccepted` | src/msks/msks/agecrypto.py:189-198 | Concrete texts with padding of their own that are accepted, where the docstring promises an error |
| `Base64.NonCanonicalIsAccepted` | src/msks/msks/agecrypto.py:189-198 | A concrete pair of texts that decode alike: the docstring promises their refusal, the code accepts both |
| `Wire.WireStrings` | src/msks/msks/agecrypto.py:207-222 | The position loop reads exactly the strings of the blob, or fails on truncation |
| `Wire.WireStringsInverse` | src/msks/msks/agecrypto.py:201-222 | A blob reads as some strings iff it is those strings written one after the other, each of a length four bytes hold |
| `Wire.MpintsAgree` | src/msks/msks/client/agent.py:144-149 | The two mpint writers give the same bytes for every non-negative integer |
| `Wire.MpintReadsBack` | src/msks/msks/agecrypto.py:225-231 | An mpint reads back to its value, is never negative, and is minimal |
| `Wire.MpintMeetsSection5` | src/msks/msks/agecrypto.py:225-231 | An mpint is the shortest two's complement form that section 5 of RFC 4251 asks for iff the number is positive; zero is written as one zero byte by both codecs |
| `Wire.MpintsThroughWire` | src/msks/msks/agecrypto.py:201-231 | A name and two integers written to a blob come back out of it |
| `AgentWire.Reader.Uint32` | src/msks/msks/client/agent.py:88-94 | The next number and the advanced offset, or the error past the end |
| `AgentWire.Reader.String` | src/msks/msks/client/agent.py:96-103 | The next string and the advanced offset, or the error past the end |
| `AgentWire.StringAtIsTakeString` | src/msks/msks/client/agent.py:88-103 | The agent reader and the crypto leaf reader see the same string |
| `AgentWire.IdentityLines` | src/msks/msks/client/agent.py:396-414 | The loop lists one line for each identity, and any short or lying body is refused |
| `AgentWire.ListingsReadBack` | src/msks/msks/client/agent.py:396-414 | A listing of any number of identities reads back as their public lines in order, whatever the comments |
| `AgentWire.ListingReadsBack` | src/msks/msks/client/agent.py:226-229 | Reading the listing of a served identity gives its one public line, whatever the comment |
| `AgentLines.ListedLineIsKeyLine` | src/msks/msks/client/agent.py:396-414 | A listed line is read by the other codec as the name and blob it was made of iff the name is one word and the blob is whole wire strings |
| `AgentLines.ListingIsKeyLines` | src/msks/msks/client/agent.py:396-414 | A listing is read iff every blob starts with a name that decodes; its lines are one for each identity, in order, each so read |
| `Modular.Fermat` | src/msks/msks/agecrypto.py:312-313 | Powers to p - 1 are 1 below a prime, the fact the field inverse rests on |
| `Modular.Inverse` | src/msks/msks/agecrypto.py:312-313 | The power to p - 2 inverts |
| `Montgomery.MapSolves` | src/msks/msks/agecrypto.py:310-314 | For y other than 1 the result u solves u(1 - y) = 1 + y (section 4.1 of RFC 7748) |
| `Montgomery.UIsUnique` | src/msks/msks/agecrypto.py:310-314 | Only one number below p does |
| `Montgomery.YIsRecovered` | src/msks/msks/agecrypto.py:310-314 | y is recoverable from u |
| `Montgomery.MapCollides` | src/msks/msks/agecrypto.py:310-314 | Two accepted y share a result iff they are equal or are 1 and -1 |
| `Montgomery.BothOnesAreAccepted` | src/msks/msks/agecrypto.py:292-314 | Both ends of that collision pass the curve check |
| `Montgomery.CurvePointsAreAccepted` | src/msks/msks/agecrypto.py:301-309 | Every point of the curve passes the curve check |
| `Montgomery.AcceptedExactlyOnCurve` | src/msks/msks/agecrypto.py:301-309 | With a curve constant that is no square below a prime that is 1 modulo 4, exactly the y of curve points are accepted; the denominator never vanishes, as the comment in the code argues |
| `Curve25519.EdwardsDSolves` | src/msks/msks/agecrypto.py:286-289 | The constant of the code solves 121666 d = -121665 |
| `Curve25519.AcceptsCurve25519` | src/msks/msks/agecrypto.py:289-314 | A canonical y other than 1 is accepted iff -486664 (u^3 + 486662 u^2 + u) is a square below 2^255 - 19, with u its solution: the points of Curve25519 (section 4.1 of RFC 7748), the constant d not named |
| `Curve25519.RefusedPoints` | src/msks/msks/agecrypto.py:297-309 | Which refusal: non-canonical iff y is not below the modulus, off the curve otherwise |
| `Curve25519.MontgomeryUAcceptsPoints` | src/msks/msks/agecrypto.py:289-314 | With d any solution of 121666 d = -121665 that is no square, the byte function accepts a point iff its y is canonical and some x puts it on the Edwards curve of d |
| `Curve25519.LittleIsReversed` | src/msks/msks/agecrypto.py:297-314 | The little-endian reading of a point is the big-endian one of its bytes reversed |
| `Curve25519.SignIsNotRead` | src/msks/msks/agecrypto.py:297-300 | Points that differ in the top bit of the last byte alone have one result |
| `Curve25519.SizesOf25519` | src/msks/msks/agecrypto.py:286-300 | The modulus is 19 below the sign bit, which is the top one of 32 bytes |
| `Residues.PassingIsSquare` | src/msks/msks/agecrypto.py:308-309 | What passes the power test is a square, the converse direction of the check |
| `Residues.Wilson` | src/msks/msks/agecrypto.py:308-309 | The factorial of p - 1 is -1, the fact that direction rests on |
| `Montgomery.MontgomeryUOfPoints` | src/msks/msks/agecrypto.py:292-314 | The byte function returns 32 little-endian bytes of that solution, sign bit dropped, and two points share them iff their y are equal or 1 and -1 |
| `AgeHeader.SplitJoin` | src/msks/msks/agecrypto.py:666-678 | Joining words with spaces is undone by splitting |
| `AgeHeader.ParseHeader` | src/msks/msks/agecrypto.py:699-729 | The line loop with its running stanza computes the parse, every refusal included |
| `AgeHeader.HeaderRoundTrip` | src/msks/msks/agecrypto.py:681-812 | Parsing a built header followed by any payload gives back the stanzas, the MAC, the bytes it covers and the payload |
| `AgeHeader.RoundTripExactlyWhenCarriable` | src/msks/msks/agecrypto.py:681-812 | A stanza list survives being written and read iff it is within the caps, is of whitespace-free words and its header within the size cap |
| `AgeHeader.ParsedIsSound` | src/msks/msks/agecrypto.py:699-812 | Whatever is accepted keeps the caps, and is cut into the MAC input ending in the mark, the 43 columns that decode to the MAC, and the payload |
| `AgeHeaderGrammar.ParsesExactlyHeaders` | src/msks/msks/agecrypto.py:699-812 | For all bytes: accepted iff they are the version line, 1 to 1024 stanzas, each an argument line of 1 to 129 ASCII words followed by full 64-column lines and at most one short one, and the MAC line, within 2 MiB; each body is the concatenation of the decodings of its lines |
| `AgeHeader.ParsedMacSize` | src/msks/msks/agecrypto.py:763-776 | A parsed MAC has 32 bytes iff its 43 columns are letters, and 31 otherwise |
| `AgeHeader.ShortMacIsParsed` | src/msks/msks/agecrypto.py:763-776 | Every 31 bytes are the MAC of some accepted line |
| `AgeStream.StreamEncrypt` | src/msks/msks/agecrypto.py:827-847 | The chunk loop seals each chunk under its counter nonce, the last with the final flag |
| `AgeStream.StreamDecrypt` | src/msks/msks/agecrypto.py:850-874 | The chunk loop opens them, refusing at the first that does not |
| `AgeStream.ChunksIsCeiling` | src/msks/msks/agecrypto.py:827-847 | The chunk count is the ceiling, and one for an empty message |
| `AgeStream.CountersValue` | src/msks/msks/agecrypto.py:835-844 | The eleven counter bytes bound the chunks at 2^88 |
| `AgeStream.SealFromSucceeds` | src/msks/msks/agecrypto.py:827-847 | Sealing fails only past 2^88 chunks |
| `AgeStream.StreamRoundTrip` | src/msks/msks/agecrypto.py:827-874 | Opening a sealed message gives it back, for every length; the sealed length is the message and 16 bytes for each chunk |
| `AgeStream.NoncesAreDistinct` | src/msks/msks/agecrypto.py:835-844 | The nonces of one message are pairwise distinct and exactly the last is final-flagged |
| `AgeStream.AcceptedPayloadIsSealed` | src/msks/msks/agecrypto.py:850-874 | A payload none of whose opening blocks is forged is accepted iff it is byte for byte the sealed one, so truncation, extension, reordering and cuts end in the error |
| `AgeStream.SealedPayloadIsUnforged` | src/msks/msks/agecrypto.py:827-874 | Every sealed payload of every correct AEAD meets that hypothesis |
| `AgeStream.OnlyTheSealedPayloadOpens` | src/msks/msks/agecrypto.py:850-874 | Under an ideal key that sealed one message the same holds of every payload |
| `AgeStream.SealedOnlyIsPossible` | src/msks/msks/agecrypto.py:850-874 | Such an ideal key exists for every message |
| `AgeFile.Encrypt` | src/msks/msks/agecrypto.py:877-887 | Under a lawful library the file opens to the value under every identity of the recipient, and making it fails only on a degenerate exchange or past the chunk counter |
| `AgeFile.DecryptWithIdentity` | src/msks/msks/agecrypto.py:903-922 | The unwrap loop, the MAC check, the nonce check and the stream, in this order |
| `AgeFile.UnwrapOfWrap` | src/msks/msks/agecrypto.py:407-513 | A stanza wrapped for a recipient is opened by its identity, for both key types |
| `AgeFile.MissExactly` | src/msks/msks/agecrypto.py:463-513 | The decrypt loop passes over a stanza iff it is of another kind, has the argument count of its kind and another fingerprint, or is addressed, well-formed and does not open |
| `AgeFile.FatalStanzas` | src/msks/msks/agecrypto.py:472-513 | A stanza of the own kind ends the loop on a wrong argument count; an addressed ed25519 one on a share that is no 32 bytes or is a low-order point |
| `AgeFile.OpensAmongMisses` | src/msks/msks/agecrypto.py:903-922 | A file with such a stanza opens to the value whatever stanzas for other keys, or unopened ones, stand before it and whatever stands after |
| `AgeFile.OthersFileMatchesNothing` | src/msks/msks/agecrypto.py:903-916 | A file all of whose stanzas are for other keys, or do not open, ends in the error of no match |
| `AgeFile.WrappedIsOther` | src/msks/msks/agecrypto.py:407-513 | What is wrapped for one key is passed over by every identity of another kind or fingerprint |
| `AgeFile.AnotherKeyMatchesNothing` | src/msks/msks/agecrypto.py:877-922 | A file encrypted to one key and opened with another ends in the error of no match, for all four combinations of key types |
| `AgeFile.BlobsSeparateKeys` | src/msks/msks/agecrypto.py:414-431 | Two ssh keys that share a curve point derive different wrap keys from one exchange, where the library is injective |
| `AgeFormat.Ed25519StanzaIs` | src/msks/msks/agecrypto.py:414-431 | A stanza for an ed25519 key, spelled out: kind, fingerprint and share as arguments, and the body sealed under a zero nonce by the key that HKDF derives from the tweaked exchange with share and point as salt |
| `AgeFormat.RsaStanzaIs` | src/msks/msks/agecrypto.py:434-449 | A stanza for an RSA key: kind, fingerprint, and the file key under OAEP with the label of the format |
| `AgeFormat.FingerprintIs` | src/msks/msks/agecrypto.py:257-262 | Six letters that decode to the first four bytes of the digest of the blob |
| `AgeFormat.FileIs` | src/msks/msks/agecrypto.py:681-696 | A whole file, byte for byte: version line, argument line, folded body, mark, MAC line over everything through the mark, nonce and sealed payload, each under the key its own label derives |
| `AgeFormat.SealedChunkIs` | src/msks/msks/agecrypto.py:827-847 | The i-th 65552 bytes of a sealed payload are the i-th 64 KiB of the message under the nonce of i in eleven bytes and a flag that marks the last |
| `AgeFormat.DecryptedIs` | src/msks/msks/agecrypto.py:903-922 | The first stanza that is not passed over decides: its error, or with its key the MAC mismatch, the missing nonce, the error of the payload, or the value, in this order |
| `AgeFile.EncryptThenDecrypt` | src/msks/msks/agecrypto.py:877-922 | Encrypting fails only on a degenerate exchange or past the chunk counter; otherwise the identity gets the value back |
| `AgeFile.OpenedIsAddressed` | src/msks/msks/agecrypto.py:890-900 | Whatever opens under a key carries a stanza addressed to it |
| `AgeFile.AcceptedFileIsAuthentic` | src/msks/msks/agecrypto.py:815-922 | Under a lawful library an accepted file with nothing forged in it is the original, to the byte but for the two spare bits of the last MAC letter, and its value is the original one |
| `AgeFile.HonestFileIsUnforged` | src/msks/msks/agecrypto.py:877-922 | Every file that encrypting makes opens and meets these hypotheses, under every lawful library |
| `AgeKeys.KeyLineReadsBack` | src/msks/msks/agecrypto.py:234-254 | The line of a key gives its algorithm and blob back, whatever comment follows |
| `AgeKeys.BlobIsNeverEmpty` | src/msks/msks/agecrypto.py:248-249 | The first string of the blob is always there to compare, as the comment in the code says |
| `AgeKeys.RecipientIsOfItsLine` | src/msks/msks/agecrypto.py:275-404 | A line that makes a recipient is age-capable, and kind, blob and fingerprint are those of the line |
| `AgeRecipients.RecipientExactly` | src/msks/msks/agecrypto.py:358-404 | A line makes a recipient iff its second word decodes to whole strings, the first of them its first word, in the shape of its kind: a 32-byte point the map takes, or two integers with a modulus of at least 2^2047 that the library takes; and the recipient is of those |
| `AgeRecipients.PartsRefused` | src/msks/msks/agecrypto.py:234-254 | Which refusal a line that names no key ends in, each by an iff |
| `AgeRecipients.KeyRefused` | src/msks/msks/agecrypto.py:358-404 | Which refusal a key that makes no recipient ends in, each by an iff |
| `AgeRecipients.CapableIs` | src/msks/msks/agecrypto.py:275-283 | The question asked of a line is about its first word, where it has a second; of a line that names a key it is whether its kind has recipients |
| `AgeRecipients.RsaIdentityRefused` | src/msks/msks/agecrypto.py:614-626 | A loaded RSA key is refused iff its modulus is below 2^2047, or a number is too long for the wire |
| `AgeRecipients.Utf8CharIs` | src/msks/msks/agecrypto.py:250-251 | The encoding the first string is compared with is that of section 3 of RFC 3629 |
| `AgeKeys.Ed25519LineIsPaired` | src/msks/msks/agecrypto.py:585-611 | The line of an ed25519 key makes the recipient whose private half the loaded identity is |
| `AgeKeys.RsaLineIsPaired` | src/msks/msks/agecrypto.py:614-626 | Likewise for RSA: both numbers survive the wire |
| `AgeKeys.EncryptToLineOpens` | src/msks/msks/agecrypto.py:877-922 | What is encrypted to a key line opens under the key loaded from its private half |
| `AgeKeys.LawsAreConsistent` | src/msks/msks/agecrypto.py:642-663 | The laws assumed of the library can hold together |
| `AgeKeys.AuthenticFileExists` | src/msks/msks/agecrypto.py:877-922 | A lawful library, an identity and an accepted file for every value that meet them together |
| `AnthropicStream.Stream.CloseOpenBlock` | src/msks/msks/llm.py:1245-1254 | Closes the open block, if any, and forgets the text block |
| `AnthropicStream.Stream.TextEvents` | src/msks/msks/llm.py:1162-1186 | One text piece to its events and the new bookkeeping |
| `AnthropicStream.Stream.OpenToolBlock` | src/msks/msks/llm.py:1204-1225 | A fresh tool index gets the next block after the open one closes |
| `AnthropicStream.Stream.ToolEvents` | src/msks/msks/llm.py:1188-1243 | One fragment to its events and the new bookkeeping |
| `AnthropicStream.Stream.DeltaEvents` | src/msks/msks/llm.py:1152-1160 | Text first, then every fragment in order |
| `AnthropicStream.Stream.ChoicesEvents` | src/msks/msks/llm.py:1128-1150 | Every choice in order; the stop reason is the last one named |
| `AnthropicStream.Stream.FeedChunk` | src/msks/msks/llm.py:1099-1142 | One chunk to its events: the frame once, then the choices, then the usage |
| `AnthropicStream.Stream.FinishStream` | src/msks/msks/llm.py:1256-1271 | The closing events, framed even when no chunk came |
| `StreamGrammar.RunKeepsInv` | src/msks/msks/llm.py:1162-1243 | After any pieces: tool indexes are exactly those seen, map to distinct started blocks, and the open block is that of the last text or last new call |
| `StreamGrammar.WholeShape` | src/msks/msks/llm.py:1118-1271 | A whole stream is the frame, the events of its pieces, the stop of the open block, and the closing pair |
| `StreamGrammar.WholeIsAccepted` | src/msks/msks/llm.py:1118-1271 | Every stream matches message_start ping (start delta* stop)* message_delta message_stop with start indexes 0, 1, 2 ...; every delta names the open block iff no tool index carries a fragment after another block opened |
| `StreamConservation.WholeConserves` | src/msks/msks/llm.py:1162-1243 | Text deltas are the content pieces, the JSON deltas of the block of each tool index are its fragments in order, the blocks are distinct and none is a text block; interleaved streams included |
| `StreamRefinement.ClientAtEnd` | src/msks/msks/llm.py:1118-1271 | What a client holds at the end: the blocks of the pieces under the head of the first chunk and the last stop reason and output count |
| `StreamRefinement.StreamRefinesSingleShot` | src/msks/msks/llm.py:955-1036 | A client of the stream holds the head, stop reason and output count of the single-shot message always, its content iff the answer is not empty, its text precedes its calls and every call has an id, and its input count iff the first chunk reports the last one reported |
| `StreamRefinement.LateUsageIsLost` | src/msks/msks/llm.py:1108-1126 | A concrete stream whose usage comes last, where the input counts differ |
| `SingleShot.AnswerKeepsItsCalls` | src/msks/msks/llm.py:955-1010 | After the texts, one tool block for each call, in order, with its id and name; its input is the parse of the arguments, that of "{{}}" when they are empty, and the empty object when they do not parse |
| `SingleShot.AnswerKeepsItsTexts` | src/msks/msks/llm.py:973-1010 | Before the calls, the string unless empty, or exactly the text parts in order; one empty text when there would be nothing |
| `SingleShot.AnswerKeepsItsHead` | src/msks/msks/llm.py:1013-1036 | Id, model and counts are those of the answer or the defaults, and each stop reason is given by the finish reasons it stands for |
| `SingleShot.EveryCallIsDelivered` | src/msks/msks/llm.py:1188-1243 | However the chunks come, the client finishes with a tool block for each call index: id and name of the first fragment, or an id made up for the index, and the parse of all fragments joined |
| `SingleShot.StreamedBlocksStartEmpty` | src/msks/msks/llm.py:1162-1225 | Every streamed block starts with empty text or the empty object |
| `SingleShot.StreamedDeltasSaySomething` | src/msks/msks/llm.py:1152-1243 | No streamed delta is empty |
| `SingleShot.FallbackIdsAreDistinct` | src/msks/msks/llm.py:1219-1219 | Calls of different indexes never share a made-up id |
| `StreamCutting.AnyCutStreamsTheAnswer` | src/msks/msks/llm.py:1001-1036 | For every non-empty answer of text and named calls, cut into pieces in any way, the client of the stream holds the single-shot message, with the input count of the first chunk |
| `MessageReplay.EventsFromMessage` | src/msks/msks/llm.py:1274-1316 | The loop yields the frame, for each block its start with the whole block, one whole delta and its stop, and the closing pair with both counts |
| `MessageReplay.ReplayIsAccepted` | src/msks/msks/llm.py:1274-1316 | The replay of any message matches the grammar of streamed events, every delta naming the open block |
| `MessageReplay.ReplayCarriesTheMessage` | src/msks/msks/llm.py:1274-1316 | Its text deltas are the texts of the message in order, and the JSON delta of each tool block is its input |
| `MessageReplay.ReplayFrames` | src/msks/msks/llm.py:1288-1305 | The frames by position: the start with the block in full, one delta with all its content, its stop |
| `MessageReplay.ReplayIsReceived` | src/msks/msks/llm.py:1274-1316 | A client of the replay holds the id, model, stop reason and counts, and the id, name and input of each tool block; it holds a text twice over if it starts from the announced one, and exactly if it takes deltas alone |
| `MessageReplay.ReplayIsTheMessageIff` | src/msks/msks/llm.py:1274-1316 | The client that starts from announced texts finishes with the message iff every text in it is empty; the one that takes deltas alone always does |
| `SparseFiles.SettleWindow` | src/msks/msks/persist.py:874-888 | Zeros leave a hole, data is written, and either way the file goes on reading as the stream |
| `SparseFiles.DataWindowsHoldData` | src/msks/msks/persist.py:863-888 | The written windows are exactly the aligned ones with a byte other than zero |
| `SparseFiles.WindowedCopy` | src/msks/msks/persist.py:771-785 | The copy is content-identical for every file, written in its data windows only |
| `HomeVolumes.DrainWindows` | src/msks/msks/persist.py:863-871 | Full windows are settled in order, and less than one stays pending |
| `HomeVolumes.ValidateExt4` | src/msks/msks/persist.py:907-915 | Of the body received: the empty one and one without the magic are refused, each by its own error, and no other |
| `HomeVolumes.MirroredMagic` | src/msks/msks/persist.py:874-915 | The scratch file shows the magic iff the body does, holes included |
| `HomeVolumes.FinishVolume` | src/msks/msks/persist.py:849-860 | The tail answers the verdict of the whole body, and on success the file is the body |
| `HomeVolumes.Artifacts.ImportHomeVolume` | src/msks/msks/persist.py:812-846 | For every chunking: on success exactly the body is installed and its length answered, on refusal the old volume stands, and which it is depends on the body alone |
| `HomeVolumes.InstalledBodies` | src/msks/msks/persist.py:891-915 | Installed iff the body is whole, has at least 1082 bytes and the magic at 1080 |
| `HomeVolumes.Artifacts.CloneFile` | src/msks/msks/persist.py:713-750 | The target gets the bytes of the source, or is refused as existing or missing, and nothing else changes |
| `SecretCache.PlaintextCache.AcceptSecrets` | src/msks/msks/secretcache.py:102-108 | Every given ref takes its value and one fresh deadline, and no other entry changes |
| `SecretCache.PlaintextCache.RecordServed` | src/msks/msks/secretcache.py:110-116 | Every given row takes one fresh deadline |
| `SecretCache.PlaintextCache.OperatorConnected` | src/msks/msks/secretcache.py:126-129 | One more operator |
| `SecretCache.PlaintextCache.OperatorDisconnected` | src/msks/msks/secretcache.py:131-140 | One fewer, never below zero, and at zero the session-held entries go |
| `SecretCache.PlaintextCache.ReadSecret` | src/msks/msks/secretcache.py:142-154 | The live value, or the locked error and the dead entry gone |
| `SecretCache.PlaintextCache.Knows` | src/msks/msks/secretcache.py:156-164 | Whether a read would answer, with its effect |
| `SecretCache.PlaintextCache.IsServed` | src/msks/msks/secretcache.py:166-175 | Whether the row was served under a live window, and the dead marker gone |
| `SecretCache.PlaintextCache.FlushExpired` | src/msks/msks/secretcache.py:177-207 | Exactly the dead entries of both tables go, and are counted |
| `SecretCache.PlaintextCache.DropSessionEntries` | src/msks/msks/secretcache.py:209-221 | Exactly the session-held secrets and markers are taken out |
| `SecretCache.PlaintextCache.DropEverything` | src/msks/msks/secretcache.py:223-227 | Both tables become empty |
| `SecretCache.PlaintextCache.DropNamed` | src/msks/msks/secretcache.py:229-238 | Exactly the named refs and rows go |
| `SecretCacheRuns.RunAgrees` | src/msks/msks/secretcache.py:91-238 | After any run, key by key: the entry that stands by the operation log, unless a probe or sweep has found it dead |
| `SecretCacheTheorems.ReadIsJustified` | src/msks/msks/secretcache.py:142-154 | A read answers v only if the last store of the ref gave v, nothing forgot or cleared it since, and its deadline is ahead or it is session-held with an operator standing and none leaving the count at zero since |
| `SecretCacheTheorems.OnlyStoresStamp` | src/msks/msks/secretcache.py:91-238 | No operation but a store or a serve gives an entry or moves a deadline |
| `SecretCacheTheorems.DatedReadsFollowTheLog` | src/msks/msks/secretcache.py:142-207 | Under a clock that does not go back a dated secret reads back until its deadline and locked after: lazy deletes and sweeps do not show |
| `SecretCacheTheorems.UnlockLastsItsWindow` | src/msks/msks/secretcache.py:96-154 | After any run whose last store of a ref had a window, a read answers the stored value before that store plus the window, and locked from then on |
| `SecretCacheTheorems.ServingLastsItsWindow` | src/msks/msks/secretcache.py:96-175 | Likewise a served row is alive for the window from its serving |
| `SecretCacheTheorems.UnlockWithoutWindow` | src/msks/msks/secretcache.py:96-154 | With a zero window the entry is held for the session: it reads back iff an operator stands, the count has not fallen to zero since, and no read or sweep found none standing |
| `SecretCacheTheorems.NothingWithoutOrigin` | src/msks/msks/secretcache.py:142-175 | A key without a standing entry by the log is locked and not served |
| `SecretCacheTheorems.ProbesFollowTheLog` | src/msks/msks/secretcache.py:142-207 | A probe answers as the log says iff it is not for a session-held entry found dead by an earlier probe and asked for with an operator standing |
| `SecretCacheTheorems.FlushIsInvisibleIff` | src/msks/msks/secretcache.py:199-207 | A sweep changes no later answer iff an operator stands or nothing is session-held |
| `SecretCacheTheorems.FlushCountsWhatGoes` | src/msks/msks/secretcache.py:177-207 | A sweep answers by how many entries the two tables shrank |
| `SecretCacheTheorems.SweptUnlockIsLost` | src/msks/msks/secretcache.py:199-207 | A concrete run in which the sweep does change an answer |

## Left out

- The wording and the sorted display order of violation messages: the gates return structured violations, and names are values with equality only.
- The walk over Python syntax trees, configuration files and file discovery: the gates start from edges, pairs and maps.
- The snapshot, fan-in, facade and entry-point gates: counting and comparison without an invariant.
- The counts of `pair_counts`: only which pairs occur matters to the modelled gates.
- ChaCha20-Poly1305, HKDF, HMAC, SHA-2, X25519, OAEP and key parsing: functions with the stated laws; the three random draws of `encrypt` are parameters.
- Montgomery.AcceptedExactlyOnCurve: takes as hypotheses that the modulus is prime and the constant d no square, as the comment in the code does; so does Curve25519.MontgomeryUAcceptsPoints. Curve25519.AcceptsCurve25519 needs the first alone.
- AgeFile.BlobsSeparateKeys: takes the hash and the exchange to be injective in what they are given, which no real library is on all inputs.
- Base64.CanonicalWhenSpareBitsClear: takes padding after whole quads, as in four letters and four `=`, to be refused; interpreter versions differ on it.
- Loading private key files and asking for passphrases: an identity is made from a seed or from a key with its numbers.
- `mint_age_identity` and `secret_key_hash`: one library call each around modelled encoders.
- A stanza is a value: the parser appends to the open stanza, which is also the last of the list; the model rewrites the last element.
- JSON: the parse of arguments is a parameter, and server-sent-event text and request conversion are not modelled.
- Completions with several choices in the single-shot conversion: the streamed answer has one.
- fsync, the reflink call, thread hops, scratch names and leftovers: a file is its bytes and the positions written, and installing is one assignment.
- Wall-clock time is whole microseconds given to each operation; an unlock window below one microsecond is not distinguished from its rounding.
- HTTP, sockets, subprocesses, the command line and virtual machine start: no part of the modelled rules.
