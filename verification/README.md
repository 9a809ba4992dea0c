# Verified model of the Rotifer reference scripts, evaluation genes and agents

This project restates, in Dafny, the parts of the repository whose correctness cannot be read off
one function, and proves the properties they exist for. The proofs are for all inputs, all runs and
all interleavings; hash functions, the Ed25519 curve, square roots and regular expressions are
parameters with their laws stated.

**Gene records in the DHT** (`Radix`, `Varint`, `Base58`, `Protobuf`, `Ed25519`, `GeneRecord`,
`GeneRecordLaws`, `Replication`, and what they mean in `Layouts`, `Wire`, `Signatures`,
`Acceptance`). Bytes and numbers are concrete: varints with their 64-bit limit, protobuf fields,
base58 with leading zeros, clamping and double-and-add. The curve is any lawful commutative group
whose points have 32-byte encodings that decode, with a base of order L (section 5.1 of RFC 8032);
that such laws are consistent is shown on the residues modulo L. Main results: a value is accepted
exactly if it is a record within the limits and the time window that the publisher in its key has
signed (`AcceptedExactlyIf`), and what is not accepted is refused for the first of the conditions
that fails (`VerdictExactly`); an honest publisher's record is accepted and stored byte for byte
(`HonestPublishing`); what is stored is a fixed point of validation and never longer than what came
in (`StoredFormIsFixed`); each gene and publisher have exactly one accepted key (`OneKeyText`);
replicas that have seen the same records, in any order and with repeats, agree (`ReplicasConverge`),
on a newest record (`NewestIsKept`).

**Game of Life** (`Life`, `LifeSparse`, `Bits`, `LifeBitwise`, `LifeMeaning`). The dense engine's
step is the specification, a function on sets of cells; a cell is in its result exactly if the
number of its neighbours is in the right one of the rule's two sets (`NextExactlyIf`). The sparse
engine scatters counts instead of gathering them and agrees for every rule without a 0 in it, and
for no other rule on a board with room (`AgreeExactlyWithoutZero`); from input grid to output grid
it then returns the dense iterate (`LifeSparse.Express`). The bit-packed engine works on arrays of
32-bit words, swaps two buffers, keeps the padding zero for every rule and stops exactly where a
board dies out or the hash of its words comes back; a board is packed in one way only, so that hash
is a function of the board.

**Canonical JSON, schemas and gene IDs** (`Numbers`, `NumberText`, `JsonText`, `Json`, `JsonReader`,
`JsonLaws`, `TextForms`, `Schemas`, `Normalising`, `Validator`, `Conformance`, `ErrorReports`,
`SchemaMeaning`, `CanonMeaning`, `SchemaGroups`, `GeneId`, `HashedBytes`). Canonical text (sections
3.2.2 and 3.2.3 of RFC 8785) can be read back, and two values have the same text exactly if they are
the same value up to order of members and spelling of numbers (`TextIsFaithful`); members stand in
the order of their names' UTF-16 code units (`ObjectText`), and a number's size tells how it is
printed (`FormByMagnitude`). The validator is modelled with its JavaScript conversions, inherited
properties and exceptions; it returns no error exactly if the data conforms to the schema
(`ValidExactlyIfConforms`), the errors it reports at the data itself name exactly the keywords
broken (`ReportedExactlyIf`), it returns the identical error list for a schema, its normalisation
and its canonical form, and so schemas found compatible accept and reject the same data
(`CompatibleSchemasAgree`). Compatibility is an equivalence on comparable genes, greedy grouping
finds its classes and neither exception of the grouping script can occur (`GroupAndCheck`). The
streams hashed into a gene ID can be taken apart again: any two byte strings that are accepted as
WebAssembly are hashed alike exactly if the same sections are kept of them
(`SameStreamExactlyIfSameSections`), and two file maps exactly if they hold the same files.

**N-body engines** (`Sums`, `Integrator`, `Gravity`, `BruteForce`, `Extent`, `SpatialGrid`,
`Motion`, `QuadTree`, `BarnesHut`, `TreeLaw`, `Inside`, `Separation`, `QuadNodes`, `TreeForces`),
over exact reals. Each step is the velocity Verlet formula (`StepIsVerlet`) and exact under constant
acceleration (`FallsExactly`). Both pair engines conserve momentum, and all three engines run
backwards (`BruteIsReversible`, `SpatialIsReversible`, `TreeIsReversible`). The mutable quadtree is
a heap structure with its footprint; insertion is proved against a tree value, terminates because
sizes are halved, and keeps every particle in exactly one place. A force computation accounts for
every other particle exactly once, exactly if no particle sits in a child that is skipped for lack
of mass (`OnceExactlyIfNoneLost`), which with positive masses never happens; it takes at most n
interactions, n - 1 with positive masses where no cell is far (`OneInteractionEach`), and there
equals the direct sum. One thing a reader may not expect: the root cell is only about half as wide
as the particles' extent, so a particle's own mass can be among what pulls it, also in the frame the
engine chooses (`EngineCanPullItself`). That cannot happen where all particles lie in the root's
square and no divided node is small against the softening (`InsidersDoNotPullThemselves`). The first
condition is narrow: in the engine's frame it holds exactly where the particles are spread over no
more than 0.6 on both axes (`ContainedExactlyIfNarrow`), so hardly any input meets it. The second
follows from the places alone where particles keep apart by about 1.42 times the softening
(`NarrowAndSeparatedDoNotPullThemselves`).

**Two step machines** (`MapLimit`, `Failover`, `Agent`, `Fitness`). Bounded parallel map is a
transition system; the theorem covers every interleaving, including workers that reject and limits
below 1. The failover agent is a class whose genes are looked up by name and may share names, within
a domain or across domains; a turn tries each gene at most once, in order of fitness, and over any
run of ticks each gene's counters grow by exactly the calls that were made (`RunCounts`) and its
fitness moves by 0.05 for an answer and 0.15 for a failure between 0 and 1 (`RunFitness`).

Methods follow the loops of the source and are proved equal to functions; the laws are lemmas about
those functions. Beside them stand lemmas that say what the functions mean without naming them:
conditions, sums, counts and bytes written out. `dafny verify dfyconfig.toml` checks everything.

## Model

| member | source | states |
|---|---|---|
| Varint.Write | scripts/p2p-dht-v1-reference.py:218-224 | the loop writes `Encode(n)` |
| Varint.Read | scripts/p2p-dht-v1-reference.py:239-251 | the loop accepts and returns exactly what the recursive reader does, ten bytes and 64 bits at most |
| Varint.ReadsBack | scripts/p2p-dht-v1-reference.py:218-251 | reading undoes writing wherever the encoding stands, for every number below 2^64 |
| Varint.EncodeIsShortest | scripts/p2p-dht-v1-reference.py:218-251 | no accepted varint for a number is shorter than the written one |
| Layouts.VarintIsGroups | scripts/p2p-dht-v1-reference.py:218-224 | the written bytes are the number in groups of seven bits, least significant first, all but the last marked, and no needless group at the end |
| Layouts.ReadsExactlyVarints | scripts/p2p-dht-v1-reference.py:239-251 | what is accepted, and with which value: groups of seven bits, at most ten bytes and one bit in the tenth; nothing else |
| Base58.WriteB58 | scripts/p2p-dht-v1-reference.py:318-324 | the division loop yields base 58 digits with one `1` per leading zero byte |
| Base58.ReadB58 | scripts/p2p-dht-v1-reference.py:327-335 | the loop decodes, and refuses exactly the texts with a foreign character |
| Base58.DecodeEncode | scripts/p2p-dht-v1-reference.py:318-335 | every byte string, leading zeros included, survives encoding |
| Base58.EncodeDecode | scripts/p2p-dht-v1-reference.py:318-335 | a text decodes to the one byte string it encodes, or encodes nothing |
| Base58.EncodedLength | scripts/p2p-dht-v1-reference.py:303-335 | a publisher key takes at most 58 letters |
| Layouts.AlphabetAscends | scripts/p2p-dht-v1-reference.py:304 | the letters are the ASCII digits and letters but 0, I, O and l, in ascending order |
| Layouts.TextIsTheNumber | scripts/p2p-dht-v1-reference.py:318-324 | the text has the value of the bytes in base 58 and as many ones in front as the bytes have zeros |
| Protobuf.ParseFields | scripts/p2p-dht-v1-reference.py:254-293 | the loop computes `Parse`: unknown fields skipped, repeated or ill-typed ones refused |
| Protobuf.ReadsFieldBack | scripts/p2p-dht-v1-reference.py:227-293 | every written field is read back |
| Protobuf.ParsesEmitted | scripts/p2p-dht-v1-reference.py:227-293 | the reader inverts the writer for every field list and schema |
| Protobuf.DelimitedIsShortest | scripts/p2p-dht-v1-reference.py:231-293 | no accepted length-delimited field is shorter than the written form |
| Wire.FixedFieldIsSkipped | scripts/p2p-dht-v1-reference.py:264-278 | an unknown field on wire 1 or 5 is passed over with eight or four bytes |
| Wire.FieldIsRefused | scripts/p2p-dht-v1-reference.py:262-275 | a field of any other wire type, or cut off, makes the buffer malformed |
| Wire.KnownFieldIsRefused | scripts/p2p-dht-v1-reference.py:276-286 | so does a known field that is repeated or on the wrong wire |
| Wire.NumberIsRefused | scripts/p2p-dht-v1-reference.py:258-261 | and a field number below 1 or above 2^29 - 1 |
| Wire.Utf8ExactlyIfEncoded | scripts/p2p-dht-v1-reference.py:287-291 | a text field is taken exactly if it is the UTF-8 of code points without surrogates |
| Ed25519.Curve.Mul | scripts/p2p-dht-v1-reference.py:40-47 | double-and-add computes the s-fold sum |
| Ed25519.Curve.OrderReduces | scripts/p2p-dht-v1-reference.py:21-47 | multiples of the base depend on the scalar modulo L only |
| Ed25519.Curve.SigningEquation | scripts/p2p-dht-v1-reference.py:106-112 | [r + k a mod L]B = [r]B + [k][a]B |
| Ed25519.Curve.SignedVerifies | scripts/p2p-dht-v1-reference.py:106-140 | what a seed signs verifies under its public key, for every message |
| Ed25519.ClampedOrder | scripts/p2p-dht-v1-reference.py:94-99 | eight times a clamped scalar is never a multiple of L |
| Ed25519.Curve.PublicKeyIsSound | scripts/p2p-dht-v1-reference.py:94-116 | a public key decompresses and is not of small order |
| Ed25519.LawsAreConsistent | scripts/p2p-dht-v1-reference.py:20-87 | the laws asked of the curve have a model |
| Signatures.VerifiesExactlyIf | scripts/p2p-dht-v1-reference.py:119-140 | a signature verifies exactly if it has 64 bytes, S is below the order and [S]B = R + [k]A |
| Signatures.SignatureIs | scripts/p2p-dht-v1-reference.py:94-112 | R is the hash of second half of the expanded seed and message, times the base; S is that number plus challenge times secret scalar, modulo the order |
| Signatures.ClampKeepsBits | scripts/p2p-dht-v1-reference.py:94-99 | the secret scalar has bit 254 set, bits 0 to 2 clear and bits 3 to 253 of the hash |
| Signatures.SameScalar | scripts/p2p-dht-v1-reference.py:94-99 | seeds have the same secret scalar exactly if their hashes agree in those bits |
| GeneRecord.ReencodingIsNoLonger | scripts/p2p-dht-v1-reference.py:346-420 | the re-encoded record is no longer than a value that parses to the same fields |
| GeneRecord.ParsesRecord | scripts/p2p-dht-v1-reference.py:254-347 | a record parses to its three fields |
| GeneRecordLaws.ReadsKeyTextBack | scripts/p2p-dht-v1-reference.py:377-387 | the key text of a gene and a publisher reads back as both |
| GeneRecordLaws.OneKeyText | scripts/p2p-dht-v1-reference.py:377-387 | a gene and publisher pair has exactly one accepted key text |
| Acceptance.AcceptedExactlyIf | scripts/p2p-dht-v1-reference.py:377-420 | accepted exactly if: the key text names gene and publisher, at most 8192 bytes parse to the three fields, the publisher is that of the key and no small-order point, the announcement parses within its limits, names the key's gene and lies in the window, and its signature verifies |
| Acceptance.VerdictExactly | scripts/p2p-dht-v1-reference.py:399-420 | of a value with key and parts: which step refuses it, for what reason and whether it is charged, by the first condition that fails |
| Acceptance.EarlyVerdict | scripts/p2p-dht-v1-reference.py:377-398 | of any other value: which of the first steps refuses it |
| Acceptance.OneName | scripts/p2p-dht-v1-reference.py:380-387 | a key text names one gene and one publisher at most |
| Acceptance.SignedIsInjective | scripts/p2p-dht-v1-reference.py:342-343 | no two announcements are signed as the same bytes |
| GeneRecordLaws.Accepted | scripts/p2p-dht-v1-reference.py:377-420 | what acceptance implies: size, key, three fields, all later checks, the stored bytes; what the later checks ask for is written out in `Acceptance.AcceptedExactlyIf` |
| GeneRecordLaws.StoredFormIsFixed | scripts/p2p-dht-v1-reference.py:346-420 | the stored bytes are no longer than the value and are accepted again, unchanged |
| GeneRecordLaws.SignedRecordIsStored | scripts/p2p-dht-v1-reference.py:342-420 | a record signed over any announcement that passes the checks is stored byte for byte |
| GeneRecordLaws.ReadsAnnouncementBack | scripts/p2p-dht-v1-reference.py:354-420 | a written announcement parses to the same fields |
| GeneRecordLaws.HonestRecordFits | scripts/p2p-dht-v1-reference.py:298-351 | with fields of at most 128 bytes the size limit is never reached |
| GeneRecordLaws.HonestPublishing | scripts/p2p-dht-v1-reference.py:338-420 | for every seed and every announcement within limits and window, publishing succeeds at the publisher's key |
| Replication.ReplacesIsStrictTotalOrder | scripts/p2p-dht-v1-reference.py:423-431 | replacement is irreflexive, transitive and total on timestamp and signature; which order that is says `ReplacesExactlyIf` |
| Replication.RankIsCanonical | scripts/p2p-dht-v1-reference.py:377-431 | received and canonical bytes of an accepted value rank the same |
| Replication.RunHoldsBest | scripts/p2p-dht-v1-reference.py:423-431 | after any deliveries the stored record is the best accepted one, which is a newest one (`NewestIsKept`) |
| Common.LexLessExactlyIf | scripts/p2p-dht-v1-reference.py:427-431 | byte order: a proper prefix, or the smaller byte at the first difference |
| Replication.ReplacesExactlyIf | scripts/p2p-dht-v1-reference.py:427-431 | of two accepted records the incoming one replaces exactly if its time is later or, at the same time, its signature comes first |
| Replication.NewestIsKept | scripts/p2p-dht-v1-reference.py:423-431 | after any deliveries no accepted record has a later time than the stored one, and none of the same time a signature that comes before |
| Replication.ReplicasConverge | scripts/p2p-dht-v1-reference.py:423-431 | two replicas with the same accepted records hold the same rank, however ordered, repeated or compared |
| Life.CountNeighbors | genes/evolve-life/index.ts:157-168 | the inner loops count the live cells of the torus neighbourhood |
| Life.Step | genes/evolve-life/index.ts:149-175 | the next grid holds exactly the cells the rule keeps or creates |
| Life.CountAlive | genes/evolve-life/index.ts:129-137 | the count is the number of live cells |
| Life.HistoryIsEvolution | genes/evolve-life/index.ts:213-241 | board i of a recorded run is the i-th iterate |
| Life.Generations | genes/evolve-life/index.ts:212-241 | the swapped grids hold the iterates; the loop stops early exactly at the first empty board or the first hash that is that of one or two generations before; peak, extinction and stabilisation are what the history says |
| LifeMeaning.NextExactlyIf | genes/evolve-life/index.ts:149-175 | which cells live next: by the number of the eight offsets, wrapped round, at which there is life |
| LifeMeaning.OnlyDeath | genes/evolve-life/index.ts:169-173 | with nothing in B no cell ever comes to life |
| LifeMeaning.GridHashIs | genes/evolve-life/index.ts:139-147 | the hash is the grid's digits as one number to base 31, modulo 2^32 and signed |
| LifeSparse.KeyCellInverts | genes/evolve-life-sparse/index.ts:42-48 | keys and cells determine each other below the stride |
| LifeSparse.HitsAreNeighbors | genes/evolve-life-sparse/index.ts:110-131 | scattered hits sum to gathered neighbours |
| LifeSparse.CountHits | genes/evolve-life-sparse/index.ts:119-131 | the count map holds each cell's number of hits |
| LifeSparse.SparseStep | genes/evolve-life-sparse/index.ts:110-141 | for cells in range the new set is the sparse successor, and without 0 in the rule the dense one |
| LifeSparse.ScatterRefinesGather | genes/evolve-life-sparse/index.ts:110-141 | without 0 in the rule the sparse and the dense step agree on every board |
| LifeSparse.ScatterRefinesGathers | genes/evolve-life-sparse/index.ts:110-141 | and over any number of generations |
| LifeSparse.AgreeExactlyWithoutZero | genes/evolve-life-sparse/index.ts:133-140 | they agree on all boards exactly if no cell with zero neighbours can be born or survive |
| LifeSparse.ToGrid | genes/evolve-life-sparse/index.ts:151-161 | the grid shows the live cells |
| LifeMeaning.GridReadsBack | genes/evolve-life-sparse/index.ts:151-197 | the rows that show a board are that board when given as input |
| LifeSparse.AsManyCells | genes/evolve-life-sparse/index.ts:198-205 | the size of the key set is the population |
| LifeSparse.SparseHash | genes/evolve-life-sparse/index.ts:143-149 | the loop computes the hash of the keys in some order, each once |
| LifeSparse.HashDependsOnOrder | genes/evolve-life-sparse/index.ts:143-149 | the same two keys hash differently in the two orders |
| LifeMeaning.SparseNextExactlyIf | genes/evolve-life-sparse/index.ts:110-141 | which cells live next in the sparse engine: the same, but only with a neighbour |
| LifeMeaning.KeysHashIs | genes/evolve-life-sparse/index.ts:143-149 | the hash is the keys as one number to base 31, modulo 2^32 and signed |
| LifeSparse.SparseGenerations | genes/evolve-life-sparse/index.ts:198-224 | each generation holds the sparse iterate; the loop stops early exactly at the first empty set or the first hash that is that of one or two generations before, with 0 before the first; peak, extinction and stabilisation are what the history says |
| LifeSparse.Express | genes/evolve-life-sparse/index.ts:177-237 | a grid given as input comes back as the sparse iterate of the last generation, with its population; without 0 in the rule that is the dense iterate |
| Bits.ProductIsExact | genes/evolve-life-bitwise/index.ts:64-68 | the product in the population count stays below 2^53 |
| Bits.PopcountCounts | genes/evolve-life-bitwise/index.ts:64-68 | the parallel population count is the number of set bits, for every word |
| LifeBitwise.PaddingIsZero | genes/evolve-life-bitwise/index.ts:44-62 | bits beyond the width are zero in a packed board |
| LifeBitwise.GetBit | genes/evolve-life-bitwise/index.ts:52-56 | a bit tells whether its cell is alive |
| LifeBitwise.SetBitOf | genes/evolve-life-bitwise/index.ts:58-62 | setting a bit adds that cell and no other |
| LifeBitwise.CountAliveBits | genes/evolve-life-bitwise/index.ts:70-76 | the population count over all words is the number of live cells |
| LifeBitwise.StepBits | genes/evolve-life-bitwise/index.ts:144-176 | the packed step refines the dense step for every rule |
| LifeBitwise.PackedOneWay | genes/evolve-life-bitwise/index.ts:44-62 | a board determines all words it is packed in |
| LifeMeaning.BitOfCell | genes/evolve-life-bitwise/index.ts:44-62 | which bit of which word stands for a cell, and that the bits beyond the width are 0 |
| LifeMeaning.WordsHashIs | genes/evolve-life-bitwise/index.ts:78-84 | the hash is the signed words as one number to base 31, modulo 2^32 |
| LifeBitwise.GenerationsBits | genes/evolve-life-bitwise/index.ts:231-259 | each generation of the double-buffered loop packs the dense iterate; it stops early exactly at an empty board or where the hash of the words is that of one or two generations before, with 0 before the first |
| LifeBitwise.Express | genes/evolve-life-bitwise/index.ts:204-264 | a grid given as input comes back as the dense iterate of the last generation, with its population |
| LifeBitwise.Unpack | genes/evolve-life-bitwise/index.ts:178-188 | unpacking shows the packed board |
| NumberText.WrittenFormDenotes | scripts/gene-id-v2-reference.py:49-65 | in each of the four forms the digits, point and exponent denote the number written |
| NumberText.TextHasTheValue | scripts/gene-id-v2-reference.py:36-65 | read as a decimal the text has exactly the number's value, integers included |
| NumberText.ReadsNumberBack | scripts/gene-id-v2-reference.py:36-65 | a reader recovers the normal form from the text |
| Numbers.SameNormal | scripts/gene-id-v2-reference.py:49-56 | numbers have the same stripped digits and exponent exactly if they are equal |
| TextForms.FormByMagnitude | scripts/gene-id-v2-reference.py:49-65 | a number is printed without exponent exactly from one millionth up to 10^21; where the point and the zeros stand |
| TextForms.ZeroText | scripts/gene-id-v2-reference.py:45-46 | zero is printed as one digit, whatever its sign |
| TextForms.NoTextExactlyIf | scripts/gene-id-v2-reference.py:36-44 | numbers without text: infinite, not a number, and integers from 2^53 on |
| JsonText.WriteJcsString | scripts/gene-id-v2-reference.py:68-93 | the loop quotes the string and refuses exactly those with a lone surrogate |
| JsonText.ReadsCharsBack | scripts/gene-id-v2-reference.py:68-93 | a quoted string reads back, control characters included |
| TextForms.PlainText | scripts/gene-id-v2-reference.py:68-93 | ordinary text is printed between quotes as it is |
| TextForms.ShortEscapes | scripts/gene-id-v2-reference.py:72-85 | the seven characters with escapes of their own |
| TextForms.LongEscape | scripts/gene-id-v2-reference.py:86-87 | other control characters: backslash, u, two zeros and two small hexadecimal digits |
| JsonText.KeysTotal | scripts/gene-id-v2-reference.py:109-111 | UTF-16 order is total on well-formed keys; which order that is says `TextForms.KeyLessExactlyIf` |
| TextForms.KeyLessExactlyIf | scripts/gene-id-v2-reference.py:109-111 | one key is before another exactly if its UTF-16 code units come first |
| Json.JcsPrintsCanon | scripts/gene-id-v2-reference.py:96-112 | text exists exactly for computable values and is that of the sorted, normalised value, the order being that of `TextForms.ObjectText` |
| TextForms.ArrayText | scripts/gene-id-v2-reference.py:107-108 | an array is printed as its items in their order |
| TextForms.ObjectText | scripts/gene-id-v2-reference.py:109-111 | an object is printed as its members, each once, in ascending order of their keys' UTF-16 code units |
| TextForms.ConstantTexts | scripts/gene-id-v2-reference.py:96-112 | the texts of null, true, false and of what is empty |
| JsonReader.ReadsPlain | scripts/gene-id-v2-reference.py:96-112 | any canonical value reads back from its text |
| JsonReader.ReadsJcsBack | scripts/gene-id-v2-reference.py:96-112 | a reader recovers the canonical value from canonical text |
| JsonLaws.SortForgetsOrder | scripts/gene-id-v2-reference.py:109-111 | sorted members are equal exactly if the members are the same |
| JsonLaws.SameIsSameCanon | scripts/gene-id-v2-reference.py:96-112 | canonical forms are equal exactly for the same value |
| JsonLaws.TextIsFaithful | scripts/gene-id-v2-reference.py:96-112 | texts are equal exactly for the same value |
| Schemas.LookupNormalised | src/cloud/capability-candidates.ts:152-182 | what normalisation leaves under each name |
| Normalising.AnnotationsDoNotCount | src/cloud/capability-candidates.ts:152-182 | a description, title, examples, default or comment added anywhere changes nothing |
| Normalising.MembersStay | src/cloud/capability-candidates.ts:152-182 | every other member stays, and which schemas in its value are normalised |
| Normalising.NormaliseTwice | src/cloud/capability-candidates.ts:165-182 | normalising again changes nothing |
| Normalising.DollarExactlyIf | src/cloud/capability-candidates.ts:184-189 | refused for a dollar exactly if some name at some depth starts with one and is not $comment |
| Schemas.SidePasses | src/cloud/capability-candidates.ts:191-223 | one side passes exactly if both schemas can be compared and are the same after normalisation |
| Normalising.ProblemIs | src/cloud/capability-candidates.ts:191-223 | which problem is reported for a side: properties missing, dollar names, no canonical form, or different schemas, in this order |
| Schemas.CompatibleExactlyIf | src/cloud/capability-candidates.ts:204-224 | when no incompatibility is reported |
| Validator.RunRequired | genes/json-validator/index.ts:83-89 | the loop reports every missing required key, in order |
| Validator.RunItems | genes/json-validator/index.ts:73-77 | the loop collects the errors of all items, in order |
| Validator.RunMembers | genes/json-validator/index.ts:91-97 | the loop collects the errors of all members, in order |
| Validator.RunValidate | genes/json-validator/index.ts:19-101 | the engine computes `Validate`, exceptions included |
| Conformance.ValidExactlyIfConforms | genes/json-validator/index.ts:19-112 | no error is returned exactly if the data conforms to the schema, whatever the path |
| Conformance.FieldIs | genes/json-validator/index.ts:19-27 | what a keyword's value is |
| Conformance.PropertyIs | genes/json-validator/index.ts:82-92 | which schema a property name leads to |
| ErrorReports.ErrorsPointInto | genes/json-validator/index.ts:19-101 | every error's path extends the path given |
| ErrorReports.ReportedExactlyIf | genes/json-validator/index.ts:27-72 | the errors at the path given name exactly the keywords that the data breaks |
| ErrorReports.MissingIsReported | genes/json-validator/index.ts:85-89 | a required name that is missing is reported under its own path |
| ErrorReports.AdditionalIsReported | genes/json-validator/index.ts:91-97 | so is, in strict mode, a member that a closed schema has no property for |
| SchemaMeaning.NormaliseKeepsMeaning | src/cloud/capability-candidates.ts:165-182 | the validator returns the identical outcome for a schema and its normalisation |
| CanonMeaning.CanonKeepsMeaning | src/cloud/capability-candidates.ts:196-202 | and for its canonical form |
| CanonMeaning.CompatibleSchemasAgree | src/cloud/capability-candidates.ts:204-224 | compatible schemas return the identical outcome on all data, for input and output |
| SchemaGroups.CompatibleBySignature | src/cloud/capability-candidates.ts:204-224 | compatible means both comparable with equal canonical texts |
| SchemaGroups.CompatibleIsEquivalence | scripts/genome-schema-groups.ts:30-37 | symmetry, transitivity, and reflexivity where anything is compatible |
| SchemaGroups.GroupEntries | scripts/genome-schema-groups.ts:39-45 | the loop computes the greedy grouping |
| SchemaGroups.GreedyGroups | scripts/genome-schema-groups.ts:39-45 | every entry lies in exactly one group, and groups are classes |
| SchemaGroups.TogetherExactlyIfRelated | scripts/genome-schema-groups.ts:47-57 | two entries share a group exactly if they are compatible |
| SchemaGroups.PairsAreWithinGroups | scripts/genome-schema-groups.ts:40-58 | the compatible pairs are those within groups |
| SchemaGroups.TriangleFormula | scripts/genome-schema-groups.ts:47-58 | a group of s has s (s - 1) / 2 pairs |
| SchemaGroups.GroupAndCheck | scripts/genome-schema-groups.ts:30-58 | neither exception occurs, groups are the classes, and the pair count is the sum over groups |
| GeneId.PreimageIsUnambiguous | scripts/gene-id-v2-reference.py:177-181 | the hashed bytes determine kind, projection and body |
| HashedBytes.PreimageIs | scripts/gene-id-v2-reference.py:177-181 | the hashed bytes written out: tag, kind, lengths in four bytes |
| Layouts.LebExactlyGroups | scripts/gene-id-v2-reference.py:117-125 | a LEB128 number is groups of seven bits, any number of them |
| GeneId.ReadLeb128 | scripts/gene-id-v2-reference.py:117-125 | the loop computes the LEB128 value and length |
| GeneId.HashSections | scripts/gene-id-v2-reference.py:128-142 | the loop feeds the hash with the section stream and fails on truncation |
| GeneId.StreamOfSections | scripts/gene-id-v2-reference.py:128-142 | for any bytes: they are refused exactly if truncated or a kept section is too long, and otherwise the kept sections are hashed |
| GeneId.SameStreamExactlyIfSameSections | scripts/gene-id-v2-reference.py:128-142 | any two accepted inputs are hashed alike exactly if the same sections are kept of them |
| GeneId.OnlyKeptSectionsCount | scripts/gene-id-v2-reference.py:128-142 | custom sections and the spelling of sizes do not matter |
| HashedBytes.HeaderIs | scripts/gene-id-v2-reference.py:128-131 | what comes before the sections |
| HashedBytes.SectionCounts | scripts/gene-id-v2-reference.py:132-142 | what one section adds to what is hashed: nothing exactly for id 0 |
| GeneId.AcceptedExactlyIfWritten | scripts/gene-id-v2-reference.py:117-142 | the digest exists exactly for sections written one after the other, with sizes in any LEB128 spelling |
| GeneId.HashFiles | scripts/gene-id-v2-reference.py:148-151 | the loop feeds the hash with the number of files and then each file |
| HashedBytes.FileIs | scripts/gene-id-v2-reference.py:150-151 | what one file adds to what is hashed |
| HashedBytes.EntriesAreFiles | scripts/gene-id-v2-reference.py:147 | the entries are the files |
| HashedBytes.EntriesAscend | scripts/gene-id-v2-reference.py:147 | in order of their paths, by the first byte that differs |
| GeneId.WrappedStreamIsUnambiguous | scripts/gene-id-v2-reference.py:145-152 | two file maps are hashed alike exactly if they have the same paths, with the same sizes and content hashes |
| Integrator.StepIsReversible | genes/particle-brute/index.ts:201-267 | step, reverse velocities, step: back where it started, reversed |
| Integrator.StepsAreReversible | genes/particle-brute/index.ts:201-267 | the same for any number of steps |
| Integrator.StepsKeepMomentum | genes/particle-brute/index.ts:201-267 | balanced forces conserve momentum over any number of steps |
| Motion.StepIsVerlet | genes/particle-brute/index.ts:201-267 | a step adds dt v + dt^2/2 a to the place and dt times the mean of the accelerations at both ends to the velocity |
| Motion.FallsExactly | genes/particle-brute/index.ts:201-267 | under constant acceleration any number of steps is exact: x + t v + t^2/2 a and v + t a |
| Motion.UniformMotion | genes/particle-brute/index.ts:201-267 | without acceleration a particle goes straight on |
| Motion.LoneParticle | genes/particle-brute/index.ts:201-267 | as a particle on its own does in both pair engines |
| Gravity.PullsOppose | genes/particle-brute/index.ts:205-223 | softened attraction is equal and opposite |
| Motion.PullIs | genes/particle-brute/index.ts:209-217 | the pull is G m d over the cube of the softened distance |
| Motion.PullsTowards | genes/particle-brute/index.ts:209-217 | with G and mass positive it points towards the other particle, on each axis |
| Gravity.MutualForcesCancel | genes/particle-brute/index.ts:205-223 | if meeting is mutual all forces cancel |
| Gravity.KickInPlace | genes/particle-brute/index.ts:226-230 | every velocity gets its half kick |
| Gravity.DriftInPlace | genes/particle-brute/index.ts:232-236 | every particle drifts by its velocity, x by vx and y by vy (`Motion.StepIsVerlet`) |
| BruteForce.ComputeForces | genes/particle-brute/index.ts:203-223 | the pair loops give each particle the pull of all others |
| Motion.BruteAcceleration | genes/particle-brute/index.ts:203-223 | the acceleration is the sum of the attractions of all others |
| BruteForce.Run | genes/particle-brute/index.ts:201-267 | the step loop computes the iterated step, which is that of `Motion.StepIsVerlet` |
| BruteForce.BruteKeepsMomentum | genes/particle-brute/index.ts:201-267 | momentum is conserved on both axes |
| BruteForce.BruteIsReversible | genes/particle-brute/index.ts:201-267 | the engine runs backwards |
| SpatialGrid.ClosePairsMeet | genes/particle-spatial/index.ts:191-232 | pairs within the cell size on both axes meet, and meeting is mutual |
| Motion.ReachIsBounded | genes/particle-spatial/index.ts:205-212 | particles two cell sizes apart on an axis do not meet |
| Motion.SpatialAcceleration | genes/particle-spatial/index.ts:191-232 | the acceleration is the sum of the attractions of those in the same or a neighbouring cell |
| Motion.InteractionsAreMeetings | genes/particle-spatial/index.ts:191-232 | what is counted: the ordered pairs in reach of each other |
| Motion.CellSizeIs | genes/particle-spatial/index.ts:262-281 | the cell size: twice the softening, or the side with c^2 n = 4 w h, whichever is larger |
| SpatialGrid.BuildGrid | genes/particle-spatial/index.ts:171-189 | each cell lists its particles in order, and nothing else |
| SpatialGrid.ComputeForcesSpatial | genes/particle-spatial/index.ts:191-232 | each particle feels exactly those it meets, once each, and the count returned is that of the meetings |
| SpatialGrid.Run | genes/particle-spatial/index.ts:260-342 | the step loop computes the iterated step, and the total it returns is that of the meetings before and after each step (`Motion.StepIsVerlet`, `Motion.InteractionsAreMeetings`) |
| SpatialGrid.SpatialKeepsMomentum | genes/particle-spatial/index.ts:262-342 | momentum is conserved although distant pairs are left out |
| SpatialGrid.SpatialIsReversible | genes/particle-spatial/index.ts:262-342 | the engine runs backwards, its grid rebuilt for every force computation |
| QuadTree.HalvingLowersRank | genes/particle-barneshut/index.ts:182-216 | halving a size above the smallest lowers a natural number |
| QuadTree.InsertHolds | genes/particle-barneshut/index.ts:176-224 | insertion keeps all particles, adds one, and all lie in their quadrants |
| QuadTree.BuildHolds | genes/particle-barneshut/index.ts:411-413 | each index is in exactly one leaf or bucket, and under the right quadrants |
| Motion.TreeDividesPlane | genes/particle-barneshut/index.ts:169-224 | where a node's children stand, which particles they hold, and that only cells below 2 10^-10 hold several undivided |
| QuadTree.DepthIsBounded | genes/particle-barneshut/index.ts:176-224 | no tree is deeper than the halvings down to the smallest cell |
| QuadTree.BuildSum | genes/particle-barneshut/index.ts:411-413 | any sum over the tree is the sum over the particles |
| QuadNodes.QuadNode.InsertParticle | genes/particle-barneshut/index.ts:176-224 | the mutable node keeps its footprint and becomes the inserted tree |
| QuadNodes.QuadNode.ComputeCenterOfMass | genes/particle-barneshut/index.ts:226-271 | only masses and centres change, to the weighed tree |
| BarnesHut.WeighIsWeighed | genes/particle-barneshut/index.ts:226-271 | every node gets the mass of its particles, and their moment unless masses are negative |
| BarnesHut.RootHasAllMass | genes/particle-barneshut/index.ts:226-271 | the root has the total mass and moment |
| QuadNodes.QuadNode.ComputeForce | genes/particle-barneshut/index.ts:275-330 | one entry of each array grows by the pulls of the interactions, and the counter by their number |
| BarnesHut.EveryParticleOnce | genes/particle-barneshut/index.ts:275-330 | without negative masses, any quantity that vanishes with the mass, summed over the particles behind the interactions, counts every other particle once, and the particle itself exactly if a far cell holds it |
| BarnesHut.OnceExactlyIfNoneLost | genes/particle-barneshut/index.ts:275-330 | for any masses: every quantity counts each other particle once exactly if no other particle sits in a child skipped for lack of mass |
| BarnesHut.NoMoreThanParticles | genes/particle-barneshut/index.ts:275-330 | for any masses at most n interactions, and n - 1 less those lost where nothing is far |
| TreeLaw.PositiveCountsOnce | genes/particle-barneshut/index.ts:275-330 | with positive masses every quantity counts each other particle exactly once |
| TreeLaw.OneInteractionEach | genes/particle-barneshut/index.ts:275-330 | with positive masses exactly n - 1 interactions where nothing is far |
| BarnesHut.ExactWhenNothingIsFar | genes/particle-barneshut/index.ts:275-330 | where nothing is far, and without negative masses, the force is the direct sum |
| Motion.FarExactlyIf | genes/particle-barneshut/index.ts:285-318 | a node is far exactly if twice its size is less than the softened distance and 10^-10 |
| Motion.FarRootPullsAsOne | genes/particle-barneshut/index.ts:318-324 | when the root is far, all mass pulls from the common centre of mass |
| Motion.NoMassNoInteraction | genes/particle-barneshut/index.ts:316-329 | children without mass are skipped: without any mass at most the root is looked at |
| BarnesHut.CanPullItself | genes/particle-barneshut/index.ts:404-413 | two particles for which the root is far from one it holds |
| TreeLaw.EngineCanPullItself | genes/particle-barneshut/index.ts:391-409 | the same in the frame the engine computes for the two |
| Inside.InsidersDoNotPullThemselves | genes/particle-barneshut/index.ts:295-330 | with all particles in the root's square and every divided node large against the softening, no far cell holds the particle itself |
| Separation.ContainedExactlyIfNarrow | genes/particle-barneshut/index.ts:391-409 | all particles lie in the square of the engine's root exactly if they are spread over at most 0.6 on both axes |
| Separation.BuildFilled | genes/particle-barneshut/index.ts:176-224 | every node with a divided child holds two particles |
| Separation.SeparationKeepsNodesLarge | genes/particle-barneshut/index.ts:176-224 | where particles keep apart every divided node is large against the softening |
| Separation.NarrowAndSeparatedDoNotPullThemselves | genes/particle-barneshut/index.ts:391-423 | in the engine's frame: no particle pulls itself, on conditions that concern places, masses and softening only |
| Inside.SmallCellsAreFar | genes/particle-barneshut/index.ts:295-330 | a cell no wider than half the softening is far from everything |
| Extent.AllWithinBounds | genes/particle-barneshut/index.ts:391-402 | all particles lie within the computed bounds |
| TreeLaw.OneRoot | genes/particle-barneshut/index.ts:404-414 | for positive masses the weighed tree is a function of the particles' places and masses |
| TreeLaw.OneFelt | genes/particle-barneshut/index.ts:404-423 | without negative masses all trees the engine can have for the particles give the same accelerations |
| TreeLaw.TreeIsReversible | genes/particle-barneshut/index.ts:390-476 | the tree engine runs backwards |
| TreeForces.ComputeForces | genes/particle-barneshut/index.ts:391-423 | bounds, tree, weights and forces together give each particle its interactions |
| TreeForces.CountIsBounded | genes/particle-barneshut/index.ts:418-423 | for any masses a force computation costs at most n squared interactions |
| TreeForces.Run | genes/particle-barneshut/index.ts:390-476 | the step loop keeps the masses, takes at most 2 n squared interactions a step, and without negative masses computes the iterated step (`Motion.StepIsVerlet`) |
| MapLimit.RunKeepsInv | src/commands/arena-audit.ts:57-66 | the invariant of all reachable states |
| MapLimit.RunIsBounded | src/commands/arena-audit.ts:57-66 | no run is longer than the work there is |
| MapLimit.EveryInterleaving | src/commands/arena-audit.ts:51-67 | items are handed out once and in order, the limit holds, and no state is stuck |
| MapLimit.LimitIsReached | src/commands/arena-audit.ts:57-66 | the limit can be used to the full |
| MapLimit.FinishedResults | src/commands/arena-audit.ts:51-67 | the promise resolves exactly if no worker rejects, with every answer in its place |
| MapLimit.NoRunners | src/commands/arena-audit.ts:57-66 | with a limit below 1 nothing runs and the holes are returned |
| Failover.FailOver | examples/api-apocalypse/rotifer-agent.ts:149-183 | the changed pool, which genes of other names it tried in which order, and its verdict |
| Failover.Recovers | examples/api-apocalypse/rotifer-agent.ts:154-183 | it succeeds exactly if some gene of another name answers |
| Agent.AppliedKeeps | examples/api-apocalypse/rotifer-agent.ts:77-105 | scoring and sorting keep genes, names and fitness in [0, 1] |
| Agent.ActiveGeneIsFound | examples/api-apocalypse/rotifer-agent.ts:83-89 | where no name is in two pools, looking up an active name finds that gene in its domain |
| Agent.TurnSucceeds | examples/api-apocalypse/rotifer-agent.ts:132-183 | with data a turn succeeds exactly if the gene found by name, or one of another name in the domain's pool, answers |
| Agent.OwnDomainOnly | examples/api-apocalypse/rotifer-agent.ts:116-184 | where no name is in two pools a turn changes its own domain's pool and active gene only |
| Agent.TurnKeeps | examples/api-apocalypse/rotifer-agent.ts:116-184 | a turn keeps the invariant, and names apart if they were |
| Agent.RotiferAgent.RegisterGene | examples/api-apocalypse/rotifer-agent.ts:55-67 | one pool gains one gene, at its end; no name is in two pools exactly if that was so and no other pool has this one |
| Agent.RotiferAgent.Start | examples/api-apocalypse/rotifer-agent.ts:69-75 | every domain's first gene becomes active |
| Agent.RotiferAgent.ServeDomain | examples/api-apocalypse/rotifer-agent.ts:116-184 | the gene found by name over all pools is called and scored; if it throws, the domain's pool is sorted and its other genes are tried; what that does to fitness and report says `Fitness` |
| Agent.RotiferAgent.Tick | examples/api-apocalypse/rotifer-agent.ts:107-201 | one turn per domain, one after the other, each accounted for, with the invariant kept; each source shows the result of the last of its domains; fitness moves as in `Fitness.TurnFitness` |
| Agent.RotiferAgent.RunTicks | examples/api-apocalypse/run.ts:283-287 | the states of the loop are a run of ticks |
| Agent.TurnGrows | examples/api-apocalypse/rotifer-agent.ts:116-184 | in a turn, counters of every gene of every pool grow by its call, if it was called, and by nothing else; its fitness moves accordingly |
| Agent.RunCounts | examples/api-apocalypse/rotifer-agent.ts:77-201 | over any run every pool keeps its genes, fitness stays in [0, 1], and of each gene successes and failures grow by exactly the calls in which it answered or threw |
| Fitness.TurnFitness | examples/api-apocalypse/rotifer-agent.ts:91-105 | in a turn a gene that answers gains 0.05 up to 1, one that throws loses 0.15 down to 0, and one not called keeps its fitness |
| Fitness.AnsweredAboveFailed | examples/api-apocalypse/rotifer-agent.ts:91-105 | of two genes of equal fitness the one that answered ends above the one that threw |
| Fitness.FitterIsTriedFirst | examples/api-apocalypse/rotifer-agent.ts:77-81 | a fitter gene is tried before another |
| Fitness.RunFitness | examples/api-apocalypse/rotifer-agent.ts:91-105 | over any run: start less 0.15 for each failure and plus 0.05 for each answer bound the fitness, and together are it where the bounds are out of reach |
| Fitness.TurnReports | examples/api-apocalypse/rotifer-agent.ts:132-183 | what a turn reports: the active gene's answer, or that of the fittest other gene that answers, which becomes active |
| Fitness.SortedByFitness | examples/api-apocalypse/rotifer-agent.ts:77-81 | after a failover the pool stands in order of fitness, equal genes as before |
| Fitness.FoundIsFirst | examples/api-apocalypse/rotifer-agent.ts:83-89 | a name leads to the first gene of it in the first domain that has one |
| Fitness.SourceIsLastPart | examples/api-apocalypse/rotifer-agent.ts:117 | the source is what stands behind the last dot |

## Left out

- The Ed25519 curve itself (field arithmetic, point formulas, square roots, torsion points) and SHA-256 and SHA-512: parameters, with the laws stated in `Curve.GroupLaws` and `Curve.EncodingLaws`; they are assumed, not derived.
- The lenient and cofactored verifiers, the blacklist and the test vectors of the DHT script.
- Announcement texts stay UTF-8 bytes; the script's decoding to strings and back is the identity on what `IsUtf8` admits.
- Shifts and masks of varints and LEB128 are sums and remainders, which is the same on disjoint bits.
- A wall clock, the network and file system: `now`, fetched data and answers of workers and genes are parameters.
- LifeSparse.SparseGenerations: keys are taken in any order, where the engine takes them as inserted, so each hash is that of some order; that a board which comes back is noticed is not claimed.
- LifeSparse.Express: an input grid only, as for LifeBitwise; presets and text output are left out.
- LifeBitwise.Express: an input grid only; the preset and random starts and the text output are left out.
- LifeBitwise.GenerationsBits: that a repeated hash means a repeated board is not claimed, as 32-bit hashes collide.
- Presets, random generators, ASCII output, reading of rule strings, clamping of sizes.
- JavaScript and Python strings are sequences of code points, so two lone surrogates in a row are not merged into one character.
- The order in which JavaScript enumerates integer-like names: members stand in enumeration order already. No result depends on the order of a schema's members.
- The TypeScript `jcs` differs from the Python one on integers from 2^53 upwards, which it prints as doubles; schemas are compared with the Python definition.
- Which properties JavaScript values inherit and whether a text matches a pattern: parameters of the validator (`Runtime`).
- ErrorReports.ReportedExactlyIf: errors at the data itself, by keyword; their messages are tied to the loops only.
- `admissionRejections` and the paging of `resolveCapabilityCandidates`: a list of independent comparisons around calls to a server.
- GeneId.WrappedStreamIsUnambiguous: paths are UTF-8 bytes already, and content enters by its hash, so content is determined up to a collision.
- The conversion of the projection text to UTF-8 and the choice of projection fields.
- Particles are values in an array, so two indices cannot be the same object; floating-point rounding, energy and presets.
- The key text of a grid cell is a pair of integers.
- QuadNodes.QuadNode.ComputeForce: the counter object is an in and out parameter; the loop over the four children in `computeCenterOfMass` is unrolled.
- BarnesHut.EveryParticleOnce: without negative masses, and for quantities that vanish with the mass, as the engine skips children without mass; `OnceExactlyIfNoneLost` is about all masses and quantities.
- TreeForces.Run: that the steps are those of a law of places and masses is for masses that are not negative: a node whose mass is not positive keeps a centre that depends on how the tree was built, and with negative masses that centre can count in its parent's. No bound on the error of far cells is claimed.
- A softening of 0, where particles at one place divide by zero: the engines' models ask for a positive one.
- Genes are values in the agent's pools, numbered by registration, so a gene is one object; fitness is a real number.
- Agent.RotiferAgent.Tick: after `start`, as without it the first look-up throws; latencies, the aggregated temperature and `getGeneStats` are left out.
