# Byte-matrix codec, moment index, TaskGraph and vocabulary wire forms

A Dafny model of four parts of the repository, with proofs of what they promise.

* **SMTYX-EXACT version 2.** A chunk of 1..1024 bytes (MICRO) becomes five canonical varints, packed
  4-bit cluster masks, and one mixed-radix base-3 rank of fixed width. Chunks are framed as records by
  three nested loops over pages, blocks and micros, and sealed by a footer and a running digest.
  `Container` defines the container as a function of header, data, layout and footer; the encoder is
  proved to write it, and the reader to accept nothing else and refuse nothing of it.
* **Moment hierarchy (version 1 metadata).** Signatures [N, P0..P3] of byte ranges, their
  concatenation, the index built by grouping, and its validation.
* **TaskGraph.** A colouring depth-first search decides validity; the ready query drives a scheduler.
  Both are proved to decide the same thing.
* **Vocabulary wire forms.** A branch-heavy token parser with a symbolic and a numeric printer, and
  the exact domain on which they undo each other.

`dafny verify dfyconfig.toml` checks everything.

## How to read it

| files | content |
|---|---|
| `Wrappers`, `Arithmetic`, `Streams` | results and options; powers, ceilings, division, byte widths; readable byte streams |
| `Moments`, `MomentBounds` | signatures, concatenation, closed-form bounds |
| `Varint`, `Clusters`, `MicroCodec`, `MicroMethods` | exact_math.py: definitions and laws, then the loops proved against them |
| `Layouts`, `Container`, `Records`, `ExactEncode`, `ExactRead`, `Exact` | exact.py: the format, the stateful classes, encoder, reader, and the public operations |
| `Index`, `IndexEdges`, `Document`, `Agreement` | core.py and format.py, and that versions 1 and 2 say the same |
| `TaskGraphs`, `TaskSearches`, `TaskGraphMethods` | task_graph.py: cycles, orders and the scheduler; the search as a function; the class |
| `Vocab`, `VocabNormalForm`, `ParseMeaning`, `WireForms`, `VocabMethods` | parser.py, encoder.py, decoder.py |

Conventions:

* Every `ValueError` of the source is the one value `ValueError`; message texts are not modelled.
* Or-ing bits into a place that is still zero is written as addition.
* SHA-256, the JSON printer and parser of header and footer, and route validation are functions of a
  `World` of which only `Faithful` is known: digests have 32 bytes, and parsing what was printed gives
  it back. A running digest is represented by the bytes fed to it.
* An input or output file is a byte sequence; a read returns the full amount until the end of the file.
* The loop bodies of `encode_exact`, `read_exact`, `parse_symbolic` and `analyze_file` are methods of
  their own, so that each invariant is stated once; `Unit` defines the records of a node for all levels.
* The reader compares the footer's canonical text with the expected one; a header text is any text that
  parses to a legal header, so canonicity is about the records behind it.
* The graph search carries a ghost trace: the order of entry into `visited`, and the nodes reported.
  `Schedule` is the loop a caller of `ready` runs; the repository itself leaves it to callers.
* The lookup tables are constants; `BuildClusterTable` and `BuildTables` are the loops that fill them.
* What `stat` reports before and after reading is a pair of parameters.
* Vocabulary lemmas assume `WellFormed` (unique names of capitals and hyphens, unique three-digit ids),
  `ReservedWords` (END is an entry; STATE is no action; TARGET is an object and no action; CONFIDENCE has
  id 095; target state words are neither actions nor objects) and `Readable` (a confidence taken from a
  text reads back when printed, and no name reads as a number). These are facts of
  legacy/aivocab_v0_1/vocab/core_vocab.json and of Python's floats, stated once and not re-proved entry
  by entry. Numbers are `real`; rounding is not the point.

Two results about the code differ from what one might expect of it:

* `encode_symbolic` prints the target without the keyword TARGET, so a target that is not a target state
  word comes back as something else or not at all. `NormalForm` gives the exact condition for the round
  trip and `NormalFormFails` an input outside it.
* `encode_numeric` drops the number behind CONFIDENCE but keeps the keyword's id, so the numeric form
  loses every plainly printed confidence. `WireFormsAgreeExactly` gives the exact condition for the two
  forms to agree and `WireFormsDiffer` an input outside it.

## Model

| member | source | states |
|---|---|---|
| `Moments.Signature` | runtimes/byte-matrix-0.2.0/smtyx/core.py:21-28 | the one-pass loop over bytes and degrees computes the length and, for each degree k, the sum of byte times position to the k |
| `Moments.Concatenate` | runtimes/byte-matrix-0.2.0/smtyx/core.py:31-41 | the binomial loop (`comb`, powers of the running length) over arbitrary integer signatures equals folding by the four explicit degree polynomials |
| `Moments.RebaseSumIsPolynomial` | runtimes/byte-matrix-0.2.0/smtyx/core.py:35-39 | for each degree the binomial sum with Pascal coefficients is that degree's explicit polynomial |
| `Moments.CombineAssociates` | runtimes/byte-matrix-0.2.0/smtyx/core.py:31-41 | pairwise concatenation is associative on arbitrary integer tuples, not only on signatures of bytes |
| `Moments.CombineUnit` | runtimes/byte-matrix-0.2.0/smtyx/core.py:31-41 | the all-zero signature is a left and right unit |
| `Moments.CombineAllSplits` | runtimes/byte-matrix-0.2.0/smtyx/core.py:31-41 | concatenating two lists is concatenating their separate results, wherever the list is cut |
| `Moments.CombineAllOfGroups` | runtimes/byte-matrix-0.2.0/smtyx/core.py:31-41 | concatenating group by group and then the groups is the flat n-ary call, for every grouping |
| `Moments.SigOfConcat` | runtimes/byte-matrix-0.2.0/smtyx/core.py:21-41 | the parent of two adjacent byte ranges carries the signature of the joined bytes |
| `Moments.SigOfParts` | runtimes/byte-matrix-0.2.0/smtyx/core.py:21-41 | for every split of a byte string, concatenating the parts' signatures is the signature of the whole |
| `MomentBounds.SaturatedSig` | runtimes/byte-matrix-0.2.0/smtyx/format.py:43-45 | the validator's four closed forms times 255 are exactly the moments of the string of 255-bytes of that length |
| `MomentBounds.BoundsBySaturated` | runtimes/byte-matrix-0.2.0/smtyx/format.py:39-50 | a tuple passes the bound checks exactly when its moments are ordered and below those of the saturated string |
| `MomentBounds.SigOfWithinBounds` | runtimes/byte-matrix-0.2.0/smtyx/format.py:39-50 | the signature of every byte string passes the validator's bounds |
| `MomentBounds.CombineWithinBounds` | runtimes/byte-matrix-0.2.0/smtyx/format.py:39-50 | concatenating two tuples within the bounds stays within them |
| `MomentBounds.CombineAllWithinBounds` | runtimes/byte-matrix-0.2.0/smtyx/format.py:39-50 | the same for the n-ary call |
| `MomentBounds.BoundedMagnitude` | runtimes/byte-matrix-0.2.0/smtyx/exact_math.py:21-23 | for sizes below 2^63 every entry of a bounded signature is below 2^260, so `unsigned` never raises on it |
| `Varint.Unsigned` | runtimes/byte-matrix-0.2.0/smtyx/exact_math.py:21-29 | succeeds exactly below 2^448 and writes the base-128 digits, least significant first |
| `Varint.ReadUnsigned` | runtimes/byte-matrix-0.2.0/smtyx/exact_math.py:32-44 | the 64-step loop returns what the recursive reader defines and leaves the stream exactly behind it; it fails on end of input, overlong form and a 65th digit |
| `Varint.ReadLebIff` | runtimes/byte-matrix-0.2.0/smtyx/exact_math.py:21-44 | reading gives v and leaves `rest` if and only if v < 2^448 and the bytes are the encoding of v followed by `rest`: round trip and canonicity together |
| `Varint.LebLength` | runtimes/byte-matrix-0.2.0/smtyx/exact_math.py:21-29 | values below 128^k take at most k bytes |
| `Varint.LebAt` | runtimes/byte-matrix-0.2.0/smtyx/exact_math.py:21-29 | byte i of an encoding is the i-th group of seven bits of the value, least significant first, with bit 128 on every byte but the last |
| `Varint.LebIsShortest` | runtimes/byte-matrix-0.2.0/smtyx/exact_math.py:21-29 | the number of bytes is the least that holds the value |
| `Varint.ReadLebsIff` | runtimes/byte-matrix-0.2.0/smtyx/exact_math.py:47-53 | the same if and only if for a list of integers in a row |
| `Varint.ReadSigIff` | runtimes/byte-matrix-0.2.0/smtyx/exact_math.py:47-53 | the same for five-value signatures followed by anything |
| `Varint.EncodeSignature` | runtimes/byte-matrix-0.2.0/smtyx/exact_math.py:47-48 | succeeds exactly when all five values fit and joins their encodings |
| `Varint.SigBytesMean` | runtimes/byte-matrix-0.2.0/smtyx/exact_math.py:47-48 | the encodings of N, P0, P1, P2, P3 follow each other in this order |
| `Varint.ReadSignature` | runtimes/byte-matrix-0.2.0/smtyx/exact_math.py:53 | five reads in a row consume exactly the five encodings |
| `Varint.DecodeSignature` | runtimes/byte-matrix-0.2.0/smtyx/exact_math.py:51-56 | accepts exactly the encodings of fitting signatures, with nothing behind, and returns what was encoded |
| `Varint.SigBytesLength` | runtimes/byte-matrix-0.2.0/smtyx/exact_math.py:47-48 | an encoded signature has 5 to 320 bytes |
| `Clusters.ClusterIndex` | runtimes/byte-matrix-0.2.0/smtyx/core.py:9-15 | succeeds exactly on 0..255 and returns one plus 8, 4, 2, 1 for the bit pairs, from the top, that are not zero |
| `Clusters.ByteRank` | runtimes/byte-matrix-0.2.0/smtyx/exact_math.py:12-16 | the inner loop computes, from the top pair down, three times the rank plus the pair less one, skipping zero pairs |
| `Clusters.BuildClusterTable` | runtimes/byte-matrix-0.2.0/smtyx/core.py:18 | the table of cluster indices over all bytes is the constant CLUSTER_TABLE that the codec indexes |
| `Clusters.BuildTables` | runtimes/byte-matrix-0.2.0/smtyx/exact_math.py:9-18 | the sweep over the 256 bytes fills exactly the constants BYTE_RANKS and INVERSE that the codec indexes |
| `Clusters.TablesInvert` | runtimes/byte-matrix-0.2.0/smtyx/exact_math.py:9-18 | looking a byte up by its cluster and rank gives the byte back, and every in-range entry of INVERSE is the entry of its byte |
| `Clusters.ByteOfStateAndRank` | runtimes/byte-matrix-0.2.0/smtyx/exact_math.py:9-18 | cluster and rank determine the byte |
| `Clusters.StateAndRankOfByte` | runtimes/byte-matrix-0.2.0/smtyx/exact_math.py:9-18 | every rank below 3^popcount of a cluster belongs to a byte of that cluster |
| `Clusters.FingerprintOfHistogram` | runtimes/byte-matrix-0.2.0/smtyx/exact.py:129-137 | the histogram sums to the length and its weighted sum to the sum of the bytes' cluster indices |
| `Clusters.SumsOfSixteen` | runtimes/byte-matrix-0.2.0/smtyx/format.py:113-115 | the two sums over a histogram are its sixteen counts added up, and added up with weights 1 to 16 |
| `Clusters.AddToHistogram` | runtimes/byte-matrix-0.2.0/smtyx/exact.py:122-126 | counting a chunk cluster by cluster turns the histogram of the earlier bytes into that of all bytes |
| `MicroCodec.UnpackMasks` | runtimes/byte-matrix-0.2.0/smtyx/exact_math.py:67-90 | reading packed nibbles gives back the masks, and the padding nibble of an odd count is zero |
| `MicroCodec.MasksMean` | runtimes/byte-matrix-0.2.0/smtyx/exact_math.py:67 | mask byte i holds the state of position 2i in its high and of position 2i + 1 in its low nibble |
| `MicroCodec.RankSnoc` | runtimes/byte-matrix-0.2.0/smtyx/exact_math.py:66-70 | one pass of the bytewise loop appends the byte's trits to the flat base-3 numeral of all trits |
| `MicroCodec.RankInRange` | runtimes/byte-matrix-0.2.0/smtyx/exact_math.py:65-71 | the rank of a chunk is below 3 to the number of its trits |
| `MicroCodec.RankWidthIsLeast` | runtimes/byte-matrix-0.2.0/smtyx/exact_math.py:71 | the computed width is the least number of bytes that holds every rank, and at most one byte per four trits |
| `MicroCodec.BigEndianAt` | runtimes/byte-matrix-0.2.0/smtyx/exact_math.py:73 | byte i of the rank is the digit to base 256 of weight 256 to the width less i less 1: most significant first |
| `MicroCodec.UnrankOfRank` | runtimes/byte-matrix-0.2.0/smtyx/exact_math.py:91-104 | dividing from the end recovers every byte and leaves quotient 0 |
| `MicroCodec.RankOfUnrank` | runtimes/byte-matrix-0.2.0/smtyx/exact_math.py:91-104 | every rank below 3^T under given masks is the rank of the bytes the division loop writes, which have those masks |
| `MicroCodec.DecodeIff` | runtimes/byte-matrix-0.2.0/smtyx/exact_math.py:59-108 | the codec is a bijection: a payload is accepted for length n with result d if and only if d has n bytes, n is 1..1024, and the payload is the encoding of d |
| `MicroCodec.MicroPayloadInjective` | runtimes/byte-matrix-0.2.0/smtyx/exact_math.py:59-74 | no two chunks of a length share a payload |
| `MicroCodec.MicroPayloadLength` | runtimes/byte-matrix-0.2.0/smtyx/exact.py:76-79 | a MICRO payload is at most 1856 bytes, far below the record limit |
| `MicroMethods.EncodeMicro` | runtimes/byte-matrix-0.2.0/smtyx/exact_math.py:59-74 | succeeds exactly on 1..1024 bytes; the loop that looks bytes up in the tables, fills the mask array in place and accumulates the rank writes the payload of the format definition |
| `MicroMethods.DecodeMicro` | runtimes/byte-matrix-0.2.0/smtyx/exact_math.py:77-108 | every check and the in-place division loop together give exactly the result of the payload definition, with the data's own signature |
| `MicroMethods.UnrankInPlace` | runtimes/byte-matrix-0.2.0/smtyx/exact_math.py:100-105 | the descending divmod loop, looking each remainder up in INVERSE and writing into an array, computes what recursive unranking defines |
| `MicroMethods.RoundTrip` | runtimes/byte-matrix-0.2.0/smtyx/exact_math.py:59-108 | running decode_micro on what encode_micro wrote returns the data and its signature |
| `Container.FrameUnique` | runtimes/byte-matrix-0.2.0/smtyx/exact.py:76-105 | a length-prefixed record can be read in one way only |
| `Container.FrameMeans` | runtimes/byte-matrix-0.2.0/smtyx/exact.py:76-79 | a record is its kind, its length in four bytes, least significant first, and its payload |
| `Layouts.ValidMeans` | runtimes/byte-matrix-0.2.0/smtyx/core.py:50-55 | the layouts that can be made, limit by limit |
| `Layouts.ExactMeans` | runtimes/byte-matrix-0.2.0/smtyx/exact.py:33-40 | the layouts the exact format allows, limit by limit |
| `Container.UnitPrefixFree` | runtimes/byte-matrix-0.2.0/smtyx/exact.py:180-211 | the records of a MICRO, BLOCK, PAGE or DOC of a given size determine the data under it and where they end |
| `Container.AcceptedUnique` | runtimes/byte-matrix-0.2.0/smtyx/exact.py:215-256 | a container holds one data string, one header text and one footer text |
| `Container.NodePayloadLength` | runtimes/byte-matrix-0.2.0/smtyx/exact.py:76-79 | every B, P and D payload of a source below 2^63 bytes exists and has at most 320 bytes |
| `Records.RecordWriter.Record` | runtimes/byte-matrix-0.2.0/smtyx/exact.py:76-79 | succeeds exactly up to 64 KiB and appends one frame; the digest stays that of everything written |
| `Records.RecordWriter.Finish` | runtimes/byte-matrix-0.2.0/smtyx/exact.py:81-82 | appends the end mark and the digest of everything before it |
| `Records.RecordReader.Record` | runtimes/byte-matrix-0.2.0/smtyx/exact.py:99-105 | succeeds exactly when a frame of the expected kind and a legal length is next, and consumes exactly it |
| `Records.RecordReader.Finish` | runtimes/byte-matrix-0.2.0/smtyx/exact.py:107-112 | succeeds exactly when the end mark and the digest of what was read are all that is left |
| `Records.Statistics.Update` | runtimes/byte-matrix-0.2.0/smtyx/exact.py:122-127 | the histogram stays that of the digested bytes, and only the MICRO count moves |
| `Records.Statistics.MakeFooter` | runtimes/byte-matrix-0.2.0/smtyx/exact.py:129-140 | the fingerprint summed from the histogram is the length and weight of the digested bytes |
| `Records.Sink.Write` | runtimes/byte-matrix-0.2.0/smtyx/exact.py:269-275 | with an original to compare with, succeeds exactly while the bytes written so far are a prefix of it |
| `ExactEncode.ProgressStep` | runtimes/byte-matrix-0.2.0/smtyx/exact.py:187-195 | writing one more child and folding its signature keeps the invariant of each of the three loops |
| `ExactEncode.ProgressEnd` | runtimes/byte-matrix-0.2.0/smtyx/exact.py:196-201 | closing a node writes the record and count that complete it, and the folded signature is that of its bytes |
| `ExactEncode.EncodeChunk` | runtimes/byte-matrix-0.2.0/smtyx/exact.py:187-194 | fails exactly when the input ends early; otherwise writes the M record of the next bytes |
| `ExactEncode.EncodeBlock` | runtimes/byte-matrix-0.2.0/smtyx/exact.py:184-197 | the inner loop writes the records of one whole BLOCK, or fails because the input ends inside it |
| `ExactEncode.EncodePage` | runtimes/byte-matrix-0.2.0/smtyx/exact.py:181-200 | the same for the middle loop and one PAGE |
| `ExactEncode.EncodeBody` | runtimes/byte-matrix-0.2.0/smtyx/exact.py:181-207 | the outer loop succeeds exactly when the declared size is the real one, and leaves counts, root and digest those of the whole data |
| `ExactEncode.EncodeExact` | runtimes/byte-matrix-0.2.0/smtyx/exact.py:163-212 | completes exactly on a stable source with legal, short enough header and footer texts and, for a FILE route, the digest of the source; it writes the container that the format definition gives, whose header parses to the name, size, layout and route passed in |
| `ExactEncode.EncodableMeans` | runtimes/byte-matrix-0.2.0/smtyx/exact.py:143-174 | when encoding completes, condition by condition; a route counts with its content only if it is a FILE route |
| `ExactRead.StuckAtChild` | runtimes/byte-matrix-0.2.0/smtyx/exact.py:228-240 | if no acceptable child follows, no acceptable node began here: a failing read refuses no good container |
| `ExactRead.ReadChunk` | runtimes/byte-matrix-0.2.0/smtyx/exact.py:235-240 | reads one MICRO and hands its bytes to statistics and sink, or no acceptable MICRO is next |
| `ExactRead.ReadBlock` | runtimes/byte-matrix-0.2.0/smtyx/exact.py:231-243 | the same for one BLOCK with its moments checked again |
| `ExactRead.ReadPage` | runtimes/byte-matrix-0.2.0/smtyx/exact.py:228-247 | the same for one PAGE |
| `ExactRead.ReadBody` | runtimes/byte-matrix-0.2.0/smtyx/exact.py:228-250 | reads exactly the M, B, P and D records that the encoder emits for the recovered bytes, in that order; refuses only what is not such a body |
| `Exact.ReadExact` | runtimes/byte-matrix-0.2.0/smtyx/exact.py:215-256 | succeeds exactly when the stream is the container of data the sink takes, byte for byte and with nothing behind; the sink then holds that data, the header and footer returned are the container's, every header field is legal, and a FILE route names the digest of the data |
| `Exact.EncodeThenRead` | runtimes/byte-matrix-0.2.0/smtyx/exact.py:163-256 | for every source below 2^63 bytes, allowed layout, name and valid route (a FILE route naming the digest of the source): reading the encoded container gives back the source, and a header with the name, size, layout and route passed in |
| `Exact.DecodeExact` | runtimes/byte-matrix-0.2.0/smtyx/exact.py:259-266 | returns d exactly when the file is a container of d |
| `Exact.VerifyExact` | runtimes/byte-matrix-0.2.0/smtyx/exact.py:278-284 | true exactly when the file is a container of the given source, neither a prefix nor an extension of it |
| `Exact.EncodedIsAccepted` | runtimes/byte-matrix-0.2.0/smtyx/exact.py:163-256 | every completed container is accepted, under every output limit that admits the source |
| `Exact.RoundTrip` | runtimes/byte-matrix-0.2.0/smtyx/exact.py:163-266 | for every source, layout and route that encode, decoding the written container returns the source |
| `Index.GroupNodes` | runtimes/byte-matrix-0.2.0/smtyx/core.py:75-86 | the grouping loop returns the parents of all groups of `fanout` children, in order |
| `Index.ParentMeans` | runtimes/byte-matrix-0.2.0/smtyx/core.py:77-85 | a parent is numbered, begins where its first child does, and lists the ids of the next `fanout` children, or of all that are left |
| `Index.GroupCovers` | runtimes/byte-matrix-0.2.0/smtyx/core.py:75-86 | if children of w bytes tile the data with their own signatures, their parents of w * fanout bytes do too |
| `Index.LevelTiles` | runtimes/byte-matrix-0.2.0/smtyx/core.py:111-133 | the nodes of a level start at 0, follow each other without gap or overlap, end at the size, and each has the signature of data[offset:offset+N] |
| `Index.IndexAgrees` | runtimes/byte-matrix-0.2.0/smtyx/core.py:111-133 | every MICRO, BLOCK and PAGE level of the index covers the data in that sense, and the root carries the signature of all of it |
| `IndexEdges.WithinGroup` | runtimes/byte-matrix-0.2.0/smtyx/core.py:77-85 | in a level that tiles the size, group j consists of the nodes that begin in the range of the j-th wider node |
| `IndexEdges.BuildIsLinked` | runtimes/byte-matrix-0.2.0/smtyx/core.py:128-133 | over MICROs that tile the size, every level does, the root spans it, and every parent has the children and moments of the nodes of the level below in its range |
| `IndexEdges.LinkedIsBuilt` | runtimes/byte-matrix-0.2.0/smtyx/format.py:77-82 | these equations have one solution over given MICROs: the list that building gives |
| `Index.NodeCountIsExact` | runtimes/byte-matrix-0.2.0/smtyx/core.py:99-104 | the preflight count by nested ceilings is the number of nodes built |
| `Document.Scan` | runtimes/byte-matrix-0.2.0/smtyx/core.py:110-120 | the read loop collects the histogram and the MICROs of the data, and its own budget check fires only where the preflight check does |
| `Document.AnalyzeFile` | runtimes/byte-matrix-0.2.0/smtyx/core.py:89-146 | completes exactly when the mode is known, size, time and inode are unchanged, and the hierarchy has at most max_nodes nodes; returns the analysis defined by the data alone; every BLOCK, PAGE and DOC lists, in order, exactly the nodes of the level below that begin in its range, and MICROs list none |
| `Document.AnalyzableMeans` | runtimes/byte-matrix-0.2.0/smtyx/core.py:92-104 | the preflight checks admit an input if and only if the hierarchy built from it stays within the budget |
| `Document.HierarchyEdges` | runtimes/byte-matrix-0.2.0/smtyx/core.py:80-85 | the edges of the hierarchy of every source, kind by kind |
| `Document.ValidateHierarchy` | runtimes/byte-matrix-0.2.0/smtyx/format.py:53-83 | accepts exactly the coherent hierarchies, which are also those rebuilt from bounded MICROs tiling the declared size; in an accepted one every parent lists exactly the nodes of the level below in its range |
| `Document.ValidIff` | runtimes/byte-matrix-0.2.0/smtyx/format.py:53-83 | being rebuilt from its MICROs is the same as coherence: levels that tile the size, bounds, and every parent linked to the nodes in its range |
| `Document.CoherentMeans` | runtimes/byte-matrix-0.2.0/smtyx/format.py:39-83 | every node of an accepted hierarchy is within the bounds of a string of 255-bytes of its length, and has the edges its range demands |
| `Document.ValidIsDetermined` | runtimes/byte-matrix-0.2.0/smtyx/format.py:53-83 | layout, size and MICRO signatures determine an accepted hierarchy |
| `Document.AnalysisIsValid` | runtimes/byte-matrix-0.2.0/smtyx/format.py:53-83 | the hierarchy of every source below 2^63 bytes is accepted |
| `Document.ValidateMetadata` | runtimes/byte-matrix-0.2.0/smtyx/format.py:104-120 | accepts exactly consistent size, fingerprint and histogram with a valid hierarchy; the sixteen counts then add up to the size and, with weights 1 to 16, to the fingerprint |
| `Document.ValidateDocument` | runtimes/byte-matrix-0.2.0/smtyx/format.py:86-126 | accepts exactly the documents with the declared constants, a name, a digest of 32 bytes, consistent numbers, a hierarchy just in LARGE mode, and a valid route, which has to name the digest if it is a FILE route |
| `Document.Encode` | runtimes/byte-matrix-0.2.0/smtyx/format.py:129-139 | completes exactly when the analysis does and the document of the source is valid, and returns that document |
| `Document.DocumentIsValid` | runtimes/byte-matrix-0.2.0/smtyx/format.py:86-126 | the document of a source below 2^63 bytes is valid if and only if the name is not empty and the route is valid and, for a FILE route, names the digest of the source |
| `Document.VerifySource` | runtimes/byte-matrix-0.2.0/smtyx/format.py:146-155 | true exactly when the document is valid, the source is stable, and its analysis is the one in the document: the node budget taken from the document never rejects the right source |
| `Document.EncodeThenVerify` | runtimes/byte-matrix-0.2.0/smtyx/format.py:129-155 | for a stable source within the budget, encoding and then verifying against it succeeds if and only if name and route are acceptable |
| `Document.BudgetOfDocument` | runtimes/byte-matrix-0.2.0/smtyx/format.py:148-150 | max_nodes = len(nodes) is always enough |
| `Agreement.UnitSplits` | runtimes/byte-matrix-0.2.0/smtyx/exact.py:187-207 | cutting the bytes of a node by the records' length fields gives records whose signatures, level by level, are those of the nodes under it, whatever follows |
| `Agreement.LevelSigsAgree` | runtimes/byte-matrix-0.2.0/smtyx/core.py:111-133 | level by level those signatures are the ones of the version 1 nodes |
| `Agreement.StreamingRefinesBatch` | runtimes/byte-matrix-0.2.0/smtyx/exact.py:181-207 | cutting the bytes of any container into records gives header, body and footer, children before their parent, and the signatures decoded from its M, B, P and D records are those of the version 1 MICRO, BLOCK, PAGE and DOC nodes, in order |
| `Agreement.MicroCarries` | runtimes/byte-matrix-0.2.0/smtyx/exact.py:192-193 | the five integers a MICRO payload begins with decode to the signature of its bytes |
| `Agreement.CloseCarries` | runtimes/byte-matrix-0.2.0/smtyx/exact.py:196-207 | the payload that closes a node decodes, with nothing behind, to the signature of the node's bytes |
| `Agreement.FooterAgreesWithDocument` | runtimes/byte-matrix-0.2.0/smtyx/exact.py:129-140 | footer and version 1 document agree on digest, fingerprint, histogram, node counts and root |
| `TaskGraphs.TopologicalIsAcyclic` | smtyx/task_graph.py:36-53 | a complete order with dependencies first rules out every cycle |
| `TaskGraphs.TopologicalIff` | smtyx/task_graph.py:36-53 | an order is topological if and only if no dependency entry runs against it |
| `TaskGraphs.CyclesRunBackward` | smtyx/task_graph.py:36-53 | in every complete order every cycle has a node that a dependency entry against the order leads to |
| `TaskGraphs.DependenciesFirst` | smtyx/task_graph.py:55-60 | what the scheduler has completed after k rounds had all its dependencies completed after k - 1 |
| `TaskGraphs.RoundsProgress` | smtyx/task_graph.py:55-60 | without missing dependencies and cycles every round completes at least one more node until all are |
| `TaskGraphs.StuckMeansCycle` | smtyx/task_graph.py:55-60 | if nothing is ready although nodes are left, the proof constructs a cycle |
| `TaskGraphs.SchedulerEquivalence` | smtyx/task_graph.py:29-60 | dependencies are present and acyclic if and only if repeatedly adding the ready nodes from nothing completes every node within as many rounds as there are nodes |
| `TaskGraphs.CompletionMeansValid` | smtyx/task_graph.py:29-60 | completing every node after any number of rounds already means that the graph is valid |
| `TaskGraphMethods.MissingErrorsContain` | smtyx/task_graph.py:30-34 | a MISSING_DEPENDENCY error is listed exactly for each unknown dependency of a known node |
| `TaskGraphMethods.MissingErrorsPlaced` | smtyx/task_graph.py:30-34 | the MISSING_DEPENDENCY errors are, one each, the places of unknown dependencies: nodes in insertion order, dependencies in list order |
| `TaskSearches.VisitKeeps` | smtyx/task_graph.py:39-49 | searching from a node finishes it and reports, counted with multiplicity, exactly the dependency entries that run against the order of entry into `visited` (and the node itself if it is being visited) |
| `TaskSearches.VisitFindsCycles` | smtyx/task_graph.py:39-49 | below a chain of dependencies the search names only nodes on cycles |
| `TaskSearches.SearchMeans` | smtyx/task_graph.py:36-53 | the whole search finishes every node once; its reports are, entry by entry, the dependencies against that order, each names a node on a cycle, and every cycle has a reported node |
| `TaskSearches.SearchDecides` | smtyx/task_graph.py:36-53 | nothing is reported if and only if there is no cycle, and if and only if the order of entry into `visited` is topological |
| `TaskSearches.VisitAllFinishes` | smtyx/task_graph.py:39-49 | a search from several nodes finishes exactly what can be reached from one of them around the nodes seen before |
| `TaskSearches.DependenciesInOrder` | smtyx/task_graph.py:46-49 | below a node, what an earlier dependency leads to finishes before what only a later one leads to, and the node itself last |
| `TaskSearches.RootsInOrder` | smtyx/task_graph.py:51-52 | whatever can be reached from a node and from none added before it finishes before that node, and what an earlier added node leads to finishes before what only a later added one leads to |
| `TaskGraphMethods.SearchState.Dfs` | smtyx/task_graph.py:39-49 | the recursion over the shared sets terminates, restores `visiting`, and does what the search function defines |
| `TaskGraphMethods.TaskGraph.Add` | smtyx/task_graph.py:24-27 | a duplicate id raises and changes nothing; otherwise the node is appended |
| `TaskGraphMethods.TaskGraph.Validate` | smtyx/task_graph.py:29-53 | the error list is the missing dependencies and then a CYCLE error per report of the search, in order; the search starts from the nodes in insertion order; a CYCLE error names a node on a cycle and every cycle has one; valid if and only if the greedy scheduler completes every node |
| `TaskGraphMethods.TaskGraph.Ready` | smtyx/task_graph.py:55-60 | the list holds, in insertion order, exactly the nodes not completed all of whose dependencies are |
| `TaskGraphMethods.TaskGraph.Schedule` | smtyx/task_graph.py:55-60 | calling ready until it returns nothing takes at most as many rounds as nodes, completes in each round something with all dependencies completed before, and completes everything if and only if the graph is valid |
| `VocabMethods.ParseToken` | legacy/aivocab_v0_1/src/parser.py:319-402 | the branch cascade for one token updates exactly the fields, and consumes exactly the tokens, of the step function |
| `VocabMethods.ParseSymbolic` | legacy/aivocab_v0_1/src/parser.py:295-407 | the index loop computes the fold of that step over the tokens, with the END check |
| `ParseMeaning.ParseMeans` | legacy/aivocab_v0_1/src/parser.py:318-407 | every field of the result over every text: actions in order, the last priority and the last confidence, the first object word (or STATE before one) as object and the next as destination, the last named target or else the first target word, the first other state word, END met or not, and the errors in order |
| `ParseMeaning.ResolveMeans` | legacy/aivocab_v0_1/src/parser.py:238-273 | a token resolves if and only if its cleaned form is a name or the number of an id, and to which entry |
| `ParseMeaning.CleanConcat` | legacy/aivocab_v0_1/src/parser.py:234-235 | cleaning works character by character |
| `ParseMeaning.CleanChar` | legacy/aivocab_v0_1/src/parser.py:234-235 | letters are put in upper case, underscores become hyphens, and what is no letter, digit or hyphen is dropped |
| `ParseMeaning.Zfill3Means` | legacy/aivocab_v0_1/src/parser.py:238-244 | filling a number with zeros to three digits keeps its value, and longer numbers stay as they are |
| `ParseMeaning.UnknownAreReported` | legacy/aivocab_v0_1/src/parser.py:322-325 | over every text without TARGET and CONFIDENCE the UNKNOWN_OPCODE values are exactly the tokens that are neither names nor ids, in order |
| `ParseMeaning.NamesHaveNoErrors` | legacy/aivocab_v0_1/src/parser.py:318-402 | a text of vocabulary names is parsed without errors |
| `ParseMeaning.EndIsRequired` | legacy/aivocab_v0_1/src/parser.py:404-405 | END_MISSING is reported, once and last, if and only if END is required and did not occur |
| `ParseMeaning.DecodedEnd` | legacy/aivocab_v0_1/src/decoder.py:34-47 | the same for either wire form: the switch adds the missing END and changes nothing else |
| `VocabMethods.ParseNumeric` | legacy/aivocab_v0_1/src/parser.py:410-443 | the translation loop, with its fallback to the original text on an unknown id |
| `WireForms.TranslateMeans` | legacy/aivocab_v0_1/src/parser.py:418-434 | a text is translated if and only if all its numbers are ids; numbers become names and other tokens keep their cleaned form |
| `WireForms.BlankIsSkipped` | legacy/aivocab_v0_1/src/parser.py:421-424 | a token without letter, digit or hyphen is skipped |
| `VocabMethods.DecodeToCanonical` | legacy/aivocab_v0_1/src/decoder.py:20-48 | the dispatch between empty, numeric and symbolic text |
| `WireForms.ThreeDigitWords` | legacy/aivocab_v0_1/src/decoder.py:34 | a token of word characters sends the text to the numeric parser if and only if it is three digits |
| `VocabMethods.EncodeSymbolic` | legacy/aivocab_v0_1/src/encoder.py:26-75 | fails exactly without actions, on an unknown action or on an unknown nonempty object; otherwise prints the known fields in upper case and in the fixed order, with or without END |
| `WireForms.EndIsAppended` | legacy/aivocab_v0_1/src/encoder.py:72-75 | include_end decides about a final END and nothing else |
| `WireForms.UnknownFieldsAreSkipped` | legacy/aivocab_v0_1/src/encoder.py:56-66 | an unknown target, state, priority or destination is left out without an error |
| `WireForms.KnownFieldsArePrinted` | legacy/aivocab_v0_1/src/encoder.py:46-66 | known fields are printed as action, object, target, state, priority, destination |
| `VocabMethods.EncodeNumeric` | legacy/aivocab_v0_1/src/encoder.py:78-100 | maps the printed tokens to ids, keeps 095 for CONFIDENCE, and drops number-like tokens; fails on a token that is neither |
| `VocabNormalForm.StepKeepsReachable` | legacy/aivocab_v0_1/src/parser.py:319-402 | every token keeps the invariant of the parser: which class of name each field can hold |
| `VocabNormalForm.ParseIsReachable` | legacy/aivocab_v0_1/src/parser.py:295-407 | so every parse result satisfies it, whatever the tokens and their order |
| `VocabNormalForm.PrintableRoundTrips` | legacy/aivocab_v0_1/src/encoder.py:26-75 | a parse result on the domain is parsed back from its print, terminated and without errors |
| `VocabNormalForm.NormalForm` | legacy/aivocab_v0_1/src/parser.py:318-407 | over every text: printing the parse result and parsing that gives the same fields if and only if there is an action, the target is empty or a target state word, and TARGET is neither object nor destination |
| `VocabNormalForm.NormalFormFails` | legacy/aivocab_v0_1/src/encoder.py:56-57 | READ TARGET PDF is parsed without errors but does not round trip, because the target is printed without its keyword |
| `WireForms.WireFormsAgree` | legacy/aivocab_v0_1/src/decoder.py:34-47 | for every parse result with an action and without confidence both printers succeed, and decoding either text gives the same canonical state |
| `WireForms.NumericFormLosesConfidence` | legacy/aivocab_v0_1/src/encoder.py:89-97 | on the round-trip domain the numeric text decodes to all fields with the confidence gone |
| `WireForms.SymbolicFormKeepsConfidence` | legacy/aivocab_v0_1/src/decoder.py:34-47 | on the round-trip domain the symbolic text decodes to all fields, even when the number makes the text look numeric |
| `WireForms.PlainIsNoId` | legacy/aivocab_v0_1/src/parser.py:425-434 | a fraction of three digits sends the text to parse_numeric, but with the digit before the point it is no id, so the parser falls back |
| `WireForms.WireFormsAgreeExactly` | legacy/aivocab_v0_1/src/decoder.py:34-47 | over every text whose parse result is on the round-trip domain, any confidence printed without exponent: both printers succeed, and both forms decode alike if and only if there is no confidence |
| `WireForms.WireFormsDiffer` | legacy/aivocab_v0_1/src/encoder.py:89-97 | READ CONFIDENCE 0.9 is parsed without errors, both forms are printed, and they decode differently |
| `WireForms.NumericFormExists` | legacy/aivocab_v0_1/src/encoder.py:78-100 | encode_numeric succeeds on a parse result if and only if there is an action and the confidence, if any, prints as a number without exponent (or as a known token) |

## Left out

- WireForms.WireFormsAgreeExactly: covers confidences printed as one digit, a point and digits; that Python's `str` prints every other float in [0, 1] with an exponent, for which `NumericFormExists` says what happens, is not modelled.
- `World` keeps the digest and JSON text abstract: nothing is said about collisions, JSON syntax, duplicate keys or key order.
- Files: whether a path is a regular file, atomic publication of outputs, hard links, partial reads.
- `result_summary`, `format.summary`, `as_dict` and the field-name checks on JSON objects: rearranging and listing of values.
- The text of digests (hexadecimal digits) and numbers (decimal digits): digests are byte strings, numbers integers with the same limits; the syntax of routes is `World.routeValid`.
- Node payloads of TaskGraph, `to_dict`, and changing a node after it was added: nodes are values in the model.
- Vocabulary text: tokens are ASCII strings already split at whitespace; `float` forms giving infinities or NaN are outside `Floats.read`.
- `parse_human_instruction` and the human word table: regular expressions over a fixed table.
- The version field of canonical states, and field values that are neither None nor strings (`str` is applied to them).
- Route registry, protocol messages, policies, memory and learning records: tables and field checks around the parts above, not modelled.
- Capability scoring and orchestration (floating-point scores, sorting), and the legacy bridge, executor, embedder and validator (regular expressions, syntax trees, subprocesses): not modelled.
