# A model of the cryptokit-soft-hsm command line tools and UKey agent

This project models seven source files of the repository and proves what they promise about all
inputs and all runs.

- **BER/DER walker** (`Asn1Header`, `Asn1Walk`, `Asn1Probe`, `Asn1Structure`, `Asn1RoundTrip`,
  `Asn1Limits`, `Oid`). Identifier, length and object-identifier octets follow ITU-T X.690 sections 8.1.2,
  8.1.3 and 8.19. The walk is proved against a recursive specification, and that against an independent tiling of the
  buffer, a printer for TLV forests, and itself on any node cut out of a buffer.
- **`enc` files** (`EncHeader`, `EncStream`). The header is inverted in both directions. The stdin cache,
  the file schedule and the block-wise feeder are proved against the chunks they hand on; the cipher is
  any function of the input so far that releases whole blocks (or everything) and only grows.
- **Key store and key synchronisation** (`KeyUuid`, `KeyStore`, `KeySync`). Identifier lists, deletion and
  erasure over a directory, the 192-octet record, and sending followed by receiving.
- **UKey agent and helper** (`Base64`, `HelperFrame`, `QuoteArg`, `HttpRecv`, `SkfHandles`). Base64
  (RFC 4648 sections 4 and 5), the nine-line message, Microsoft's argument rules, HTTP reassembly
  (RFC 9112 sections 2.1 and 6.2) and the vendor handles of every run, whatever the vendor answers.
- **Configuration strings** (`SplitString`, `DnName`). A tokenizer and a distinguished-name parser that
  both write into the copy they read from.

`Octets` and `Strings` hold what the others share. `dafny verify dfyconfig.toml` checks everything.

Loops and in-place updates of the source are methods with invariants, proved against functions; the
theorems are lemmas about those functions. What the functions rest on is stated on octet values, character
codes and literal numbers: tags, lengths, blanks, digits, cases of letters, limits and record layouts.

Outside inputs are parameters: what reads deliver, what the socket delivers, what the callback answers
(`accepts`), which name types are known (`known`), whether an SM2 pair matches (`pairCheck`), and what the
vendor library replies (`replies`).

Where the code does not do what one would expect of it, the exact condition is proved:

- The sum position + header + content of a TLV is unsigned 64-bit. It wraps on some buffers, and then the
  walker accepts the node and moves back, on some buffers for ever (`Asn1Walk.ProgressIffNoWrap`,
  `Asn1Limits.WrappingLoops`).
- An encrypted file comes back if and only if it has at most 2^32 - 2 octets; longer ones are refused before
  their length is cut to 32 bits (`EncHeader.FileIffPrinted`, `EncHeader.LongestFile`).
- The 16 octets the stdin cache holds back guarantee a long enough last chunk, not block-aligned chunks
  before it (`EncStream.WholeBlocksIff`, `EncStream.WholeBlocksOfReads`).
- An empty key file cannot be erased, because no zero-length buffer can be allocated for it
  (`KeyStore.Directory.EraseKeyFile`).
- Challenge and user id are sent as the client wrote them. A line feed in the challenge text, which decoding
  skips, shifts the fields behind it (`HelperFrame.HelperReads`, `HelperFrame.SignFrameIff`).
- A request is received however it is cut if and only if its head has at most 12289 octets or it has at most
  16384 in all (`HttpRecv.SegmentationIff`).
- A distinguished name whose very last value has an escape is read with extra characters, because that
  value is not terminated in the copy (`DnName.NameRoundTrip`, `DnName.SlashedReadBack`).
- A multi-valued relative name whose last type is unknown or last value empty is joined with the next that
  keeps anything (`DnName.SkippingJoinsIff`, `DnName.JoinedExample`).

## Model

| member | source | states |
|---|---|---|
| `Octets.U32RoundTrip` | openhitls/bsl/include/bsl_bytes.h:98-201 | Reading four big-endian octets back yields the number written, for every 32-bit number. |
| `Octets.U32Unique` | openhitls/bsl/include/bsl_bytes.h:98-201 | Every four octets are the big-endian form of the number they read as. |
| `Octets.U64RoundTrip` | openhitls/bsl/include/bsl_bytes.h:98-201 | The same inversion for eight octets and 64-bit numbers. |
| `Octets.U32Order` | openhitls/bsl/include/bsl_bytes.h:98-201 | The most significant octet comes first: a number is b0 * 2^24 + b1 * 2^16 + b2 * 2^8 + b3 of the octets written for it. |
| `Octets.U64Unique` | openhitls/bsl/include/bsl_bytes.h:98-201 | Every eight octets are the big-endian form of the number they read as. |
| `Strings.SpaceCodes` | openhitls/apps/src/app_conf.c:93-119 | A character is blank exactly if its code is 9 to 13 or 32. |
| `Asn1Header.ReadTag` | openhitls/apps/src/app_asn1parse.c:237-263 | The loop over identifier octets computes the tag of X.690 section 8.1.2, with the wrapping shift, and fails exactly on a missing octet or an unterminated number. |
| `Asn1Header.ReadLength` | openhitls/apps/src/app_asn1parse.c:265-294 | The loop over length octets computes the big-endian value of X.690 section 8.1.3; refuses the indefinite form, more octets than a size_t has and missing octets; its overflow test never fires. |
| `Asn1Header.ParseSingleNode` | openhitls/apps/src/app_asn1parse.c:734-755 | Tag and length together give header and content length, or fail. |
| `Asn1Header.HeaderLocal` | openhitls/apps/src/app_asn1parse.c:237-294 | A header depends only on its own octets: equal octets elsewhere give an equal header. |
| `Asn1Header.TagRoundTrip` | openhitls/apps/src/app_asn1parse.c:237-263 | For every class, form and tag number below 2^49, reading the section 8.1.2 encoding gives them back and consumes exactly it. |
| `Asn1Header.LengthRoundTrip` | openhitls/apps/src/app_asn1parse.c:265-294 | For every length up to SIZE_MAX, reading the section 8.1.3 encoding gives it back and consumes exactly it. |
| `Asn1Header.HeaderRoundTrip` | openhitls/apps/src/app_asn1parse.c:734-755 | Identifier and length octets printed one after the other are read back together. |
| `Asn1Header.KnownTags` | openhitls/apps/src/app_asn1parse.c:237-263 | Literal identifier octets for short and long tag numbers; `Asn1Header.TagRoundTrip` has them read back. |
| `Asn1Header.KnownLengths` | openhitls/apps/src/app_asn1parse.c:265-294 | Literal length octets for short and long lengths; `Asn1Header.LengthRoundTrip` has them read back. |
| `Asn1Header.LongTagRefused` | openhitls/apps/src/app_asn1parse.c:251-262 | A tag whose first seven number octets all say that more follow is refused. |
| `Asn1Header.LengthRefused` | openhitls/apps/src/app_asn1parse.c:276-279 | The first octets 0x80 (indefinite form) and above 0x88 (more than eight length octets) are refused. |
| `Asn1Walk.ProgressIffNoWrap` | openhitls/apps/src/app_asn1parse.c:757-771 | An accepted node moves the cursor forward if and only if position + header + content does not wrap; a wrapping sum is always accepted and moves it back. |
| `Asn1Walk.AppAsn1ParseBuffer` | openhitls/apps/src/app_asn1parse.c:907-922 | Status and printed nodes of the whole run are those of the recursive specification; an empty buffer is an invalid argument. |
| `Asn1Walk.ParseRecursive` | openhitls/apps/src/app_asn1parse.c:820-859 | The loop over siblings, with its depth and bounds guards, refines the specification and terminates on the octets left, whatever the depth cap. |
| `Asn1Walk.ProcessParsedNode` | openhitls/apps/src/app_asn1parse.c:782-818 | Constructed content is walked one level down, a primitive BIT STRING is probed, everything else has nothing below it. |
| `Asn1Walk.ParseEmbeddedDer` | openhitls/apps/src/app_asn1parse.c:685-725 | Content of a BIT STRING is walked one level down exactly when it passes the probe, which `Asn1Probe.ProbeIff` states on octet values. |
| `Asn1Walk.AppAsn1GetNodeBytes` | openhitls/apps/src/app_asn1parse.c:879-905 | Returns header and content octets of the node at an offset, or fails when they do not fit the buffer. |
| `Asn1Probe.ProbeIff` | openhitls/apps/src/app_asn1parse.c:685-725 | The probe accepts if and only if the octets begin with identifier octets of class 0 and number 4, 16 or 17 and at most eight length octets whose length fits; stated on octet values. |
| `Asn1Probe.BitStringBelow` | openhitls/apps/src/app_asn1parse.c:685-818 | Below a primitive BIT STRING of two or more octets lines appear if and only if what follows the first octet begins such a header. |
| `Asn1Probe.NothingBelow` | openhitls/apps/src/app_asn1parse.c:782-818 | Below any other primitive node there are none. |
| `Asn1Structure.ParseIffTiles` | openhitls/apps/src/app_asn1parse.c:782-859 | A buffer parses with a listing if and only if the listing tiles it: siblings without gap or overlap, children filling their parent; the silent-success guard is reached only for empty content. |
| `Asn1Structure.ParseTooDeep` | openhitls/apps/src/app_asn1parse.c:820-832 | A buffer that is not empty ends with an invalid argument only after a line at depth 128 was printed. |
| `Asn1Structure.ParseIsLaminar` | openhitls/apps/src/app_asn1parse.c:782-859 | Any two nodes of a successful parse are disjoint or nested, in printing order, inside the buffer. |
| `Asn1Structure.ProbeLocal` | openhitls/apps/src/app_asn1parse.c:685-725 | The wrapped-DER probe accepts octets in one place if and only if it accepts the same octets in another, however far the enclosing region reaches. |
| `Asn1Structure.LoopMoves` | openhitls/apps/src/app_asn1parse.c:820-859 | Walking equal octets at another offset and a smaller depth succeeds too and prints the same nodes, moved. |
| `Asn1Structure.Locality` | openhitls/apps/src/app_asn1parse.c:879-905 | If a buffer parses, cutting out any printed node returns its octets, and parsing them alone prints exactly its subtree, embedded nodes included, moved to offset and depth zero. |
| `Asn1RoundTrip.ParseEncoded` | openhitls/apps/src/app_asn1parse.c:734-859 | For every well-formed forest (tag numbers below 2^49, nodes with content below them no deeper than 127, plain BIT STRINGs not beginning a SEQUENCE, SET or OCTET STRING that fits behind their first octet), parsing its encoding visits exactly its preorder with all fields right; BIT STRINGs that wrap DER included. |
| `Asn1RoundTrip.PlainBitString` | openhitls/apps/src/app_asn1parse.c:705-725 | 03 05 00 01 00 80 90 is one node with nothing below it. |
| `Asn1RoundTrip.WrappedSequence` | openhitls/apps/src/app_asn1parse.c:685-725 | A BIT STRING around a SEQUENCE around NULL is three nodes. |
| `Asn1Limits.ParseNeverWraps` | openhitls/apps/src/app_asn1parse.c:757-771 | A buffer below 2^63 octets without an octet 0x88 never makes the size sum wrap. |
| `Asn1Limits.WrappingBuffer` | openhitls/apps/src/app_asn1parse.c:757-859 | A twelve-octet buffer on which the sum wraps to 0 and the source accepts the node. |
| `Asn1Limits.WrappingLoops` | openhitls/apps/src/app_asn1parse.c:834-857 | On that buffer the loop never ends: after any number of rounds its cursor is at the first or the second node. |
| `Oid.ParseOidArc` | openhitls/apps/src/app_asn1parse.c:296-313 | One base-128 subidentifier of at most nine octets, always below 2^63, or failure. |
| `Oid.ParseOidFirstArc` | openhitls/apps/src/app_asn1parse.c:315-330 | The first subidentifier is split into the first two arcs. |
| `Oid.ParseOidNodes` | openhitls/apps/src/app_asn1parse.c:340-363 | Fills the array with the arcs; for every input its 64 slots are never overrun. |
| `Oid.OidRoundTrip` | openhitls/apps/src/app_asn1parse.c:296-363 | For every identifier of two arcs or more with subidentifiers below 2^63, decoding its X.690 section 8.19 encoding returns its first 64 arcs. |
| `Oid.KnownOid` | openhitls/apps/src/app_asn1parse.c:296-363 | The literal octets of 1.2.840.113549; `Oid.OidRoundTrip` has them read back. |
| `Oid.OidBytesToDotted` | openhitls/apps/src/app_asn1parse.c:365-411 | For every input the dotted text stays within 499 characters, is that of a prefix of the arcs, and of all of them unless it reached 480. |
| `EncHeader.ParseIffPrinted` | openhitls/apps/src/app_enc.c:660-886 | A buffer is accepted with given fields and ciphertext if and only if it is the printed header of those fields followed by that ciphertext, for any IV length including 0. |
| `EncHeader.HeaderOctets` | openhitls/apps/src/app_enc.c:660-699 | The octets of a printed header by literal offset: version, cipher, salt length 8, salt, iterations, IV length and IV, numbers in network order. |
| `EncHeader.FirstFault` | openhitls/apps/src/app_enc.c:782-861 | In a header that is long enough, version, cipher and salt length at the literal offsets 0, 4 and 8 are compared in this order and each has its error; the IV length at 24 can fail only where there is an IV. |
| `EncHeader.FileIffPrinted` | openhitls/apps/src/app_opt.c:694-725 | A whole file is accepted with given fields and ciphertext if and only if it is their printed form and at most 2^32 - 2 octets long. |
| `EncHeader.LongestFile` | openhitls/apps/src/app_opt.c:704-707 | At 2^32 - 2 octets a printed file comes back whole; one octet more and it is refused. |
| `EncHeader.EncCmdOpt.DecodeInputForDec` | openhitls/apps/src/app_enc.c:741-753 | An empty file and one above 2^32 - 2 octets are refused; otherwise the 32-bit length kept is the exact length. |
| `EncHeader.EncCmdOpt.WriteEncFileHeader` | openhitls/apps/src/app_enc.c:660-699 | The octets filled into the header array are the printed header. |
| `EncHeader.EncCmdOpt.CheckDecHeaderMinLen` | openhitls/apps/src/app_enc.c:782-793 | Fails exactly below the minimum length for the cipher's IV. |
| `EncHeader.EncCmdOpt.ParseHeaderPrefix` | openhitls/apps/src/app_enc.c:795-829 | Version, cipher, salt length and salt; after the minimum-length check its bounds checks cannot fail. |
| `EncHeader.EncCmdOpt.ParseHeaderIterAndIv` | openhitls/apps/src/app_enc.c:831-861 | Iteration count and IV, skipped when there is none; its bounds checks cannot fail either. |
| `EncHeader.EncCmdOpt.HandleDecFileHeader` | openhitls/apps/src/app_enc.c:864-886 | Read and the parsing steps together store exactly what the specification parses, or fail with its error, and leave the ciphertext. |
| `EncHeader.AppCopyData` | openhitls/apps/src/app_enc.c:172-182 | Copies when the source fits the destination and otherwise changes nothing. |
| `EncStream.ReleasedSplits` | openhitls/crypto/modes/src/modes.c:433-479 | Feeding two inputs one after the other releases what feeding them joined releases. |
| `EncStream.CipherCtx.Update` | openhitls/crypto/modes/src/modes.c:433-479 | Contract of the cipher update: it takes all input, releases whole blocks (or everything, for stream modes) and refuses a capacity too small for them. |
| `EncStream.Encryptor.StreamCipherUpdate` | openhitls/apps/src/app_enc.c:995-1027 | Across any number of calls each octet is fed once and in order, and offset plus advertised capacity never exceeds the result buffer. |
| `EncStream.XtsCtx.Update` | openhitls/crypto/modes/src/modes_xts.c:189-246 | Contract of an XTS update: less than a block is refused, otherwise as many octets come out as went in. |
| `EncStream.Encryptor.XTSCipherUpdate` | openhitls/apps/src/app_enc.c:979-993 | The whole chunk goes to the context in one call and its output is written. |
| `EncStream.XtsWritesWhatItReads` | openhitls/apps/src/app_enc.c:979-993 | From standard input and from a file, XTS writes as many octets as were read. |
| `EncStream.Encryptor.UpdateEncStdinEnd` | openhitls/apps/src/app_enc.c:1029-1040 | At end of file the cache is handed on, except an XTS rest below 16 octets, which fails. |
| `EncStream.Encryptor.UpdateEncStdin` | openhitls/apps/src/app_enc.c:1042-1117 | The cache loop hands on exactly the chunks of the specification and writes their output in order; the cache holds at most 31 octets at the loop head and its overflow check never fires. |
| `EncStream.Encryptor.UpdateEncFile` | openhitls/apps/src/app_enc.c:1119-1168 | The file loop hands on exactly the scheduled chunks, writes their output in order, and stops at the first failing read. |
| `EncStream.StdinTheorem` | openhitls/apps/src/app_enc.c:1029-1117 | For every sequence of non-empty reads the chunks concatenate to the input, XTS chunks hold 16 to 4111 octets, and the only failure is XTS input below 16 octets. |
| `EncStream.WholeBlocksIff` | openhitls/apps/src/app_enc.c:1042-1117 | XTS chunks before the last are whole blocks if and only if each read that flushes the cache leaves it block-aligned. |
| `EncStream.WholeBlocksOfReads` | openhitls/apps/src/app_enc.c:1042-1117 | Reads of multiples of 16 octets give whole-block chunks; where every read delivers 32 octets or more, only they do. |
| `EncStream.SplitBlockExample` | openhitls/apps/src/app_enc.c:1042-1117 | One read of 40 octets reaches the XTS context as 24 octets and 16. |
| `EncStream.FileTheorem` | openhitls/apps/src/app_enc.c:1119-1168 | The file schedule sums to the file; XTS chunks are 4096 octets each and the last 16 to 8191; the only failure is an XTS file below 16 octets. |
| `EncStream.OneRead` | openhitls/apps/src/app_enc.c:1042-1117 | One read of 16 to 31 octets is handed on whole at the end, one of 32 to 4096 as all but its last 16 octets and then these. |
| `EncStream.BadRead` | openhitls/apps/src/app_enc.c:1042-1117 | The first read that fails or delivers nothing gives the status, whatever would follow. |
| `EncStream.FailingRead` | openhitls/apps/src/app_enc.c:1119-1168 | Where read n of a file fails, exactly the first n chunks of the schedule were handed on. |
| `KeyUuid.IsValidKeyUuid` | openhitls/apps/src/app_keymgmt.c:160-176 | Accepts exactly 64 characters with the codes 48 to 57, 65 to 70 and 97 to 102. |
| `KeyUuid.IsValidKeyUuidList` | openhitls/apps/src/app_keymgmt.c:178-201 | The automaton accepts exactly the strings whose comma-separated pieces are all such identifiers. |
| `KeyUuid.ListIffJoin` | openhitls/apps/src/app_keymgmt.c:178-201 | Those strings are exactly the comma-joins of one or more identifiers, and splitting returns them. |
| `KeyUuid.SplitUuidString` | openhitls/apps/src/app_keymgmt.c:754-798 | The tokenizer returns the identifiers in order, and nothing for a string that is not a list. |
| `KeyStore.IsP12File` | openhitls/apps/src/app_keymgmt.c:826-842 | Accepts exactly the names made of 64 such characters and .p12. |
| `KeyStore.KeyFileNameIff` | openhitls/apps/src/app_keymgmt.c:826-842 | Those are exactly the file names of identifiers. |
| `KeyStore.AllRemovableIff` | openhitls/apps/src/app_keymgmt.c:800-811 | A list can be deleted whole if and only if its members are well formed, pairwise distinct and erasable. |
| `KeyStore.Directory.EraseKeyFile` | openhitls/apps/src/app_keymgmt.c:519-563 | Erasing succeeds exactly on a regular file of 1 octet to 256 KiB. |
| `KeyStore.Directory.RmvKey` | openhitls/apps/src/app_keymgmt.c:565-588 | Removes exactly the named file, or nothing. |
| `KeyStore.Directory.DeleteKeyByUuidList` | openhitls/apps/src/app_keymgmt.c:800-811 | Removes exactly the prefix before the first member that cannot be removed. |
| `KeyStore.Directory.DeleteKey` | openhitls/apps/src/app_keymgmt.c:813-824 | On a list, succeeds if and only if the members are distinct and erasable, and then removes exactly them. |
| `KeyStore.Directory.GetAllKeyUuids` | openhitls/apps/src/app_keymgmt.c:844-885 | Lists the identifiers of the regular files named like keys, in directory order. |
| `KeyStore.Directory.EraseAllKeys` | openhitls/apps/src/app_keymgmt.c:887-903 | Succeeds if and only if every key file is erasable, then removes exactly the key files; otherwise exactly those listed before the first that is not erasable; never touches any other entry. |
| `KeyStore.ListedKeys` | openhitls/apps/src/app_keymgmt.c:844-885 | The identifiers listed are those of all key files and of no other file. |
| `KeySync.AttrRoundTrip` | openhitls/apps/src/app_keymgmt.c:119-132 | Attributes survive the conversion to network order and back, negative numbers included. |
| `KeySync.PayloadIff` | openhitls/apps/src/app_keymgmt.c:1515-1546 | A payload reaches key construction if and only if it is length, public key, length, private key. |
| `KeySync.PayloadLayout` | openhitls/apps/src/app_keymgmt.c:1271-1311 | The octets of a payload by offset: the public half comes first, each half behind its length. |
| `KeySync.RecordLayout` | openhitls/apps/src/app_keymgmt.c:1271-1321 | The octets of a record by literal offset: version, identifier, algorithm, creation and expiry time in two's complement and network order, key length, key, zeros up to 192. |
| `KeySync.KeyOfIff` | openhitls/apps/src/app_keymgmt.c:1548-1576 | A record is taken for a key if and only if the key is well formed and the record begins as the one made for that key does; what follows the key is not looked at. |
| `KeySync.WhyNoKey` | openhitls/apps/src/app_keymgmt.c:1515-1576 | A record that is no key is a bad argument, unless only the pair check of its halves fails. |
| `KeySync.WhyNoRecord` | openhitls/apps/src/app_keymgmt.c:1271-1398 | The stored keys without a record, by literal sizes and algorithm 296, and the error of each. |
| `KeySync.RecordRoundTrip` | openhitls/apps/src/app_keymgmt.c:1271-1321 | A key survives the record format if and only if its algorithm agrees with its kind and it fits. |
| `KeySync.FillSyncKeyInfoFromCipher` | openhitls/apps/src/app_keymgmt.c:1313-1321 | Fills a zeroed record with attributes, length and key. |
| `KeySync.FillSyncKeyInfoFromSm2` | openhitls/apps/src/app_keymgmt.c:1271-1311 | Fills a zeroed record with attributes and the two length-prefixed halves of the pair, or fails on a key that is no pair or does not fit. |
| `KeySync.SplitPayload` | openhitls/apps/src/app_keymgmt.c:1515-1546 | The parsing steps compute the specified pair, or none. |
| `KeySync.Peer.PrepareOneKey` | openhitls/apps/src/app_keymgmt.c:1376-1398 | Writes the record of one stored key at the index and leaves what is before it. |
| `KeySync.Peer.SendKey` | openhitls/apps/src/app_keymgmt.c:1412-1464 | Sends version, count and one record per listed key, or fails with the first error and sends nothing. |
| `KeySync.Peer.ParseAndWriteKeyFile` | openhitls/apps/src/app_keymgmt.c:1548-1576 | Files the key of a good record under the hexadecimal form of its identifier, whose digits `KeySync.HexValue` states; a bad record changes nothing. |
| `KeySync.Peer.ReceiveKey` | openhitls/apps/src/app_keymgmt.c:1578-1655 | Iteration counts below 1024 and salts below 8 octets are refused; otherwise the receiver refines the specification: version, count, then record by record. |
| `KeySync.HexInjective` | openhitls/apps/src/app_opt.c:616-634 | Different identifiers have different hexadecimal names. |
| `KeySync.HexValue` | openhitls/apps/src/app_opt.c:616-634 | Characters 2i and 2i + 1 of the hexadecimal form are, by character code and in lower case, the two digits of octet i. |
| `KeySync.KeyIsListed` | openhitls/apps/src/app_keymgmt.c:844-885 | A key in the store is listed under the hexadecimal form of its identifier. |
| `KeySync.KeyIsDeleted` | openhitls/apps/src/app_keymgmt.c:813-824 | Deleting that text removes exactly that key, if and only if its file has 1 to 262144 octets. |
| `KeySync.ReceivedIsListed` | openhitls/apps/src/app_keymgmt.c:813-885 | A received key whose identifier no later one has is listed under that text and can be deleted by it. |
| `KeySync.StoreAllLookup` | openhitls/apps/src/app_keymgmt.c:1548-1655 | Overwriting touches the names of the received keys only, and of two keys with one identifier the later stays. |
| `KeySync.LoopStoresGoodKeys` | openhitls/apps/src/app_keymgmt.c:1603-1655 | A bad record i leaves exactly the first i records stored and gives its own error: missing, no key, or not writable; success means all were stored. |
| `KeySync.SendThenReceive` | openhitls/apps/src/app_keymgmt.c:1412-1655 | Sending any valid list of 1 to 1024 well-formed keys and receiving the octets leaves the receiver's store overwritten by exactly those keys. |
| `KeySync.MessageLayout` | openhitls/apps/src/app_keymgmt.c:1412-1464 | A message is 00 00 00 01, the number of keys in four octets and 192 octets for each; a list that is none or has more than 1024 entries is a bad argument. |
| `KeySync.MessageRecord` | openhitls/apps/src/app_keymgmt.c:1412-1464 | Record i of a message is the record of the i-th listed key. |
| `KeySync.ReceiveRefused` | openhitls/apps/src/app_keymgmt.c:1578-1655 | A stream is refused, and nothing stored, if it ends within version or count, if its version is not 00 00 00 01 and if its count is 0 or above 1024. |
| `Base64.Base64UrlEncode` | ukey-agent/src/codec.hpp:71-86 | The group loop produces the specified text; its length is (4n+2)/3 rounded down. |
| `Base64.Base64Encode` | ukey-agent/src/codec.hpp:92-100 | Same digits in the standard alphabet, padded to 4*ceil(n/3) characters. |
| `Base64.AccumulatorStep` | ukey-agent/src/codec.hpp:119-124 | Although the 32-bit accumulator wraps, the octet taken from it and the bits left in it are those of the unbounded one. |
| `Base64.Base64UrlDecode` | ukey-agent/src/codec.hpp:102-127 | The decoding loop computes the specified octets, or fails on a foreign character before the first =. |
| `Base64.DecodeEncoded` | ukey-agent/src/codec.hpp:71-127 | Decoding inverts both encodings for every byte string (RFC 4648 sections 4 and 5). |
| `Base64.BlanksIgnored` | ukey-agent/src/codec.hpp:114-118 | Inserting a character with code 9 to 13 or 32 anywhere never changes the result. |
| `Base64.DecodedSize` | ukey-agent/src/codec.hpp:102-127 | k digits before the first = decode to 6k/8 octets, rounded down. |
| `Base64.Alphabets` | ukey-agent/src/codec.hpp:71-100 | The digits are those of RFC 4648 sections 4 and 5, by character code. |
| `Base64.DigitCodes` | ukey-agent/src/codec.hpp:103-109 | Both alphabets are read with those values, and no other character is a digit. |
| `Base64.ForeignRefused` | ukey-agent/src/codec.hpp:102-127 | Any other character before the first = makes the text invalid. |
| `Base64.PaddingEnds` | ukey-agent/src/codec.hpp:102-127 | Nothing after the first = is read. |
| `Base64.KnownTexts` | ukey-agent/src/codec.hpp:71-100 | Test vectors of RFC 4648 section 10. |
| `HelperFrame.Stdin.ReadLineRequired` | ukey-agent/src/helper_main.cpp:135-140 | One line, without a final carriage return, or failure at end of input. |
| `HelperFrame.Stdin.ReadRequest` | ukey-agent/src/helper_main.cpp:332-359 | The nine reads, the decoding and the three length checks compute the specified request or error. |
| `HelperFrame.LinesIffCarried` | ukey-agent/src/agent_main.cpp:369-380 | Lines come back as sent if and only if none has a line feed or a final carriage return. |
| `HelperFrame.HelperReads` | ukey-agent/src/agent_main.cpp:369-380 | For every challenge and user id text, the helper makes its request of the first nine lines of the message, each text counting as many lines as it has pieces between line feeds. |
| `HelperFrame.FrameRoundTrip` | ukey-agent/src/agent_main.cpp:364-380 | Every field is recovered, empty or with line feeds where encoded, unless the challenge has more than 4096 octets, the PIN more than 64 or the user id more than 8192, which gives that error; challenge and user id may be any texts that decode, padded or spaced, without a line feed. |
| `HelperFrame.NineLines` | ukey-agent/src/agent_main.cpp:369-380 | Without line feeds in challenge and user id the message is nine lines: operation, challenge, PIN, user id, request id, device, application, container, certificate type. |
| `HelperFrame.TooFewLines` | ukey-agent/src/helper_main.cpp:135-140 | With fewer than nine lines the helper gives up. |
| `HelperFrame.FeedShiftsFields` | ukey-agent/src/agent_main.cpp:460-481 | One line feed in the challenge text makes the helper take what follows it as the PIN, the PIN as the user id, and every later field from the line before its own. |
| `HelperFrame.SignFrameIff` | ukey-agent/src/agent_main.cpp:460-481 | With a PIN and at most one line feed in the challenge text, a signing message is understood if and only if there is none. |
| `HelperFrame.FeedExample` | ukey-agent/src/agent_main.cpp:460-481 | The challenge text YQ, line feed, Yg decodes to three octets and is read as the challenge a and the PIN b. |
| `QuoteArg.Quote` | ukey-agent/src/agent_main.cpp:272-290 | The loop with its backslash counter computes the quoted form. |
| `QuoteArg.QuoteRoundTrip` | ukey-agent/src/agent_main.cpp:272-290 | For every string, quoted and parsed by Microsoft's documented rules, exactly that one argument comes back. |
| `QuoteArg.CommandLineArguments` | ukey-agent/src/agent_main.cpp:309-312 | The helper sees option and encoded path as its second and third arguments, three in all if and only if the path is not empty; its own name is unchanged if and only if it does not end in a backslash. |
| `HttpRecv.ReadHead` | ukey-agent/src/agent_main.cpp:394-430 | The line loop computes the specified head, or its rejection, or the exception of the length conversion; `HttpRecv.FieldMapHolds` and `HttpRecv.LengthRefused` say what that head is. |
| `HttpRecv.RecvRequest` | ukey-agent/src/agent_main.cpp:394-430 | The two receive loops compute the specified outcome for every sequence of deliveries. |
| `HttpRecv.SegmentationIndependent` | ukey-agent/src/agent_main.cpp:394-430 | A well-formed request with a head of at most 12289 octets, or of at most 16384 in all, is received the same for every cut of the stream into 1 to 4096 octets. |
| `HttpRecv.RefusedCut` | ukey-agent/src/agent_main.cpp:394-430 | Every other well-formed request has a cut that is refused. |
| `HttpRecv.SegmentationIff` | ukey-agent/src/agent_main.cpp:394-430 | So a well-formed request is received the same however it is cut if and only if one of the two bounds holds. |
| `HttpRecv.PrintedIsReceived` | ukey-agent/src/agent_main.cpp:394-430 | Every printed request (request line, fields, blank line, body) whose last field called Content-Length, in any mixture of cases, gives the length of the body is received as printed, however it is cut; each field is found under its name in lower case, by character codes, the last of a name winning. |
| `HttpRecv.FieldMapHolds` | ukey-agent/src/agent_main.cpp:389-417 | The map of the fields holds, for every name with the codes 65 to 90 raised by 32, the value of the last field so called, and nothing else. |
| `HttpRecv.LengthRefused` | ukey-agent/src/agent_main.cpp:417-420 | A printed head whose last Content-Length is a number throws from 4294967296 on and is refused above 65536. |
| `HttpRecv.NoLength` | ukey-agent/src/agent_main.cpp:417-420 | Without a field of that name in any mixture of cases the body is empty. |
| `HttpRecv.StoulText` | ukey-agent/src/agent_main.cpp:417-420 | A length is read with or without a sign and whatever follows it; a negative one wraps at 2^32. |
| `HttpRecv.NoPath` | ukey-agent/src/agent_main.cpp:405-410 | A request line without a second word is refused. |
| `SkfHandles.ClosedIsBalanced` | ukey-agent/src/helper_main.cpp:103-118 | A legal run that ends with nothing held closed each opened handle exactly once, and at no moment did anything outlive its owner. |
| `SkfHandles.Session.EnumerateFirst` | ukey-agent/src/helper_main.cpp:38-50 | The name is what stands before the first zero in the buffer the second of two calls filled, never empty; there is a second call if and only if the first succeeds with 1 to 1048576 octets; otherwise a failing answer ends the log. |
| `SkfHandles.Session.ChooseName` | ukey-agent/src/helper_main.cpp:142-158 | A configured name, or the first one of an enumeration made just now. |
| `SkfHandles.Session.OpenDeviceAndApplication` | ukey-agent/src/helper_main.cpp:153-165 | Opens the device and the application each under its configured name or, if that is empty, under the first name of two successful enumeration calls of that kind just before; fields and device agree whichever call fails. |
| `SkfHandles.Session.OpenContainer` | ukey-agent/src/helper_main.cpp:167-174 | The same for the container. |
| `SkfHandles.Session.ExportKey` | ukey-agent/src/helper_main.cpp:197-207 | The public key is the start of the buffer after a successful export; there is a second export, into a larger buffer that keeps what the first wrote, if and only if the first is refused with a size of 133 to 4096. |
| `SkfHandles.Session.ExportCert` | ukey-agent/src/helper_main.cpp:228-241 | The certificate is what the second of two exports wrote and announced; there is a second one if and only if the first announces 1 to 1048576 octets. |
| `SkfHandles.Session.HashAndSign` | ukey-agent/src/helper_main.cpp:209-226 | The hash handle is released before signing, and what is signed is the finished 32-octet hash of the challenge under key and user id. |
| `SkfHandles.Session.Release` | ukey-agent/src/helper_main.cpp:111-117 | From any state the destructor leaves nothing held, making legal releases only. |
| `SkfHandles.Sign` | ukey-agent/src/helper_main.cpp:176-268 | For every sequence of vendor answers the run is legal and balanced; success means one signature over the given challenge, user id, key and PIN, reported unchanged, with device, application and container opened under the configured or just enumerated names; failure is due to a recorded answer, after which there are only releases. |
| `SkfHandles.Certificate` | ukey-agent/src/helper_main.cpp:270-301 | The same balance, names and failure theorem; nothing is signed and the exported certificate is returned. |
| `SkfHandles.Probe` | ukey-agent/src/helper_main.cpp:303-318 | The same for opening and closing only. |
| `SplitString.FindEndIdx` | openhitls/apps/src/app_conf.c:93-107 | Scanning back over blanks and separators finds the end of the piece, or -1 for a blank piece that may not be. |
| `SplitString.TokenOfPiece` | openhitls/apps/src/app_conf.c:93-107 | That end is where the trimmed piece ends; -1 if and only if the piece is blank and empty pieces are not allowed. |
| `SplitString.LayNext` | openhitls/apps/src/app_conf.c:145-151 | The NUL written for a token touches none of the tokens before it. |
| `SplitString.StripKeepsTokens` | openhitls/apps/src/app_conf.c:117-119 | Leading blanks change neither tokens nor failures. |
| `SplitString.SplitString` | openhitls/apps/src/app_conf.c:109-161 | Succeeds with exactly the trimmed pieces, a blank last one dropped, laid out in order and NUL-terminated, the first at the start of the copy; fails if and only if there are more tokens than slots or a disallowed blank piece before the last. |
| `SplitString.TokensByCode` | openhitls/apps/src/app_conf.c:93-161 | The pieces are what the separators part; each token is its piece without the characters of code 9 to 13 and 32 around it; only a last piece of nothing but such characters has no token. |
| `SplitString.FailsByCode` | openhitls/apps/src/app_conf.c:93-161 | The text fails if and only if it has more tokens than slots or, where that is not allowed, a piece of such characters only in front of another. |
| `DnName.GetDnTypeAndValue` | openhitls/apps/src/app_conf.c:767-810 | Type, unescaped value and position, computed in place over the copy; a value that ends the text keeps as many of its last characters as it had escapes. |
| `DnName.SkippingJoinsIff` | openhitls/apps/src/app_conf.c:745-765 | Skipping unknown types and empty values leaves relative names apart if and only if none that lost its last value is followed by one that kept something. |
| `DnName.JoinedExample` | openhitls/apps/src/app_conf.c:822-878 | With X unknown, the text /CN=a+X=x/CN=c reaches the callback as one relative name of a and c. |
| `DnName.ProcDnName` | openhitls/apps/src/app_conf.c:822-878 | The loop over relative names refines the specification: lists built, handed on and aborted on the first rejection. |
| `DnName.RefusedIff` | openhitls/apps/src/app_conf.c:822-826 | A name is an invalid argument, and the callback sees nothing, if and only if it has fewer than two characters or does not begin with code 47. |
| `DnName.NoEqualsSign` | openhitls/apps/src/app_conf.c:780-788 | A name whose first part has no equals sign is an invalid value. |
| `DnName.OpenEscape` | openhitls/apps/src/app_conf.c:790-802 | So is one that ends in the middle of an escape. |
| `DnName.PrintedIsParsed` | openhitls/apps/src/app_conf.c:767-878 | Every printed name reaches the callback list by list in order, up to the first list it rejects: as printed but for its very last value, unknown types and empty values skipped. |
| `DnName.NameRoundTrip` | openhitls/apps/src/app_conf.c:767-878 | A name of known types survives printing and parsing if and only if its very last value needs no escape. |
| `DnName.SlashedReadBack` | openhitls/apps/src/app_conf.c:795-805 | /CN=a\/b is read as the value a/bb. |

## Left out

- Asn1Walk.ParseRecursive: after a wrapped sum the model stops with the status `SumWraps`, where the source goes on from an earlier node.
- Asn1Walk.AppAsn1ParseBuffer: stops with `SumWraps` in the same case.
- Asn1Walk.AppAsn1GetNodeBytes: a wrapped sum gets a status of its own, where the source goes on with the wrapped value.
- Asn1Limits.ParseNeverWraps: a sufficient condition; whether a sum wraps on other buffers depends on which nodes the walk reaches.
- `size_t` is 64 bits wide, and buffers are no longer than it can count.
- Value dumps, hex dumps, indentation and the object-identifier names of `app_asn1parse.c`: display only.
- Cryptography, PKCS#12 and X.509: only lengths, growth and the pair check are assumed, as parameters.
- EncStream.CipherCtx.Update: states the contract of the library's update, not its code; a refused update leaves the context alone, where the library may have used up its cached block. The callers here are proved never to be refused.
- EncStream.XtsCtx.Update: states the contract of the library's update, not its code; its output is any function of the chunks so far with as many octets.
- The final cipher call, tags, password handling and the hexadecimal and Base64 forms of `enc` input and output.
- Allocation failure and wiping of secrets; allocations succeed, except that of zero octets.
- KeyStore.Directory.EraseKeyFile: the overwriting with zeros is not modelled, only whether it succeeds; the file system does what it is told.
- Path lengths, the self-test status and log output of `app_keymgmt.c`.
- KeySync.Peer.ParseAndWriteKeyFile: refusals of a key file for its owner, permissions or hard links are not modelled; only a file that is not regular is refused.
- KeySync.Peer.SendKey: the transport is the octets handed to it; a transport that fails to send is not modelled.
- HelperFrame.SignFrameIff: covers at most one line feed in the challenge text; for more, `HelperFrame.HelperReads` states the request the helper makes.
- HelperFrame.Stdin.ReadLines: stands for nine reads in a row; when a line is missing the source names it in the error text.
- The UTF-16 to UTF-8 conversions of the agent, and JSON texts built by agent and helper.
- HttpRecv.RecvRequest: the socket is the sequence of its deliveries before it closes; `unsigned long` has 32 bits as on Windows.
- SkfHandles.Sign: a failing open leaves its handle null and a successful one yields a non-null handle; a vendor that writes past the buffer it is given is not modelled; error texts carry the stage without the status number.
- SplitString.SplitString: lengths are unbounded where the source keeps them in 32 bits; the freed copy on failure is not modelled beyond its first position being the one freed.
- The table of short names of distinguished names is the parameter `known`, and a stored name keeps its type text instead of the identifier looked up.
- QuoteArg.CommandLineArguments: also covers a helper path that ends in a backslash, which the agent never has.
- IPv4 and IPv6 literals, extension parsing and the other configuration sections of `app_conf.c`.
- The other commands, the tray program, window and registry code, sockets, pipes and process creation: option dispatch and calls into the operating system.
