# dtn7-go, verified

dtn7-go implements the Bundle Protocol Version 7 (RFC 9171). This project models five parts of it in Dafny and proves what
they are for.

* **Wire codec** (`Cbor`, `Streams`, `Endpoint`, `Blocks`, `BlockCodec`, `PrimaryCodec`, `BundleCodec`, `PartialCodec`,
  `BlockStreams`, `Bundles`, `ReadBack`, `WireFormat`, `Checksums`, `Refusals`, `Validity`, `BundleIds`, `HiddenFields`). Encoders
  and decoders are functions on byte sequences;
  the readers and writers that work on streams, with the tee that collects the bytes under a checksum, are methods proved to
  compute them. Round trips are stated as equivalences: a value comes back exactly under a condition on it, with any bytes
  behind it left alone.
  What is written is the serialisation of the items that RFC 9171 lists, a bundle with a wrong checksum is refused, and the reader
  that skips blocks is proved to agree with the full one on every byte sequence the full one accepts.
* **Fragmentation and reassembly** (`Numbering`, `Sorting`, `Fragmentation`, `MtuBound`, `FragmentSuccess`, `Reassembly`,
  `FragmentMethods`).
  The fragments partition the payload, none is larger than the MTU, it is said exactly when there are any, and any sorted
  collection of all of them, duplicates included, gives the bundle back, while none that lacks one is put together.
* **Routing** (`Forwarding`, `Routing`, `Processing`, `SprayNetwork`, `SprayGuard`, `EpidemicNetwork`). What one node selects
  and changes in a bundle, and what whole networks of such nodes keep in every run: the copy budget of spray and wait, the end of
  flooding.
* **Store** (`Retention`, `StoreMachine`, `StoreFields`, `Store`). Descriptors with retention constraints, and deletions that run
  in the background at any later time. A state machine has one step for each locked section; the classes are proved to take
  these steps, and the invariants are proved over all runs of the machine.
* **Convergence layers** (`Meshtastic`, `SharedIds`, `Mtcp`, `ClaManager`). Chunks over a network that loses, duplicates and
  reorders, bundles and keepalives in one byte stream, and the manager's registrations, activations and disconnects in any
  interleaving.

`Bytes` and `Text` hold machine integers, big-endian words, decimal numbers and splitting. The checksums, the registry of
block types and the clock are parameters (`Blocks.Env`). Go strings are byte sequences, and unsigned integers are bounded.

## What the proofs found

Where the code does not do what its documentation says, the model follows the code, and the exact condition is proved.

* `CheckValid` of a dtn endpoint does not anchor its expression. An endpoint with a slash in its node name, which neither
  `NewEndpointID` nor a reader ever makes but a struct can be filled with, is written and comes back as another one
  (`Endpoint.SlashInNodeNameIsLost`). An endpoint comes back iff it is well-formed (`Endpoint.EndpointRoundTrip`).
* The block type of binary spray is not registered by default, so a receiver reads a generic block
  (`BlockCodec.SprayBlockNeedsRegistration`) and its type assertion fails (`Routing.SprayAndWait.NotifyReceivedBundle`).
* Several spray blocks are not removed properly, because pointers into a slice are used after it was shifted: a wrong block
  goes (`Forwarding.WrongBlockRemoved`). All is well iff there is at most one, or the second of two is last
  (`Forwarding.RemoveTypeExactly`).
* The text of a bundle ID, which is the key of the database, is not unique. A fragment and a whole bundle share it if the
  latter's source is the former's with its timestamp appended (`BundleIds.CollidingIDs`, `BundleIds.CollideExactly`). Two whole
  bundles share it if they differ in offset and total length only, which the reader takes from any long enough array, but
  neither the text nor the encoding shows without the fragment flag (`HiddenFields.TwoIDsOneKey`,
  `HiddenFields.FieldsAreNotWritten`). There is no other case (`BundleIds.SameKeyExactly`). The store refuses whichever comes
  second (`StoreMachine.CollidingInsertIsRefused`, `HiddenFields.SecondIsRefused`).
* A bundle that is read in part is not checked in whole: wrong checksums of blocks that are not wanted, and of the payload block,
  go unnoticed (`Refusals.CorruptedInPart`), and so does a file that ends within such a block (`Refusals.CutWithinSkipped`). What
  is handed out carries its checksums and is valid (`Checksums.PartialIsSealed`, `Refusals.PartialIsValid`).
* A fragment nested in an earlier one passes the gap check and makes the merge panic (`Reassembly.NestedFragmentBreaksMerge`),
  and so exactly do all fragments whose ends move backwards (`Reassembly.MergeInRange`).
* A bundle without a creation time cannot be split unless its age block is marked for replication, as later fragments would
  be invalid (`FragmentSuccess.ClocklessIsNotSplit`, `FragmentSuccess.AgelessIsNotSplit`); `FragmentSuccess.FragmentsExactly`
  has the whole condition.
* A bundle of more than 255 chunks is never delivered correctly over Meshtastic (`Meshtastic.DeliveredIsSent`), but cut
  (`Meshtastic.LongIsCut`). Bundles created at times with the same lower 32 bits get mixed up
  (`Meshtastic.SameIDMixesBundles`), unless they hardly differ (`SharedIds.SharedIDExactly`).
* `SetMiscData` works on deleted bundles and can overwrite the row of a later one (`StoreMachine.StaleDataReplacesRow`): exactly
  if that one has other metadata (`StoreMachine.StaleWriteExactly`). A caller that checks for deletion first is safe
  (`StoreMachine.GuardedRunIsMirrored`).
* Forwardings of one bundle may overlap. The first one to end then takes away the mark of the other one
  (`Retention.OverlappingForwardings`); the mark is right iff none has ended since the latest began, or none is left
  (`Retention.MarkIsRightExactly`). Spray and wait makes up copies (`SprayNetwork.OverlapMakesUpCopies`), at steps that
  `SprayNetwork.CopiesGrowExactly` tells; when a forwarding may begin so that this never happens is said by
  `SprayGuard.MakesUpExactly` and `SprayGuard.OverspendsExactly`. Flooding reaches a peer twice
  (`EpidemicNetwork.OverlapRepeats`), as it may iff a forwarding selects a peer that another one still has selected
  (`EpidemicNetwork.RepeatsExactly`).
* When a bundle cannot be encoded or its file not be written, its row stays behind and, while the store is open, blocks the ID
  for every later insertion (`StoreMachine.FailedInsertBlocksExactly`, `StoreMachine.BlockedExactly`).
* A bundle that basic spray has selected peers for but that cannot be read from disk stays marked as being forwarded, and its
  copies are spent (`Processing.PrepareForwarding`).
* An adapter that disconnects while it is being started is listed as a sender nevertheless
  (`ClaManager.DisconnectBeforeActivation`). A disconnect keeps an address off a list iff none with it is being started for
  that list (`ClaManager.DisconnectExactly`).

## Model

| member | source | states |
|---|---|---|
| Text.DecimalRoundTrip | pkg/bpv7/bundle_id.go:91-93 | Decimal digits of any number parse back to it; every 64-bit number survives ParseUint |
| Text.SplitExactly | pkg/bpv7/bundle_id.go:47-50 | The parts are those, and the only ones without the separator, that give the text back when joined |
| Endpoint.ParseDtnSspExactly | pkg/bpv7/endpoint_dtn.go:44-65 | A text is accepted as a dtn endpoint iff that endpoint is well-formed and the text is its own one |
| Endpoint.NewEndpointIDExactly | pkg/bpv7/endpoint.go:95-113 | A URI is accepted as an endpoint iff that endpoint is well-formed and the URI is its own one, up to leading zeros of ipn numbers |
| Endpoint.WellFormedIsValid | pkg/bpv7/endpoint_dtn.go:128-137 | Every endpoint NewEndpointID accepts also passes CheckValid |
| Endpoint.UriRoundTrip | pkg/bpv7/endpoint_dtn.go:139-145 | For any endpoint: its URI parses back to it iff it is well-formed |
| Endpoint.ParseOwnIpn | pkg/bpv7/endpoint_ipn.go:28-53 | The ipn text of any two numbers parses back to them iff both are at least 1 |
| Endpoint.EndpointRoundTrip | pkg/bpv7/endpoint.go:125-176 | For any endpoint that can be written and any trailing bytes: the reader returns it iff it is well-formed, and never touches the trailing bytes |
| Endpoint.SlashInNodeNameIsLost | pkg/bpv7/endpoint_dtn.go:128-137 | A concrete endpoint that passes the unanchored CheckValid, is written, and is read back as another one |
| Endpoint.MarshalEndpoint | pkg/bpv7/endpoint.go:125-145 | Fails exactly for invalid endpoints, else appends exactly the encoding, also to the checksum copy |
| Endpoint.UnmarshalEndpoint | pkg/bpv7/endpoint.go:148-176 | Returns what the specification decodes and leaves exactly its rest, the consumed bytes going to the checksum copy |
| Cbor.ReadHead | pkg/bpv7/canonical_block.go:104-115 | A written head of any major type and argument is read back, whatever follows |
| Cbor.ByteStringRoundTrip | pkg/bpv7/crc.go:58-60 | A byte string is read back exactly, whatever follows |
| Streams.Reader.ReadMajors | pkg/bpv7/canonical_block.go:241-249 | The stream reader agrees with the specification, and while teeing copies exactly the bytes it consumed |
| Streams.Reader.ReadByteString | pkg/bpv7/canonical_block.go:280-282 | The same for byte strings, including their content |
| Forwarding.OfTypeOccurrences | pkg/bpv7/bundle.go:146-159 | Every block is found as often as the bundle has it if it has the type code, and never otherwise |
| Blocks.ExtensionsSameValues | pkg/bpv7/bundle.go:308-321 | Validity of extension blocks depends on their values and distinct numbers only, not on flags, checksums or which numbers they have |
| Blocks.TimeSameValues | pkg/bpv7/bundle.go:274-286 | Whether a bundle is in time depends on its timestamp, lifetime and extension values only |
| BlockCodec.CrcRoundTrip | pkg/bpv7/crc.go:51-77 | A written checksum field is accepted, and only what follows it is left, if writer and reader cover the same bytes |
| BlockCodec.HopCountRoundTrip | pkg/bpv7/extension_block_hop_count.go:57-92 | Limit and count survive, within the 255 bound |
| BlockCodec.ValueRoundTrip | pkg/bpv7/extension_block.go:108-155 | For any block value that can be written: it is read back iff its type is registered (for a generic block: is not) and its endpoint is well-formed |
| BlockCodec.SprayBlockNeedsRegistration | pkg/bpv7/extension_block.go:165-179 | A spray block is read as one iff type 192 is registered; with the default registry it becomes a generic block |
| BlockCodec.CanonicalRoundTrip | pkg/bpv7/canonical_block.go:93-131 | A written block followed by anything is read back, checksum filled in, iff its value is readable; what follows is left alone |
| BlockStreams.MarshalCanonical | pkg/bpv7/canonical_block.go:93-131 | The writer with its checksum copy appends exactly the encoding, fails exactly when there is none, and fills in the checksum |
| BlockStreams.UnmarshalCanonical | pkg/bpv7/canonical_block.go:228-292 | The reader with its checksum tee returns exactly what the specification decodes, and its rest |
| BlockStreams.UnmarshalWanted | pkg/bpv7/canonical_block.go:136-225 | The skipping reader agrees with its specification for every wanted list, seekable stream or not |
| BlockStreams.SkipCanonical | pkg/bpv7/canonical_block.go:188-208 | Skipping a block ends at exactly the byte the specification says |
| PrimaryCodec.TimestampRoundTrip | pkg/bpv7/time.go:89-120 | Time and sequence number survive, whatever follows |
| PrimaryCodec.PrimaryRoundTrip | pkg/bpv7/primary_block.go:99-242 | In all four shapes and for every CRC type: read back, checksum filled in, iff version, endpoints and fragment fields are ones the wire carries; trailing bytes are left alone |
| Refusals.IntoUsedRecord | pkg/bpv7/primary_block.go:167-242 | Read into a record that was filled before: offset and total of a whole bundle, and the checksum of a block without one, keep what was there |
| BlockStreams.MarshalPrimary | pkg/bpv7/primary_block.go:99-164 | Appends exactly the encoding, fails exactly when there is none, and fills in the checksum |
| BlockStreams.UnmarshalPrimary | pkg/bpv7/primary_block.go:167-242 | Returns exactly what the specification decodes, and its rest; fields that the array does not have keep what the record held |
| BundleCodec.BlocksRoundTrip | pkg/bpv7/bundle.go:357-413 | A list of written blocks up to the break code is read back block by block iff every one is readable; otherwise the types still agree |
| BundleCodec.AllRoundTrip | pkg/bpv7/bundle.go:384-404 | Primary block and all blocks of a written bundle are read back iff they are readable; trailing bytes are left alone |
| BundleCodec.ValidFilled | pkg/bpv7/bundle.go:289-337 | Filling in checksums does not change whether a bundle is valid |
| BundleCodec.BundleRoundTrip | pkg/bpv7/bundle.go:357-413 | UnmarshalCbor of MarshalCbor plus any trailing bytes is the bundle with checksums filled in, and leaves exactly the trailing bytes, iff the bundle is readable and valid |
| Checksums.WrongBlockChecksum | pkg/bpv7/canonical_block.go:279-289 | A written block of CRC type 1 or 2 ends with the big-endian CRC-16 or CRC-32 of its bytes and a zeroed checksum; with any other checksum in that place, and anything behind it, it is refused |
| Checksums.WrongPrimaryChecksum | pkg/bpv7/primary_block.go:229-239 | The same for the primary block |
| Checksums.CorruptedBlockIsRefused | pkg/bpv7/bundle.go:384-413 | A written bundle in which one block, the payload block included, has any other checksum than its own is refused, whatever follows |
| Checksums.CorruptedPrimaryIsRefused | pkg/bpv7/bundle.go:384-413 | So is one whose primary block has |
| Checksums.ReadBlockIsSealed | pkg/bpv7/canonical_block.go:228-292 | On any bytes: a block of six elements that is read carries the checksum of its bytes, the array head in its shortest form and the checksum zeroed; one of five has none |
| Checksums.ReadPrimaryIsSealed | pkg/bpv7/primary_block.go:167-242 | On any bytes: a primary block of nine or eleven elements that is read carries the checksum of its very bytes; one of eight or ten has none |
| Checksums.ReceivedIsSealed | pkg/bpv7/bundle.go:384-413 | Of every bundle received, the primary block and each other block, one after the other up to the break code, carry their checksums |
| Checksums.StampIsWritten | pkg/bpv7/canonical_block.go:93-131 | A block record that was written holds the very checksum that stands at the end of its bytes, and is otherwise unchanged |
| Checksums.PrimaryStampIsWritten | pkg/bpv7/primary_block.go:99-164 | So does the primary block's |
| WireFormat.BlockIsWritten | pkg/bpv7/canonical_block.go:93-131 | A block is written as the array of its type, number, flags, CRC type, data and checksum, each a CBOR item in its shortest form, all numbers of RFC 9171 spelled out |
| WireFormat.PrimaryIsWritten | pkg/bpv7/primary_block.go:99-164 | So is the primary block: version 7, flags, CRC type, destination, source, report-to, timestamp, lifetime, and offset and total in a fragment |
| WireFormat.BundleIsWritten | pkg/bpv7/bundle.go:357-381 | A bundle is the array of indefinite length of these, the payload block last |
| WireFormat.BundleWrittenExactly | pkg/bpv7/bundle.go:357-381 | It is written at all iff its endpoints are valid and its CRC types known |
| WireFormat.IDIsWritten | pkg/bpv7/bundle_id.go:121-140 | A bundle ID is written as source, timestamp and, for a fragment, offset and total |
| WireFormat.ReadMajorsExactly | pkg/bpv7/canonical_block.go:230 | A head is read iff the bytes start with one of its five forms, the shortest or a longer one; the break code is 0xFF |
| Refusals.EndpointRefused | pkg/bpv7/endpoint.go:148-176 | An array of another length than two, or of another scheme than 1 and 2, is no endpoint |
| Refusals.DtnNoneIsANumber | pkg/bpv7/endpoint_dtn.go:158-186 | Any number stands for dtn:none, and its text does not |
| Refusals.PrimaryRefused | pkg/bpv7/primary_block.go:172-187 | An array of other than eight to eleven elements, or another version than 7, is refused |
| Refusals.BlockSizeRefused | pkg/bpv7/canonical_block.go:230-236 | An array of other than five or six elements is refused |
| Refusals.HopCountExactly | pkg/bpv7/extension_block_hop_count.go:73-93 | Limit and count are read iff the array has two elements and both are at most 255; what follows is overlooked |
| Refusals.BehindValue | pkg/bpv7/extension_block.go:131-162 | Bytes behind the item in any typed block are overlooked |
| Refusals.DefaultBlockTypes | pkg/bpv7/extension_block.go:165-180 | By default types 1, 6, 7 and 10 are read as such, and all others as generic blocks |
| Refusals.LastPayloadExactly | pkg/bpv7/bundle.go:395-404 | Of several payload blocks the last one counts |
| Validity.BundleValidExactly | pkg/bpv7/bundle.go:289-337 | A bundle is valid iff its primary block is, bit by bit of the flags; block numbers differ; previous node, age and hop count blocks occur once at most; a payload block has number 1 and no hop count is above its limit; no report on the payload is asked for; and it has not expired by its one age block or by the clock |
| Validity.EndpointValidExactly | pkg/bpv7/endpoint_dtn.go:128-137 | An ipn endpoint is valid iff both numbers are at least 1, a dtn endpoint iff a double slash, a name and a slash stand somewhere in its text |
| Validity.NameBytesExactly | pkg/bpv7/endpoint_dtn.go:14-28 | The letters, digits and fifteen other characters that a node name may have |
| Validity.UriText | pkg/bpv7/endpoint_dtn.go:139-145 | The URIs of both schemes, letter by letter |
| ReadBack.PrimaryIsRead | pkg/bpv7/primary_block.go:99-242 | What a reader makes of any primary block that can be written, readable or not, is the same whatever follows, and it stops just before that |
| ReadBack.BlockIsRead | pkg/bpv7/canonical_block.go:93-292 | The same for canonical blocks: the value is what the registry makes of the data written |
| ReadBack.BundleIsRead | pkg/bpv7/bundle.go:357-413 | The same for whole bundles; the bundle read is the one written, checksums filled in, iff that is readable and valid |
| Bundles.MutableBundle.MarshalCbor | pkg/bpv7/bundle.go:357-381 | Writes exactly the encoding, fails exactly when there is none; only checksum fields of the record change, to the ones written |
| Bundles.MutableBundle.UnmarshalCbor | pkg/bpv7/bundle.go:384-413 | Into any record, filled before or not: succeeds exactly when the specification decodes, then holds that bundle, and the stream is at its rest |
| Bundles.UnmarshalNew | pkg/bpv7/bundle.go:384-413 | A record that was not filled before then holds just what was written |
| PartialCodec.SkipAgrees | pkg/bpv7/canonical_block.go:188-208 | Whenever the full reader gets past a block, the skip path ends at the same byte |
| PartialCodec.BlockAgrees | pkg/bpv7/canonical_block.go:136-225 | On any bytes from which the full reader gets a block, the skipping reader gets the same block or skips it, to the same byte |
| PartialCodec.SelectInOrder | pkg/bpv7/bundle.go:100-118 | The blocks selected are in bundle order |
| PartialCodec.SelectMeaning | pkg/bpv7/bundle.go:100-118 | Of each type, exactly as many blocks as it was asked for are selected, the first ones |
| PartialCodec.PartialRefinesFull | pkg/bpv7/bundle.go:91-127 | On every byte sequence the full reader accepts, for every list of wanted types: the same primary block, and the selected blocks in front of the payload |
| PartialCodec.PartialOfEncoding | pkg/bpv7/bundle.go:91-127 | On the encoding of any valid readable bundle: its primary block and the selected extension blocks |
| Checksums.WantedIsRead | pkg/bpv7/canonical_block.go:136-225 | On any bytes: a block that the skipping reader keeps is one the full reader reads just so, and carries its checksum |
| Checksums.PartialIsSealed | pkg/bpv7/bundle.go:91-127 | Of every partial parse, on any bytes, the primary block and all blocks kept carry their checksums |
| Refusals.PartialIsValid | pkg/bpv7/bundle.go:91-127 | The primary block and all blocks handed out are valid, and none is a payload block |
| Refusals.CorruptedInPart | pkg/bpv7/canonical_block.go:136-225 | A written block with another checksum: not wanted, it is skipped all the same; wanted, an extension block fails the parse, and a payload block just ends it |
| Refusals.CutWithinSkipped | pkg/bpv7/canonical_block.go:188-208 | A stream that ends within skipped data: seeking goes past the end, only copying notices |
| Refusals.HugeLengthSkipsNothing | pkg/bpv7/canonical_block.go:188-208 | A length of 2^63 or more skips nothing when copying |
| Refusals.BlockSizeRefusedInPart | pkg/bpv7/canonical_block.go:136-150 | A block of other than five or six elements fails the parse, wanted or not |
| Bundles.ParsePartialBundle | pkg/bpv7/bundle.go:91-127 | The stream loop computes exactly the specified partial parse |
| Sorting.SortedUnique | pkg/bpv7/canonical_block_sort.go:15-36 | With distinct keys there is only one sorted permutation, so the sorting algorithm does not matter |
| Numbering.FindFree | pkg/bpv7/bundle.go:196-215 | The search ends, by pigeonhole, with the least free number |
| Numbering.AddBlockMeaning | pkg/bpv7/bundle.go:189-222 | The new block gets the least free number from 2 on (1 for a payload), all others stay, numbers stay distinct, the list is sorted with number 1 last |
| Numbering.AddAllRenumbers | pkg/bpv7/bundle.go:189-222 | Blocks added one by one to an empty bundle are numbered 2, 3, 4, … in their order |
| Numbering.RemoveNumberMeaning | pkg/bpv7/bundle.go:240-247 | With distinct numbers exactly the block with the number is taken out |
| Bundles.MutableBundle.AddExtensionBlock | pkg/bpv7/bundle.go:189-222 | The extension list becomes the one AddBlockMeaning describes |
| Bundles.MutableBundle.RemoveExtensionBlockByBlockNumber | pkg/bpv7/bundle.go:240-247 | The first block with the number is gone, nothing else changes |
| Fragmentation.FragmentsPartition | pkg/bpv7/fragmentation.go:41-90 | The fragments are marked, carry offset and total, and cut the payload into consecutive non-empty slices up to its end |
| Fragmentation.PartitionJoins | pkg/bpv7/fragmentation.go:41-90 | Joined in order, the slices are the payload |
| Fragmentation.FragmentContents | pkg/bpv7/fragmentation.go:62-88 | Of a split bundle, the first fragment carries all extension blocks, every other one exactly those whose flags are odd, in order and numbered from 2 on; payload flags and CRC type and all of the primary block but the fragment fields are the bundle's own |
| FragmentMethods.FragmentExtensionBlocksLen | pkg/bpv7/fragmentation.go:123-183 | The loop over a reused buffer computes the specified overhead, or fails when a block cannot be written |
| FragmentMethods.FragmentPrimaryBlock | pkg/bpv7/fragmentation.go:100-119 | A fragment's primary block with its checksum, and the length of its encoding |
| FragmentMethods.BuildFragment | pkg/bpv7/fragmentation.go:42-88 | One turn of the loop builds exactly the specified fragment |
| FragmentMethods.Fragment | pkg/bpv7/fragmentation.go:19-97 | The whole loop returns exactly the specified fragments, or none on any failure |
| MtuBound.EstimateIsLongest | pkg/bpv7/fragmentation.go:135 | No CRC type makes a block longer than the estimate with CRC-32 |
| MtuBound.SmallestNumbersAreShortest | pkg/bpv7/bundle.go:196-217 | No distinct block numbers from 2 on have shorter heads in total than 2, 3, 4, … |
| MtuBound.ExtensionsFit | pkg/bpv7/fragmentation.go:123-160 | The renumbered extension blocks of a fragment never take more than the estimate for it |
| MtuBound.FragmentEncodesExactly | pkg/bpv7/fragmentation.go:42-88 | A fragment can be written iff the payload block and the extension blocks it keeps have known CRC types |
| MtuBound.FragmentsEncodeExactly | pkg/bpv7/fragmentation.go:19-97 | All that Fragment returns can be written iff the payload is empty or all blocks have known CRC types |
| MtuBound.FragmentsRespectMtu | pkg/bpv7/fragmentation.go:19-97 | Whatever Fragment returns for a valid unfragmented bundle with extension numbers from 2 on: every bundle of it can be written and takes at most mtu bytes, if the bundle itself can be written; without that, still all that can be written are within the bound |
| MtuBound.FragmentsFillMtu | pkg/bpv7/fragmentation.go:42-88 | No room is wasted: with CRC-32 on all blocks and one-byte block numbers every fragment but the last takes exactly the mtu, up to the bytes by which the length field for mtu bytes is longer than its own |
| FragmentSuccess.FragmentValidExactly | pkg/bpv7/fragmentation.go:62-87 | A fragment of a valid bundle is valid iff it is the first one, or the bundle has a creation time or an age block that is replicated |
| FragmentSuccess.FragmentsExactly | pkg/bpv7/fragmentation.go:19-97 | The whole call succeeds iff splitting is allowed, all extension values can be written, and either the payload is empty or the primary block can be written, the first and the last fragment have room for a byte, and the bundle fits into one fragment or has a way to tell the age of the others |
| FragmentSuccess.RoomExactly | pkg/bpv7/fragmentation.go:42-60 | There is room at every offset of the loop iff there is some in the first and in the last fragment |
| FragmentSuccess.EnoughRoom | pkg/bpv7/fragmentation.go:52-60 | There is room at every offset if there is some in the first fragment and would be in one with the last byte only |
| FragmentSuccess.AgelessIsNotSplit | pkg/bpv7/fragmentation.go:84-86 | A bundle without creation time and replicated age block is never split in two |
| FragmentSuccess.ClocklessIsNotSplit | pkg/bpv7/fragmentation.go:84-86 | A concrete valid bundle with creation time 0 of which, for every mtu, no fragment but the first can be made |
| Reassembly.MergeInRange | pkg/bpv7/fragmentation.go:222-238 | After the gap check, the merge stays within its slices iff the ends of the sorted fragments never move backwards |
| Reassembly.NestedFragmentBreaksMerge | pkg/bpv7/fragmentation.go:200-233 | A concrete sorted list of valid fragments, one nested in another, that passes the gap check and makes the merge run out of range |
| Reassembly.MergeSlices | pkg/bpv7/fragmentation.go:222-238 | Overlapping slices of one payload, accepted by the gap check and with ascending ends, merge to exactly that payload |
| Reassembly.RestoredIsValid | pkg/bpv7/fragmentation.go:268-272 | Renumbered and put together, a valid bundle is valid |
| Reassembly.FragmentThenReassemble | pkg/bpv7/fragmentation.go:19-273 | From any sorted collection that has every fragment at least once, the bundle comes back up to block numbers and cached checksums, iff it was split into two or more; otherwise reassembly is refused |
| Reassembly.ReassembledIsComplete | pkg/bpv7/fragmentation.go:186-273 | Whatever is reassembled, from any collection at all, is as long as was announced, and each of its bytes stands at its place in one of the fragments |
| Reassembly.MissingFragmentIsNoticed | pkg/bpv7/fragmentation.go:208-210 | With one of the fragments of a bundle missing, the others are not put together, in whatever order and however often each is there |
| FragmentMethods.SortByOffset | pkg/bpv7/fragmentation.go:191-193 | In place, some permutation ascending by offset |
| FragmentMethods.PrepareReassembly | pkg/bpv7/fragmentation.go:186-213 | Sorts in place and accepts exactly the collections without gap that end at the announced total |
| FragmentMethods.MergeFragmentPayload | pkg/bpv7/fragmentation.go:222-238 | The loop computes the specified merge; None stands for the slice panic |
| FragmentMethods.ReassembleFragments | pkg/bpv7/fragmentation.go:241-273 | Permutes its argument to ascending offsets and returns exactly the specified reassembly of that |
| BundleIds.SplitAppended | pkg/bpv7/bundle_id.go:44-97 | Appending a dash and a number adds exactly that number as last part, whatever the text before has |
| BundleIds.PrintRoundTrip | pkg/bpv7/bundle_id.go:44-97 | For any ID: its text parses back to it iff its source is well-formed and prints without a dash, and only a fragment has offset and total |
| BundleIds.SameKindExactly | pkg/bpv7/bundle_id.go:88-97 | Two whole-bundle IDs, or two fragment IDs, print alike iff they agree in source and timestamp and, for fragments, in offset and total, dashes or not |
| BundleIds.SameKeyExactly | pkg/store/store.go:227-230 | Any two bundle IDs have one database key iff they are of one kind and agree in all that is shown, which for a whole bundle leaves out offset and total, or one is a whole bundle's whose source is the fragment's with time and sequence number appended and whose timestamp is the fragment's offset and total |
| HiddenFields.ReceivedWithFields | pkg/bpv7/primary_block.go:215-227 | Any readable and valid bundle without a checksum on its primary block can also be received with any offset and total, flag or not, as a valid bundle |
| HiddenFields.FieldsAreNotShown | pkg/bpv7/bundle_id.go:88-97 | Whole bundles that differ in offset and total only have one key, and two IDs |
| HiddenFields.FieldsAreNotWritten | pkg/bpv7/primary_block.go:99-164 | They have one encoding too, so such a bundle is read from disk under another ID |
| HiddenFields.SecondIsRefused | pkg/store/store.go:250-253 | In any run, while a whole bundle is in the store, it is refused with any other offset or total |
| HiddenFields.TwoIDsOneKey | pkg/bpv7/primary_block.go:215-227 | A concrete bundle received in both ways, valid both times, with two IDs and one key |
| BundleIds.CollideExactly | pkg/bpv7/bundle_id.go:88-97 | Read on endpoints: both are dtn endpoints of one node, and the whole bundle's demux is the fragment's with its timestamp appended |
| BundleIds.CollidingIDs | pkg/store/store.go:227-230 | A concrete pair of different valid IDs with the same database key |
| BundleIds.CborRoundTrip | pkg/bpv7/bundle_id.go:121-165 | For any ID that can be written, and its kind known to the reader: read back iff its source is well-formed and fragment fields are a fragment's |
| BundleIds.Marshal | pkg/bpv7/bundle_id.go:121-140 | Appends exactly the encoding, fails exactly for invalid sources |
| BundleIds.Unmarshal | pkg/bpv7/bundle_id.go:143-165 | Returns exactly what the specification decodes, and its rest |
| Retention.ApplyConsistent | pkg/store/bundle_descriptor.go:176-255 | Every operation keeps: retained iff constrained, dispatchable iff not being forwarded, deleted only without constraints, marked and undeleted only with |
| Retention.DeletedExactly | pkg/store/bundle_descriptor.go:204-334 | After any operations, the next one deletes the bundle iff it leaves no constraint and is Delete, or a Delete had marked the bundle; a deleted one never changes again |
| Retention.DeletedByOperations | pkg/store/bundle_descriptor.go:176-334 | From the operations alone: deleted iff at some operation deletion had been asked for and no constraint was left; until then the constraints are those added and not removed |
| Retention.ErrorExactly | pkg/store/bundle_descriptor.go:176-334 | Which error each operation reports, and that one that fails changes nothing |
| Retention.AccessorsExactly | pkg/store/bundle_descriptor.go:277-290 | After any operations, Dispatch and Retain say exactly what the constraints say |
| Retention.MarkedIsDeleted | pkg/store/bundle_descriptor.go:320-334 | Once marked, the bundle is deleted exactly when its constraints are gone, whatever happens in between |
| Retention.MarkedExactly | pkg/store/bundle_descriptor.go:176-255 | After any operations, a bundle is forward pending iff it is not deleted and the last operation on that mark sets it |
| Retention.ForwardingMark | pkg/processing/processing.go:28-102 | However forwardings overlap: marked iff the latest event is a beginning, dispatchable iff not marked, and once forwarded, retained iff marked |
| Retention.MarkIsRightExactly | pkg/processing/processing.go:28-102 | The mark says whether a forwarding is going on iff none has ended since the latest one began, or none is left |
| Retention.SequentialIsMarked | pkg/processing/processing.go:28-102 | As long as forwardings do not overlap, the mark is right |
| Retention.OverlappingForwardings | pkg/processing/processing.go:28-102 | The smallest case in which it is not: begin, begin, end leaves the bundle dispatchable and unretained while one goes on |
| StoreMachine.StepSafe | pkg/store/store.go:224-368 | Every locked section and background deletion keeps the store invariant, whatever insertions of rows, writes of files and deletions fail |
| StoreMachine.RunSafe | pkg/store/store.go:224-368 | So does every run |
| StoreMachine.PendingNeverHitsLive | pkg/store/bundle_descriptor.go:303-311 | In every interleaving a pending deletion's ID leads to its own deleted descriptor, and no other deletion is pending for it |
| StoreMachine.LiveBundleIsComplete | pkg/store/store.go:196-288 | In every interleaving an undeleted bundle is found under its ID, has its row and file, and the file is read as what was inserted iff that is readable and valid |
| StoreFields.SecondInsertion | pkg/store/store.go:297-319 | Two writable bundles inserted into an empty store become two descriptors unless they agree in source, timestamp, fragment flag, offset and total, when the second one only adds a holder, or share a key nevertheless, when it is refused |
| StoreFields.SharedKeyExactly | pkg/store/store.go:227-230 | For well-formed sources: two bundles share a key iff they agree in source, timestamp and flag and, as fragments, in offset and total, or are a whole bundle and a fragment of two endpoints of one node of which the former's demux is the latter's with its timestamp appended |
| StoreFields.DescribedInEveryRun | pkg/store/store.go:224-247 | In every run a descriptor has its bundle's source, timestamp, destination, report-to and administrative flag, expires at creation time plus lifetime, and has as holders at least this node and the one that a single previous node block names |
| StoreFields.ComesAgain | pkg/store/store.go:297-319 | In every run a bundle that comes again adds the node it comes from to the holders, in memory and in its row, and changes nothing else; it changes nothing at all if it was deleted or does not say where it comes from |
| StoreFields.RowsStay | pkg/store/store.go:321-323 | Writing metadata changes the row of its descriptor if there is one, never brings a row back, and touches no file |
| StoreMachine.CollectedExactly | pkg/store/store.go:355-368 | After garbage collection a descriptor is deleted iff it was before, or its bundle's creation time plus lifetime lies before now and it has no constraint; constraints stay |
| StoreMachine.CollidingInsertIsRefused | pkg/store/store.go:250-253 | A bundle whose ID prints like another stored one's is refused and changes nothing, so colliding keys lose the newcomer but never harm the stored bundle |
| StoreMachine.LeftBehindExactly | pkg/store/store.go:250-283 | An insertion leaves a row without a bundle iff the file was created but not written to the end, or could not be created and the row not be deleted |
| StoreMachine.DeletionLeavesExactly | pkg/store/store.go:328-351 | A background deletion leaves one iff it cannot delete the row |
| StoreMachine.BlockedExactly | pkg/store/store.go:250-253 | In any safe state, a bundle whose key no bundle in the store has can never be stored in any run iff there is a row with the key |
| StoreMachine.FailedInsertBlocksExactly | pkg/store/store.go:224-288 | In any run, inserting a bundle that is new, with a free key, blocks its ID in all runs from there iff it leaves its row behind |
| StoreMachine.DispatchableAreIdle | pkg/store/store.go:181-194 | In every interleaving what is offered for dispatch is exactly: not being forwarded, in the map, no deletion pending |
| StoreMachine.StaleWriteExactly | pkg/store/bundle_descriptor.go:95-102 | After data are set through a descriptor that has left the store, the database has what memory has iff every bundle in the store with that key happens to have the very metadata written |
| StoreMachine.RunMirrored | pkg/store/store.go:224-351 | In every run without such a write it has |
| StoreMachine.GuardedRunIsMirrored | pkg/store/bundle_descriptor.go:95-102 | It has in every run in which data are set on undeleted bundles only, which a caller can check |
| StoreMachine.StaleDataReplacesRow | pkg/store/bundle_descriptor.go:95-102 | A run in which SetMiscData on a deleted bundle's descriptor replaces the row of the same bundle inserted again |
| Store.BundleDescriptor.constructor | pkg/store/bundle_descriptor.go:61-70 | A new descriptor is dispatch pending, retained and dispatchable |
| Store.BundleDescriptor.AddConstraint | pkg/store/bundle_descriptor.go:176-199 | Takes exactly the machine's step on its descriptor, with the right error |
| Store.BundleDescriptor.RemoveConstraint | pkg/store/bundle_descriptor.go:204-233 | The same, with the filter loop, and starting a deletion when one was waiting |
| Store.BundleDescriptor.ResetConstraints | pkg/store/bundle_descriptor.go:238-255 | The same |
| Store.BundleDescriptor.Delete | pkg/store/bundle_descriptor.go:320-334 | The same: delete, mark, or refuse |
| Store.BundleDescriptor.UnsafeDelete | pkg/store/bundle_descriptor.go:303-311 | Starts a background deletion exactly if the bundle was not deleted yet |
| Store.BundleDescriptor.HasConstraint | pkg/store/bundle_descriptor.go:259-274 | Membership, or an error for a deleted bundle |
| Store.BundleDescriptor.AddKnownHolder | pkg/store/bundle_descriptor.go:148-171 | Takes exactly the machine's step, an error and no change for a deleted bundle |
| Store.BundleDescriptor.SetMiscData | pkg/store/bundle_descriptor.go:95-102 | Takes exactly the machine's step, deleted or not |
| Store.BundleStore.InsertBundle | pkg/store/store.go:297-319 | Takes exactly the machine's step, for known and new bundles and every disk outcome; fails iff a new bundle cannot be written, or a known one is deleted and names a previous node |
| Store.BundleStore.InsertNewBundleUnsafe | pkg/store/store.go:224-288 | The same for a new bundle; returns the descriptor the map has iff the key is free and row, file and encoding succeed |
| Store.BundleStore.DeleteBundle | pkg/store/store.go:336-351 | Takes exactly the machine's step for a pending deletion |
| Store.BundleStore.GetBundleDescriptor | pkg/store/store.go:140-156 | The descriptor under the ID, unless it is deleted |
| Store.BundleStore.GetDispatchable | pkg/store/store.go:181-194 | Exactly the dispatchable descriptors of the map |
| Store.BundleStore.GarbageCollect | pkg/store/store.go:355-368 | Takes Delete(false) steps only; every descriptor in the store ends up deleted iff it was before, or its bundle's creation time plus lifetime lies before now and it had no constraint |
| Forwarding.RemoveTypeExactly | pkg/routing/spray_and_wait.go:147-152 | Removing all blocks of a type through pointers into the shrinking slice removes exactly those iff there is at most one, or two of which the second is the last block of all |
| Forwarding.WrongBlockRemoved | pkg/routing/spray_and_wait.go:147-152 | Two spray blocks in front of a previous node block: the previous node block is removed, and a spray block stays |
| Forwarding.OfTypeAdded | pkg/bpv7/bundle.go:189-222 | Adding a block adds it to the blocks of its type and to no other |
| Forwarding.PreviousNodeExactly | pkg/processing/processing.go:71-84 | After forwarding's remove-then-add there is exactly one previous node block, naming this node, iff there was at most one before; other blocks stay, numbers stay distinct |
| Forwarding.ForwardedIsValid | pkg/processing/processing.go:71-84 | A valid bundle stays valid when it is sent on |
| Forwarding.SprayBlockReplaced | pkg/routing/spray_and_wait.go:147-157 | With at most one spray block before, exactly one with the new number after, all else unchanged |
| Forwarding.SprayedIsReceived | pkg/routing/spray_and_wait.go:43-60 | What the receiver reads from a sprayed bundle is the number the sender wrote |
| Routing.FilterMeaning | pkg/routing/algorithm.go:93-121 | A sender is selected as often as it is listed, or never if its peer is a known holder |
| Routing.FilterPeersOf | pkg/routing/algorithm.go:93-121 | The nested loops compute the filter; nobody for a deleted bundle |
| Routing.UniquePeers | pkg/routing/algorithm.go:130-141 | The loop with its map computes the specified list |
| Routing.UniqueReachesAll | pkg/routing/algorithm.go:130-141 | Every peer is still reached |
| Routing.UniqueIsUnique | pkg/routing/algorithm.go:130-141 | No peer is reached twice |
| Routing.UniqueKeepsFirst | pkg/routing/algorithm.go:130-141 | The first sender to each peer is the one kept |
| Routing.SelectConserves | pkg/routing/spray_and_wait.go:96-175 | Copies given and kept add up; binary: one peer, half each, both at least one; basic: a prefix of the candidates, everybody unless copies run out |
| Routing.AnyMayBePicked | pkg/routing/spray_and_wait.go:122-175 | Binary mode may pick any of the candidates |
| Routing.ReplaceSprayBlock | pkg/routing/spray_and_wait.go:147-163 | The in-place removal through pointers and the addition compute the specified blocks |
| Routing.RemoveSlot | pkg/bpv7/bundle.go:240-247 | The shift in place leaves the stale last slot as it was |
| Routing.SprayAndWait.NotifyNewBundle | pkg/routing/spray_and_wait.go:38-41 | A new bundle gets the default number of copies |
| Routing.SprayAndWait.NotifyReceivedBundle | pkg/routing/spray_and_wait.go:43-60 | A received bundle gets the number in its spray block, 0 without exactly one, and a failed type assertion if the block was read as generic |
| Routing.SprayAndWait.SelectPeersForForwarding | pkg/routing/spray_and_wait.go:62-91 | Peers, copies kept and the bundle are those of the specified selection among peers not known to have it |
| Routing.SprayAndWait.SelectBasicSpray | pkg/routing/spray_and_wait.go:96-117 | The basic branch of the selection |
| Routing.SprayAndWait.SelectBinarySpray | pkg/routing/spray_and_wait.go:122-175 | The binary branch, with the spray block replaced |
| Routing.ReplacePreviousNode | pkg/processing/processing.go:71-84 | The record's blocks become those of PreviousNodeExactly |
| Processing.MarkForwarding | pkg/processing/processing.go:32-49 | The bundle is forward pending and no longer dispatch pending, unless it was deleted |
| Processing.ContraindicateBundle | pkg/processing/processing.go:108-117 | All constraints go |
| Processing.PrepareForwarding | pkg/processing/processing.go:28-84 | Peers, copies kept and blocks sent are those of a forwarding of the network model, whether or not the bundle can be read; without peers selected all constraints go, else the mark stays |
| Processing.StoredAsInserted | pkg/store/store.go:224-319 | A bundle that a node stores becomes, in the network model, the carrier that the store's metadata make; one that it has already adds the node it comes from to the holders |
| Processing.ArrivedAsInserted | pkg/store/store.go:224-319 | In the flooding network as well: what a node knows of a bundle that arrives is what the metadata say |
| Processing.ReachedAsNoted | pkg/processing/processing.go:119-145 | So does a transmission that succeeds: the peer becomes a known holder unless the bundle was deleted |
| Processing.Announce | pkg/routing/spray_and_wait.go:43-58 | What the algorithm saves for a received bundle is what the network's step says |
| Processing.DroppedExactly | pkg/processing/processing.go:28-102 | Once a node has dropped a bundle, announcements for it are gone, forwardings go on as orphans with what they had read, and nothing else changes |
| SprayNetwork.StepPaid | pkg/routing/spray_and_wait.go:62-175 | Every guarded step of a binary network makes up no copy and pays for its forwards, with reading and writing of the copies as separate steps |
| SprayNetwork.BinarySprayBound | pkg/routing/spray_and_wait.go:43-175 | From one new bundle with L copies, in every run in which no two live forwardings overlap at a node and they begin only when copies were saved: held and flying copies never exceed L, every carrier has at least 1, at most L nodes ever carry it, at most L - 1 forwards, under loss, drops and overwriting re-receipts at any point of a forwarding |
| SprayGuard.MakesUpExactly | pkg/routing/spray_and_wait.go:62-175 | When a forwarding begins in such a run: from there on no copies are ever made up and no carrier is left without one, in all runs that keep to this, iff copies were saved and not both it and another one going on at the node have copies to give and somebody to give them to |
| SprayNetwork.CopiesGrowExactly | pkg/routing/spray_and_wait.go:43-175 | In any state, overlapping or not, a step makes up copies iff it begins a forwarding before copies were saved, writes although fewer are saved than were read, or ends a forwarding after the node dropped the bundle |
| SprayNetwork.OverlapMakesUpCopies | pkg/processing/processing.go:28-102 | Two overlapping forwardings of a new bundle with L copies leave L + L / 2 of them |
| SprayNetwork.StepBasic | pkg/routing/spray_and_wait.go:62-117 | Every guarded step of a basic network keeps the balance, and only the origin pays for forwards |
| SprayNetwork.BasicSprayBudget | pkg/routing/spray_and_wait.go:38-117 | In every such run: peers selected plus the origin's remaining copies are L, nobody else ever selects one, at most L other nodes carry it |
| SprayGuard.OverspendsExactly | pkg/routing/spray_and_wait.go:62-117 | When a forwarding begins in such a run: peers selected plus copies left never rise in all later runs that keep to this, iff copies were saved or none are assumed, and not both forwardings are live |
| SprayNetwork.BudgetKeptExactly | pkg/routing/spray_and_wait.go:96-117 | In any state, a forwarding keeps that sum at its node iff it selects nobody or the saved copies are those it has read |
| EpidemicNetwork.NeverAgain | pkg/routing/epidemic.go:34-41 | In every run, however forwardings overlap, a node that has the bundle selects neither itself, nor a known holder, nor a peer it reached since it got it |
| EpidemicNetwork.KnownGrows | pkg/store/store.go:236-248 | Known holders, the previous node among them, are never forgotten |
| EpidemicNetwork.FloodingIsBounded | pkg/processing/processing.go:126-144 | Over N nodes, in every run in which forwardings that overlap at a node have no peer in common: no peer is reached in two rounds, so a node succeeds in sending to a peer at most N * (N - 1) times, and N - 1 times more for each time a node drops the bundle |
| EpidemicNetwork.RepeatsExactly | pkg/processing/processing.go:28-102 | When a forwarding begins in such a run: no peer is ever reached in two rounds, however transmissions turn out and whatever else happens, iff it selects no peer that another one going on at the node has selected |
| EpidemicNetwork.OverlapRepeats | pkg/processing/processing.go:28-102 | The smallest case in which one is: two overlapping forwardings to the same peer |
| Meshtastic.ConcatChunks | pkg/cla/meshtastic/client.go:68-76 | The chunks put together are the bytes |
| Meshtastic.Split | pkg/cla/meshtastic/client.go:68-76 | The shrinking loop yields the specified chunks of at most 192 bytes |
| Meshtastic.HeaderRoundTrip | pkg/cla/meshtastic/client.go:88-96 | ID, payload, and position and count modulo 256 survive the eight-byte header |
| Meshtastic.HeaderRoundTripIn | pkg/cla/meshtastic/server.go:107-120 | Read in a buffer of any size, the same |
| Meshtastic.PacketLayout | pkg/cla/meshtastic/client.go:88-96 | The bytes of a packet one by one |
| Meshtastic.PacketSizes | pkg/cla/meshtastic/client.go:68-100 | All packets of a bundle but the last have exactly 200 bytes, and none is longer or without payload |
| Meshtastic.ReadPacketExactly | pkg/cla/meshtastic/server.go:107-120 | What any packet in any buffer is read as: too short, a panic iff it announces more than the buffer holds, else a chunk whose payload is filled up with zeros behind the packet |
| Meshtastic.Send | pkg/cla/meshtastic/client.go:54-107 | One packet for each chunk, in order |
| Meshtastic.MeshtasticServer.HandlePacket | pkg/cla/meshtastic/server.go:102-152 | Buffers and completed bytes are those of the specification; short packets are ignored, a payload announced too long takes zero bytes of the buffer, and one behind the buffer is a panic |
| Meshtastic.MeshtasticServer.DiscardOld | pkg/cla/meshtastic/server.go:57-75 | Exactly the buffers not seen for more than 60 seconds are gone |
| Meshtastic.CompleteIsWhole | pkg/cla/meshtastic/server.go:132-142 | A complete buffer of true chunks has all of them, by pigeonhole, and yields the bytes |
| Meshtastic.DeliveredIsSent | pkg/cla/meshtastic/server.go:87-165 | In every run under loss, duplication, reordering and discards: what is delivered under an ID is what was sent under it, iff that has at most 255 chunks |
| Meshtastic.LongIsCut | pkg/cla/meshtastic/server.go:87-165 | For any bundle of more than 255 chunks: when as many arrive in order as the eight-bit count announces, or 256 if that is zero, the bytes of the announced number of chunks are delivered, which are not the bundle |
| Meshtastic.DeliveredExactlyOnce | pkg/cla/meshtastic/server.go:57-152 | When the chunks of a bundle with up to 255 of them arrive at most once each, in any order among other packets, and old buffers are discarded now and then: the bundle is delivered once, and its buffer is gone, iff all chunks arrive and each discard between the first and the last comes at most 60 seconds after the latest; otherwise never |
| Meshtastic.DiscardedExactly | pkg/cla/meshtastic/server.go:57-75 | A buffer with no arrival for more than 60 seconds before a discard is gone after it, and any other one stays |
| SharedIds.SharedIDExactly | pkg/cla/meshtastic/server.go:87-165 | For two bundles of at most 255 chunks each under one ID: every run, whatever is lost, repeated, reordered or discarded, delivers nothing but them iff they have equally many chunks of which at most one differs, or one is a single chunk that is the other's first; else some run delivers neither |
| SharedIds.SharedByTime | pkg/cla/meshtastic/client.go:64 | Two bundles share an ID iff their creation times differ by a multiple of 2^32 |
| Meshtastic.SameIDMixesBundles | pkg/cla/meshtastic/client.go:64 | Two bundles of two chunks each under one ID: the first chunk of one and the second of the other are delivered, which is one of the two only if they share a chunk |
| Mtcp.ReceivedFrame | pkg/cla/mtcp/server.go:109-144 | A frame yields what the reader makes of its bundle, and reading goes on right behind it although the announced length is not used; it is the bundle sent iff that is readable and valid |
| Mtcp.StreamIsRead | pkg/cla/mtcp/server.go:90-146 | For every sequence of writable bundles and keepalives and anything after it: the server hands on what the reader makes of each, in order, and goes on behind them unless it does not get one |
| Mtcp.StreamRoundTrip | pkg/cla/mtcp/client.go:86-148 | It hands on exactly the bundles sent, and goes on behind them, iff all of them are readable and valid |
| Mtcp.SendBundle | pkg/cla/mtcp/client.go:121-148 | Appends frame and probe to the connection, or nothing if the bundle cannot be written |
| Mtcp.HandleSender | pkg/cla/mtcp/server.go:90-146 | The loop hands on exactly the bundles of the specification, for every byte stream |
| ClaManager.StepSafe | pkg/cla/cla_manager.go:179-306 | Every locked section keeps the manager's invariant |
| ClaManager.ManagerInvariant | pkg/cla/cla_manager.go:79-306 | In every interleaving: no address twice on a list, no pending adapter's address on a list it would join, activations match pending adapters one to one, one disconnect for each address being removed |
| ClaManager.RegisteredExactly | pkg/cla/cla_manager.go:127-193 | An adapter is registered iff none with its address is pending or on a list that it would join, and is pending then; otherwise nothing changes |
| ClaManager.ListedAfter | pkg/cla/cla_manager.go:197-306 | After each step the lists are as before, plus an adapter activated for its roles, minus those with a disconnected one's address and role, and empty after a shutdown |
| ClaManager.PendingAfter | pkg/cla/cla_manager.go:79-306 | After each step the adapters being started are as before, plus one that is registered, minus one whose activation ended, and the addresses being removed likewise; a shutdown changes neither |
| ClaManager.ListedExactly | pkg/cla/cla_manager.go:197-306 | In every run without a shutdown or a disconnect that filters an address, the address is on a list in the end iff it was at the beginning or an activation of an adapter with it and that role succeeded |
| ClaManager.DisconnectExactly | pkg/cla/cla_manager.go:256-306 | From the filter step of a disconnect on, the address stays off the list in every run until one with it is registered again, iff no adapter with it and that role is pending then |
| ClaManager.DisconnectBeforeActivation | pkg/cla/cla_manager.go:197-306 | The run in which one is: an adapter that was disconnected while starting ends up on the list of senders |
| ClaManager.Manager.CheckPresent | pkg/cla/cla_manager.go:127-157 | Pending with any role, or on a list that it would join |
| ClaManager.Manager.RegisterAsync | pkg/cla/cla_manager.go:179-193 | Takes exactly the machine's step |
| ClaManager.Manager.EndActivation | pkg/cla/cla_manager.go:212-234 | Takes exactly the machine's step, for success and failure |
| ClaManager.Manager.StartNotifyDisconnect | pkg/cla/cla_manager.go:256-264 | Takes exactly the machine's step; a second disconnect does nothing |
| ClaManager.Manager.RemoveDisconnected | pkg/cla/cla_manager.go:266-302 | Takes exactly the machine's step on both lists |
| ClaManager.Manager.EndNotifyDisconnect | pkg/cla/cla_manager.go:303-305 | Takes exactly the machine's step |
| ClaManager.Manager.ShutDown | pkg/cla/cla_manager.go:79-99 | Both lists are empty, pending adapters and disconnects go on |

## Left out

- Mtcp.StreamRoundTrip: says nothing about a connection that is cut in the middle of a frame.
- Meshtastic.DeliveredIsSent: takes each 32-bit ID to stand for one byte string; two under one ID are the subject of SharedIDExactly, three and more are left out.
- SprayNetwork.BinarySprayBound: takes all nodes to run in binary mode with block type 192 registered, and no node to restart.
- BundleCodec.BundleRoundTrip: one fixed clock for the call, as a predicate on creation time and lifetime.
- StoreMachine.GuardedRunIsMirrored: an update of a row that the database refuses is not modelled; the row then stays behind what memory has.
- CRC polynomials, and the hash that names files: parameters; only the hash is taken to be injective.
- Errors and panics of a reader are one outcome, Fail; only the break code is kept apart. What a panic does is left out: the MTCP server recovers from it, the Meshtastic receive loop does not, and ParsePartialBundle (bundle.go:106) looks at the type of a block before it looks at the error, which is one if there is no value.
- Block types for DTLSR, PRoPHET and signatures: unregistered by default and unused by the routers; with such a type registered the model's reader fails.
- Endpoints without a type (nil) and dtn:none values with leftover fields, which the constructors do not produce.
- Lengths from 2^63 on (seeking), payloads from 2^53 on (the float64 in math.Min), and an mtu so close to the largest int that the loop counter overflows.
- sort.Sort and sort.Slice as algorithms: block numbers have one sorted order (SortedUnique), and for fragments any ascending permutation is covered.
- Expiry by the wall clock inside the store: a time is passed to GarbageCollect, and durations do not overflow.
- Opening, loading and closing the store; mailboxes, delivery to applications, the list of listeners, logging, JSON, configuration, discovery.
- Extension blocks of type 6 or 192 with a value of another Go type, built by hand: a failed type assertion is modelled for spray blocks only.
- QUIC, the Meshtastic radio transport, UDP and TCP sockets: byte streams and packets stand for them.
- Data races inside one send of an adapter: every locked section is one step.
