# Verified model of the Istio installer

This project models the parts of the installer that decide what is read, written, patched, translated and applied, and
proves what they promise. It follows the code, file by file:

- **The wire codec** of the control plane messages (`Bits`, `Varints`, `Skipping`, `Groups`, `UnknownFields`, `Wire`,
  `WireLaws`, `WireErrors`, `WireSizes`, `WirePartial`, `WireFields`, `WireVectors`, `Buffers`, and the modules of
  `InstallStatus`, `K8SObjectOverlay` and `Resources`). The `...Codec` modules hold the generated methods: classes with
  the struct fields, loops over indices, and writes into byte arrays, with Go's 64-bit wrap-around; that they end and stay
  in bounds on every input is part of what is verified of them. The `...Messages` modules say what the bytes mean,
  following "Base 128 Varints", "Message Structure", "Submessages", "Last One Wins", "Maps" and "Groups" of the Protocol
  Buffers Encoding specification; `WireFields` and `UnknownFields` say it field by field.
- **The patch engine** (`PatchCode`, `PatchHeap`, `PatchSpec`, `PatchLists`) and **the tree-set engine** (`SetTreeCode`,
  `SetTreeSpec`, `SetTreeLists`, `SetTreeOrder`). Both work on maps and slices shared by reference (`GoHeap`): a slice is a header over a backing array,
  and `Shape` says which heap object holds which node of a document. Each code module is proved to refine a pure update of
  a tree, and the laws are proved about that update.
- **The translation to values** (`Translate`, `TranslateCode`, `TranslateTables`), with the iterations over Go maps in any
  order, and **paths** (`Paths`, `Addresses`).
- **The concurrent apply** (`ApplyProtocol`) as a state machine whose steps are the actions of the goroutines on the
  channels and the WaitGroup, and the install tree (`InstallTree`) that rendering walks.
- **The manifest layer**: splitting and joining documents (`Documents`), patching a manifest and its objects
  (`ManifestPatch`, `ManifestLaws`, `PatchObjects`, `ObjectNames`), and the order in which objects are applied
  (`ApplyOrder`, `Objects`).

`Options` and `Permutations` are shared helpers. Map iteration is modelled by picking any remaining key; results are stated
for every order. Regular expressions, how values print, YAML decoding and encoding, the enablement and namespace of a
component, and the key that `range` visits first in a map are parameters.

Where the code does not do what its comments or its other half suggest, the model follows the code. Each of these has its
exact condition proved, and an input that shows it:

- Unmarshalling a concatenation may return another error than unmarshalling the second part by itself
  (`WireErrors.ConcatenationExactly`, `OverlayMessages.ConcatenationExample`).
- The number of an end-group tag is not compared with that of the group it ends (`Groups.SkipIsStandard`,
  `InstallStatusMessages.MismatchedGroupIsKept`).
- Unmarshalling `Resources` can panic on an unknown field inside a map entry (`ResourcesErrors.ResourcesPanicExactly`,
  `ResourcesErrors.WrappingPanics`).
- A patch below a missing node panics, which ends the whole run (`PatchSpec.PanicsAtNull`, `PatchSpec.RunPanicsExactly`,
  `PatchSpec.PanicExample`, `PatchObjects.PanicManifestExample`). The model calls that outcome `NilNode`.
- A map that the value of a patch brought is no map to later patches of the same object: they report a leaf in their
  path, and the object is dropped (`PatchSpec.LeafInPathExactly`, `PatchSpec.BelowValue`,
  `PatchSpec.BelowEmptyMapExample`, `PatchSpec.BelowMapExample`, `PatchObjects.DroppedManifestExample`). Documents hold
  maps with keys of any type, JSON values maps with string keys, and only the first are entered.
- An element of a list inside a list can be found but not written (`PatchSpec.FailsAtObstacle`,
  `PatchSpec.InnerListExample`).
- An overlay with a nil list of patches makes its object come out twice (`ManifestLaws.ConservedExactly`,
  `PatchObjects.TwiceManifestExample`).
- `setTree` can return an error after it has appended a list element (`SetTreeSpec.AllOrNothing`,
  `SetTreeSpec.OverrunExample`).
- `setTree` replaces a scalar by a value that is to be put one step below it, and reports an error only for longer paths
  (`SetTreeLists.SetBelowScalar`).
- If an apply fails, `wg.Wait` never returns (`ApplyProtocol.OutcomeIsScheduleIndependent`,
  `ApplyProtocol.FailureExample`).

## Model

| member | source | states |
|---|---|---|
| Bits.TruncateIsRemainder | pkg/apis/istio/v1alpha2/istiocontrolplane_types.pb.go:11266-11279 | keeping the low bits is taking the remainder |
| Bits.ToInt32IsCongruent | pkg/apis/istio/v1alpha2/istiocontrolplane_types.pb.go:11281-11281 | a number read as int32 differs from it by a multiple of 2^32 |
| Bits.WrapsAround | pkg/apis/istio/v1alpha2/istiocontrolplane_types.pb.go:12843-12938 | addition, reading as int and sign extension change a number by a multiple of 2^64 at most |
| Varints.DecodeVarint | pkg/apis/istio/v1alpha2/istiocontrolplane_types.pb.go:11266-11279 | the decode loop, with its or and shift on a 64- or 32-bit accumulator, computes the value of the varint kept to that width, or fails by length or end of data |
| Varints.Sov | pkg/apis/istio/v1alpha2/istiocontrolplane_types.pb.go:6046-6055 | the size is the number of bytes that encoding writes |
| Varints.EncodeVarint | pkg/apis/istio/v1alpha2/istiocontrolplane_types.pb.go:5053-5061 | exactly the bytes of the varint are written at the offset, and no other byte of the buffer changes |
| Varints.VarintRoundTrip | pkg/apis/istio/v1alpha2/istiocontrolplane_types.pb.go:5053-5061 | every uint64 takes at most ten bytes and is read back, whatever follows it |
| Varints.EnumRoundTrip | pkg/apis/istio/v1alpha2/istiocontrolplane_types.pb.go:11591-11605 | an int32 enum, negative ones included, survives sign extension to 64 bits, encoding, and accumulation in 32 bits |
| Varints.ScanIsLocal | pkg/apis/istio/v1alpha2/istiocontrolplane_types.pb.go:11266-11279 | a varint read with success does not depend on the bytes behind it |
| Varints.SeptetsOfVarint | pkg/apis/istio/v1alpha2/istiocontrolplane_types.pb.go:11591-11605 | what the bytes of a complete varint are worth is its value |
| Varints.ScanFailsExactly | pkg/apis/istio/v1alpha2/istiocontrolplane_types.pb.go:11266-11279 | a varint overflows if and only if ten bytes all go on, and ends early if and only if fewer do and nothing follows |
| Buffers.SpliceExactly | pkg/apis/istio/v1alpha2/istiocontrolplane_types.pb.go:5053-5061 | a write changes the bytes that it writes, and no other |
| Skipping.SkipField | pkg/apis/istio/v1alpha2/istiocontrolplane_types.pb.go:12834-12938 | skipping one field terminates on all non-empty data, nested groups included, never reaches the final panic, and returns what the pure `Skip` says, wrap-around included |
| Skipping.SkipGroupLoop | pkg/apis/istio/v1alpha2/istiocontrolplane_types.pb.go:12896-12927 | the loop over the fields of a group, which recurses into itself, ends and agrees with `SkipGroup` |
| Skipping.SkipIsLocal | pkg/apis/istio/v1alpha2/istiocontrolplane_types.pb.go:12834-12938 | a field skipped inside the data is skipped the same whatever follows it |
| Groups.SkipIsStandard | pkg/apis/istio/v1alpha2/istiocontrolplane_types.pb.go:12896-12927 | a field that is skipped inside the data is a field of the standard, of the same length, if and only if every group in it ends with its own number |
| Groups.MismatchedIsSkipped | pkg/apis/istio/v1alpha2/istiocontrolplane_types.pb.go:12914-12917 | group 20 ended by the tag of group 21 is skipped, and is no field of the standard |
| UnknownFields.WrittenIsSkipped | pkg/apis/istio/v1alpha2/istiocontrolplane_types.pb.go:12834-12938 | a field as the standard writes it, groups in groups included, is skipped exactly, whatever follows, and is a field of the standard |
| UnknownFields.OtherWireTypes | pkg/apis/istio/v1alpha2/istiocontrolplane_types.pb.go:12929-12933 | the two remaining wire types are an error |
| UnknownFields.WrittenIsKept | pkg/apis/istio/v1alpha2/istiocontrolplane_types.pb.go:11501-11517 | a written field of unknown number is kept byte for byte |
| UnknownFields.LengthIsSkipped | pkg/apis/istio/v1alpha2/istiocontrolplane_types.pb.go:12870-12895 | an announced length is an error only past the largest int; it is not bounded by the data |
| Wire.ReadAnnounced | pkg/apis/istio/v1alpha2/istiocontrolplane_types.pb.go:11293-11317 | a length-delimited payload lies inside the data, or the error is the one the 64-bit checks give at that index |
| Wire.ReadField | pkg/apis/istio/v1alpha2/istiocontrolplane_types.pb.go:11264-11292 | one turn of the decode loop frames one field, or fails as the code does: end-group tag, illegal tag, wrong wire type, length |
| Wire.ReadUnknown | pkg/apis/istio/v1alpha2/istiocontrolplane_types.pb.go:11501-11517 | a field of unknown number is kept byte for byte |
| Wire.AnnouncedMeans | pkg/apis/istio/v1alpha2/istiocontrolplane_types.pb.go:11308-11317 | a payload is an invalid length, past the end, or inside, by sums that do not wrap around |
| Wire.UnknownMeans | pkg/apis/istio/v1alpha2/istiocontrolplane_types.pb.go:11501-11517 | the same for an unknown field |
| WireLaws.FrameIsLocal | pkg/apis/istio/v1alpha2/istiocontrolplane_types.pb.go:11264-11324 | a field read with success is read the same at any place in any data that continues it |
| WireLaws.ConcatenationIsMerge | pkg/apis/istio/v1alpha2/istiocontrolplane_types.pb.go:11260-11525 | for any table without maps: if `a` decodes, decoding `a ++ b` gives the message of decoding `a`, then `b` into it, and fails if and only if that fails |
| WireLaws.UnknownFieldsSurvive | pkg/apis/istio/v1alpha2/istiocontrolplane_types.pb.go:11501-11517 | what decoding adds to the unknown bytes are exactly the unknown fields of the input, in order, and they are well-formed |
| WireLaws.DecodeUnrecognized | pkg/apis/istio/v1alpha2/istiocontrolplane_types.pb.go:11501-11517 | well-formed unknown fields decode to themselves |
| WireLaws.DecodeEncoded | pkg/apis/istio/v1alpha2/istiocontrolplane_types.pb.go:11260-11525 | decoding encoded fields is applying them one after the other |
| WireLaws.FieldsRoundTrip | pkg/apis/istio/v1alpha2/istiocontrolplane_types.pb.go:11260-11525 | encoded fields followed by well-formed unknown bytes decode to the message they make up |
| WireErrors.FrameByReach | pkg/apis/istio/v1alpha2/istiocontrolplane_types.pb.go:11308-11317 | the place of a field in the data matters only for a field that announces an end past the data, and then only for which error it gives |
| WireErrors.ConcatenationExactly | pkg/apis/istio/v1alpha2/istiocontrolplane_types.pb.go:11311-11317 | concatenation and merge have the same outcome, the error included, if and only if the first unreadable field of `b` does not end below 2^63 by itself and past it behind `a` |
| WireSizes.DecodedLength | pkg/apis/istio/v1alpha2/istiocontrolplane_types.pb.go:11266-11279 | no varint has fewer bytes than the encoding of the value that is kept of it |
| WireSizes.EnumLength | pkg/apis/istio/v1alpha2/istiocontrolplane_types.pb.go:11591-11605 | an enum that is read has at least half as many bytes as it is written with |
| WireSizes.DecodeIsBounded | pkg/apis/istio/v1alpha2/istiocontrolplane_types.pb.go:11260-11525 | if no update makes a message longer than a multiple of the bytes of its field, decoding makes it no longer than that multiple of its input |
| WirePartial.LeftIsDecoded | pkg/apis/istio/v1alpha2/istiocontrolplane_types.pb.go:11260-11525 | without an error the struct holds the message that was read |
| WirePartial.LeftIsPrefix | pkg/apis/istio/v1alpha2/istiocontrolplane_types.pb.go:11260-11525 | with an error the struct holds the message read from the bytes before the first field that cannot be read, and what there was of that field; for any table without maps |
| InstallStatusCodec.VersionStatus.constructor | pkg/apis/istio/v1alpha2/istiocontrolplane_types.pb.go:11319-11319 | a fresh message is the empty one |
| InstallStatusCodec.VersionStatus.Size | pkg/apis/istio/v1alpha2/istiocontrolplane_types.pb.go:5895-5912 | the length of the bytes that marshalling writes |
| InstallStatusCodec.VersionStatus.MarshalTo | pkg/apis/istio/v1alpha2/istiocontrolplane_types.pb.go:4752-4772 | the bytes of the message, and nothing outside them, are written into the buffer |
| InstallStatusCodec.VersionStatus.Unmarshal | pkg/apis/istio/v1alpha2/istiocontrolplane_types.pb.go:11526-11630 | the new state of the struct and the error are those of decoding into its old state; on an error the state is what the fields before it made, with what there was of a cut enum |
| InstallStatusCodec.InstallStatus.Size | pkg/apis/istio/v1alpha2/istiocontrolplane_types.pb.go:5855-5894 | the length of the bytes that marshalling writes, nested and repeated messages included |
| InstallStatusCodec.InstallStatus.MarshalTo | pkg/apis/istio/v1alpha2/istiocontrolplane_types.pb.go:4667-4741 | exactly `Size()` bytes are written: those of the message, and nothing outside them |
| InstallStatusCodec.InstallStatus.Store | pkg/apis/istio/v1alpha2/istiocontrolplane_types.pb.go:11318-11324 | a singular submessage is created if absent and merged into; a list gets a new message |
| InstallStatusCodec.InstallStatus.Unmarshal | pkg/apis/istio/v1alpha2/istiocontrolplane_types.pb.go:11260-11525 | the new state of the struct, submessages included, and the error are those of decoding into its old state; on an error the state is what the fields before it made, with what there was of a cut submessage |
| InstallStatusCodec.VersionStatus.ReadStatus | pkg/apis/istio/v1alpha2/istiocontrolplane_types.pb.go:11591-11605 | the loop that reads the enum into the struct leaves there what its bytes are worth, also if it is cut off |
| InstallStatusMessages.VersionRoundTrip | pkg/apis/istio/v1alpha2/istiocontrolplane_types.pb.go:4752-4772 | unmarshalling what was marshalled into a fresh message gives the message, its enum and unknown fields included |
| InstallStatusMessages.VersionIsValid | pkg/apis/istio/v1alpha2/istiocontrolplane_types.pb.go:11606-11623 | an unmarshalled message keeps its unknown fields byte for byte and in order, and they are well-formed |
| InstallStatusMessages.VersionConcatenation | pkg/apis/istio/v1alpha2/istiocontrolplane_types.pb.go:11526-11630 | concatenation is merge, with the exact condition for equal errors |
| InstallStatusMessages.InstallRoundTrip | pkg/apis/istio/v1alpha2/istiocontrolplane_types.pb.go:4667-4741 | round trip for the message with nested, repeated and enum fields |
| InstallStatusMessages.InstallIsValid | pkg/apis/istio/v1alpha2/istiocontrolplane_types.pb.go:11260-11525 | every unmarshalled message meets what the round trip asks for, on all levels |
| InstallStatusMessages.InstallConcatenation | pkg/apis/istio/v1alpha2/istiocontrolplane_types.pb.go:11260-11525 | concatenation is merge, with the exact condition for equal errors |
| InstallStatusMessages.MismatchedGroupIsKept | pkg/apis/istio/v1alpha2/istiocontrolplane_types.pb.go:11501-11517 | unmarshalling accepts those four bytes and keeps them as an unknown field |
| InstallStatusMessages.VersionNormalForm | pkg/apis/istio/v1alpha2/istiocontrolplane_types.pb.go:11526-11630 | whatever bytes are accepted, marshalling the message gives at most twice as many, which unmarshal to the same message and have the same unknown fields |
| InstallStatusMessages.InstallNormalForm | pkg/apis/istio/v1alpha2/istiocontrolplane_types.pb.go:11260-11525 | accepted bytes, over-long varints and any field order included, have a normal form of at most twice their length that decodes to the same message and keeps the unknown fields |
| InstallStatusMessages.VersionLeft | pkg/apis/istio/v1alpha2/istiocontrolplane_types.pb.go:11526-11630 | a failed unmarshalling leaves what a prefix of the bytes unmarshals to, but for the status |
| InstallStatusMessages.InstallLeft | pkg/apis/istio/v1alpha2/istiocontrolplane_types.pb.go:11260-11525 | a failed unmarshalling leaves what a prefix of the bytes unmarshals to, but for one submessage |
| OverlayCodec.PathValue.Size | pkg/apis/istio/v1alpha2/istiocontrolplane_types.pb.go:5839-5853 | the length of the bytes that marshalling writes |
| OverlayCodec.PathValue.MarshalTo | pkg/apis/istio/v1alpha2/istiocontrolplane_types.pb.go:4640-4655 | the bytes of the message, and nothing outside them, are written |
| OverlayCodec.PathValue.Unmarshal | pkg/apis/istio/v1alpha2/istiocontrolplane_types.pb.go:11174-11259 | the new state and the error are those of decoding into the old state; on an error the state is what the fields before it made |
| OverlayCodec.K8SObjectOverlay.Size | pkg/apis/istio/v1alpha2/istiocontrolplane_types.pb.go:5809-5837 | the length of the bytes that marshalling writes |
| OverlayCodec.K8SObjectOverlay.MarshalTo | pkg/apis/istio/v1alpha2/istiocontrolplane_types.pb.go:4589-4628 | exactly `Size()` bytes are written: those of the message, and nothing outside them |
| OverlayCodec.K8SObjectOverlay.Unmarshal | pkg/apis/istio/v1alpha2/istiocontrolplane_types.pb.go:10990-11173 | the new state and the error are those of decoding into the old state; on an error the state is what the fields before it made, with what there was of a cut patch |
| OverlayMessages.PathRoundTrip | pkg/apis/istio/v1alpha2/istiocontrolplane_types.pb.go:4640-4655 | round trip on the wire-carried field |
| OverlayMessages.OverlayRoundTrip | pkg/apis/istio/v1alpha2/istiocontrolplane_types.pb.go:4589-4628 | round trip for a message with strings and repeated messages |
| OverlayMessages.OverlayIsValid | pkg/apis/istio/v1alpha2/istiocontrolplane_types.pb.go:10990-11173 | every unmarshalled message meets what the round trip asks for |
| OverlayMessages.OverlayConcatenation | pkg/apis/istio/v1alpha2/istiocontrolplane_types.pb.go:10990-11173 | concatenation is merge, with the exact condition for equal errors |
| OverlayMessages.ConcatenationExample | pkg/apis/istio/v1alpha2/istiocontrolplane_types.pb.go:11311-11317 | an input for which merge and concatenation give different errors |
| OverlayMessages.OverlayNormalForm | pkg/apis/istio/v1alpha2/istiocontrolplane_types.pb.go:10990-11173 | accepted bytes have a normal form, no longer than they are, that decodes to the same message |
| OverlayMessages.OverlayLeft | pkg/apis/istio/v1alpha2/istiocontrolplane_types.pb.go:10990-11173 | a failed unmarshalling leaves what a prefix of the bytes unmarshals to, but for one more patch at the end |
| OverlayMessages.PathLeft | pkg/apis/istio/v1alpha2/istiocontrolplane_types.pb.go:11174-11259 | a failed unmarshalling leaves exactly what a prefix of the bytes unmarshals to |
| ResourcesCodec.ResourcesStruct.Size | pkg/apis/istio/v1alpha2/istiocontrolplane_types.pb.go:5914-5940 | the length of the bytes that marshalling writes, in whatever order the maps are visited |
| ResourcesCodec.ResourcesStruct.MarshalTo | pkg/apis/istio/v1alpha2/istiocontrolplane_types.pb.go:4784-4827 | for some order of each map, exactly the bytes of the message in that order are written, and nothing outside them |
| ResourcesCodec.ResourcesStruct.Unmarshal | pkg/apis/istio/v1alpha2/istiocontrolplane_types.pb.go:11631-11938 | the new maps and the error are those of decoding into the old state; on an error the maps are what the entries before it made |
| ResourcesCodec.ReadEntry | pkg/apis/istio/v1alpha2/istiocontrolplane_types.pb.go:11692-11783 | one map entry: its loop may read past the end of the entry, up to the end of the data, as the code does |
| ResourcesMessages.ResourcesRoundTrip | pkg/apis/istio/v1alpha2/istiocontrolplane_types.pb.go:4784-4827 | round trip for the message with maps, for every iteration order of both maps |
| ResourcesMessages.SizeInAnyOrder | pkg/apis/istio/v1alpha2/istiocontrolplane_types.pb.go:5920-5935 | the size does not depend on the iteration order |
| ResourcesErrors.EntryPanics | pkg/apis/istio/v1alpha2/istiocontrolplane_types.pb.go:11770-11783 | reading one entry panics if and only if it stops at an unknown field whose end is past the largest `int` |
| ResourcesErrors.ResourcesPanicExactly | pkg/apis/istio/v1alpha2/istiocontrolplane_types.pb.go:11631-11938 | unmarshalling panics if and only if the first part that cannot be read is such a field of a map entry; every other input gives a message or an error return |
| ResourcesErrors.WrappingPanics | pkg/apis/istio/v1alpha2/istiocontrolplane_types.pb.go:11776-11782 | twelve bytes that do, for every message they are read into |
| WireFields.FieldBehind | pkg/apis/istio/v1alpha2/istiocontrolplane_types.pb.go:11260-11525 | a field behind bytes that were read is applied to what they made, for any table without maps |
| WireFields.FailsByTag | pkg/apis/istio/v1alpha2/istiocontrolplane_types.pb.go:11281-11292 | a known field with another wire type than its own is an error that names it, an end of a group is another error |
| WireFields.FailsByNumber | pkg/apis/istio/v1alpha2/istiocontrolplane_types.pb.go:11286-11288 | field number zero is an error |
| WireFields.FieldNumberWraps | pkg/apis/istio/v1alpha2/istiocontrolplane_types.pb.go:11281-11281 | field numbers are cut to 32 bits: a larger number that is congruent to a known one is that field |
| WireFields.VersionLastWins | pkg/apis/istio/v1alpha2/istiocontrolplane_types.pb.go:11526-11630 | the last version wins and so does the last status; everything else that was read stays |
| WireFields.VersionWireTypes | pkg/apis/istio/v1alpha2/istiocontrolplane_types.pb.go:11555-11590 | version and status with another wire type are errors |
| WireFields.SubmessageField | pkg/apis/istio/v1alpha2/istiocontrolplane_types.pb.go:11318-11324 | fields 1 to 4 are unmarshalled into the submessage that is there, or into an empty one |
| WireFields.GatewayField | pkg/apis/istio/v1alpha2/istiocontrolplane_types.pb.go:11436-11499 | fields 5 and 6 append a message |
| WireFields.SubmessagesMerge | pkg/apis/istio/v1alpha2/istiocontrolplane_types.pb.go:11318-11324 | a singular submessage in two fields is the submessage in one field with both payloads, accepted or not |
| WireFields.InstallWireTypes | pkg/apis/istio/v1alpha2/istiocontrolplane_types.pb.go:11289-11292 | the six fields with another wire type are errors |
| WireFields.PathLastWins | pkg/apis/istio/v1alpha2/istiocontrolplane_types.pb.go:11174-11259 | the last path wins |
| WireFields.OverlayFields | pkg/apis/istio/v1alpha2/istiocontrolplane_types.pb.go:10990-11173 | the last of each string wins, patches are appended, everything else that was read stays |
| WireFields.OverlayWireTypes | pkg/apis/istio/v1alpha2/istiocontrolplane_types.pb.go:10990-11173 | the four fields with another wire type are errors |
| WireFields.PathWireTypes | pkg/apis/istio/v1alpha2/istiocontrolplane_types.pb.go:11174-11259 | the path with another wire type is an error |
| WireFields.ResourcesWireTypes | pkg/apis/istio/v1alpha2/istiocontrolplane_types.pb.go:11631-11938 | the two maps with another wire type are errors |
| WireFields.EntryField | pkg/apis/istio/v1alpha2/istiocontrolplane_types.pb.go:11631-11938 | an entry with a key and a value sets that key in its own map |
| WireVectors.VersionVector | pkg/apis/istio/v1alpha2/istiocontrolplane_types.pb.go:4752-4772 | the bytes of a version status, and of a negative status in ten bytes |
| WireVectors.EmptyVectors | pkg/apis/istio/v1alpha2/istiocontrolplane_types.pb.go:4589-4827 | what is empty or zero is not written, and unknown fields come last |
| WireVectors.InstallVector | pkg/apis/istio/v1alpha2/istiocontrolplane_types.pb.go:11318-11324 | nine bytes with field 1 twice, the submessages of which are merged |
| WireVectors.InstallBytes | pkg/apis/istio/v1alpha2/istiocontrolplane_types.pb.go:4667-4741 | the bytes of an install status with one submessage in each field |
| WireVectors.OverlayBytes | pkg/apis/istio/v1alpha2/istiocontrolplane_types.pb.go:4589-4628 | the bytes of an overlay with all its fields |
| WireVectors.ResourcesBytes | pkg/apis/istio/v1alpha2/istiocontrolplane_types.pb.go:4784-4827 | the bytes of one limit |
| PatchCode.Patcher.GetNode | pkg/patch/patch.go:222-301 | finds the node the path leads to, or the error, without changing the document; the chain of contexts says where to write |
| PatchCode.Patcher.GetInList | pkg/patch/patch.go:240-281 | the first matching list element decides, maps by the printed value of a key, everything else, maps of patch values and lists included, by its own text; an element for which the path element is malformed ends the search |
| PatchCode.Patcher.WriteNode | pkg/patch/patch.go:304-346 | the heap after the write: element or entry replaced, element removed, or nothing; an error and no change for a list that is not held through a pointer |
| PatchCode.Patcher.DeleteFromSlicePtr | pkg/util/reflect.go:228-245 | the elements behind the removed one are shifted down in the shared backing array and the shorter header is stored in the cell; anything but a pointer is an error |
| PatchCode.Patcher.UpdateSlicePtr | pkg/util/reflect.go:248-265 | one slot of the backing array changes; anything but a pointer is an error |
| PatchCode.Patcher.InsertIntoMap | pkg/util/reflect.go:268-289 | one entry of the map changes |
| PatchCode.Patcher.ApplyPatch | pkg/patch/patch.go:204-211 | one patch on the shared heap is the pure tree update; every object outside the document is unchanged; an error leaves the document as it was |
| PatchCode.Patcher.ApplyPatches | pkg/patch/patch.go:203-218 | a list of patches on one heap is the list of pure updates, with the same errors or the same panic; every object outside the document and the values is unchanged |
| PatchHeap.WritePatches | pkg/patch/patch.go:304-346 | what `writeNode` does to the heap turns the document into the patched document: still one tree without sharing, whatever list was shifted and however deep in lists and maps |
| PatchHeap.LocateFailsAlike | pkg/patch/patch.go:222-301 | finding and writing the node fails exactly when the pure update does, with the same error |
| PatchHeap.PutKeepsBoxesInMaps | pkg/patch/patch.go:310-320 | after a patch every list that is held through a pointer still is the value of a map key, so that any later patch may follow |
| GoHeap.ElementRemoved | pkg/util/reflect.go:241-242 | the shift in the backing array and the shorter header hold exactly the list without that index |
| GoHeap.HoldsFrame | pkg/patch/patch.go:304-346 | a document does not change when other objects do |
| PatchSpec.FindEntry | pkg/patch/patch.go:242-281 | the found element matches, by what it or the value under its key prints, and none before it does |
| PatchSpec.PatchReplaces | pkg/patch/patch.go:322-342 | after a patch with a value the node at the resolved address is that value, and every other node is what it was |
| PatchSpec.PatchRemoves | pkg/patch/patch.go:308-321 | a nil value removes the resolved list element, those behind it move up by one, every other node is what it was; a map is left alone |
| PatchSpec.SucceedsIfResolved | pkg/patch/patch.go:222-346 | a patch takes effect if and only if its path leads to a node that can be written or to a key of a map |
| PatchSpec.FailsAtObstacle | pkg/patch/patch.go:222-346 | a patch fails with an error if and only if its path meets the obstacle of that error: a null node, a scalar or a map of a patch value in its way, a list without the element, a malformed element, or an inner list at its end |
| PatchSpec.LeafInPathExactly | pkg/patch/patch.go:285-300 | the error of a leaf in the path is reported if and only if the path leads, before its end, to a scalar or to a map that the value of a patch brought |
| PatchSpec.BelowValue | pkg/patch/patch.go:285-300 | a patch that goes on below the value of an earlier one reports a leaf in its path if and only if the rest of its path meets a scalar or a map in that value; if the value is a map, it always does |
| PatchSpec.BelowEmptyMapExample | pkg/patch/patch.go:203-212 | in an empty document, a patch of a with an empty map and then one of a.b.c: one error, no panic |
| PatchSpec.BelowMapExample | pkg/patch/patch.go:203-212 | in an empty document, a patch of a with a map and then one of its key a.b: one error |
| PatchSpec.InnerListExample | pkg/util/reflect.go:248-265 | an element of a list inside a list that is found and cannot be written |
| PatchSpec.RunFailsExactly | pkg/patch/patch.go:203-212 | a list of patches reports an error, or panics, if and only if one of them meets its obstacle in the document that those before it made |
| PatchSpec.RunSucceedsExactly | pkg/patch/patch.go:203-212 | a list of patches goes through without error or panic if and only if none of them meets an obstacle |
| PatchSpec.PanicsAtNull | pkg/patch/patch.go:230-237 | a patch panics if and only if its path leads through a missing or null node before its end; every other failure is an error return |
| PatchSpec.RunPanicsExactly | pkg/patch/patch.go:203-212 | a list of patches panics if and only if one of them does on the document that those before it made |
| PatchSpec.PanicExample | pkg/patch/patch.go:230-237 | in an empty document the patch of a.b panics, with no error reported |
| PatchLists.LeafListPatch | pkg/patch/patch.go:265-281 | of a list of scalars, `[v]` replaces or removes the first whose text the regular expression v matches |
| PatchLists.LeafListMisses | pkg/patch/patch.go:282-283 | if it matches none of them, the patch is an error |
| PatchLists.KeyedListPatch | pkg/patch/patch.go:242-264 | of a list of maps, `[k:v]` replaces or removes the first whose entry under k prints as v |
| PatchLists.BelowKeyedElement | pkg/patch/patch.go:242-264 | a path that goes on behind `[k:v]` goes on in that element |
| PatchLists.MalformedSelectors | pkg/patch/patch.go:244-271 | an element without a colon is an error in a list that begins with a map, one without brackets in every list |
| PatchLists.PlainKeyPatch | pkg/patch/patch.go:285-300 | a plain key is set in its map, which nil leaves alone; a longer path goes on in what is under it |
| PatchLists.RemoveArgumentExample | pkg/patch/patch_test.go:225-250 | removing an argument from the command of a container that is selected by its name |
| SetTreeCode.SetTreeInMap | pkg/translate/tree.go:15-17 | setting a path in a tree of shared maps and slices is the pure `SetTree`; objects outside the tree are unchanged |
| SetTreeCode.SetTreeInternal | pkg/translate/tree.go:22-85 | the recursion on any kind of node; the parent map is only used, and then is there, when the node is not a map |
| SetTreeCode.SetInMap | pkg/translate/tree.go:60-73 | at a map: the key is set, or a missing or null child becomes a new map and the path goes on there |
| SetTreeCode.SetInSlice | pkg/translate/tree.go:30-59 | at a list: the first element that the pair selects, or a new element appended and stored through the parent map |
| SetTreeCode.SetInElement | pkg/translate/tree.go:42-53 | inside the selected element, including a path that ends there |
| SetTreeCode.AddElement | pkg/translate/tree.go:54-59 | the appended element, in spare capacity of the backing array or in a copy of it |
| SetTreeCode.Append | pkg/translate/tree.go:56-56 | appending keeps the elements before and puts the new one behind them; all other objects are unchanged |
| SetTreeSpec.Find | pkg/translate/tree.go:36-42 | the found element is selected and no map before it is |
| SetTreeSpec.AllOrNothing | pkg/translate/tree.go:22-85 | an error comes with a change of the tree if and only if the path runs into a new `[k:v]` element and on through `k` by two or more elements |
| SetTreeSpec.OverrunExample | pkg/translate/tree.go:54-59 | an input for which an error leaves a new element behind |
| SetTreeSpec.SetTreeLands | pkg/translate/tree.go:22-85 | for a clear path there is no error, reading the path back gives the value, and every node at another address is what it was |
| SetTreeLists.SetBelowElement | pkg/translate/tree.go:36-53 | a path that goes on behind `[k:v]` goes on in the first map that has the string v under k |
| SetTreeLists.SetAtElement | pkg/translate/tree.go:44-51 | a path that ends there stores an entry of the value, which must be a map, in that element |
| SetTreeLists.SetBehindList | pkg/translate/tree.go:55-62 | if no element has v under k, one that has just that is appended and the path goes on in it |
| SetTreeLists.SetFailsInList | pkg/translate/tree.go:30-40 | an element that is no map ends the search with an error, and a malformed path element is one; nothing is changed |
| SetTreeLists.SetPlainKey | pkg/translate/tree.go:63-77 | the last key is set; before it, a missing or nil child becomes a new map and the path goes on in the child |
| SetTreeLists.SetBelowScalar | pkg/translate/tree.go:78-84 | a scalar in the path is an error, or is replaced if one more element follows; an empty path is an error |
| SetTreeLists.ListKeysExample | pkg/translate/tree_test.go:98-117 | a set through a selected element of a list inside a selected element of a list |
| SetTreeOrder.SetAlongMaps | pkg/translate/tree.go:60-73 | a set whose path meets only maps succeeds and is an insertion |
| SetTreeOrder.PlainPathsMeetMaps | pkg/translate/tree.go:60-73 | a clear path of plain keys meets only maps |
| SetTreeOrder.SetsCommute | pkg/translate/tree.go:22-85 | sets at prefix-incomparable plain-key paths commute |
| SetTreeOrder.OrderIsImmaterial | pkg/translate/translate.go:361-424 | any number of sets whose paths are incomparable, or equal with equal values, give one tree in every order |
| SetTreeOrder.LastSetWins | pkg/translate/tree.go:60-66 | what was set at a path leaves no trace once it is set again, whatever was set elsewhere meanwhile |
| SetTreeOrder.OrdersDifferOnlyAt | pkg/translate/translate.go:429-445 | sets that only disagree at one path give trees, in two orders, that are equal once that path is set again |
| SetTreeOrder.InsertAllReads | pkg/translate/tree.go:22-85 | after any number of sets, a path that nothing else was set above or below holds one of the values that were set there |
| Translate.LongestMapped | pkg/translate/translate.go:474-481 | the result is the length of a mapped prefix and no longer prefix is mapped |
| Translate.GetValuesPathMapping | pkg/translate/translate.go:473-494 | there is no mapping if and only if no non-empty prefix has one; otherwise the output path of the longest, followed by what it left |
| Translate.TranslationKeepsSuffix | pkg/translate/translate.go:490-493 | the translated text parses to the output path followed by exactly the unmatched suffix, also when that is empty and the text ends in a dot |
| Translate.OpsApartInsert | pkg/translate/translate.go:544-561 | sets along maps at equal or incomparable paths all succeed |
| Translate.OpsOfReordered | pkg/translate/translate.go:448-469 | leaves visited in another order are the same sets in another order |
| Translate.LeafGoesTo | pkg/translate/translate.go:473-494 | a leaf goes to the output path of its longest mapped prefix, followed by the rest of its path, each element with a small first letter |
| Translate.LeafIsSkipped | pkg/translate/translate.go:544-553 | a nil, an empty string, an unmapped leaf or one that is mapped to nothing is not set |
| Translate.LeavesExample | pkg/translate/translate.go:361-424 | the leaves of nested, hidden, map and slice fields |
| TranslateCode.Translator.InsertLeaf | pkg/translate/translate.go:448-469 | one leaf: unmapped leaves and empty strings are not set, others are set at the translated path with lower-case initials |
| TranslateCode.Translator.InsertMessage | pkg/translate/translate.go:361-424 | every leaf of the spec is inserted exactly once, in some order |
| TranslateCode.Translator.InsertEntries | pkg/translate/translate.go:392-398 | the entries of a map are inserted each once, in whatever order the map is visited |
| TranslateCode.Translator.SetEnablementAndNamespaces | pkg/translate/translate.go:429-445 | the settings of the table are made each once in whatever order, up to the first error |
| TranslateCode.Translator.ProtoToValues | pkg/translate/translate.go:314-336 | the result is that of some order of leaves and settings; if no two of the sets conflict there is no error, the result does not depend on the order, and every leaf, enablement and namespace is read back at its path |
| TranslateCode.Translator.SameInAnyOrder | pkg/translate/translate.go:314-336 | consistent sets never fail and give one tree |
| TranslateTables.BuiltInSlashless | pkg/translate/translate.go:89-101 | the built-in tables meet what a translator asks of them |
| TranslateTables.LeafApart | pkg/translate/translate.go:89-101 | no leaf is ever set at, above or below a path of the enablement table |
| TranslateTables.RowsApart | pkg/translate/translate.go:183-222 | two paths of the enablement table are comparable if and only if both are `global.istioNamespace` |
| TranslateTables.OrdersDifferOnlyAtShared | pkg/translate/translate.go:183-222 | with the built-in tables two orders both succeed and can differ only at `global.istioNamespace` |
| TranslateTables.BuiltInMappings | pkg/translate/translate.go:89-101 | the built-in mappings, as texts |
| TranslateTables.BuiltInSettings | pkg/translate/translate.go:183-222 | with the built-in tables, if the leaves do not conflict: every enablement is read back at its path, the namespaces with paths of their own too, and the shared one is that of one of its components |
| TranslateTables.LeafRead | pkg/translate/translate.go:89-101 | with the built-in tables, every translated leaf is read back at its path |
| Paths.SplitEscapedLoop | pkg/util/path.go:121-137 | the loop computes the pieces between unescaped separators |
| Paths.JoinUndoesSplit | pkg/util/path.go:121-137 | joining the pieces gives the string back, for every string |
| Paths.SplitCharacterized | pkg/util/path.go:121-137 | the pieces are the only list that joins to a non-empty string, has every separator inside a piece escaped, and no piece but the last ending in the escape character |
| Paths.KVRoundTrip | pkg/util/path.go:34-100 | `[k:v]` gives k and v back if and only if neither is empty, k consists of letters, digits, underscores and hyphens, and every colon in v follows a backslash |
| Paths.PathFromString | pkg/util/path.go:42-54 | the non-empty pieces between the dots |
| Paths.ParseUndoesJoin | pkg/util/path.go:42-59 | `String` and `PathFromString` are inverse on paths of non-empty elements without dots and slashes |
| Paths.ParseOfJoined | pkg/util/path.go:42-54 | parsing across a dot is parsing either side |
| Paths.KVForm | pkg/util/path.go:67-100 | nothing but `[k:v]` is a key/value element |
| Paths.VRoundTrip | pkg/util/path.go:81-118 | `[v]` gives v back if and only if it is not empty, and nothing else is a value element |
| Paths.DotSeparates | pkg/util/path.go:42-54 | a dot separates two plain elements |
| ApplyProtocol.StepKeepsInv | pkg/manifest/installer.go:139-163 | every step keeps the invariants: positions, tokens, applied components, WaitGroup |
| ApplyProtocol.Safety | pkg/manifest/installer.go:139-163 | in every reachable state a component was applied at most once and after the successful apply of its parent, and for each child tokens buffered plus received are those sent, at most one |
| ApplyProtocol.SendsNeverBlock | pkg/manifest/installer.go:156-159 | whenever a goroutine is about to signal a child, the channel has room |
| ApplyProtocol.OutcomeIsScheduleIndependent | pkg/manifest/installer.go:139-163 | every maximal run applies exactly the components whose ancestors all have manifests and succeeded; `wg.Wait` returns if and only if these are all and none failed |
| ApplyProtocol.RunsAreBounded | pkg/manifest/installer.go:139-163 | no schedule runs for ever |
| ApplyProtocol.BuiltInTableIsForest | pkg/manifest/installer.go:52-65 | the built-in dependency table is a forest, in which the ten components are the children of the base component |
| ApplyProtocol.FailureExample | pkg/manifest/installer.go:150-153 | one component whose apply fails: nothing moves any more and `wg.Wait` has not returned |
| InstallTree.RenderedIsReached | pkg/manifest/installer.go:85-124 | rendering writes exactly the components that have a manifest and whose ancestors up to the root all have one |
| InstallTree.RenderedIsApplied | pkg/manifest/installer.go:85-163 | of the components of the tree, rendering writes exactly those that every complete apply run applies, if no apply fails |
| InstallTree.InsertChildrenRecursive | pkg/manifest/installer.go:322-327 | the component gets a map with its children in it, recursively; all other objects are unchanged, and a tree of maps stays one |
| InstallTree.RenderRecursive | pkg/manifest/installer.go:91-124 | the components whose manifests are written, in whatever order the maps are visited |
| InstallTree.RenderToDir | pkg/manifest/installer.go:317-320 | building the tree of a root and rendering it writes exactly the components that are reached from the root |
| Documents.SplitManifest | pkg/manifest/objects.go:205-225 | the buffer loop cuts the lines at separators |
| Documents.ParseManifest | pkg/manifest/objects.go:205-260 | the documents with content are parsed in order, up to the first that does not parse |
| Documents.AnyContent | pkg/manifest/objects.go:232-239 | some line is neither blank nor a comment |
| Documents.SplitUndoesText | pkg/manifest/objects.go:205-243 | splitting the text of some documents gives each back, in order and with one more newline, if and only if each has content and no line of it is a separator or ends in a carriage return |
| Documents.ContentExactly | pkg/manifest/objects.go:232-239 | a line is content if and only if it has a character that is no white space, and the first of them is no "#" |
| Documents.AsciiSpaces | pkg/manifest/objects.go:232-239 | the white space among the ASCII characters |
| Documents.CarriageReturns | pkg/manifest/objects.go:205-225 | the scanner drops one carriage return from the end of a line |
| Documents.SurvivesExactly | pkg/manifest/objects.go:205-225 | the condition for a document to come back, by its lines |
| Documents.SplitExample | pkg/manifest/objects.go:205-243 | two documents are split |
| ApplyOrder.LessIsStrictWeakOrder | pkg/manifest/objects.go:290-305 | the comparator is a strict weak order whose ties are the objects with equal score, group, kind and name |
| ApplyOrder.SortIsCanonical | pkg/manifest/objects.go:290-305 | a sorted list is the only sorted permutation if and only if it has no two different objects that tie |
| ApplyOrder.DefinitionsFirst | pkg/manifest/installer.go:218-223 | objects scored as custom resource definitions are a prefix of the sorted list |
| ApplyOrder.StringLessExactly | pkg/manifest/objects.go:294-304 | one string is before another if and only if it is a proper prefix or smaller where they first differ |
| ApplyOrder.SortedAscends | pkg/manifest/objects.go:290-305 | in a sorted list scores ascend, then groups, then kinds, then names |
| ApplyOrder.Scores | pkg/manifest/installer.go:218-253 | the scores by group and kind |
| ApplyOrder.OrderExample | pkg/manifest/installer.go:218-253 | a list in the order of the scores is sorted, with definitions first and services last |
| ManifestPatch.ObjectOverrideMap | pkg/patch/patch.go:350-356 | every hash maps to the patches of the last overlay that has it |
| ManifestPatch.ToMap | pkg/manifest/objects.go:308-314 | every hash maps to the last object that has it |
| ManifestPatch.RenderRest | pkg/patch/patch.go:171-187 | the objects without overlays, in whatever order the base is visited |
| ManifestPatch.RenderOverlays | pkg/patch/patch.go:151-169 | the objects with overlays, in whatever order the overlays are visited; nothing comes back if and only if patching one of them panics |
| ManifestPatch.PatchManifest | pkg/patch/patch.go:137-189 | for every map order: a panic if and only if patching the object of some hash panics; otherwise the output is, as a multiset, what each hash of the base gives rise to |
| ManifestPatch.YAMLManifestPatch | pkg/patch/patch.go:137-189 | the same from the text of the manifest on, which may not parse |
| ManifestLaws.EachObjectOnce | pkg/patch/patch.go:137-189 | with distinct hashes every base object is accounted for exactly once |
| ManifestLaws.OutputHasPieces | pkg/patch/patch.go:161-187 | the text of a run that does not panic is that of pieces which make up the output |
| ManifestLaws.PiecesOfObject | pkg/patch/patch.go:137-189 | the pieces of that output which stand for a base object are exactly what the object gives rise to |
| ManifestLaws.ConservedExactly | pkg/patch/patch.go:137-189 | every base object has exactly one piece of the output if and only if none is dropped for an error and none comes out twice for a nil list of patches |
| ManifestLaws.TwiceExample | pkg/patch/patch.go:171-175 | an overlay with a nil list makes its object come out twice |
| ManifestLaws.PatchedManifestSplits | pkg/patch/patch.go:161-168 | a patched manifest can be split again into its documents |
| PatchObjects.ApplyPatches | pkg/patch/patch.go:193-218 | `applyPatches` on the shared heap gives the YAML of the patched document, reported errors, or a panic, as the pure patches of the decoded document say |
| PatchObjects.ApplyPanicsExactly | pkg/patch/patch.go:193-218 | patching an object panics if and only if its text unmarshals and a patch leads through a null node of the document as it then is |
| PatchObjects.ApplyFailsExactly | pkg/patch/patch.go:193-218 | an object that does not panic has errors if and only if it does not unmarshal or marshal, or a patch meets an obstacle in the document as it then is |
| PatchObjects.DroppedManifestExample | pkg/patch/patch.go:161-165 | an object that is dropped, without a panic, for a patch below the map of an earlier one |
| PatchObjects.PatchedOrDropped | pkg/patch/patch.go:193-218 | in the output, an object with an overlay is there patched, or is missing if and only if it does not unmarshal or marshal or one of its patches reported an error; one without an overlay is there as it is |
| PatchObjects.TwiceManifestExample | pkg/patch/patch.go:171-175 | a readable and writable object with a nil list comes out twice |
| PatchObjects.PanicManifestExample | pkg/patch/patch.go:137-189 | a manifest that no output comes of: an object with an empty document and a patch of a.b |
| ObjectNames.HashExactly | pkg/manifest/objects.go:71-73 | two hashes are equal if and only if kinds, namespaces and names are, for kinds and namespaces without colons |
| ObjectNames.LastForByName | pkg/patch/patch.go:350-356 | the overlay that counts for an object is the last with its kind and name, if the object is in the namespace, and else none |
| ObjectNames.ManifestByName | pkg/patch/patch.go:137-218 | the patched manifest, for objects told apart by kind, namespace and name: each is there patched, or dropped for an error, or as it is, as the last overlay with its kind and name says |
| ObjectNames.PanicsByName | pkg/patch/patch.go:137-218 | the run panics if and only if patching an object of the namespace with the last overlay for its kind and name does |

## Left out

- Varints.DecodeVarint: the accumulators of type `int` are modelled as 64-bit patterns that are read as signed afterwards.
- InstallStatusCodec.InstallStatus.Unmarshal: one submessage object in two fields is excluded.
- InstallStatusCodec.InstallStatus.Store: one submessage object in two fields is excluded.
- ResourcesCodec.ResourcesStruct.Unmarshal: a negative slice index, where the code panics, is an outcome of its own; a nil map and an empty one are not told apart. Normal form, concatenation and `WirePartial.LeftIsPrefix` are not claimed for this message, whose entries may read past their end.
- OverlayMessages.OverlayRoundTrip: on the wire-carried fields; the value of a path/value pair is never put on the wire.
- PatchCode.Patcher.ApplyPatches: the maps inside the value of a patch are values, which nothing here writes; values share no list with the document or with each other.
- PatchSpec.FindEntry: what a node that is neither nil nor a scalar prints is a parameter, a function of the node and of the pointers in it.
- SetTreeCode.SetTreeInMap: for values that are trees of their own, without pointers to interface variables.
- Paths.PathFromString: for text without '/', where `filepath.Clean` only turns the empty path into ".".
- Paths.SplitEscapedLoop: strings are sequences of characters; byte indices of multi-byte runes are not modelled.
- TranslateCode.Translator.ProtoToValues: for specs whose field names and map keys contain no '/', and up to the YAML text; an empty tree stands for the empty result. Slices of scalars, on which reflection panics, and custom translation functions, of which the tables have none, are not part of this model.
- TranslateCode.Translator.InsertMessage: for field names and map keys without '/'.
- TranslateCode.Translator.InsertEntries: for map keys without '/'.
- TranslateCode.Translator.InsertLeaf: for path elements without '/'; the tree is a value here, set by the pure function that the heap code was proved to compute; lower-casing is that of ASCII letters.
- InstallTree.RenderRecursive: for trees of maps, which is what the construction makes; no files are written, and a failing write would end the recursion early.
- ApplyProtocol.Safety: an apply is labelled by its component only; the text that is applied comes from a loop variable that the goroutines share.
- ApplyOrder.SortIsCanonical: sorting itself is a library call; what is stated holds for any list it may return.
- Documents.ParseManifest: the scanner has no limit on the length of a line; decoding is a parameter.
- ManifestPatch.YAMLManifestPatch: decoding and patching an object are parameters; `PatchObjects.ApplyPatches` is what the second stands for.
- PatchObjects.ApplyPatches: reading YAML into maps and slices, and writing it, are parameters.
- Messages that embed Kubernetes types, the descriptor, and the getters: their codecs are elsewhere or only add easy members.
- Nil elements of repeated fields, and messages whose size exceeds the largest `int`.
- Repeated `ApplyAll` calls in one process, and children with several parents.
- Helm rendering, `OverlayYAML`, JSON merge patches, `OverlayK8sSettings` beyond `setTree`: thin calls into libraries.
- kubectl, REST clients, waiting for custom resource definitions, the command line, file watching and fetching: input and output.
- Labels, JSON caches, `ToNameKindMap`, `ValuesOverlaysToHelmValues`, `installTreeString`, `pkg/old`, `pkg/controller`, `pkg/kube`: plumbing or easy members.
