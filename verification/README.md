# ONNX helper core, modelled in Dafny

This project models the parts of the ONNX Python helpers that
`onnx/test/helper_test.py` pins down. It proves properties about them.

- **4-bit tensors.** INT4 and UINT4 tensors are packed two codes per byte, even element in the low nibble. `make_tensor` stores the packed bytes in `int32_data`, or verbatim in `raw_data` in raw mode. `to_array` unpacks them again.
- **FLOAT8E8M0 scales.** A byte `b` stands for 2^(b - 127) and 255 is NaN. Encoding rounds up to the next power of two and saturates at 254.
- **Attributes.** `make_attribute` infers an attribute's type tag from a host value. It fills the matching field and refuses a requested tag that disagrees. `get_attribute_value` reads the value back.
- **`check_attribute`.** The checker's legality rule for attributes.
- **Tag names.** A type tag's name, or "UNDEFINED" for an unknown tag.
- **IR versions.** The resolver behind `make_model_gen_version` picks the smallest IR version that supports every opset import. It uses the release history table.
- **Model metadata.** `set_model_props` writes the model's `metadata_props`. The checker's scan rejects duplicate keys.
- **Printable graphs.** The input part of `printable_graph`:
  - required inputs;
  - inputs with a matching initializer;
  - initializers without a matching input;
  - dimensions that print as "?" when unknown.

Modules, one file each:

| module | file |
|---|---|
| `Wrappers` | `wrappers.dfy` |
| `Bytes` | `bytes.dfy` |
| `Nibbles` | `nibbles.dfy` |
| `FourBitTensor` | `four_bit_tensor.dfy` |
| `ScaleCodec` | `scale_codec.dfy` |
| `Utf8` | `utf8.dfy` |
| `AttrTypes` | `attr_types.dfy` |
| `Attributes` | `attributes.dfy` |
| `AttributeBuilder` | `attribute_builder.dfy` |
| `IrVersion` | `ir_version.dfy` |
| `Metadata` | `metadata.dfy` |
| `Printable` | `printable.dfy` |

The functions modelled live in the repository's `onnx/helper.py`, `onnx/numpy_helper.py` and the C++ checker. Their source text is not among the sources cited here, so every row cites the test that exercises the behaviour. Where the model goes beyond what the test pins down, the behaviour follows those library functions. Each such point is listed under "## Left out", on a line that starts with the member that models it. Message-typed values are opaque references: tensors, graphs, sparse tensors and type protos. Only their identity matters to the properties proved here.

## Model

| member | source | states |
|---|---|---|
| Nibbles.PackPair | onnx/test/helper_test.py:41-43 | the packed byte's low nibble is the even element's low four bits, and its high nibble is the odd element's |
| Nibbles.Padded | onnx/test/helper_test.py:37-40 | an odd-sized array gains exactly one trailing zero, and the original elements are unchanged |
| Nibbles.Pack | onnx/test/helper_test.py:33-43 | the packed buffer has ceil(n/2) bytes; nibble i (low nibble for even i, high for odd i) is element i masked to four bits; an odd count leaves the last high nibble zero |
| Nibbles.Unpack | onnx/test/helper_test.py:669-677 | each byte yields its low nibble at the even index and its high nibble at the odd index, so the result has twice the bytes |
| Nibbles.UnpackPack | onnx/test/helper_test.py:33-43 | unpacking a packed array gives back the masked codes in order, and the pad code is a single zero |
| Nibbles.PackUnpack | onnx/test/helper_test.py:669-677 | every byte buffer is the packing of its own unpacked nibbles |
| Nibbles.ToByte | onnx/test/helper_test.py:36 | an int8 element viewed as uint8 is its value modulo 256 |
| FourBitTensor.DecodeCode | onnx/test/helper_test.py:628-650 | a 4-bit code decodes to a value in the type's range (UINT4 0..15, INT4 -8..7) that is congruent to the code modulo 16 |
| FourBitTensor.CodeRoundTrip | onnx/test/helper_test.py:628-650 | an in-range value's byte, masked to four bits, decodes back to the value |
| FourBitTensor.PayloadBytes | onnx/test/helper_test.py:638-645 | raw data is its bytes; `int32_data` is read as bytes, entry by entry, exactly when every entry is in 0..255, otherwise the index of an entry outside that range is reported |
| FourBitTensor.Saturate | onnx/test/helper_test.py:628-645 | the stored value is in the type's range, equals the value when that is in range, and is the nearer bound otherwise |
| FourBitTensor.MakeTensor | onnx/test/helper_test.py:628-662 | succeeds exactly when the count matches the shape, with the shape error otherwise; a success keeps name, type and dims and holds ceil(n/2) byte-valued `int32_data` entries |
| FourBitTensor.MakeRawTensor | onnx/test/helper_test.py:669-677 | raw bytes are accepted exactly when there are ceil(n/2) of them, and are stored unchanged |
| FourBitTensor.ToArray | onnx/test/helper_test.py:644-650 | a successful read has one in-range value per element of the shape |
| FourBitTensor.MakeThenRead | onnx/test/helper_test.py:628-650 | building a 4-bit tensor and reading it back returns each value saturated to the type's range, so in-range values come back unchanged |
| FourBitTensor.ReadsSaturated | onnx/test/helper_test.py:628-650 | any list that is the values saturated one by one is what reading the built tensor returns |
| FourBitTensor.Int4SaturationVector | onnx/test/helper_test.py:628-650 | INT4 9, -9, 3 read back as 7, -8, 3 |
| FourBitTensor.UInt4SaturationVector | onnx/test/helper_test.py:628-650 | UINT4 -1, 16 read back as 0, 15 |
| FourBitTensor.RawPackThenRead | onnx/test/helper_test.py:669-677 | a raw buffer packed from 4-bit codes reads back as values whose codes are the originals |
| FourBitTensor.NegativeValuesDoNotInflate | onnx/test/helper_test.py:652-662 | n copies of INT4 -4 make ceil(n/2) entries, each full byte 0xCC |
| ScaleCodec.Decode | onnx/test/helper_test.py:603-620 | code 255 and only it is NaN; every other code is a positive finite scale |
| ScaleCodec.Encode | onnx/test/helper_test.py:592-601 | the code is at most 254; its power of two reaches the value unless saturated; the code below falls short; non-positive values encode to 0 |
| ScaleCodec.Pow2Monotone | onnx/test/helper_test.py:592-601 | powers of two strictly increase with the exponent |
| ScaleCodec.EncodeUnique | onnx/test/helper_test.py:592-601 | any code that brackets a value the way `Encode` does is the encoding |
| ScaleCodec.EncodeDecode | onnx/test/helper_test.py:603-620 | every finite code decodes and re-encodes to itself |
| ScaleCodec.DecodeEncodeBounds | onnx/test/helper_test.py:592-601 | for values in range, the scale is at least the value and less than twice it |
| ScaleCodec.EncodeVector | onnx/test/helper_test.py:592-601 | 0, 0.124, 1, 1.5, 2, 2.1 and the float32 maximum encode to 0, 124, 127, 128, 128, 129, 254 |
| ScaleCodec.DecodeVector | onnx/test/helper_test.py:603-620 | 120, 124, 127, 128, 129, 140 decode to 2^-7, 2^-3, 1, 2, 4, 8192 |
| AttrTypes.Code | onnx/test/helper_test.py:996-1013 | every tag has a code below 15 |
| AttrTypes.FromCode | onnx/test/helper_test.py:1019-1021 | a code names a tag exactly when it is in 0..14, and then it is that tag's code |
| AttrTypes.CodeRoundTrip | onnx/test/helper_test.py:996-1016 | tag → code → tag is the identity |
| AttrTypes.NameRoundTrip | onnx/test/helper_test.py:996-1016 | every tag's name parses back to the tag, so names are distinct |
| AttrTypes.TypeName | onnx/test/helper_test.py:996-1021 | a known code's name parses back to that code's tag; the name is "UNDEFINED" exactly for codes outside 1..14 |
| Attributes.Blank | onnx/test/helper_test.py:243-247 | a fresh attribute keeps its name and doc string and has no type and no field set |
| Attributes.Retag | onnx/test/helper_test.py:262-264 | setting the type tag changes no field |
| Attributes.Position | onnx/test/helper_test.py:241-303 | every field has a place in the checker's field order |
| Attributes.CheckOrderComplete | onnx/test/helper_test.py:241-303 | the field order lists every field exactly once |
| Attributes.InUse | onnx/test/helper_test.py:298-303 | the fields in use are exactly the set ones, without repeats |
| Attributes.FirstDisagreeing | onnx/test/helper_test.py:298-303 | none exactly when every set field agrees with the tag; otherwise a set, disagreeing field such that every set field before it in the order agrees |
| Attributes.CheckAttribute | onnx/test/helper_test.py:241-303 | accepts exactly the legal attributes; "empty name" exactly when the name is empty; "missing type" exactly when the name is present, IR ≥ 2 and the tag is absent; a reported field is set and disagrees with the tag; "more than one field" only when all agree and two differ |
| Attributes.FieldTypeInjective | onnx/test/helper_test.py:256-303 | distinct fields have distinct tags |
| Attributes.Populate | onnx/test/helper_test.py:257-290 | setting a field plus its tag keeps the name, adds exactly that field to those in use and replaces the tag with the field's |
| Attributes.OnePopulatedIsLegal | onnx/test/helper_test.py:291-296 | a named attribute with one field set and tagged passes the check |
| Attributes.TwoPopulatedAreIllegal | onnx/test/helper_test.py:297-303 | setting two different fields, each with its tag, fails the check at the first field |
| Attributes.SecondTagRejectsFirst | onnx/test/helper_test.py:297-303 | once the second field's tag is set, the first field disagrees and is the one reported |
| Attributes.HandWrittenCases | onnx/test/helper_test.py:241-254 | from IR version 2 the empty attribute is rejected for its name, and the name-only and untyped float-plus-int attributes for their missing type; under IR version 1 the float-plus-int attribute is rejected for having two fields |
| AttributeBuilder.FirstRefused | onnx/test/helper_test.py:111-133 | none exactly when the field takes every element; otherwise the index of a refused element all of whose predecessors are taken |
| AttributeBuilder.InferListType | onnx/test/helper_test.py:111-147 | the only failure is the uninferable-elements error |
| AttributeBuilder.InferredKind | onnx/test/helper_test.py:111-147 | INTS exactly when every element is integral; otherwise every element has the inferred kind, integers allowed in FLOATS, and some element has it; uninferable exactly when an element has no kind or two elements have kinds no list holds together |
| AttributeBuilder.ListField | onnx/test/helper_test.py:231-235 | a list tag names the repeated field whose tag it is |
| AttributeBuilder.Extend | onnx/test/helper_test.py:111-133 | filling a repeated field changes no other field, name, doc or tag, and sets it when the list is non-empty |
| AttributeBuilder.FillList | onnx/test/helper_test.py:231-235 | a requested tag that names no list is refused; on success the tag is the requested one and only its field can be set |
| AttributeBuilder.BuildPlain | onnx/test/helper_test.py:47-109 | a number or text makes its singular field and tag; it fails only for an integer outside int64 |
| AttributeBuilder.BuildMessage | onnx/test/helper_test.py:135-229 | a tensor, sparse tensor, graph or type proto makes its singular field and tag |
| AttributeBuilder.BuildList | onnx/test/helper_test.py:111-235 | an empty untyped list is refused; a success is tagged with one field, the requested tag if any |
| AttributeBuilder.MakeAttribute | onnx/test/helper_test.py:47-239 | name and doc are kept; a success is tagged with one field, the requested tag if any; a mismatch error names the requested and the differing inferred tag; non-attribute values and untyped empty lists are refused |
| AttributeBuilder.MakeThenCheck | onnx/test/helper_test.py:47-229 | every attribute `make_attribute` builds with a non-empty name passes `check_attribute` |
| AttributeBuilder.RequestedScalarType | onnx/test/helper_test.py:237-239 | a scalar succeeds exactly when no tag or the inferred tag is requested, otherwise it fails with that mismatch |
| AttributeBuilder.IntegralListBecomesInts | onnx/test/helper_test.py:117-121 | a list of int64 integers becomes INTS holding the same integers |
| AttributeBuilder.NumericListBecomesFloats | onnx/test/helper_test.py:123-127 | a numeric list with at least one float becomes FLOATS holding each element as a real |
| AttributeBuilder.TextListBecomesStrings | onnx/test/helper_test.py:129-133 | a list of texts and byte strings becomes STRINGS holding each element's bytes |
| AttributeBuilder.TextStoredAsUtf8 | onnx/test/helper_test.py:89-104 | a text makes a STRING attribute whose bytes are its UTF-8 encoding and decode back to it |
| AttributeBuilder.ListMake | onnx/test/helper_test.py:111-133 | a list whose elements all infer one list tag fills that tag's field in order |
| AttributeBuilder.AttributeValue | onnx/test/helper_test.py:47-229 | refused exactly when the tag is not an enum value, naming the code; no value exactly when the tag is absent or UNDEFINED; otherwise the value the tag selects |
| AttributeBuilder.TagValue | onnx/test/helper_test.py:47-229 | UNDEFINED selects nothing; a singular tag reads its own field when set; a list tag reads its repeated field in order |
| AttributeBuilder.ReadsOwnTag | onnx/test/helper_test.py:47-229 | an attribute tagged with a tag's own code reads the field that tag selects |
| AttributeBuilder.MakeThenGet | onnx/test/helper_test.py:47-229 | `get_attribute_value` of a built attribute returns the canonical value it was built from |
| AttributeBuilder.ScalarThenGet | onnx/test/helper_test.py:47-109 | a canonical scalar reads back unchanged |
| AttributeBuilder.PlainThenGet | onnx/test/helper_test.py:47-109 | an int64 integer, a float or a byte string reads back unchanged |
| AttributeBuilder.MessageThenGet | onnx/test/helper_test.py:149-229 | a message value reads back as the same reference |
| AttributeBuilder.ListThenGet | onnx/test/helper_test.py:111-215 | a non-empty uniform list reads back as the same list |
| AttributeBuilder.IntListInfers | onnx/test/helper_test.py:117-121 | a list of int64 integers infers INTS and the field takes every element |
| AttributeBuilder.IntListReadBack | onnx/test/helper_test.py:117-121 | an INTS attribute reads back as the list of its integers |
| AttributeBuilder.IntListThenGet | onnx/test/helper_test.py:117-121 | an integer list reads back unchanged |
| AttributeBuilder.FloatListInfers | onnx/test/helper_test.py:111-115 | a list of floats infers FLOATS and the field takes every element |
| AttributeBuilder.FloatListReadBack | onnx/test/helper_test.py:111-115 | a FLOATS attribute reads back as its floats |
| AttributeBuilder.FloatListThenGet | onnx/test/helper_test.py:111-115 | a float list reads back unchanged |
| AttributeBuilder.BytesListInfers | onnx/test/helper_test.py:129-133 | a list of byte strings infers STRINGS and the field takes every element |
| AttributeBuilder.BytesListReadBack | onnx/test/helper_test.py:129-133 | a STRINGS attribute reads back as its byte strings |
| AttributeBuilder.BytesListThenGet | onnx/test/helper_test.py:129-133 | a byte-string list reads back unchanged |
| AttributeBuilder.TensorListInfers | onnx/test/helper_test.py:135-147 | a list of tensors infers TENSORS and the field takes every element |
| AttributeBuilder.TensorListReadBack | onnx/test/helper_test.py:135-147 | a TENSORS attribute reads back as its tensors |
| AttributeBuilder.TensorListThenGet | onnx/test/helper_test.py:135-147 | a tensor list reads back unchanged |
| AttributeBuilder.SparseListInfers | onnx/test/helper_test.py:177-205 | a list of sparse tensors infers SPARSE_TENSORS and the field takes every element |
| AttributeBuilder.SparseListReadBack | onnx/test/helper_test.py:177-205 | a SPARSE_TENSORS attribute reads back as its sparse tensors |
| AttributeBuilder.SparseListThenGet | onnx/test/helper_test.py:177-205 | a sparse-tensor list reads back unchanged |
| AttributeBuilder.GraphListInfers | onnx/test/helper_test.py:207-214 | a list of graphs infers GRAPHS and the field takes every element |
| AttributeBuilder.GraphListReadBack | onnx/test/helper_test.py:207-214 | a GRAPHS attribute reads back as its graphs |
| AttributeBuilder.GraphListThenGet | onnx/test/helper_test.py:207-214 | a graph list reads back unchanged |
| AttributeBuilder.TypeProtoListInfers | onnx/test/helper_test.py:223-229 | a list of type protos infers TYPE_PROTOS and the field takes every element |
| AttributeBuilder.TypeProtoListReadBack | onnx/test/helper_test.py:223-229 | a TYPE_PROTOS attribute reads back as its type protos |
| AttributeBuilder.TypeProtoListThenGet | onnx/test/helper_test.py:223-229 | a type-proto list reads back unchanged |
| AttributeBuilder.MixedListVector | onnx/test/helper_test.py:123-127 | [1, 2, 3.0, 4.5] becomes FLOATS [1.0, 2.0, 3.0, 4.5] |
| AttributeBuilder.IntListVector | onnx/test/helper_test.py:117-121 | [1, 2] becomes INTS [1, 2] |
| AttributeBuilder.EmptyListVector | onnx/test/helper_test.py:231-235 | an empty list is refused untyped and becomes an empty STRINGS attribute when that tag is requested |
| AttributeBuilder.MismatchVector | onnx/test/helper_test.py:237-239 | 6.4 with STRING requested fails, naming the inferred tag FLOAT |
| AttributeBuilder.TextVector | onnx/test/helper_test.py:89-104 | "test" is stored as the bytes 74 65 73 74 |
| AttributeBuilder.EmptyTextVector | onnx/test/helper_test.py:105-109 | the empty string reads back as the empty byte string |
| AttributeBuilder.DocStringVector | onnx/test/helper_test.py:81-87 | the doc string defaults to empty and is kept when given |
| Utf8.EncodeChar | onnx/test/helper_test.py:89-104 | a character takes one to four bytes, and an ASCII character is its own byte |
| Utf8.EncodeUnits | onnx/test/helper_test.py:89-104 | a text takes between one and four bytes per character; ASCII text is its own code points |
| Utf8.AsciiValues | onnx/test/helper_test.py:89-104 | the encoding of an ASCII text is its code points |
| Utf8.DecodeEncode | onnx/test/helper_test.py:89-109 | decoding an encoded text gives the text back |
| Utf8.EncodeDecode | onnx/test/helper_test.py:89-109 | every byte string the strict decoder accepts is the encoding of its decoding |
| IrVersion.FirstDeclaring | onnx/test/helper_test.py:397-435 | finds the first row declaring the opset, or none when no row does |
| IrVersion.MinIrVersionIn | onnx/test/helper_test.py:397-435 | an import is unsupported exactly when no row declares it, and the error names it |
| IrVersion.MinIrVersionIsFirstRow | onnx/test/helper_test.py:397-435 | a supported import needs the IR version of the first row declaring it |
| IrVersion.FindMinIrVersionIn | onnx/test/helper_test.py:397-435 | no imports give the default IR version 3; every failure is an unsupported-opset error |
| IrVersion.ResolvedIffSupported | onnx/test/helper_test.py:405-435 | resolution succeeds exactly when every import is supported |
| IrVersion.ResolvedIsUpperBound | onnx/test/helper_test.py:433-434 | the resolved version is at least each import's minimum |
| IrVersion.ResolvedIsAttained | onnx/test/helper_test.py:433-434 | the resolved version is some import's minimum |
| IrVersion.FirstUnsupportedReported | onnx/test/helper_test.py:435 | a failure reports the first unsupported import |
| IrVersion.DefaultDomainAlias | onnx/test/helper_test.py:426-427 | writing the default domain as "" or "ai.onnx" resolves the same |
| IrVersion.AdjacentToOrdered | onnx/test/helper_test.py:397-435 | rows that never decrease pairwise are ordered throughout |
| IrVersion.TableOrdered | onnx/test/helper_test.py:397-435 | later releases never lower the IR version or any opset version |
| IrVersion.DeclaredOrdered | onnx/test/helper_test.py:397-435 | in an ordered table a later row declares the domain with a version at least as high |
| IrVersion.MinIrMonotone | onnx/test/helper_test.py:409-425 | a higher opset version never needs a lower IR version |
| IrVersion.FirstByOrder | onnx/test/helper_test.py:397-435 | a declaring row whose predecessor declares a lower version decides the minimum |
| IrVersion.BeyondLastRow | onnx/test/helper_test.py:435 | a version above the last row's declaration is unsupported |
| IrVersion.TableFirst | onnx/test/helper_test.py:397-435 | the table's first declaring row decides the minimum |
| IrVersion.DefaultOpsetVectorOld | onnx/test/helper_test.py:409-417 | default opsets 9..16 need IR 4, 5, 6, 7, 7, 7, 8, 8 |
| IrVersion.DefaultOpsetVectorNew | onnx/test/helper_test.py:418-425 | default opsets 17..24 need IR 8, 8, 9, 9, 10, 10, 11, 12 |
| IrVersion.MlOpsetVector | onnx/test/helper_test.py:428-431 | ai.onnx.ml 2..5 need IR 6, 8, 9, 10 |
| IrVersion.OtherDomainVector | onnx/test/helper_test.py:426-432 | ai.onnx.training 1 needs IR 7 and "ai.onnx" 9 needs IR 4 |
| IrVersion.ModelVector | onnx/test/helper_test.py:433-435 | default opset 10 with ai.onnx.ml 2 needs IR 6; opset 100 is unsupported; no imports give the default |
| Metadata.Keys | onnx/test/helper_test.py:380-395 | a key is among the keys exactly when some entry has it |
| Metadata.Lookup | onnx/test/helper_test.py:380-395 | a key is found exactly when some entry has it, and the value found belongs to such an entry |
| Metadata.SetModelProps | onnx/test/helper_test.py:380-390 | the new entries have distinct keys, one per dictionary item; each key's value is the dictionary's; keys not in the dictionary are gone; nothing else in the model changes |
| Metadata.SetModelPropsIdempotent | onnx/test/helper_test.py:387-390 | setting the same dictionary twice equals setting it once |
| Metadata.AddEntry | onnx/test/helper_test.py:392-394 | adding an entry appends it and keeps the existing entries |
| Metadata.AddEntryUnique | onnx/test/helper_test.py:392-395 | adding an entry keeps keys distinct exactly when its key is new |
| Metadata.CheckMetadataProps | onnx/test/helper_test.py:386-395 | the scan passes exactly when keys are distinct; a failure reports the first entry whose key occurred earlier |
| Metadata.MetadataVector | onnx/test/helper_test.py:380-395 | setting {"Title", "Keywords"} twice leaves two distinct keys; adding a second "Title" breaks distinctness |
| Printable.NatText | onnx/test/helper_test.py:818-868 | decimal text is non-empty, all digits, one digit exactly below 10, without a leading zero |
| Printable.ParseNatText | onnx/test/helper_test.py:818-868 | reading a number's decimal text gives the number back |
| Printable.NatTextInjective | onnx/test/helper_test.py:818-868 | distinct sizes print differently |
| Printable.DimText | onnx/test/helper_test.py:870-885 | a dimension with neither value nor name prints as "?", a symbolic one as its name, a sized one as digits that read back as the size |
| Printable.Required | onnx/test/helper_test.py:846-868 | required inputs are exactly the inputs no initializer names |
| Printable.Defaulted | onnx/test/helper_test.py:819-844 | defaulted inputs are exactly the inputs some initializer names |
| Printable.Unmatched | onnx/test/helper_test.py:846-868 | unmatched initializers are exactly those no input names |
| Printable.InputsPartition | onnx/test/helper_test.py:819-868 | the required and defaulted inputs together are the inputs, each once |
| Printable.InputPart | onnx/test/helper_test.py:818-885 | a graph without inputs prints no input section; every input is printed on a line of its own; when the initializer section is shown, every unmatched initializer is printed |
| Printable.InputPartLayout | onnx/test/helper_test.py:818-868 | the required inputs follow the opening line in graph order; then a line ending "optional inputs with matching initializers (" and the defaulted inputs in order; then, when shown, a line ending "initializers (" and the unmatched initializers in order; nothing else |
| Printable.DefaultedCount | onnx/test/helper_test.py:819-868 | with distinct input names, the number of defaulted inputs equals the number of initializer names that are input names |
| Printable.UnmatchedSectionShown | onnx/test/helper_test.py:846-868 | with distinct input names, the initializer section (the test's `) initializers (` block) is shown exactly when some initializer matches no input |
| Printable.DuplicateInputsHideInitializer | onnx/test/helper_test.py:846-868 | under the printer's count comparison for showing the `) initializers (` block, two inputs named "X" and initializers "X" and "Y" leave "Y" unmatched but the section hidden |
| Printable.RequiredThenDefaulted | onnx/test/helper_test.py:819-844 | a required input then a defaulted one print as "graph g (", the required input, ") optional inputs with matching initializers (", the defaulted input |
| Printable.RequiredThenUnmatched | onnx/test/helper_test.py:846-868 | a required input and an unmatched initializer print as "graph g (", the input, ") initializers (", the initializer |
| Printable.SplitJoinDims | onnx/test/helper_test.py:818-885 | splitting "x"-joined texts that contain no "x" gives the texts back |
| Printable.ShapeReadsBack | onnx/test/helper_test.py:818-868 | the printed dimensions of a non-empty shape split into digit strings that read back as the sizes |
| Printable.MatrixVector | onnx/test/helper_test.py:343 | the float input "X" of shape (1, 2) built there prints as "%X[FLOAT, 1x2]" |
| Printable.FloatOneVector | onnx/test/helper_test.py:819-868 | the one-element float input or initializer "Y_Initializer" prints as "%Y_Initializer[FLOAT, 1]" |
| Printable.UnknownDimensionVector | onnx/test/helper_test.py:870-885 | an input of unknown size prints as "%X[FLOAT, ?]" |

## Left out

- Other element types: bfloat16, the FLOAT8 formats, FLOAT4E2M1 and their float rounding are left out. Floating-point bit formats are outside this model. FLOAT4E2M1 shares the nibble packing in `Nibbles`.
- The numpy dtype mapping functions are left out. They map between two external type systems and state no property of the core.
- Protocol buffer construction and serialisation are left out. Attributes, tensors and models are plain records here.
- Attribute floats are stored as exact reals. The float32 rounding of `AttributeProto.f` and `floats` is not modelled.
- `check_attribute` for nested values is left out. Checking tensors, graphs and sparse tensors inside an attribute needs their full structure. `ref_attr_name` and function-body checks are left out as well.
- `get_attribute_value` raising for an attribute that carries `ref_attr_name` is left out. The model has no `ref_attr_name` field.
- AttributeBuilder.AttributeValue: an enum value that the library's reader does not handle cannot occur, because all fifteen tags are read. An unknown code is refused with `UnsupportedType`, where the library raises.
- FourBitTensor.MakeTensor: values outside the type's range are saturated to its nearest bound. The test only builds tensors from in-range values, so this choice is not pinned down by it.
- ScaleCodec.Encode: negative values encode to 0, as zero does. The test encodes no negative value, so this choice is not pinned down by it.
- Nibbles.Pack: it takes the elements already viewed as bytes. The array-level reshaping of wider integer types to uint8, and padding by the array's element count, are outside this model.
- Utf8.EncodeChar: a character is a Unicode scalar value, so a lone surrogate cannot be given to it. A Python string can hold one, and encoding it raises `UnicodeEncodeError`; that error path is not modelled.
- Printable.InputPart: four points follow the library's printer and are not pinned down by the test, whose graphs all have inputs with distinct names and rank-1 shapes. They are: dimensions joined with "x" (as in "1x2"); ", scalar" for a rank-0 shape; no input section for a graph without inputs; and showing the initializer section when there are fewer defaulted inputs than distinct initializer names, which `DuplicateInputsHideInitializer` exhibits for repeated input names.
- Printable.DimText: sizes are natural numbers. A negative `dim_value` or initializer dimension, which the int64 fields allow and which would print with its sign, is not modelled.
- Attributes.CheckAttribute: it follows the checker's order of checks. The order is: name, then type presence from IR version 2 on, then the first populated field whose kind disagrees with the tag, then more than one populated field. A tagged attribute with no populated field is therefore legal. This is weaker than an "exactly one field" reading. It matches `make_attribute` of an empty typed list, which yields exactly such an attribute. The test's "name, but no field" case fails here because the type tag is missing.
- ScaleCodec.Encode: NaN and infinite inputs are not modelled. Inputs are exact reals, so rounding of the value before encoding is outside the model.
- FourBitTensor.ToArray: only counts and ranges are stated in its own contract. Value recovery is stated by `MakeThenRead` and `RawPackThenRead`.
- IrVersion.VersionTable: the rows restate the library's release history. The test file cites only some of them, and the table itself is not part of this model's sources.
- `make_model_gen_version` beyond the IR-version choice is left out. So is `checker.check_model` beyond the metadata key rule.
- `printable_graph` beyond the input part is left out: nodes, outputs, the `prefix` argument and sub-graphs.
- Random test data, `parameterized` products and numpy views are replaced by universally quantified lemmas over all inputs.
- `onnx/reference/ops/op_equal.py` is left out. It is an operator kernel, not part of the helpers.
