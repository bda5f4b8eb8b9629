/**
  `make_attribute`: building an `AttributeProto` from a dynamically typed
  host value, inferring the type tag from the value's kind, and
  `get_attribute_value`, which reads the value back by the tag.
 */
module AttributeBuilder {
  import opened Wrappers
  import opened AttrTypes
  import opened Attributes
  import Utf8

  /** The host values `make_attribute` accepts, by the class it tests for. A
      `bool` is an integral number; any iterable other than a string is
      consumed into the list it yields. */
  datatype HostValue =
    | HInt(n: int)
    | HBool(b: bool)
    | HFloat(x: real)
    | HText(text: string)
    | HBytes(bytes: seq<bv8>)
    | HTensor(tensor: TensorRef)
    | HSparse(sparse: SparseRef)
    | HGraph(graph: GraphRef)
    | HTypeProto(typeProto: TypeRef)
    | HList(items: seq<HostValue>)
    | HOther

  datatype MakeError =
    | NotAnAttributeValue               // a value of no accepted kind
    | IntOutOfRange                     // an integer the int64 field cannot hold
    | EmptyListUntyped                  // an empty list and no explicit type
    | ElementsUninferable               // list elements of no common kind
    | NotAListType(code: int)           // a list with an explicit non-list type
    | ElementRejected(index: nat)       // the repeated field refuses an element
    | TypeMismatch(inferred: int, requested: int)

  const Int64Min: int := -0x8000_0000_0000_0000
  const Int64Max: int := 0x7FFF_FFFF_FFFF_FFFF

  predicate InInt64(n: int) {
    Int64Min <= n <= Int64Max
  }

  /** `numbers.Integral`: ints and bools. */
  predicate Integral(v: HostValue) {
    v.HInt? || v.HBool?
  }

  /** `numbers.Real`: the integral values and floats. */
  predicate Numeric(v: HostValue) {
    Integral(v) || v.HFloat?
  }

  /** `str` or `bytes`. */
  predicate Textual(v: HostValue) {
    v.HText? || v.HBytes?
  }

  function IntOf(v: HostValue): int
    requires Integral(v)
  {
    if v.HInt? then v.n else if v.b then 1 else 0
  }

  function RealOf(v: HostValue): real
    requires Numeric(v)
  {
    if v.HFloat? then v.x else IntOf(v) as real
  }

  /** `_to_bytes`: a string as its UTF-8 encoding, bytes as they are. */
  function BytesOf(v: HostValue): seq<bv8>
    requires Textual(v)
  {
    if v.HText? then Utf8.Encode(v.text) else v.bytes
  }

  /** What each repeated field takes: int64 integers, numbers, strings or
      bytes, or messages of its own kind. A singular field takes nothing. */
  predicate Accepts(fd: Field, v: HostValue) {
    match fd
    case FieldInts => Integral(v) && InInt64(IntOf(v))
    case FieldFloats => Numeric(v)
    case FieldStrings => Textual(v)
    case FieldTensors => v.HTensor?
    case FieldGraphs => v.HGraph?
    case FieldSparseTensors => v.HSparse?
    case FieldTypeProtos => v.HTypeProto?
    case _ => false
  }

  /** The list type a one-element list of `v` is inferred as; none for a
      value no list type holds. */
  function SoleKind(v: HostValue): Option<AttrType> {
    match v
    case HInt(_) => Some(Ints)
    case HBool(_) => Some(Ints)
    case HFloat(_) => Some(Floats)
    case HText(_) => Some(Strings)
    case HBytes(_) => Some(Strings)
    case HTensor(_) => Some(Tensors)
    case HSparse(_) => Some(SparseTensors)
    case HGraph(_) => Some(Graphs)
    case HTypeProto(_) => Some(TypeProtos)
    case _ => None
  }

  /** Two element kinds can share a list: the same kind, or integers
      alongside floats. */
  predicate Compatible(k1: AttrType, k2: AttrType) {
    k1 == k2 || (k1 == Ints && k2 == Floats) || (k1 == Floats && k2 == Ints)
  }

  /** The list tag inferred from the elements: the first of INTS, FLOATS,
      STRINGS, TENSORS, SPARSE_TENSORS, GRAPHS, TYPE_PROTOS whose element
      kind covers every element. */
  function InferListType(items: seq<HostValue>): (r: Result<AttrType, MakeError>)
    ensures r.Err? ==> r.error == ElementsUninferable
  {
    if forall k :: 0 <= k < |items| ==> Integral(items[k]) then Ok(Ints)
    else if forall k :: 0 <= k < |items| ==> Numeric(items[k]) then Ok(Floats)
    else if forall k :: 0 <= k < |items| ==> Textual(items[k]) then Ok(Strings)
    else if forall k :: 0 <= k < |items| ==> items[k].HTensor? then Ok(Tensors)
    else if forall k :: 0 <= k < |items| ==> items[k].HSparse? then Ok(SparseTensors)
    else if forall k :: 0 <= k < |items| ==> items[k].HGraph? then Ok(Graphs)
    else if forall k :: 0 <= k < |items| ==> items[k].HTypeProto? then Ok(TypeProtos)
    else Err(ElementsUninferable)
  }

  /** What the inferred list tag means: INTS exactly when every element is
      integral (so for no elements), FLOATS when integers are mixed with at
      least one float, and otherwise the one kind all elements share; the
      elements are uninferable exactly when one of them has no kind or two
      of them have kinds no list holds together. */
  lemma InferredKind(items: seq<HostValue>)
    ensures InferListType(items) == Ok(Ints) <==> forall k :: 0 <= k < |items| ==> SoleKind(items[k]) == Some(Ints)
    ensures var r := InferListType(items);
            r.Ok? ==> forall k :: 0 <= k < |items| ==>
              SoleKind(items[k]) == Some(r.value) || (r.value == Floats && SoleKind(items[k]) == Some(Ints))
    ensures var r := InferListType(items);
            r.Ok? && r.value != Ints ==> exists k :: 0 <= k < |items| && SoleKind(items[k]) == Some(r.value)
    ensures InferListType(items).Err? <==>
              (exists k :: 0 <= k < |items| && SoleKind(items[k]).None?) ||
              (exists i, j :: 0 <= i < |items| && 0 <= j < |items| &&
                 SoleKind(items[i]).Some? && SoleKind(items[j]).Some? &&
                 !Compatible(SoleKind(items[i]).value, SoleKind(items[j]).value))
  {
  }

  /** The index of the first element the field refuses, if any. */
  function FirstRefused(items: seq<HostValue>, fd: Field): (r: Option<nat>)
    ensures r.None? <==> forall k :: 0 <= k < |items| ==> Accepts(fd, items[k])
    ensures r.Some? ==> r.value < |items| && !Accepts(fd, items[r.value])
    ensures r.Some? ==> forall k :: 0 <= k < r.value ==> Accepts(fd, items[k])
    decreases |items|
  {
    if |items| == 0 then None
    else if !Accepts(fd, items[0]) then Some(0)
    else
      var rest := FirstRefused(items[1..], fd);
      assert forall k :: 1 <= k < |items| ==> items[k] == items[1..][k - 1];
      match rest
      case None => None
      case Some(k) => Some(k + 1)
  }

  /** The codes of the seven list types. */
  predicate ListCode(code: int) {
    code in {6, 7, 8, 9, 10, 12, 14}
  }

  /** The repeated field of a list type. */
  function ListField(code: int): (fd: Field)
    requires ListCode(code)
    ensures Code(FieldType(fd)) == code
  {
    if code == Code(Ints) then FieldInts
    else if code == Code(Floats) then FieldFloats
    else if code == Code(Strings) then FieldStrings
    else if code == Code(Tensors) then FieldTensors
    else if code == Code(Graphs) then FieldGraphs
    else if code == Code(SparseTensors) then FieldSparseTensors
    else FieldTypeProtos
  }

  /** `extend` on a repeated field that was empty: it holds the elements,
      each converted as the field converts it, and nothing else changes. */
  function Extend(base: Attribute, fd: Field, items: seq<HostValue>): (r: Attribute)
    requires forall k :: 0 <= k < |items| ==> Accepts(fd, items[k])
    ensures r.name == base.name && r.docString == base.docString && r.attrType == base.attrType
    ensures forall g :: g != fd ==> (IsSet(r, g) <==> IsSet(base, g))
    ensures |items| > 0 ==> IsSet(r, fd)
  {
    match fd
    case FieldInts =>
      WithInts(base, seq(|items|, k requires 0 <= k < |items| => assert Accepts(FieldInts, items[k]); IntOf(items[k])))
    case FieldFloats =>
      WithFloats(base, seq(|items|, k requires 0 <= k < |items| => assert Accepts(FieldFloats, items[k]); RealOf(items[k])))
    case FieldStrings =>
      WithStrings(base, seq(|items|, k requires 0 <= k < |items| => assert Accepts(FieldStrings, items[k]); BytesOf(items[k])))
    case FieldTensors =>
      WithTensors(base, seq(|items|, k requires 0 <= k < |items| => assert Accepts(FieldTensors, items[k]); items[k].tensor))
    case FieldGraphs =>
      WithGraphs(base, seq(|items|, k requires 0 <= k < |items| => assert Accepts(FieldGraphs, items[k]); items[k].graph))
    case FieldSparseTensors =>
      WithSparseTensors(base, seq(|items|, k requires 0 <= k < |items| => assert Accepts(FieldSparseTensors, items[k]); items[k].sparse))
    case FieldTypeProtos =>
      WithTypeProtos(base, seq(|items|, k requires 0 <= k < |items| => assert Accepts(FieldTypeProtos, items[k]); items[k].typeProto))
    case _ => assert |items| == 0 || !Accepts(fd, items[0]); base
  }

  /** Filling the list field that `target` names and setting the tag. A code
      that names no list type is refused, and so is an element the field
      does not take. */
  function FillList(base: Attribute, target: int, items: seq<HostValue>): (r: Result<Attribute, MakeError>)
    requires forall fd :: !IsSet(base, fd)
    ensures !ListCode(target) ==> r == Err(NotAListType(target))
    ensures r.Ok? ==> r.value.name == base.name && r.value.docString == base.docString
    ensures r.Ok? ==> ListCode(target) && r.value.attrType == Some(target)
    ensures r.Ok? ==> forall fd :: IsSet(r.value, fd) ==> fd == ListField(target)
    ensures r.Ok? && |items| > 0 ==> IsSet(r.value, ListField(target))
    ensures r.Err? && r.error.ElementRejected? ==> r.error.index < |items|
  {
    if !ListCode(target) then Err(NotAListType(target))
    else
      var fd := ListField(target);
      match FirstRefused(items, fd)
      case Some(k) => Err(ElementRejected(k))
      case None => Ok(Extend(Retag(base, target), fd, items))
  }

  /** Setting the tag of an attribute whose only field in use is `fd`. */
  function Tag(a: Attribute, fd: Field): (r: Attribute)
    requires forall g :: IsSet(a, g) ==> g == fd
    ensures r.name == a.name && r.docString == a.docString && Tagged(r, fd)
  {
    Retag(a, Code(FieldType(fd)))
  }

  /** The singular field a scalar value goes into. */
  function ScalarField(v: HostValue): Option<Field> {
    match v
    case HInt(_) => Some(FieldI)
    case HBool(_) => Some(FieldI)
    case HFloat(_) => Some(FieldF)
    case HText(_) => Some(FieldS)
    case HBytes(_) => Some(FieldS)
    case HTensor(_) => Some(FieldT)
    case HSparse(_) => Some(FieldSparseTensor)
    case HGraph(_) => Some(FieldG)
    case HTypeProto(_) => Some(FieldTp)
    case HList(_) => None
    case HOther => None
  }

  /** A number or text sets its singular field and the field's tag; an
      integer outside int64 is refused, and a string is stored as its UTF-8
      encoding. */
  function BuildPlain(base: Attribute, value: HostValue): (r: Result<Attribute, MakeError>)
    requires forall fd :: !IsSet(base, fd)
    requires Numeric(value) || Textual(value)
    ensures r.Ok? <==> !(value.HInt? && !InInt64(value.n))
    ensures r.Ok? ==> r.value.name == base.name && r.value.docString == base.docString
    ensures r.Ok? ==> Tagged(r.value, ScalarField(value).value)
  {
    match value
    case HInt(n) => if InInt64(n) then Ok(Tag(WithI(base, n), FieldI)) else Err(IntOutOfRange)
    case HBool(b) => Ok(Tag(WithI(base, if b then 1 else 0), FieldI))
    case HFloat(x) => Ok(Tag(WithF(base, x), FieldF))
    case HText(text) => Ok(Tag(WithS(base, Utf8.Encode(text)), FieldS))
    case HBytes(bytes) => Ok(Tag(WithS(base, bytes), FieldS))
  }

  /** A message sets its singular field and the field's tag. */
  function BuildMessage(base: Attribute, value: HostValue): (r: Attribute)
    requires forall fd :: !IsSet(base, fd)
    requires value.HTensor? || value.HSparse? || value.HGraph? || value.HTypeProto?
    ensures r.name == base.name && r.docString == base.docString
    ensures Tagged(r, ScalarField(value).value)
  {
    match value
    case HTensor(t) => Tag(WithT(base, t), FieldT)
    case HSparse(sp) => Tag(WithSparseTensor(base, sp), FieldSparseTensor)
    case HGraph(g) => Tag(WithG(base, g), FieldG)
    case HTypeProto(tp) => Tag(WithTp(base, tp), FieldTp)
  }

  /** A list fills the repeated field of the requested type, or of the type
      its elements determine; an empty list needs a requested type. */
  function BuildList(base: Attribute, items: seq<HostValue>, requested: Option<int>): (r: Result<Attribute, MakeError>)
    requires forall fd :: !IsSet(base, fd)
    ensures |items| == 0 && requested.None? ==> r == Err(EmptyListUntyped)
    ensures r.Ok? ==> r.value.name == base.name && r.value.docString == base.docString
    ensures r.Ok? ==> exists fd :: Tagged(r.value, fd)
    ensures r.Ok? && requested.Some? ==> r.value.attrType == requested
  {
    if |items| == 0 && requested.None? then Err(EmptyListUntyped)
    else
      var target :- match requested
        case Some(code) => Ok(code)
        case None => match InferListType(items)
          case Ok(t) => Ok(Code(t))
          case Err(e) => Err(e);
      var r := FillList(base, target, items);
      assert r.Ok? ==> Tagged(r.value, ListField(target));
      r
  }

  /** The attribute for a value, before the requested type is compared
      with the inferred one. */
  function Build(base: Attribute, value: HostValue, requested: Option<int>): (r: Result<Attribute, MakeError>)
    requires forall fd :: !IsSet(base, fd)
    ensures r.Ok? ==> r.value.name == base.name && r.value.docString == base.docString
    ensures r.Ok? ==> exists fd :: Tagged(r.value, fd)
    ensures r.Ok? && value.HList? && requested.Some? ==> r.value.attrType == requested
  {
    match value
    case HList(items) => BuildList(base, items, requested)
    case HOther => Err(NotAnAttributeValue)
    case HTensor(_) => Ok(BuildMessage(base, value))
    case HSparse(_) => Ok(BuildMessage(base, value))
    case HGraph(_) => Ok(BuildMessage(base, value))
    case HTypeProto(_) => Ok(BuildMessage(base, value))
    case _ => BuildPlain(base, value)
  }

  /** `make_attribute`: build the attribute, then refuse it when a type was
      requested and the attribute's own type differs. */
  function MakeAttribute(name: string, value: HostValue, docString: string, requested: Option<int>)
    : (r: Result<Attribute, MakeError>)
    ensures r.Ok? ==> r.value.name == name && r.value.docString == docString
    ensures r.Ok? ==> exists fd :: Tagged(r.value, fd)
    ensures r.Ok? && requested.Some? ==> r.value.attrType == requested
    ensures r.Err? && r.error.TypeMismatch? ==>
              Some(r.error.requested) == requested && r.error.inferred != r.error.requested
    ensures value.HOther? ==> r == Err(NotAnAttributeValue)
    ensures value == HList([]) && requested.None? ==> r == Err(EmptyListUntyped)
  {
    var built :- Build(Blank(name, docString), value, requested);
    if requested.Some? && built.attrType != requested then
      Err(TypeMismatch(built.attrType.value, requested.value))
    else Ok(built)
  }

  /** Every attribute `make_attribute` builds under a non-empty name passes
      the checker, at any IR version. */
  lemma MakeThenCheck(name: string, value: HostValue, docString: string, requested: Option<int>, irVersion: int)
    requires name != ""
    requires MakeAttribute(name, value, docString, requested).Ok?
    ensures CheckAttribute(MakeAttribute(name, value, docString, requested).value, irVersion) == None
  {
    var a := MakeAttribute(name, value, docString, requested).value;
    var fd :| Tagged(a, fd);
    assert Legal(a, irVersion);
  }

  /** A scalar's attribute is built iff the requested type, if any, is the
      type of the scalar's own field; otherwise the error names both types. */
  lemma RequestedScalarType(name: string, v: HostValue, docString: string, requested: Option<int>)
    requires ScalarField(v).Some? && (v.HInt? ==> InInt64(v.n))
    ensures var r := MakeAttribute(name, v, docString, requested);
            var inferred := Code(FieldType(ScalarField(v).value));
            && (r.Ok? <==> requested.None? || requested == Some(inferred))
            && (r.Ok? ==> r.value.attrType == Some(inferred))
            && (r.Err? ==> r.error == TypeMismatch(inferred, requested.value))
  {
    var base := Blank(name, docString);
    if Numeric(v) || Textual(v) {
      assert Build(base, v, requested) == BuildPlain(base, v);
    } else {
      assert Build(base, v, requested) == Ok(BuildMessage(base, v));
    }
  }

  /** A non-empty list of integers in int64 range, with no type requested,
      becomes INTS holding the same numbers (a bool counts as 0 or 1). */
  lemma IntegralListBecomesInts(name: string, items: seq<HostValue>, docString: string)
    requires |items| > 0
    requires forall k :: 0 <= k < |items| ==> Integral(items[k]) && InInt64(IntOf(items[k]))
    ensures var r := MakeAttribute(name, HList(items), docString, None);
            && r.Ok? && r.value.attrType == Some(Code(Ints))
            && |r.value.ints| == |items|
            && forall k :: 0 <= k < |items| ==> r.value.ints[k] == IntOf(items[k])
  {
    assert InferListType(items) == Ok(Ints);
    assert FirstRefused(items, FieldInts).None?;
  }

  /** A non-empty list of numbers that are not all integral, with no type
      requested, becomes FLOATS with every element converted. */
  lemma NumericListBecomesFloats(name: string, items: seq<HostValue>, docString: string)
    requires |items| > 0
    requires forall k :: 0 <= k < |items| ==> Numeric(items[k])
    requires exists k :: 0 <= k < |items| && items[k].HFloat?
    ensures var r := MakeAttribute(name, HList(items), docString, None);
            && r.Ok? && r.value.attrType == Some(Code(Floats))
            && |r.value.floats| == |items|
            && forall k :: 0 <= k < |items| ==> r.value.floats[k] == RealOf(items[k])
  {
    assert InferListType(items) == Ok(Floats);
    assert FirstRefused(items, FieldFloats).None?;
  }

  /** A non-empty list of strings and byte strings, with no type requested,
      becomes STRINGS: each string as its UTF-8 bytes, each byte string as
      it is. */
  lemma TextListBecomesStrings(name: string, items: seq<HostValue>, docString: string)
    requires |items| > 0
    requires forall k :: 0 <= k < |items| ==> Textual(items[k])
    ensures var r := MakeAttribute(name, HList(items), docString, None);
            && r.Ok? && r.value.attrType == Some(Code(Strings))
            && |r.value.strings| == |items|
            && forall k :: 0 <= k < |items| ==> r.value.strings[k] == BytesOf(items[k])
  {
    assert !Integral(items[0]) && !Numeric(items[0]);
    assert InferListType(items) == Ok(Strings);
    assert FirstRefused(items, FieldStrings).None?;
  }

  /** A string value is stored as its UTF-8 encoding, which decodes back to
      the string. */
  lemma TextStoredAsUtf8(name: string, text: string, docString: string)
    ensures var r := MakeAttribute(name, HText(text), docString, None);
            && r.Ok? && r.value.attrType == Some(Code(String))
            && r.value.s == Some(Utf8.Encode(text))
            && Utf8.Decode(r.value.s.value) == Some(text)
  {
    Utf8.DecodeEncode(text);
  }

  /** The value an absent message field reads as: the empty message. */
  const EmptyTensor: TensorRef := TensorRef("")
  const EmptyGraph: GraphRef := GraphRef("")
  const EmptySparse: SparseRef := SparseRef(0)
  const EmptyTypeProto: TypeRef := TypeRef(0)

  /** The entries of each repeated field as host values. */
  function FloatItems(xs: seq<real>): (r: seq<HostValue>)
    ensures |r| == |xs| && forall k :: 0 <= k < |xs| ==> r[k] == HFloat(xs[k])
  {
    seq(|xs|, k requires 0 <= k < |xs| => HFloat(xs[k]))
  }

  function IntItems(xs: seq<int>): (r: seq<HostValue>)
    ensures |r| == |xs| && forall k :: 0 <= k < |xs| ==> r[k] == HInt(xs[k])
  {
    seq(|xs|, k requires 0 <= k < |xs| => HInt(xs[k]))
  }

  function BytesItems(xs: seq<seq<bv8>>): (r: seq<HostValue>)
    ensures |r| == |xs| && forall k :: 0 <= k < |xs| ==> r[k] == HBytes(xs[k])
  {
    seq(|xs|, k requires 0 <= k < |xs| => HBytes(xs[k]))
  }

  function TensorItems(xs: seq<TensorRef>): (r: seq<HostValue>)
    ensures |r| == |xs| && forall k :: 0 <= k < |xs| ==> r[k] == HTensor(xs[k])
  {
    seq(|xs|, k requires 0 <= k < |xs| => HTensor(xs[k]))
  }

  function GraphItems(xs: seq<GraphRef>): (r: seq<HostValue>)
    ensures |r| == |xs| && forall k :: 0 <= k < |xs| ==> r[k] == HGraph(xs[k])
  {
    seq(|xs|, k requires 0 <= k < |xs| => HGraph(xs[k]))
  }

  function SparseItems(xs: seq<SparseRef>): (r: seq<HostValue>)
    ensures |r| == |xs| && forall k :: 0 <= k < |xs| ==> r[k] == HSparse(xs[k])
  {
    seq(|xs|, k requires 0 <= k < |xs| => HSparse(xs[k]))
  }

  function TypeProtoItems(xs: seq<TypeRef>): (r: seq<HostValue>)
    ensures |r| == |xs| && forall k :: 0 <= k < |xs| ==> r[k] == HTypeProto(xs[k])
  {
    seq(|xs|, k requires 0 <= k < |xs| => HTypeProto(xs[k]))
  }

  /** Why `get_attribute_value` refuses an attribute. */
  datatype GetError = UnsupportedType(code: int)

  /** `get_attribute_value`: the field the tag names, read as a host value;
      an absent singular field reads as its default. An attribute whose tag
      is absent or UNDEFINED has no value, and one whose tag is not an enum
      value is refused. */
  function AttributeValue(a: Attribute): (r: Result<Option<HostValue>, GetError>)
    ensures r.Err? <==> a.attrType.Some? && FromCode(a.attrType.value).None?
    ensures r.Err? ==> r.error == UnsupportedType(a.attrType.value)
    ensures r == Ok(None) <==> a.attrType.None? || a.attrType == Some(Code(Undefined))
    ensures a.attrType.Some? && FromCode(a.attrType.value).Some? ==>
              r == Ok(TagValue(a, FromCode(a.attrType.value).value))
  {
    if a.attrType.None? then Ok(None)
    else match FromCode(a.attrType.value)
      case None => Err(UnsupportedType(a.attrType.value))
      case Some(t) =>
        CodeRoundTrip(t);
        Ok(TagValue(a, t))
  }

  /** The value the tag `t` selects: the field of its kind, or that
      field's default when a singular field is absent. */
  function TagValue(a: Attribute, t: AttrType): (r: Option<HostValue>)
    ensures r.None? <==> t == Undefined
    ensures t == Float && a.f.Some? ==> r == Some(HFloat(a.f.value))
    ensures t == Int && a.i.Some? ==> r == Some(HInt(a.i.value))
    ensures t == String && a.s.Some? ==> r == Some(HBytes(a.s.value))
    ensures t == Tensor && a.t.Some? ==> r == Some(HTensor(a.t.value))
    ensures t == Graph && a.g.Some? ==> r == Some(HGraph(a.g.value))
    ensures t == SparseTensor && a.sparseTensor.Some? ==> r == Some(HSparse(a.sparseTensor.value))
    ensures t == TypeProto && a.tp.Some? ==> r == Some(HTypeProto(a.tp.value))
    ensures t == Floats ==> r == Some(HList(FloatItems(a.floats)))
    ensures t == Ints ==> r == Some(HList(IntItems(a.ints)))
    ensures t == Strings ==> r == Some(HList(BytesItems(a.strings)))
    ensures t == Tensors ==> r == Some(HList(TensorItems(a.tensors)))
    ensures t == Graphs ==> r == Some(HList(GraphItems(a.graphs)))
    ensures t == SparseTensors ==> r == Some(HList(SparseItems(a.sparseTensors)))
    ensures t == TypeProtos ==> r == Some(HList(TypeProtoItems(a.typeProtos)))
  {
    match t
    case Undefined => None
    case Float => Some(HFloat(if a.f.Some? then a.f.value else 0.0))
    case Int => Some(HInt(if a.i.Some? then a.i.value else 0))
    case String => Some(HBytes(if a.s.Some? then a.s.value else []))
    case Tensor => Some(HTensor(if a.t.Some? then a.t.value else EmptyTensor))
    case Graph => Some(HGraph(if a.g.Some? then a.g.value else EmptyGraph))
    case SparseTensor => Some(HSparse(if a.sparseTensor.Some? then a.sparseTensor.value else EmptySparse))
    case TypeProto => Some(HTypeProto(if a.tp.Some? then a.tp.value else EmptyTypeProto))
    case Floats => Some(HList(FloatItems(a.floats)))
    case Ints => Some(HList(IntItems(a.ints)))
    case Strings => Some(HList(BytesItems(a.strings)))
    case Tensors => Some(HList(TensorItems(a.tensors)))
    case Graphs => Some(HList(GraphItems(a.graphs)))
    case SparseTensors => Some(HList(SparseItems(a.sparseTensors)))
    case TypeProtos => Some(HList(TypeProtoItems(a.typeProtos)))
  }

  /** An attribute tagged with a tag's own code reads the field that tag
      selects. */
  lemma {:induction false} ReadsOwnTag(a: Attribute, t: AttrType)
    requires a.attrType == Some(Code(t))
    ensures AttributeValue(a) == Ok(TagValue(a, t))
  {
    CodeRoundTrip(t);
  }

  /** The values that read back exactly as they were given: an int64
      integer, a float, a byte string, a message, or a non-empty list of one
      of those kinds. Bools, strings and mixed numeric lists are converted on
      the way in. */
  predicate Canonical(v: HostValue) {
    match v
    case HInt(n) => InInt64(n)
    case HFloat(_) => true
    case HBytes(_) => true
    case HTensor(_) => true
    case HSparse(_) => true
    case HGraph(_) => true
    case HTypeProto(_) => true
    case HList(items) => |items| > 0 && UniformList(items)
    case _ => false
  }

  /** A list all of whose elements are of one canonical kind. */
  predicate UniformList(items: seq<HostValue>) {
    || (forall k :: 0 <= k < |items| ==> items[k].HInt? && InInt64(items[k].n))
    || (forall k :: 0 <= k < |items| ==> items[k].HFloat?)
    || (forall k :: 0 <= k < |items| ==> items[k].HBytes?)
    || (forall k :: 0 <= k < |items| ==> items[k].HTensor?)
    || (forall k :: 0 <= k < |items| ==> items[k].HSparse?)
    || (forall k :: 0 <= k < |items| ==> items[k].HGraph?)
    || (forall k :: 0 <= k < |items| ==> items[k].HTypeProto?)
  }

  /** A list whose elements infer tag `t`, all of which the tag's field
      takes, fills that field. */
  lemma ListMake(name: string, items: seq<HostValue>, docString: string, t: AttrType)
    requires |items| > 0 && InferListType(items) == Ok(t)
    requires ListCode(Code(t)) && FirstRefused(items, ListField(Code(t))).None?
    ensures MakeAttribute(name, HList(items), docString, None)
            == Ok(Extend(Retag(Blank(name, docString), Code(t)), ListField(Code(t)), items))
  {
  }

  /** Reading back what was built from a canonical value gives the value. */
  lemma MakeThenGet(name: string, v: HostValue, docString: string)
    requires Canonical(v)
    ensures MakeAttribute(name, v, docString, None).Ok?
    ensures AttributeValue(MakeAttribute(name, v, docString, None).value) == Ok(Some(v))
  {
    if v.HList? {
      ListThenGet(name, v.items, docString);
    } else {
      ScalarThenGet(name, v, docString);
    }
  }

  /** The scalar cases of `MakeThenGet`. */
  lemma ScalarThenGet(name: string, v: HostValue, docString: string)
    requires Canonical(v) && !v.HList?
    ensures MakeAttribute(name, v, docString, None).Ok?
    ensures AttributeValue(MakeAttribute(name, v, docString, None).value) == Ok(Some(v))
  {
    if v.HInt? || v.HFloat? || v.HBytes? {
      PlainThenGet(name, v, docString);
    } else {
      MessageThenGet(name, v, docString);
    }
  }

  lemma PlainThenGet(name: string, v: HostValue, docString: string)
    requires (v.HInt? && InInt64(v.n)) || v.HFloat? || v.HBytes?
    ensures MakeAttribute(name, v, docString, None).Ok?
    ensures AttributeValue(MakeAttribute(name, v, docString, None).value) == Ok(Some(v))
  {
    var a := MakeAttribute(name, v, docString, None).value;
    match v
    case HInt(n) => assert a.attrType == Some(Code(Int)) && a.i == Some(n); ReadsOwnTag(a, Int);
    case HFloat(x) => assert a.attrType == Some(Code(Float)) && a.f == Some(x); ReadsOwnTag(a, Float);
    case HBytes(b) => assert a.attrType == Some(Code(String)) && a.s == Some(b); ReadsOwnTag(a, String);
  }

  lemma MessageThenGet(name: string, v: HostValue, docString: string)
    requires v.HTensor? || v.HSparse? || v.HGraph? || v.HTypeProto?
    ensures MakeAttribute(name, v, docString, None).Ok?
    ensures AttributeValue(MakeAttribute(name, v, docString, None).value) == Ok(Some(v))
  {
    var a := BuildMessage(Blank(name, docString), v);
    assert MakeAttribute(name, v, docString, None) == Ok(a);
    match v
    case HTensor(t) => assert a.attrType == Some(Code(Tensor)) && a.t == Some(t); ReadsOwnTag(a, Tensor);
    case HSparse(sp) => assert a.attrType == Some(Code(SparseTensor)) && a.sparseTensor == Some(sp); ReadsOwnTag(a, SparseTensor);
    case HGraph(g) => assert a.attrType == Some(Code(Graph)) && a.g == Some(g); ReadsOwnTag(a, Graph);
    case HTypeProto(tp) => assert a.attrType == Some(Code(TypeProto)) && a.tp == Some(tp); ReadsOwnTag(a, TypeProto);
  }

  /** The list case of `MakeThenGet`. */
  lemma ListThenGet(name: string, items: seq<HostValue>, docString: string)
    requires |items| > 0 && UniformList(items)
    ensures MakeAttribute(name, HList(items), docString, None).Ok?
    ensures AttributeValue(MakeAttribute(name, HList(items), docString, None).value) == Ok(Some(HList(items)))
  {
    var v0 := items[0];
    if v0.HInt? {
      IntListThenGet(name, items, docString);
    } else if v0.HFloat? {
      FloatListThenGet(name, items, docString);
    } else if v0.HBytes? {
      BytesListThenGet(name, items, docString);
    } else if v0.HTensor? {
      TensorListThenGet(name, items, docString);
    } else if v0.HSparse? {
      SparseListThenGet(name, items, docString);
    } else if v0.HGraph? {
      GraphListThenGet(name, items, docString);
    } else {
      TypeProtoListThenGet(name, items, docString);
    }
  }

  /** A non-empty list of `HInt` values builds and reads back. */
  lemma IntListThenGet(name: string, items: seq<HostValue>, docString: string)
    requires |items| > 0 && forall k :: 0 <= k < |items| ==> items[k].HInt? && InInt64(items[k].n)
    ensures MakeAttribute(name, HList(items), docString, None).Ok?
    ensures AttributeValue(MakeAttribute(name, HList(items), docString, None).value) == Ok(Some(HList(items)))
  {
    IntListInfers(items);
    IntListReadBack(name, items, docString);
    ListMake(name, items, docString, Ints);
  }

  lemma IntListInfers(items: seq<HostValue>)
    requires |items| > 0 && forall k :: 0 <= k < |items| ==> items[k].HInt? && InInt64(items[k].n)
    ensures InferListType(items) == Ok(Ints) && FirstRefused(items, FieldInts).None?
  {
  }

  lemma IntListReadBack(name: string, items: seq<HostValue>, docString: string)
    requires forall k :: 0 <= k < |items| ==> items[k].HInt? && InInt64(items[k].n)
    ensures AttributeValue(Extend(Retag(Blank(name, docString), Code(Ints)), FieldInts, items)) == Ok(Some(HList(items)))
  {
    var a := Extend(Retag(Blank(name, docString), Code(Ints)), FieldInts, items);
    ReadsOwnTag(a, Ints);
    assert IntItems(a.ints) == items;
  }

  /** A non-empty list of `HFloat` values builds and reads back. */
  lemma FloatListThenGet(name: string, items: seq<HostValue>, docString: string)
    requires |items| > 0 && forall k :: 0 <= k < |items| ==> items[k].HFloat?
    ensures MakeAttribute(name, HList(items), docString, None).Ok?
    ensures AttributeValue(MakeAttribute(name, HList(items), docString, None).value) == Ok(Some(HList(items)))
  {
    FloatListInfers(items);
    FloatListReadBack(name, items, docString);
    ListMake(name, items, docString, Floats);
  }

  lemma FloatListInfers(items: seq<HostValue>)
    requires |items| > 0 && forall k :: 0 <= k < |items| ==> items[k].HFloat?
    ensures InferListType(items) == Ok(Floats) && FirstRefused(items, FieldFloats).None?
  {
    assert !Integral(items[0]);
  }

  lemma FloatListReadBack(name: string, items: seq<HostValue>, docString: string)
    requires forall k :: 0 <= k < |items| ==> items[k].HFloat?
    ensures AttributeValue(Extend(Retag(Blank(name, docString), Code(Floats)), FieldFloats, items)) == Ok(Some(HList(items)))
  {
    var a := Extend(Retag(Blank(name, docString), Code(Floats)), FieldFloats, items);
    ReadsOwnTag(a, Floats);
    assert FloatItems(a.floats) == items;
  }

  /** A non-empty list of `HBytes` values builds and reads back. */
  lemma BytesListThenGet(name: string, items: seq<HostValue>, docString: string)
    requires |items| > 0 && forall k :: 0 <= k < |items| ==> items[k].HBytes?
    ensures MakeAttribute(name, HList(items), docString, None).Ok?
    ensures AttributeValue(MakeAttribute(name, HList(items), docString, None).value) == Ok(Some(HList(items)))
  {
    BytesListInfers(items);
    BytesListReadBack(name, items, docString);
    ListMake(name, items, docString, Strings);
  }

  lemma BytesListInfers(items: seq<HostValue>)
    requires |items| > 0 && forall k :: 0 <= k < |items| ==> items[k].HBytes?
    ensures InferListType(items) == Ok(Strings) && FirstRefused(items, FieldStrings).None?
  {
    assert !Integral(items[0]) && !Numeric(items[0]);
  }

  lemma BytesListReadBack(name: string, items: seq<HostValue>, docString: string)
    requires forall k :: 0 <= k < |items| ==> items[k].HBytes?
    ensures AttributeValue(Extend(Retag(Blank(name, docString), Code(Strings)), FieldStrings, items)) == Ok(Some(HList(items)))
  {
    var a := Extend(Retag(Blank(name, docString), Code(Strings)), FieldStrings, items);
    ReadsOwnTag(a, Strings);
    assert BytesItems(a.strings) == items;
  }

  /** A non-empty list of `HTensor` values builds and reads back. */
  lemma TensorListThenGet(name: string, items: seq<HostValue>, docString: string)
    requires |items| > 0 && forall k :: 0 <= k < |items| ==> items[k].HTensor?
    ensures MakeAttribute(name, HList(items), docString, None).Ok?
    ensures AttributeValue(MakeAttribute(name, HList(items), docString, None).value) == Ok(Some(HList(items)))
  {
    TensorListInfers(items);
    TensorListReadBack(name, items, docString);
    ListMake(name, items, docString, Tensors);
  }

  lemma TensorListInfers(items: seq<HostValue>)
    requires |items| > 0 && forall k :: 0 <= k < |items| ==> items[k].HTensor?
    ensures InferListType(items) == Ok(Tensors) && FirstRefused(items, FieldTensors).None?
  {
    assert !Integral(items[0]) && !Numeric(items[0]) && !Textual(items[0]);
  }

  lemma TensorListReadBack(name: string, items: seq<HostValue>, docString: string)
    requires forall k :: 0 <= k < |items| ==> items[k].HTensor?
    ensures AttributeValue(Extend(Retag(Blank(name, docString), Code(Tensors)), FieldTensors, items)) == Ok(Some(HList(items)))
  {
    var a := Extend(Retag(Blank(name, docString), Code(Tensors)), FieldTensors, items);
    ReadsOwnTag(a, Tensors);
    assert TensorItems(a.tensors) == items;
  }

  /** A non-empty list of `HSparse` values builds and reads back. */
  lemma SparseListThenGet(name: string, items: seq<HostValue>, docString: string)
    requires |items| > 0 && forall k :: 0 <= k < |items| ==> items[k].HSparse?
    ensures MakeAttribute(name, HList(items), docString, None).Ok?
    ensures AttributeValue(MakeAttribute(name, HList(items), docString, None).value) == Ok(Some(HList(items)))
  {
    SparseListInfers(items);
    SparseListReadBack(name, items, docString);
    ListMake(name, items, docString, SparseTensors);
  }

  lemma SparseListInfers(items: seq<HostValue>)
    requires |items| > 0 && forall k :: 0 <= k < |items| ==> items[k].HSparse?
    ensures InferListType(items) == Ok(SparseTensors) && FirstRefused(items, FieldSparseTensors).None?
  {
    assert !Integral(items[0]) && !Numeric(items[0]) && !Textual(items[0]);
  }

  lemma SparseListReadBack(name: string, items: seq<HostValue>, docString: string)
    requires forall k :: 0 <= k < |items| ==> items[k].HSparse?
    ensures AttributeValue(Extend(Retag(Blank(name, docString), Code(SparseTensors)), FieldSparseTensors, items)) == Ok(Some(HList(items)))
  {
    var a := Extend(Retag(Blank(name, docString), Code(SparseTensors)), FieldSparseTensors, items);
    ReadsOwnTag(a, SparseTensors);
    assert SparseItems(a.sparseTensors) == items;
  }

  /** A non-empty list of `HGraph` values builds and reads back. */
  lemma GraphListThenGet(name: string, items: seq<HostValue>, docString: string)
    requires |items| > 0 && forall k :: 0 <= k < |items| ==> items[k].HGraph?
    ensures MakeAttribute(name, HList(items), docString, None).Ok?
    ensures AttributeValue(MakeAttribute(name, HList(items), docString, None).value) == Ok(Some(HList(items)))
  {
    GraphListInfers(items);
    GraphListReadBack(name, items, docString);
    ListMake(name, items, docString, Graphs);
  }

  lemma GraphListInfers(items: seq<HostValue>)
    requires |items| > 0 && forall k :: 0 <= k < |items| ==> items[k].HGraph?
    ensures InferListType(items) == Ok(Graphs) && FirstRefused(items, FieldGraphs).None?
  {
    assert !Integral(items[0]) && !Numeric(items[0]) && !Textual(items[0]);
  }

  lemma GraphListReadBack(name: string, items: seq<HostValue>, docString: string)
    requires forall k :: 0 <= k < |items| ==> items[k].HGraph?
    ensures AttributeValue(Extend(Retag(Blank(name, docString), Code(Graphs)), FieldGraphs, items)) == Ok(Some(HList(items)))
  {
    var a := Extend(Retag(Blank(name, docString), Code(Graphs)), FieldGraphs, items);
    ReadsOwnTag(a, Graphs);
    assert GraphItems(a.graphs) == items;
  }

  /** A non-empty list of `HTypeProto` values builds and reads back. */
  lemma TypeProtoListThenGet(name: string, items: seq<HostValue>, docString: string)
    requires |items| > 0 && forall k :: 0 <= k < |items| ==> items[k].HTypeProto?
    ensures MakeAttribute(name, HList(items), docString, None).Ok?
    ensures AttributeValue(MakeAttribute(name, HList(items), docString, None).value) == Ok(Some(HList(items)))
  {
    TypeProtoListInfers(items);
    TypeProtoListReadBack(name, items, docString);
    ListMake(name, items, docString, TypeProtos);
  }

  lemma TypeProtoListInfers(items: seq<HostValue>)
    requires |items| > 0 && forall k :: 0 <= k < |items| ==> items[k].HTypeProto?
    ensures InferListType(items) == Ok(TypeProtos) && FirstRefused(items, FieldTypeProtos).None?
  {
    assert !Integral(items[0]) && !Numeric(items[0]) && !Textual(items[0]);
  }

  lemma TypeProtoListReadBack(name: string, items: seq<HostValue>, docString: string)
    requires forall k :: 0 <= k < |items| ==> items[k].HTypeProto?
    ensures AttributeValue(Extend(Retag(Blank(name, docString), Code(TypeProtos)), FieldTypeProtos, items)) == Ok(Some(HList(items)))
  {
    var a := Extend(Retag(Blank(name, docString), Code(TypeProtos)), FieldTypeProtos, items);
    ReadsOwnTag(a, TypeProtos);
    assert TypeProtoItems(a.typeProtos) == items;
  }

  /** The mixed list [1, 2, 3.0, 4.5] becomes FLOATS [1.0, 2.0, 3.0, 4.5]. */
  lemma MixedListVector()
    ensures var r := MakeAttribute("mixed", HList([HInt(1), HInt(2), HFloat(3.0), HFloat(4.5)]), "", None);
            r.Ok? && r.value.attrType == Some(Code(Floats)) && r.value.floats == [1.0, 2.0, 3.0, 4.5]
  {
    var items := [HInt(1), HInt(2), HFloat(3.0), HFloat(4.5)];
    assert items[2].HFloat?;
    NumericListBecomesFloats("mixed", items, "");
    var xs := MakeAttribute("mixed", HList(items), "", None).value.floats;
    assert |xs| == 4 && xs[0] == 1.0 && xs[1] == 2.0 && xs[2] == 3.0 && xs[3] == 4.5;
  }

  /** [1, 2] becomes INTS [1, 2]. */
  lemma IntListVector()
    ensures var r := MakeAttribute("ints", HList([HInt(1), HInt(2)]), "", None);
            r.Ok? && r.value.attrType == Some(Code(Ints)) && r.value.ints == [1, 2]
  {
    var items := [HInt(1), HInt(2)];
    IntegralListBecomesInts("ints", items, "");
    var xs := MakeAttribute("ints", HList(items), "", None).value.ints;
    assert |xs| == 2 && xs[0] == 1 && xs[1] == 2;
  }

  /** An empty list needs a requested type; with STRINGS requested it gives
      an attribute of that type with no entries. */
  lemma EmptyListVector()
    ensures MakeAttribute("empty", HList([]), "", None) == Err(EmptyListUntyped)
    ensures var r := MakeAttribute("empty", HList([]), "", Some(Code(Strings)));
            r.Ok? && r.value.attrType == Some(Code(Strings)) && |r.value.strings| == 0
  {
    var base := Blank("empty", "");
    assert FillList(base, Code(Strings), []) == Ok(Extend(Retag(base, Code(Strings)), FieldStrings, []));
  }

  /** 6.4 with STRING requested is refused, naming the inferred FLOAT. */
  lemma MismatchVector()
    ensures MakeAttribute("test", HFloat(6.4), "", Some(Code(String))) == Err(TypeMismatch(Code(Float), Code(String)))
    ensures TypeName(Code(Float)) == "FLOAT"
  {
    RequestedScalarType("test", HFloat(6.4), "", Some(Code(String)));
  }

  /** The string "test" is stored as the bytes 74 65 73 74 (hexadecimal). */
  lemma TextVector()
    ensures var r := MakeAttribute("str", HText("test"), "", None);
            r.Ok? && r.value.s.Some? && Utf8.Values(r.value.s.value) == [0x74, 0x65, 0x73, 0x74]
  {
    TextStoredAsUtf8("str", "test", "");
    TestBytes();
  }

  /** The UTF-8 encoding of the ASCII text "test" is its four code points. */
  lemma TestBytes()
    ensures Utf8.Values(Utf8.Encode("test")) == [0x74, 0x65, 0x73, 0x74]
  {
    Utf8.AsciiValues("test");
  }

  /** The empty string makes a STRING attribute that reads back as the
      empty byte string. */
  lemma EmptyTextVector(name: string)
    ensures var r := MakeAttribute(name, HText(""), "", None);
            r.Ok? && AttributeValue(r.value) == Ok(Some(HBytes([])))
  {
    TextStoredAsUtf8(name, "", "");
    assert Utf8.Encode("") == [];
    assert FromCode(Code(String)) == Some(String);
  }

  /** The doc string is kept when given and empty otherwise. */
  lemma DocStringVector()
    ensures var r := MakeAttribute("a", HText("value"), "", None);
            r.Ok? && r.value.docString == ""
    ensures var r := MakeAttribute("a", HText("value"), "doc", None);
            r.Ok? && r.value.docString == "doc"
  {
    TextStoredAsUtf8("a", "value", "");
    TextStoredAsUtf8("a", "value", "doc");
  }
}
