/**
  The `AttributeProto` record and the checker's legality rule for it. An
  attribute has a name, an optional type tag and fourteen value fields; a
  singular field is in use when it is present, a repeated field when it has
  at least one entry.
 */
module Attributes {
  import opened Wrappers
  import opened AttrTypes

  /** Handles for the message values an attribute can carry. The model never
      looks inside them; they are compared as wholes. */
  datatype TensorRef = TensorRef(name: string)
  datatype SparseRef = SparseRef(id: nat)
  datatype GraphRef = GraphRef(name: string)
  datatype TypeRef = TypeRef(id: nat)

  /** An `AttributeProto`. `attrType` is the wire code of the `type` field
      when it is present; a caller may write any integer there. */
  datatype Attribute = Attribute(
    name: string,
    docString: string,
    attrType: Option<int>,
    f: Option<real>,
    i: Option<int>,
    s: Option<seq<bv8>>,
    t: Option<TensorRef>,
    g: Option<GraphRef>,
    sparseTensor: Option<SparseRef>,
    tp: Option<TypeRef>,
    floats: seq<real>,
    ints: seq<int>,
    strings: seq<seq<bv8>>,
    tensors: seq<TensorRef>,
    graphs: seq<GraphRef>,
    sparseTensors: seq<SparseRef>,
    typeProtos: seq<TypeRef>)

  /** A fresh `AttributeProto` with only its name and doc string set. */
  function Blank(name: string, docString: string): (a: Attribute)
    ensures a.name == name && a.docString == docString && a.attrType.None?
    ensures forall fd :: !IsSet(a, fd)
  {
    Attribute(name, docString, None, None, None, None, None, None, None, None, [], [], [], [], [], [], [])
  }

  /** Setting the type tag leaves the value fields alone. */
  function Retag(a: Attribute, code: int): (r: Attribute)
    ensures r.name == a.name && r.docString == a.docString && r.attrType == Some(code)
    ensures forall fd :: IsSet(r, fd) <==> IsSet(a, fd)
  {
    a.(attrType := Some(code))
  }

  /** Setting one singular field, or replacing the contents of one repeated
      field, leaves the other fields alone. */
  function WithF(a: Attribute, x: real): (r: Attribute)
    ensures r.name == a.name && r.docString == a.docString && r.attrType == a.attrType
    ensures r.f == Some(x) && IsSet(r, FieldF)
    ensures forall fd :: fd != FieldF ==> (IsSet(r, fd) <==> IsSet(a, fd))
  {
    a.(f := Some(x))
  }

  function WithI(a: Attribute, x: int): (r: Attribute)
    ensures r.name == a.name && r.docString == a.docString && r.attrType == a.attrType
    ensures r.i == Some(x) && IsSet(r, FieldI)
    ensures forall fd :: fd != FieldI ==> (IsSet(r, fd) <==> IsSet(a, fd))
  {
    a.(i := Some(x))
  }

  function WithS(a: Attribute, x: seq<bv8>): (r: Attribute)
    ensures r.name == a.name && r.docString == a.docString && r.attrType == a.attrType
    ensures r.s == Some(x) && IsSet(r, FieldS)
    ensures forall fd :: fd != FieldS ==> (IsSet(r, fd) <==> IsSet(a, fd))
  {
    a.(s := Some(x))
  }

  function WithT(a: Attribute, x: TensorRef): (r: Attribute)
    ensures r.name == a.name && r.docString == a.docString && r.attrType == a.attrType
    ensures r.t == Some(x) && IsSet(r, FieldT)
    ensures forall fd :: fd != FieldT ==> (IsSet(r, fd) <==> IsSet(a, fd))
  {
    a.(t := Some(x))
  }

  function WithG(a: Attribute, x: GraphRef): (r: Attribute)
    ensures r.name == a.name && r.docString == a.docString && r.attrType == a.attrType
    ensures r.g == Some(x) && IsSet(r, FieldG)
    ensures forall fd :: fd != FieldG ==> (IsSet(r, fd) <==> IsSet(a, fd))
  {
    a.(g := Some(x))
  }

  function WithSparseTensor(a: Attribute, x: SparseRef): (r: Attribute)
    ensures r.name == a.name && r.docString == a.docString && r.attrType == a.attrType
    ensures r.sparseTensor == Some(x) && IsSet(r, FieldSparseTensor)
    ensures forall fd :: fd != FieldSparseTensor ==> (IsSet(r, fd) <==> IsSet(a, fd))
  {
    a.(sparseTensor := Some(x))
  }

  function WithTp(a: Attribute, x: TypeRef): (r: Attribute)
    ensures r.name == a.name && r.docString == a.docString && r.attrType == a.attrType
    ensures r.tp == Some(x) && IsSet(r, FieldTp)
    ensures forall fd :: fd != FieldTp ==> (IsSet(r, fd) <==> IsSet(a, fd))
  {
    a.(tp := Some(x))
  }

  function WithInts(a: Attribute, xs: seq<int>): (r: Attribute)
    ensures r.name == a.name && r.docString == a.docString && r.attrType == a.attrType
    ensures r.ints == xs
    ensures forall fd :: fd != FieldInts ==> (IsSet(r, fd) <==> IsSet(a, fd))
    ensures IsSet(r, FieldInts) <==> |xs| > 0
  {
    a.(ints := xs)
  }

  function WithFloats(a: Attribute, xs: seq<real>): (r: Attribute)
    ensures r.name == a.name && r.docString == a.docString && r.attrType == a.attrType
    ensures r.floats == xs
    ensures forall fd :: fd != FieldFloats ==> (IsSet(r, fd) <==> IsSet(a, fd))
    ensures IsSet(r, FieldFloats) <==> |xs| > 0
  {
    a.(floats := xs)
  }

  function WithStrings(a: Attribute, xs: seq<seq<bv8>>): (r: Attribute)
    ensures r.name == a.name && r.docString == a.docString && r.attrType == a.attrType
    ensures r.strings == xs
    ensures forall fd :: fd != FieldStrings ==> (IsSet(r, fd) <==> IsSet(a, fd))
    ensures IsSet(r, FieldStrings) <==> |xs| > 0
  {
    a.(strings := xs)
  }

  function WithTensors(a: Attribute, xs: seq<TensorRef>): (r: Attribute)
    ensures r.name == a.name && r.docString == a.docString && r.attrType == a.attrType
    ensures r.tensors == xs
    ensures forall fd :: fd != FieldTensors ==> (IsSet(r, fd) <==> IsSet(a, fd))
    ensures IsSet(r, FieldTensors) <==> |xs| > 0
  {
    a.(tensors := xs)
  }

  function WithGraphs(a: Attribute, xs: seq<GraphRef>): (r: Attribute)
    ensures r.name == a.name && r.docString == a.docString && r.attrType == a.attrType
    ensures r.graphs == xs
    ensures forall fd :: fd != FieldGraphs ==> (IsSet(r, fd) <==> IsSet(a, fd))
    ensures IsSet(r, FieldGraphs) <==> |xs| > 0
  {
    a.(graphs := xs)
  }

  function WithSparseTensors(a: Attribute, xs: seq<SparseRef>): (r: Attribute)
    ensures r.name == a.name && r.docString == a.docString && r.attrType == a.attrType
    ensures r.sparseTensors == xs
    ensures forall fd :: fd != FieldSparseTensors ==> (IsSet(r, fd) <==> IsSet(a, fd))
    ensures IsSet(r, FieldSparseTensors) <==> |xs| > 0
  {
    a.(sparseTensors := xs)
  }

  function WithTypeProtos(a: Attribute, xs: seq<TypeRef>): (r: Attribute)
    ensures r.name == a.name && r.docString == a.docString && r.attrType == a.attrType
    ensures r.typeProtos == xs
    ensures forall fd :: fd != FieldTypeProtos ==> (IsSet(r, fd) <==> IsSet(a, fd))
    ensures IsSet(r, FieldTypeProtos) <==> |xs| > 0
  {
    a.(typeProtos := xs)
  }

  /** The fourteen value fields. */
  datatype Field =
    | FieldF | FieldI | FieldS | FieldT | FieldG | FieldSparseTensor | FieldTp
    | FieldFloats | FieldInts | FieldStrings | FieldTensors | FieldGraphs
    | FieldSparseTensors | FieldTypeProtos

  /** The type tag that goes with each field. */
  function FieldType(fd: Field): (t: AttrType)
    ensures t != Undefined
  {
    match fd
    case FieldF => Float
    case FieldI => Int
    case FieldS => String
    case FieldT => Tensor
    case FieldG => Graph
    case FieldSparseTensor => SparseTensor
    case FieldTp => TypeProto
    case FieldFloats => Floats
    case FieldInts => Ints
    case FieldStrings => Strings
    case FieldTensors => Tensors
    case FieldGraphs => Graphs
    case FieldSparseTensors => SparseTensors
    case FieldTypeProtos => TypeProtos
  }

  /** Whether a field is in use. */
  predicate IsSet(a: Attribute, fd: Field) {
    match fd
    case FieldF => a.f.Some?
    case FieldI => a.i.Some?
    case FieldS => a.s.Some?
    case FieldT => a.t.Some?
    case FieldG => a.g.Some?
    case FieldSparseTensor => a.sparseTensor.Some?
    case FieldTp => a.tp.Some?
    case FieldFloats => |a.floats| > 0
    case FieldInts => |a.ints| > 0
    case FieldStrings => |a.strings| > 0
    case FieldTensors => |a.tensors| > 0
    case FieldGraphs => |a.graphs| > 0
    case FieldSparseTensors => |a.sparseTensors| > 0
    case FieldTypeProtos => |a.typeProtos| > 0
  }

  /** A field in use agrees with the type tag unless the tag is absent. */
  predicate Agrees(a: Attribute, fd: Field) {
    a.attrType.None? || a.attrType.value == Code(FieldType(fd))
  }

  /** The order in which the checker visits the fields. */
  function CheckOrder(): seq<Field> {
    [FieldF, FieldI, FieldS, FieldT, FieldG, FieldSparseTensor, FieldTp,
     FieldFloats, FieldInts, FieldStrings, FieldTensors, FieldGraphs,
     FieldSparseTensors, FieldTypeProtos]
  }

  /** Where each field stands in `CheckOrder`. */
  function Position(fd: Field): (p: nat)
    ensures p < |CheckOrder()| && CheckOrder()[p] == fd
  {
    match fd
    case FieldF => 0
    case FieldI => 1
    case FieldS => 2
    case FieldT => 3
    case FieldG => 4
    case FieldSparseTensor => 5
    case FieldTp => 6
    case FieldFloats => 7
    case FieldInts => 8
    case FieldStrings => 9
    case FieldTensors => 10
    case FieldGraphs => 11
    case FieldSparseTensors => 12
    case FieldTypeProtos => 13
  }

  predicate Distinct(fs: seq<Field>) {
    forall j, k :: 0 <= j < k < |fs| ==> fs[j] != fs[k]
  }

  /** The checker visits every field exactly once. */
  lemma CheckOrderComplete()
    ensures forall fd :: fd in CheckOrder()
    ensures Distinct(CheckOrder())
  {
    var order := CheckOrder();
    forall fd
      ensures fd in order
    {
      assert order[Position(fd)] == fd;
    }
    forall j, k | 0 <= j < k < |order|
      ensures order[j] != order[k]
    {
      assert Position(order[j]) == j && Position(order[k]) == k;
    }
  }

  /** The fields of `fs` that are in use, in order. */
  function InUse(a: Attribute, fs: seq<Field>): (r: seq<Field>)
    ensures forall fd :: fd in r <==> fd in fs && IsSet(a, fd)
    ensures Distinct(fs) ==> Distinct(r)
    decreases |fs|
  {
    if |fs| == 0 then []
    else
      var rest := InUse(a, fs[1..]);
      assert Distinct(fs) ==> fs[0] !in fs[1..];
      if IsSet(a, fs[0]) then [fs[0]] + rest else rest
  }

  /** The first field of `fs` in use whose type disagrees with the tag. */
  function FirstDisagreeing(a: Attribute, fs: seq<Field>): (r: Option<Field>)
    ensures r.None? <==> forall k :: 0 <= k < |fs| && IsSet(a, fs[k]) ==> Agrees(a, fs[k])
    ensures r.Some? ==> r.value in fs && IsSet(a, r.value) && !Agrees(a, r.value)
    ensures r.Some? ==> exists j :: 0 <= j < |fs| && fs[j] == r.value
                          && forall k :: 0 <= k < j && IsSet(a, fs[k]) ==> Agrees(a, fs[k])
    decreases |fs|
  {
    if |fs| == 0 then None
    else if IsSet(a, fs[0]) && !Agrees(a, fs[0]) then Some(fs[0])
    else
      var rest := FirstDisagreeing(a, fs[1..]);
      assert forall k :: 1 <= k < |fs| ==> fs[k] == fs[1..][k - 1];
      if rest.Some? then
        var j :| 0 <= j < |fs[1..]| && fs[1..][j] == rest.value
                 && forall k :: 0 <= k < j && IsSet(a, fs[1..][k]) ==> Agrees(a, fs[1..][k]);
        assert fs[j + 1] == rest.value;
        rest
      else rest
  }

  datatype CheckError =
    | EmptyName
    | MissingType
    | FieldTypeMismatch(field: Field)
    | MoreThanOneField

  /** Only `fd` is in use, and the tag is `fd`'s type. */
  predicate Tagged(a: Attribute, fd: Field) {
    && a.attrType == Some(Code(FieldType(fd)))
    && forall g :: IsSet(a, g) ==> g == fd
  }

  /** The legality rule: a name, a type tag once the IR version is 2 or
      later, every field in use agreeing with the tag, and no two fields
      in use. */
  predicate Legal(a: Attribute, irVersion: int) {
    && a.name != ""
    && (irVersion >= 2 ==> a.attrType.Some?)
    && (forall fd :: IsSet(a, fd) ==> Agrees(a, fd))
    && (forall f1, f2 :: IsSet(a, f1) && IsSet(a, f2) ==> f1 == f2)
  }

  /** `check_attribute`: the name must be non-empty; from IR version 2 the
      type must be present; the fields are visited in order and the first one
      in use that disagrees with the type is reported; finally more than one
      field in use is reported. `None` means the attribute passes. */
  function CheckAttribute(a: Attribute, irVersion: int): (err: Option<CheckError>)
    ensures err.None? <==> Legal(a, irVersion)
    ensures err == Some(EmptyName) <==> a.name == ""
    ensures err == Some(MissingType) <==> a.name != "" && irVersion >= 2 && a.attrType.None?
    ensures err.Some? && err.value.FieldTypeMismatch? ==>
              IsSet(a, err.value.field) && !Agrees(a, err.value.field)
    ensures err == Some(MoreThanOneField) ==>
              && (forall fd :: IsSet(a, fd) ==> Agrees(a, fd))
              && exists f1, f2 :: f1 != f2 && IsSet(a, f1) && IsSet(a, f2)
  {
    CheckOrderComplete();
    if a.name == "" then Some(EmptyName)
    else if irVersion >= 2 && a.attrType.None? then Some(MissingType)
    else match FirstDisagreeing(a, CheckOrder())
      case Some(fd) => Some(FieldTypeMismatch(fd))
      case None =>
        var used := InUse(a, CheckOrder());
        AgreeEverywhere(a);
        AtMostOneInUse(a, used);
        if |used| > 1 then Some(MoreThanOneField) else None
  }

  /** Agreement over the checker's order is agreement over every field. */
  lemma AgreeEverywhere(a: Attribute)
    ensures (forall k :: 0 <= k < |CheckOrder()| && IsSet(a, CheckOrder()[k]) ==> Agrees(a, CheckOrder()[k]))
            <==> (forall fd :: IsSet(a, fd) ==> Agrees(a, fd))
  {
    CheckOrderComplete();
    var order := CheckOrder();
    if forall k :: 0 <= k < |order| && IsSet(a, order[k]) ==> Agrees(a, order[k]) {
      forall fd | IsSet(a, fd)
        ensures Agrees(a, fd)
      {
        assert order[Position(fd)] == fd;
      }
    }
  }

  /** A repetition-free list of exactly the fields in use has at most one
      entry iff no two distinct fields are in use. */
  lemma AtMostOneInUse(a: Attribute, used: seq<Field>)
    requires Distinct(used)
    requires forall fd :: fd in used <==> IsSet(a, fd)
    ensures |used| <= 1 <==> forall f1, f2 :: IsSet(a, f1) && IsSet(a, f2) ==> f1 == f2
    ensures |used| > 1 ==> IsSet(a, used[0]) && IsSet(a, used[1]) && used[0] != used[1]
  {
    if |used| <= 1 {
      forall f1, f2 | IsSet(a, f1) && IsSet(a, f2)
        ensures f1 == f2
      {
        assert f1 in used && f2 in used;
      }
    } else {
      assert used[0] in used && used[1] in used;
    }
  }

  /** Different fields go with different tags. */
  lemma FieldTypeInjective(f1: Field, f2: Field)
    requires Code(FieldType(f1)) == Code(FieldType(f2))
    ensures f1 == f2
  {
    CodeRoundTrip(FieldType(f1));
    CodeRoundTrip(FieldType(f2));
  }

  /** What the legality test's `_set` and `_extend` helpers do: put a sample
      value (a non-empty list for a repeated field) into one field and set
      the type to that field's tag. */
  function Populate(a: Attribute, fd: Field): (r: Attribute)
    ensures r.name == a.name && r.attrType == Some(Code(FieldType(fd)))
    ensures forall g :: IsSet(r, g) <==> g == fd || IsSet(a, g)
  {
    var b := Retag(a, Code(FieldType(fd)));
    match fd
    case FieldF => b.(f := Some(1.0))
    case FieldI => b.(i := Some(1))
    case FieldS => b.(s := Some([0x73, 0x74, 0x72]))
    case FieldT => b.(t := Some(TensorRef("t")))
    case FieldG => b.(g := Some(GraphRef("g")))
    case FieldSparseTensor => b.(sparseTensor := Some(SparseRef(0)))
    case FieldTp => b.(tp := Some(TypeRef(0)))
    case FieldFloats => b.(floats := [1.0, 2.0])
    case FieldInts => b.(ints := [1, 2])
    case FieldStrings => b.(strings := [[0x61], [0x62]])
    case FieldTensors => b.(tensors := [TensorRef("a"), TensorRef("b")])
    case FieldGraphs => b.(graphs := [GraphRef("a"), GraphRef("b")])
    case FieldSparseTensors => b.(sparseTensors := [SparseRef(0), SparseRef(1)])
    case FieldTypeProtos => b.(typeProtos := [TypeRef(0), TypeRef(1)])
  }

  /** A named attribute with one field populated the test's way is legal,
      whatever the IR version. */
  lemma OnePopulatedIsLegal(fd: Field, irVersion: int)
    ensures CheckAttribute(Populate(Blank("test", ""), fd), irVersion) == None
  {
    var a := Populate(Blank("test", ""), fd);
    forall f1, f2 | IsSet(a, f1) && IsSet(a, f2)
      ensures f1 == f2
    {
    }
    assert Legal(a, irVersion);
  }

  /** Populating two different fields one after the other is rejected: the
      tag now names the second field, so the first one is reported as
      disagreeing with it. */
  lemma TwoPopulatedAreIllegal(f1: Field, f2: Field, irVersion: int)
    requires f1 != f2
    ensures CheckAttribute(Populate(Populate(Blank("test", ""), f1), f2), irVersion)
            == Some(FieldTypeMismatch(f1))
  {
    SecondTagRejectsFirst(Populate(Populate(Blank("test", ""), f1), f2), f1, f2, irVersion);
  }

  /** A named attribute holding exactly two fields, tagged with the second
      one's type, is reported for the first. */
  lemma SecondTagRejectsFirst(a: Attribute, f1: Field, f2: Field, irVersion: int)
    requires f1 != f2 && a.name != ""
    requires a.attrType == Some(Code(FieldType(f2)))
    requires forall g :: IsSet(a, g) <==> g == f1 || g == f2
    ensures CheckAttribute(a, irVersion) == Some(FieldTypeMismatch(f1))
  {
    FirstDisagreeingIsFirst(a, f1, f2);
  }

  /** Of the two fields in use, only the first disagrees with the tag, so
      the checker's scan stops at it. */
  lemma FirstDisagreeingIsFirst(a: Attribute, f1: Field, f2: Field)
    requires f1 != f2
    requires a.attrType == Some(Code(FieldType(f2)))
    requires forall g :: IsSet(a, g) <==> g == f1 || g == f2
    ensures FirstDisagreeing(a, CheckOrder()) == Some(f1)
  {
    if Agrees(a, f1) {
      FieldTypeInjective(f1, f2);
    }
    CheckOrderComplete();
    OnlyDisagreeing(a, CheckOrder(), f1);
  }

  /** When a single field in use disagrees with the tag, any scan that
      visits it reports it. */
  lemma OnlyDisagreeing(a: Attribute, fs: seq<Field>, fd: Field)
    requires fd in fs && IsSet(a, fd) && !Agrees(a, fd)
    requires forall g :: IsSet(a, g) && !Agrees(a, g) ==> g == fd
    ensures FirstDisagreeing(a, fs) == Some(fd)
  {
    var k :| 0 <= k < |fs| && fs[k] == fd;
    assert IsSet(a, fs[k]) && !Agrees(a, fs[k]);
  }

  /** The hand-written cases: an unnamed attribute, a named one with no
      field and no type, and one with both `f` and `i` set and no type.
      Before IR version 2, where the type may be absent, the last is still
      rejected for holding two values. */
  lemma HandWrittenCases(irVersion: int)
    requires irVersion >= 2
    ensures CheckAttribute(Blank("", ""), irVersion) == Some(EmptyName)
    ensures CheckAttribute(Blank("test", ""), irVersion) == Some(MissingType)
    ensures CheckAttribute(Blank("test", "").(f := Some(1.0), i := Some(2)), irVersion) == Some(MissingType)
    ensures CheckAttribute(Blank("test", "").(f := Some(1.0), i := Some(2)), 1) == Some(MoreThanOneField)
  {
    var a := Blank("test", "").(f := Some(1.0), i := Some(2));
    assert IsSet(a, FieldF) && IsSet(a, FieldI);
  }
}
