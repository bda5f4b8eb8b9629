/**
  The attribute type tags of `AttributeProto.AttributeType`, their wire
  codes and their names, and the total code-to-name function that names
  every unknown code "UNDEFINED".
 */
module AttrTypes {
  import opened Wrappers

  datatype AttrType =
    | Undefined | Float | Int | String | Tensor | Graph
    | Floats | Ints | Strings | Tensors | Graphs
    | SparseTensor | SparseTensors | TypeProto | TypeProtos

  /** The wire code of each tag. */
  function Code(t: AttrType): (c: nat)
    ensures c < 15
  {
    match t
    case Undefined => 0
    case Float => 1
    case Int => 2
    case String => 3
    case Tensor => 4
    case Graph => 5
    case Floats => 6
    case Ints => 7
    case Strings => 8
    case Tensors => 9
    case Graphs => 10
    case SparseTensor => 11
    case SparseTensors => 12
    case TypeProto => 13
    case TypeProtos => 14
  }

  /** The tag with a given wire code, if the code is one of the enum's values. */
  function FromCode(c: int): (r: Option<AttrType>)
    ensures r.Some? <==> 0 <= c < 15
    ensures r.Some? ==> Code(r.value) == c
  {
    if c == 0 then Some(Undefined)
    else if c == 1 then Some(Float)
    else if c == 2 then Some(Int)
    else if c == 3 then Some(String)
    else if c == 4 then Some(Tensor)
    else if c == 5 then Some(Graph)
    else if c == 6 then Some(Floats)
    else if c == 7 then Some(Ints)
    else if c == 8 then Some(Strings)
    else if c == 9 then Some(Tensors)
    else if c == 10 then Some(Graphs)
    else if c == 11 then Some(SparseTensor)
    else if c == 12 then Some(SparseTensors)
    else if c == 13 then Some(TypeProto)
    else if c == 14 then Some(TypeProtos)
    else None
  }

  /** Reading a tag's own code gives the tag back, so codes are distinct. */
  lemma {:induction false} CodeRoundTrip(t: AttrType)
    ensures FromCode(Code(t)) == Some(t)
  {
    match t
    case Undefined =>
    case Float =>
    case Int =>
    case String =>
    case Tensor =>
    case Graph =>
    case Floats =>
    case Ints =>
    case Strings =>
    case Tensors =>
    case Graphs =>
    case SparseTensor =>
    case SparseTensors =>
    case TypeProto =>
    case TypeProtos =>
  }

  /** The enum's name for each tag. */
  function Name(t: AttrType): string {
    match t
    case Undefined => "UNDEFINED"
    case Float => "FLOAT"
    case Int => "INT"
    case String => "STRING"
    case Tensor => "TENSOR"
    case Graph => "GRAPH"
    case Floats => "FLOATS"
    case Ints => "INTS"
    case Strings => "STRINGS"
    case Tensors => "TENSORS"
    case Graphs => "GRAPHS"
    case SparseTensor => "SPARSE_TENSOR"
    case SparseTensors => "SPARSE_TENSORS"
    case TypeProto => "TYPE_PROTO"
    case TypeProtos => "TYPE_PROTOS"
  }

  /** The tag an enum name stands for, if any. */
  function ParseName(s: string): Option<AttrType> {
    if s == "UNDEFINED" then Some(Undefined)
    else if s == "FLOAT" then Some(Float)
    else if s == "INT" then Some(Int)
    else if s == "STRING" then Some(String)
    else if s == "TENSOR" then Some(Tensor)
    else if s == "GRAPH" then Some(Graph)
    else if s == "FLOATS" then Some(Floats)
    else if s == "INTS" then Some(Ints)
    else if s == "STRINGS" then Some(Strings)
    else if s == "TENSORS" then Some(Tensors)
    else if s == "GRAPHS" then Some(Graphs)
    else if s == "SPARSE_TENSOR" then Some(SparseTensor)
    else if s == "SPARSE_TENSORS" then Some(SparseTensors)
    else if s == "TYPE_PROTO" then Some(TypeProto)
    else if s == "TYPE_PROTOS" then Some(TypeProtos)
    else None
  }

  /** Names are read back as the tag they name, so no two tags share one. */
  lemma {:induction false} NameRoundTrip(t: AttrType)
    ensures ParseName(Name(t)) == Some(t)
  {
    match t
    case Undefined =>
    case Float =>
    case Int =>
    case String =>
    case Tensor =>
    case Graph =>
    case Floats =>
    case Ints =>
    case Strings =>
    case Tensors =>
    case Graphs =>
    case SparseTensor =>
    case SparseTensors =>
    case TypeProto =>
    case TypeProtos =>
  }

  /** `_attr_type_to_str`: the enum name of a known code, "UNDEFINED" for
      any other integer. The name identifies the code, and only code 0 and
      unknown codes are called "UNDEFINED". */
  function TypeName(code: int): (s: string)
    ensures 0 <= code < 15 ==> ParseName(s) == FromCode(code)
    ensures s == "UNDEFINED" <==> !(1 <= code < 15)
  {
    match FromCode(code)
    case Some(t) => NameRoundTrip(t); Name(t)
    case None => "UNDEFINED"
  }
}
