/**
  The input part of a graph's printable form. Graph inputs are split into
  required inputs and optional inputs that have an initializer of the same
  name supplying a default; initializers that match no input are listed in a
  section of their own. Dimensions print as their value, their symbolic
  name, or "?" when neither is known.
 */
module Printable {
  import opened Wrappers

  /** One dimension of a shape: a known size, a symbolic name, or nothing. */
  datatype Dim = DimValue(size: nat) | DimParam(param: string) | DimUnknown

  /** A tensor value info: a name, the element type's name and, when the
      shape field is present, its dimensions. */
  datatype ValueInfo = ValueInfo(name: string, elemType: string, shape: Option<seq<Dim>>)

  /** An initializer: a name, the element type's name and its dimensions. */
  datatype Initializer = Initializer(name: string, elemType: string, dims: seq<nat>)

  function DigitChar(d: nat): (c: char)
    requires d < 10
    ensures '0' <= c <= '9' && (c as int) - ('0' as int) == d
  {
    (('0' as int) + d) as char
  }

  /** Decimal notation of a natural number, without leading zeros. */
  function NatText(n: nat): (s: string)
    ensures 0 < |s|
    ensures forall i :: 0 <= i < |s| ==> '0' <= s[i] <= '9'
    ensures n < 10 <==> |s| == 1
    ensures |s| > 1 ==> s[0] != '0'
    decreases n
  {
    if n < 10 then [DigitChar(n)] else NatText(n / 10) + [DigitChar(n % 10)]
  }

  /** The value of a string of decimal digits. */
  function ParseNat(s: string): (n: nat)
    requires forall i :: 0 <= i < |s| ==> '0' <= s[i] <= '9'
    decreases |s|
  {
    if |s| == 0 then 0
    else 10 * ParseNat(s[..|s| - 1]) + ((s[|s| - 1] as int) - ('0' as int))
  }

  /** Reading the decimal text of a number gives the number back. */
  lemma {:induction false} ParseNatText(n: nat)
    ensures ParseNat(NatText(n)) == n
    decreases n
  {
    var s := NatText(n);
    if n >= 10 {
      assert s[..|s| - 1] == NatText(n / 10);
      ParseNatText(n / 10);
    }
  }

  /** Distinct numbers have distinct texts. */
  lemma NatTextInjective(a: nat, b: nat)
    requires NatText(a) == NatText(b)
    ensures a == b
  {
    ParseNatText(a);
    ParseNatText(b);
  }

  /** A dimension's text: its size, its symbolic name, or "?" when unset. */
  function DimText(d: Dim): (s: string)
    ensures d.DimUnknown? ==> s == "?"
    ensures d.DimParam? ==> s == d.param
    ensures d.DimValue? ==> (forall i :: 0 <= i < |s| ==> '0' <= s[i] <= '9') && ParseNat(s) == d.size
  {
    match d
    case DimValue(n) => ParseNatText(n); NatText(n)
    case DimParam(p) => p
    case DimUnknown => "?"
  }

  /** Dimension texts joined with "x", as in "1x2". */
  function JoinDims(parts: seq<string>): (s: string)
    ensures |parts| == 1 ==> s == parts[0]
    decreases |parts|
  {
    if |parts| == 0 then ""
    else if |parts| == 1 then parts[0]
    else parts[0] + "x" + JoinDims(parts[1..])
  }

  /** The pieces of a text between its "x" separators. */
  function SplitX(s: string): (parts: seq<string>)
    ensures |parts| > 0
    decreases |s|
  {
    if |s| == 0 then [""]
    else
      var rest := SplitX(s[1..]);
      if s[0] == 'x' then [""] + rest
      else [[s[0]] + rest[0]] + rest[1..]
  }

  /** A text without the separator "x". */
  predicate NoX(p: string) {
    forall i :: 0 <= i < |p| ==> p[i] != 'x'
  }

  /** A separator-free prefix becomes the start of the first piece. */
  lemma {:induction false} SplitNoX(p: string, tail: string)
    requires NoX(p)
    ensures SplitX(p + tail) == [p + SplitX(tail)[0]] + SplitX(tail)[1..]
    decreases |p|
  {
    if |p| == 0 {
      var parts := SplitX(tail);
      assert p + tail == tail && p + parts[0] == parts[0];
      assert [parts[0]] + parts[1..] == parts;
    } else {
      assert (p + tail)[0] == p[0] && (p + tail)[1..] == p[1..] + tail;
      assert p[0] != 'x';
      SplitNoX(p[1..], tail);
      var rest := SplitX(p[1..] + tail);
      assert rest[0] == p[1..] + SplitX(tail)[0] && rest[1..] == SplitX(tail)[1..];
      assert [p[0]] + (p[1..] + SplitX(tail)[0]) == p + SplitX(tail)[0];
    }
  }

  /** Splitting joined separator-free texts gives them back. */
  lemma {:induction false} SplitJoinDims(parts: seq<string>)
    requires |parts| > 0
    requires forall k :: 0 <= k < |parts| ==> NoX(parts[k])
    ensures SplitX(JoinDims(parts)) == parts
    decreases |parts|
  {
    if |parts| == 1 {
      SplitNoX(parts[0], "");
      assert SplitX("") == [""];
      assert parts[0] + "" == parts[0];
    } else {
      var rest := JoinDims(parts[1..]);
      SplitJoinDims(parts[1..]);
      assert JoinDims(parts) == parts[0] + ("x" + rest);
      SplitNoX(parts[0], "x" + rest);
      assert ("x" + rest)[0] == 'x' && ("x" + rest)[1..] == rest;
      assert SplitX("x" + rest) == [""] + parts[1..];
      assert parts[0] + "" == parts[0];
      assert parts == [parts[0]] + parts[1..];
    }
  }

  /** Tokens joined with single spaces. */
  function JoinSpace(parts: seq<string>): string
    decreases |parts|
  {
    if |parts| == 0 then ""
    else if |parts| == 1 then parts[0]
    else parts[0] + " " + JoinSpace(parts[1..])
  }

  /** The shape suffix: ", " and the dimensions joined with "x", or
      ", scalar" for rank 0. */
  function ShapeSuffix(dims: seq<string>): (s: string)
    ensures |dims| == 0 ==> s == ", scalar"
    ensures |dims| > 0 ==> s == ", " + JoinDims(dims)
  {
    if |dims| == 0 then ", scalar" else ", " + JoinDims(dims)
  }

  function DimTexts(shape: seq<Dim>): (ts: seq<string>)
    ensures |ts| == |shape| && forall k :: 0 <= k < |shape| ==> ts[k] == DimText(shape[k])
  {
    seq(|shape|, k requires 0 <= k < |shape| => DimText(shape[k]))
  }

  function SizeTexts(dims: seq<nat>): (ts: seq<string>)
    ensures |ts| == |dims| && forall k :: 0 <= k < |dims| ==> ts[k] == NatText(dims[k])
  {
    seq(|dims|, k requires 0 <= k < |dims| => NatText(dims[k]))
  }

  /** The printed dimensions of a non-empty shape read back as the sizes:
      the pieces between the "x" separators are the sizes' decimal texts. */
  lemma ShapeReadsBack(dims: seq<nat>)
    requires |dims| > 0
    ensures var parts := SplitX(JoinDims(SizeTexts(dims)));
            |parts| == |dims| && forall k :: 0 <= k < |dims| ==>
              (forall i :: 0 <= i < |parts[k]| ==> '0' <= parts[k][i] <= '9') && ParseNat(parts[k]) == dims[k]
  {
    var ts := SizeTexts(dims);
    forall k | 0 <= k < |ts| ensures NoX(ts[k]) {
      assert forall i :: 0 <= i < |ts[k]| ==> '0' <= ts[k][i] <= '9';
    }
    SplitJoinDims(ts);
    forall k | 0 <= k < |dims| ensures ParseNat(ts[k]) == dims[k] {
      ParseNatText(dims[k]);
    }
  }

  /** "%name[TYPE, d1xd2]", without the shape part when there is no shape. */
  function ValueInfoText(v: ValueInfo): (s: string)
    ensures v.shape.Some? ==> s == "%" + v.name + "[" + v.elemType + ShapeSuffix(DimTexts(v.shape.value)) + "]"
    ensures v.shape.None? ==> s == "%" + v.name + "[" + v.elemType + "]"
  {
    var suffix := match v.shape case Some(dims) => ShapeSuffix(DimTexts(dims)) case None => "";
    "%" + v.name + "[" + v.elemType + suffix + "]"
  }

  /** "%name[TYPE, d1xd2]" for an initializer. */
  function InitializerText(t: Initializer): (s: string)
    ensures s == "%" + t.name + "[" + t.elemType + ShapeSuffix(SizeTexts(t.dims)) + "]"
  {
    "%" + t.name + "[" + t.elemType + ShapeSuffix(SizeTexts(t.dims)) + "]"
  }

  /** The distinct names among a list of names. */
  function NameSet(names: seq<string>): (r: set<string>)
    ensures forall n :: n in r <==> n in names
  {
    set k | 0 <= k < |names| :: names[k]
  }

  function InitializerNames(inits: seq<Initializer>): (names: set<string>)
    ensures forall n :: n in names <==> exists k :: 0 <= k < |inits| && inits[k].name == n
  {
    var ns := seq(|inits|, k requires 0 <= k < |inits| => inits[k].name);
    assert forall k :: 0 <= k < |inits| ==> ns[k] == inits[k].name;
    NameSet(ns)
  }

  function InputNames(inputs: seq<ValueInfo>): (names: set<string>)
    ensures forall n :: n in names <==> exists k :: 0 <= k < |inputs| && inputs[k].name == n
  {
    var ns := seq(|inputs|, k requires 0 <= k < |inputs| => inputs[k].name);
    assert forall k :: 0 <= k < |inputs| ==> ns[k] == inputs[k].name;
    NameSet(ns)
  }

  /** The inputs no initializer provides a default for, in graph order. */
  function Required(inputs: seq<ValueInfo>, initNames: set<string>): (r: seq<ValueInfo>)
    ensures forall v :: v in r <==> v in inputs && v.name !in initNames
    decreases |inputs|
  {
    if |inputs| == 0 then []
    else if inputs[0].name in initNames then Required(inputs[1..], initNames)
    else [inputs[0]] + Required(inputs[1..], initNames)
  }

  /** The inputs an initializer of the same name provides a default for. */
  function Defaulted(inputs: seq<ValueInfo>, initNames: set<string>): (r: seq<ValueInfo>)
    ensures forall v :: v in r <==> v in inputs && v.name in initNames
    decreases |inputs|
  {
    if |inputs| == 0 then []
    else if inputs[0].name in initNames then [inputs[0]] + Defaulted(inputs[1..], initNames)
    else Defaulted(inputs[1..], initNames)
  }

  /** The initializers that no graph input names, in graph order. */
  function Unmatched(inits: seq<Initializer>, inputNames: set<string>): (r: seq<Initializer>)
    ensures forall t :: t in r <==> t in inits && t.name !in inputNames
    decreases |inits|
  {
    if |inits| == 0 then []
    else if inits[0].name in inputNames then Unmatched(inits[1..], inputNames)
    else [inits[0]] + Unmatched(inits[1..], inputNames)
  }

  /** Every input lands in exactly one of the two input sections. */
  lemma {:induction false} InputsPartition(inputs: seq<ValueInfo>, initNames: set<string>)
    ensures |Required(inputs, initNames)| + |Defaulted(inputs, initNames)| == |inputs|
    ensures multiset(Required(inputs, initNames)) + multiset(Defaulted(inputs, initNames)) == multiset(inputs)
    decreases |inputs|
  {
    if |inputs| > 0 {
      InputsPartition(inputs[1..], initNames);
      assert inputs == [inputs[0]] + inputs[1..];
    }
  }

  function Indented(texts: seq<string>): (lines: seq<string>)
    ensures |lines| == |texts| && forall k :: 0 <= k < |texts| ==> lines[k] == "  " + texts[k]
  {
    seq(|texts|, k requires 0 <= k < |texts| => "  " + texts[k])
  }

  function ValueInfoTexts(vs: seq<ValueInfo>): (ts: seq<string>)
    ensures |ts| == |vs| && forall k :: 0 <= k < |vs| ==> ts[k] == ValueInfoText(vs[k])
  {
    seq(|vs|, k requires 0 <= k < |vs| => ValueInfoText(vs[k]))
  }

  function InitializerTexts(ts: seq<Initializer>): (xs: seq<string>)
    ensures |xs| == |ts| && forall k :: 0 <= k < |ts| ==> xs[k] == InitializerText(ts[k])
  {
    seq(|ts|, k requires 0 <= k < |ts| => InitializerText(ts[k]))
  }

  /** Titles of the two sections after the required inputs. */
  const OptionalTitle := "optional inputs with matching initializers ("
  const InitializersTitle := "initializers ("

  /** The lines printed so far and the header tokens still pending. */
  datatype Layout = Layout(lines: seq<string>, header: seq<string>)

  /** The opening "graph name (" and the required inputs, one per line. */
  function RequiredSection(graphName: string, req: seq<ValueInfo>): (out: Layout)
    ensures forall v :: v in req ==> "  " + ValueInfoText(v) in out.lines
    ensures |req| == 0 <==> out.lines == []
  {
    if |req| == 0 then Layout([], ["graph", graphName, "(", ")"])
    else
      var entries := Indented(ValueInfoTexts(req));
      assert forall k :: 0 <= k < |req| ==> entries[k] == "  " + ValueInfoText(req[k]);
      Layout([JoinSpace(["graph", graphName, "("])] + entries, [")"])
  }

  /** A titled section: the pending header and the title on one line, then
      the entries, one per line; ")" is left pending. */
  function Section(before: Layout, title: string, entries: seq<string>): (out: Layout)
    ensures |out.lines| == |before.lines| + 1 + |entries|
    ensures out.lines[..|before.lines|] == before.lines
    ensures forall k :: 0 <= k < |entries| ==> out.lines[|before.lines| + 1 + k] == "  " + entries[k]
    ensures out.header == [")"]
  {
    Layout(before.lines + [JoinSpace(before.header + [title])] + Indented(entries), [")"])
  }

  /** The input part of `printable_graph`: required inputs, then inputs with
      a matching initializer, then initializers without a matching input. The
      last section is shown when there are fewer defaulted inputs than
      distinct initializer names. A graph without inputs prints none of it. */
  function InputPart(graphName: string, inputs: seq<ValueInfo>, inits: seq<Initializer>): (out: Layout)
    ensures |inputs| == 0 ==> out.lines == []
    ensures forall v :: v in inputs ==> "  " + ValueInfoText(v) in out.lines
    ensures |Defaulted(inputs, InitializerNames(inits))| < |InitializerNames(inits)| && |inputs| > 0 ==>
              forall t :: t in inits && t.name !in InputNames(inputs) ==> "  " + InitializerText(t) in out.lines
  {
    if |inputs| == 0 then Layout([], ["graph", graphName])
    else
      var initNames := InitializerNames(inits);
      var opt := Defaulted(inputs, initNames);
      var afterRequired := RequiredSection(graphName, Required(inputs, initNames));
      var afterOptional := OptionalSection(afterRequired, opt);
      if |opt| < |initNames| then
        var free := Unmatched(inits, InputNames(inputs));
        var out := Section(afterOptional, InitializersTitle, InitializerTexts(free));
        PrefixKept(afterOptional.lines, out.lines);
        assert forall t :: t in free ==> "  " + InitializerText(t) in out.lines by {
          forall t | t in free ensures "  " + InitializerText(t) in out.lines {
            var k :| 0 <= k < |free| && free[k] == t;
            assert out.lines[|afterOptional.lines| + 1 + k] == "  " + InitializerTexts(free)[k];
          }
        }
        out
      else afterOptional
  }

  /** The section for inputs with a default, when there are any. */
  function OptionalSection(before: Layout, opt: seq<ValueInfo>): (out: Layout)
    ensures forall x :: x in before.lines ==> x in out.lines
    ensures forall v :: v in opt ==> "  " + ValueInfoText(v) in out.lines
  {
    if |opt| > 0 then
      var out := Section(before, OptionalTitle, ValueInfoTexts(opt));
      PrefixKept(before.lines, out.lines);
      assert forall v :: v in opt ==> "  " + ValueInfoText(v) in out.lines by {
        forall v | v in opt ensures "  " + ValueInfoText(v) in out.lines {
          var k :| 0 <= k < |opt| && opt[k] == v;
          assert out.lines[|before.lines| + 1 + k] == "  " + ValueInfoTexts(opt)[k];
        }
      }
      out
    else before
  }

  /** `line` ends with `suffix`. */
  predicate EndsWith(line: string, suffix: string) {
    |suffix| <= |line| && line[|line| - |suffix|..] == suffix
  }

  /** Tokens joined with spaces end with the last token. */
  lemma {:induction false} JoinSpaceEnds(parts: seq<string>)
    requires |parts| > 0
    ensures EndsWith(JoinSpace(parts), parts[|parts| - 1])
    decreases |parts|
  {
    if |parts| > 1 {
      JoinSpaceEnds(parts[1..]);
      var rest := JoinSpace(parts[1..]);
      var last := parts[|parts| - 1];
      assert parts[1..][|parts[1..]| - 1] == last;
      var whole := parts[0] + " " + rest;
      assert whole == JoinSpace(parts);
      assert whole[|whole| - |last|..] == rest[|rest| - |last|..];
    }
  }

  /** A section's first line ends with its title. */
  lemma SectionTitled(before: Layout, title: string, entries: seq<string>)
    ensures EndsWith(Section(before, title, entries).lines[|before.lines|], title)
  {
    JoinSpaceEnds(before.header + [title]);
  }

  /** A non-empty required section: the opening line, then one line per
      required input in graph order. */
  lemma RequiredLayout(g: string, req: seq<ValueInfo>)
    requires |req| > 0
    ensures var out := RequiredSection(g, req);
            && |out.lines| == 1 + |req| && out.header == [")"]
            && out.lines[0] == JoinSpace(["graph", g, "("])
            && forall k :: 0 <= k < |req| ==> out.lines[1 + k] == "  " + ValueInfoText(req[k])
  {
  }

  /** A non-empty optional section: the earlier lines, a line ending with its
      title, then one line per defaulted input in graph order. */
  lemma OptionalLayout(before: Layout, opt: seq<ValueInfo>)
    requires |opt| > 0
    ensures var out := OptionalSection(before, opt);
            && |out.lines| == |before.lines| + 1 + |opt| && out.header == [")"]
            && out.lines[..|before.lines|] == before.lines
            && EndsWith(out.lines[|before.lines|], OptionalTitle)
            && forall k :: 0 <= k < |opt| ==> out.lines[|before.lines| + 1 + k] == "  " + ValueInfoText(opt[k])
  {
    SectionTitled(before, OptionalTitle, ValueInfoTexts(opt));
  }

  /** Where the optional section starts: line 0 when no input is required,
      otherwise after the opening line and the required inputs. */
  function OptionalAt(req: seq<ValueInfo>): nat {
    if |req| == 0 then 0 else 1 + |req|
  }

  /** Where the initializers section starts: after the optional section,
      when there is one. */
  function InitializersAt(req: seq<ValueInfo>, opt: seq<ValueInfo>): nat {
    if |opt| == 0 then OptionalAt(req) else OptionalAt(req) + 1 + |opt|
  }

  /** `o` holds the first two sections and nothing more: the required inputs
      after the opening line, then a line ending with the optional title and
      the defaulted inputs, each in graph order. */
  predicate TwoLaidOut(o: Layout, req: seq<ValueInfo>, opt: seq<ValueInfo>) {
    && |o.lines| == InitializersAt(req, opt)
    && (forall k :: 0 <= k < |req| ==> o.lines[1 + k] == "  " + ValueInfoText(req[k]))
    && (|opt| > 0 ==> EndsWith(o.lines[OptionalAt(req)], OptionalTitle))
    && (forall k :: 0 <= k < |opt| ==> o.lines[OptionalAt(req) + 1 + k] == "  " + ValueInfoText(opt[k]))
  }

  /** `out` holds the first two sections and, when `shown`, a line ending
      with the initializers title and the unmatched initializers in order,
      and nothing more. */
  predicate LaidOut(out: Layout, req: seq<ValueInfo>, opt: seq<ValueInfo>, free: seq<Initializer>, shown: bool) {
    var at := InitializersAt(req, opt);
    && |out.lines| == (if shown then at + 1 + |free| else at)
    && (forall k :: 0 <= k < |req| ==> out.lines[1 + k] == "  " + ValueInfoText(req[k]))
    && (|opt| > 0 ==> EndsWith(out.lines[OptionalAt(req)], OptionalTitle))
    && (forall k :: 0 <= k < |opt| ==> out.lines[OptionalAt(req) + 1 + k] == "  " + ValueInfoText(opt[k]))
    && (shown ==> EndsWith(out.lines[at], InitializersTitle))
    && (shown ==> forall k :: 0 <= k < |free| ==> out.lines[at + 1 + k] == "  " + InitializerText(free[k]))
  }

  /** `r` holds the opening line and the required inputs in graph order,
      or nothing when no input is required. */
  predicate OneLaidOut(r: Layout, req: seq<ValueInfo>) {
    && |r.lines| == OptionalAt(req)
    && (forall k :: 0 <= k < |req| ==> r.lines[1 + k] == "  " + ValueInfoText(req[k]))
  }

  /** The required section is laid out in order. */
  lemma RequiredLaidOut(g: string, req: seq<ValueInfo>)
    ensures OneLaidOut(RequiredSection(g, req), req)
  {
    if |req| > 0 {
      RequiredLayout(g, req);
    }
  }

  /** Appending a non-empty optional section keeps the required one in place. */
  lemma OptionalLaidOut(r: Layout, req: seq<ValueInfo>, opt: seq<ValueInfo>)
    requires OneLaidOut(r, req) && |opt| > 0
    ensures TwoLaidOut(OptionalSection(r, opt), req, opt)
  {
    OptionalLayout(r, opt);
    var o := OptionalSection(r, opt);
    assert forall k :: 0 <= k < |r.lines| ==> o.lines[k] == r.lines[k] by {
      assert o.lines[..|r.lines|] == r.lines;
    }
  }

  /** The required and optional sections are laid out in order. */
  lemma FirstTwoLayout(g: string, req: seq<ValueInfo>, opt: seq<ValueInfo>)
    ensures TwoLaidOut(OptionalSection(RequiredSection(g, req), opt), req, opt)
  {
    var r := RequiredSection(g, req);
    RequiredLaidOut(g, req);
    if |opt| > 0 {
      OptionalLaidOut(r, req, opt);
    } else {
      assert OptionalSection(r, opt) == r;
    }
  }

  /** Appending the initializers section keeps the first two in place. */
  lemma ThirdLayout(o: Layout, req: seq<ValueInfo>, opt: seq<ValueInfo>, free: seq<Initializer>)
    requires TwoLaidOut(o, req, opt)
    ensures LaidOut(Section(o, InitializersTitle, InitializerTexts(free)), req, opt, free, true)
  {
    var texts := InitializerTexts(free);
    var out := Section(o, InitializersTitle, texts);
    var at := InitializersAt(req, opt);
    SectionTitled(o, InitializersTitle, texts);
    assert |o.lines| == at && |out.lines| == at + 1 + |free|;
    assert forall k :: 0 <= k < at ==> out.lines[k] == o.lines[k] by {
      assert out.lines[..|o.lines|] == o.lines;
    }
    forall k | 0 <= k < |free|
      ensures out.lines[at + 1 + k] == "  " + InitializerText(free[k])
    {
      assert out.lines[at + 1 + k] == "  " + texts[k];
    }
  }

  /** The three sections put together, the last one only when shown. */
  function Assembled(g: string, req: seq<ValueInfo>, opt: seq<ValueInfo>, free: seq<Initializer>, shown: bool): Layout {
    var o := OptionalSection(RequiredSection(g, req), opt);
    if shown then Section(o, InitializersTitle, InitializerTexts(free)) else o
  }

  /** The assembled sections are laid out in order. */
  lemma AssembledLayout(g: string, req: seq<ValueInfo>, opt: seq<ValueInfo>, free: seq<Initializer>, shown: bool)
    ensures LaidOut(Assembled(g, req, opt, free, shown), req, opt, free, shown)
  {
    var o := OptionalSection(RequiredSection(g, req), opt);
    FirstTwoLayout(g, req, opt);
    if shown {
      ThirdLayout(o, req, opt, free);
    }
  }

  /** A graph with inputs prints its three sections assembled. */
  lemma InputPartAssembled(g: string, inputs: seq<ValueInfo>, inits: seq<Initializer>)
    requires |inputs| > 0
    ensures var names := InitializerNames(inits);
            var opt := Defaulted(inputs, names);
            InputPart(g, inputs, inits)
            == Assembled(g, Required(inputs, names), opt, Unmatched(inits, InputNames(inputs)), |opt| < |names|)
  {
  }

  /** Where each entry of the input part is printed: the required inputs
      right after the opening line, then a line ending with the optional
      title and the defaulted inputs, then, when that section is shown, a
      line ending with the initializers title and the unmatched
      initializers; each list in graph order and nothing else printed. */
  lemma InputPartLayout(g: string, inputs: seq<ValueInfo>, inits: seq<Initializer>)
    requires |inputs| > 0
    ensures var names := InitializerNames(inits);
            var opt := Defaulted(inputs, names);
            LaidOut(InputPart(g, inputs, inits), Required(inputs, names), opt,
                    Unmatched(inits, InputNames(inputs)), |opt| < |names|)
  {
    var names := InitializerNames(inits);
    var opt := Defaulted(inputs, names);
    InputPartAssembled(g, inputs, inits);
    AssembledLayout(g, Required(inputs, names), opt, Unmatched(inits, InputNames(inputs)), |opt| < |names|);
  }

  /** Lines printed before a section stay printed. */
  lemma PrefixKept(before: seq<string>, after: seq<string>)
    requires |before| <= |after| && after[..|before|] == before
    ensures forall x :: x in before ==> x in after
  {
    forall x | x in before ensures x in after {
      var k :| 0 <= k < |before| && before[k] == x;
      assert after[k] == x;
    }
  }

  /** No two graph inputs share a name, as single static assignment demands. */
  predicate DistinctNames(inputs: seq<ValueInfo>) {
    forall i, j :: 0 <= i < j < |inputs| ==> inputs[i].name != inputs[j].name
  }

  /** The names of a non-empty input list: the first name and the rest's,
      the first not among the rest's when names are distinct. */
  lemma NamesSplit(inputs: seq<ValueInfo>)
    requires |inputs| > 0 && DistinctNames(inputs)
    ensures DistinctNames(inputs[1..])
    ensures InputNames(inputs) == {inputs[0].name} + InputNames(inputs[1..])
    ensures inputs[0].name !in InputNames(inputs[1..])
  {
    var rest := inputs[1..];
    forall i, j | 0 <= i < j < |rest| ensures rest[i].name != rest[j].name {
      assert rest[i] == inputs[i + 1] && rest[j] == inputs[j + 1];
    }
    forall n | n in InputNames(inputs) ensures n in {inputs[0].name} + InputNames(rest) {
      var k :| 0 <= k < |inputs| && inputs[k].name == n;
      if k > 0 { assert rest[k - 1] == inputs[k]; }
    }
    forall n | n in InputNames(rest) ensures n in InputNames(inputs) {
      var k :| 0 <= k < |rest| && rest[k].name == n;
      assert inputs[k + 1] == rest[k];
    }
    forall k | 0 <= k < |rest| ensures rest[k].name != inputs[0].name {
      assert rest[k] == inputs[k + 1];
    }
  }

  /** With distinct input names, each defaulted input accounts for exactly
      one initializer name. */
  lemma {:induction false} DefaultedCount(inputs: seq<ValueInfo>, initNames: set<string>)
    requires DistinctNames(inputs)
    ensures |Defaulted(inputs, initNames)| == |InputNames(inputs) * initNames|
    decreases |inputs|
  {
    if |inputs| > 0 {
      NamesSplit(inputs);
      DefaultedCount(inputs[1..], initNames);
      AddOneCount(inputs[0].name, InputNames(inputs[1..]), initNames);
    }
  }

  /** Adding a new element to a set adds one to its intersection with
      `other` exactly when the element is in `other`. */
  lemma AddOneCount<T>(x: T, rest: set<T>, other: set<T>)
    requires x !in rest
    ensures |({x} + rest) * other| == if x in other then |rest * other| + 1 else |rest * other|
  {
    if x in other {
      assert ({x} + rest) * other == {x} + rest * other;
    } else {
      assert ({x} + rest) * other == rest * other;
    }
  }

  /** With distinct input names, the "initializers (" section is shown
      exactly when some initializer matches no input. */
  lemma UnmatchedSectionShown(inputs: seq<ValueInfo>, inits: seq<Initializer>)
    requires DistinctNames(inputs)
    ensures |Defaulted(inputs, InitializerNames(inits))| < |InitializerNames(inits)|
            <==> |Unmatched(inits, InputNames(inputs))| > 0
  {
    var initNames := InitializerNames(inits);
    var inputNames := InputNames(inputs);
    DefaultedCount(inputs, initNames);
    SubsetSmaller(initNames, inputNames * initNames);
    assert initNames - inputNames * initNames == initNames - inputNames;
    UnmatchedNames(inits, inputNames);
  }

  /** A subset is strictly smaller exactly when something is left over. */
  lemma SubsetSmaller<T>(all: set<T>, part: set<T>)
    requires part <= all
    ensures |part| < |all| <==> all - part != {}
  {
    assert all == part + (all - part);
  }

  /** Some initializer is unmatched exactly when some initializer name is
      not an input name. */
  lemma UnmatchedNames(inits: seq<Initializer>, inputNames: set<string>)
    ensures |Unmatched(inits, inputNames)| > 0 <==> InitializerNames(inits) - inputNames != {}
  {
    var unmatched := Unmatched(inits, inputNames);
    if InitializerNames(inits) - inputNames != {} {
      var n :| n in InitializerNames(inits) - inputNames;
      var k :| 0 <= k < |inits| && inits[k].name == n;
      assert inits[k] in unmatched;
      assert |unmatched| > 0;
    }
    if |unmatched| > 0 {
      assert unmatched[0] in unmatched;
      var k :| 0 <= k < |inits| && inits[k] == unmatched[0];
      assert unmatched[0].name in InitializerNames(inits) - inputNames;
    }
  }

  /** Without distinct input names the count comparison can miss an
      initializer: two inputs named "X" and initializers "X" and "Y" leave
      "Y" unmatched, yet the section is not shown. */
  lemma DuplicateInputsHideInitializer()
    ensures var x := ValueInfo("X", "FLOAT", Some([DimValue(1)]));
            var inits := [Initializer("X", "FLOAT", [1]), Initializer("Y", "FLOAT", [1])];
            && |Unmatched(inits, InputNames([x, x]))| == 1
            && !(|Defaulted([x, x], InitializerNames(inits))| < |InitializerNames(inits)|)
  {
    var x := ValueInfo("X", "FLOAT", Some([DimValue(1)]));
    var inits := [Initializer("X", "FLOAT", [1]), Initializer("Y", "FLOAT", [1])];
    assert [x, x][0].name == "X" && [x, x][1].name == "X";
    assert InputNames([x, x]) == {"X"};
    assert inits[0].name == "X" && inits[1].name == "Y";
    assert InitializerNames(inits) == {"X", "Y"};
  }

  /** Two tokens joined with a space. */
  lemma JoinSpaceTwo(a: string, b: string)
    ensures JoinSpace([a, b]) == a + " " + b
  {
    assert [a, b][1..] == [b];
  }

  /** Three tokens joined with spaces. */
  lemma JoinSpaceThree(a: string, b: string, c: string)
    ensures JoinSpace([a, b, c]) == a + " " + b + " " + c
  {
    assert [a, b, c][1..] == [b, c];
    JoinSpaceTwo(b, c);
  }

  /** The names of a single initializer and of a single input. */
  lemma NamesOfOne(t: Initializer, v: ValueInfo)
    ensures InitializerNames([t]) == {t.name}
    ensures InputNames([v]) == {v.name}
  {
    assert [t][0] == t && [v][0] == v;
  }

  /** The opening line and one required input. */
  lemma OneRequired(g: string, a: ValueInfo)
    ensures RequiredSection(g, [a]) == Layout(["graph " + g + " (", "  " + ValueInfoText(a)], [")"])
  {
    assert ValueInfoTexts([a]) == [ValueInfoText(a)];
    assert Indented([ValueInfoText(a)]) == ["  " + ValueInfoText(a)];
    JoinSpaceThree("graph", g, "(");
    assert "graph" + " " == "graph " && " " + "(" == " (";
    assert "graph" + " " + g + " " + "(" == "graph " + g + " (";
  }

  /** A section with one entry after a pending ")". */
  lemma OneEntrySection(before: Layout, title: string, entry: string)
    requires before.header == [")"]
    ensures Section(before, title, [entry]).lines == before.lines + [") " + title, "  " + entry]
  {
    assert before.header + [title] == [")", title];
    assert Indented([entry]) == ["  " + entry];
    JoinSpaceTwo(")", title);
    assert ")" + " " == ") ";
  }

  /** A required input followed by a defaulted one. */
  lemma SplitTwo(a: ValueInfo, b: ValueInfo, names: set<string>)
    requires a.name !in names && b.name in names
    ensures Required([a, b], names) == [a] && Defaulted([a, b], names) == [b]
  {
    assert [a, b][1..] == [b] && [b][1..] == [];
    assert Required([], names) == [] && Defaulted([], names) == [];
    assert Required([b], names) == [];
    assert Defaulted([b], names) == [b] + Defaulted([], names);
  }

  /** A required input followed by an input that the only initializer
      supplies: the second is printed after ")" in the section for optional
      inputs, and no initializer section follows. */
  lemma RequiredThenDefaulted(g: string, a: ValueInfo, b: ValueInfo, t: Initializer)
    requires a.name != t.name && b.name == t.name
    ensures InputPart(g, [a, b], [t]).lines
            == ["graph " + g + " (", "  " + ValueInfoText(a), ") " + OptionalTitle, "  " + ValueInfoText(b)]
  {
    DefaultedLayout(g, a, b, t);
    OneRequired(g, a);
    var r := RequiredSection(g, [a]);
    assert ValueInfoTexts([b]) == [ValueInfoText(b)];
    OneEntrySection(r, OptionalTitle, ValueInfoText(b));
  }

  /** With a required and a defaulted input, only the first two sections
      are printed. */
  lemma DefaultedLayout(g: string, a: ValueInfo, b: ValueInfo, t: Initializer)
    requires a.name != t.name && b.name == t.name
    ensures InputPart(g, [a, b], [t]) == OptionalSection(RequiredSection(g, [a]), [b])
  {
    NamesOfOne(t, a);
    SplitTwo(a, b, {t.name});
    assert |{t.name}| == 1;
  }

  /** A single required input and an initializer for another name: the
      initializer is printed after ")" in the section for initializers. */
  lemma RequiredThenUnmatched(g: string, a: ValueInfo, t: Initializer)
    requires a.name != t.name
    ensures InputPart(g, [a], [t]).lines
            == ["graph " + g + " (", "  " + ValueInfoText(a), ") " + InitializersTitle, "  " + InitializerText(t)]
  {
    NamesOfOne(t, a);
    assert Required([a], {t.name}) == [a];
    assert Defaulted([a], {t.name}) == [];
    assert Unmatched([t], {a.name}) == [t];
    OneRequired(g, a);
    var r := RequiredSection(g, [a]);
    assert OptionalSection(r, []) == r;
    assert InitializerTexts([t]) == [InitializerText(t)];
    OneEntrySection(r, InitializersTitle, InitializerText(t));
    assert |{t.name}| == 1;
  }

  /** The one-element float tensor of the tests prints as
      "%Y_Initializer[FLOAT, 1]", whether as a graph input or as an
      initializer. */
  lemma FloatOneVector()
    ensures ValueInfoText(ValueInfo("Y_Initializer", "FLOAT", Some([DimValue(1)]))) == "%Y_Initializer[FLOAT, 1]"
    ensures InitializerText(Initializer("Y_Initializer", "FLOAT", [1])) == "%Y_Initializer[FLOAT, 1]"
  {
    FloatOneText("Y_Initializer");
    assert "%" + "Y_Initializer" + "[FLOAT, 1]" == "%Y_Initializer[FLOAT, 1]";
  }

  /** Both texts of a one-element float tensor named `y`. */
  lemma FloatOneText(y: string)
    ensures ValueInfoText(ValueInfo(y, "FLOAT", Some([DimValue(1)]))) == "%" + y + "[FLOAT, 1]"
    ensures InitializerText(Initializer(y, "FLOAT", [1])) == "%" + y + "[FLOAT, 1]"
  {
    OneText();
    assert "[" + "FLOAT" + (", " + "1") + "]" == "[FLOAT, 1]";
  }

  /** The size 1 prints as "1", as a dimension and as an initializer size. */
  lemma OneText()
    ensures DimTexts([DimValue(1)]) == ["1"] && SizeTexts([1]) == ["1"]
  {
    assert NatText(1) == "1";
  }

  /** The rank-2 float input of shape (1, 2) prints as "%X[FLOAT, 1x2]". */
  lemma MatrixVector()
    ensures ValueInfoText(ValueInfo("X", "FLOAT", Some([DimValue(1), DimValue(2)]))) == "%X[FLOAT, 1x2]"
  {
    MatrixSuffix();
    assert "%" + "X" + "[" + "FLOAT" + ", 1x2" + "]" == "%X[FLOAT, 1x2]";
  }

  /** The shape (1, 2) prints as ", 1x2". */
  lemma MatrixSuffix()
    ensures ShapeSuffix(DimTexts([DimValue(1), DimValue(2)])) == ", 1x2"
  {
    assert NatText(1) == "1" && NatText(2) == "2";
    assert DimTexts([DimValue(1), DimValue(2)]) == ["1", "2"];
    assert ["1", "2"][1..] == ["2"];
    assert JoinDims(["1", "2"]) == "1x2";
  }

  /** A dimension with neither value nor name prints as "?". */
  lemma UnknownDimensionVector()
    ensures ValueInfoText(ValueInfo("X", "FLOAT", Some([DimUnknown]))) == "%X[FLOAT, ?]"
  {
    assert DimTexts([DimUnknown]) == ["?"];
    assert "%" + "X" + "[" + "FLOAT" + (", " + "?") + "]" == "%X[FLOAT, ?]";
  }
}
