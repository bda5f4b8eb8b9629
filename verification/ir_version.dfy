/**
  The IR-version resolver behind `make_model_gen_version`: every release of
  the library is a row (IR version, ai.onnx opset, ai.onnx.ml opset, optional
  ai.onnx.training opset); an opset import (domain, version) needs the IR
  version of the first row that declares it, and a model needs the largest
  of those over all of its imports.
 */
module IrVersion {
  import opened Wrappers

  /** One release row of the version table. */
  datatype Release = Release(release: string, ir: nat, onnx: nat, ml: nat, training: Option<nat>)

  /** An opset import: a domain name and a version. */
  datatype OpsetId = OpsetId(domain: string, version: int)

  datatype VersionError = UnsupportedOpset(domain: string, version: int)

  /** The IR version a model with no opset imports gets. */
  const DefaultMinIrVersion: nat := 3

  /** Row `i` of the release history, oldest first. */
  function Row(i: nat): Release
    requires i < RowCount
  {
    match i
    case 0 => Release("1.0", 3, 1, 1, None)
    case 1 => Release("1.1", 3, 5, 1, None)
    case 2 => Release("1.1.2", 3, 6, 1, None)
    case 3 => Release("1.2", 3, 7, 1, None)
    case 4 => Release("1.3", 3, 8, 1, None)
    case 5 => Release("1.4.1", 4, 9, 1, None)
    case 6 => Release("1.5.0", 5, 10, 1, None)
    case 7 => Release("1.6.0", 6, 11, 2, None)
    case 8 => Release("1.7.0", 7, 12, 2, Some(1))
    case 9 => Release("1.8.0", 7, 13, 2, Some(1))
    case 10 => Release("1.8.1", 7, 13, 2, Some(1))
    case 11 => Release("1.9.0", 7, 14, 2, Some(1))
    case 12 => Release("1.10.0", 8, 15, 2, Some(1))
    case 13 => Release("1.10.1", 8, 15, 2, Some(1))
    case 14 => Release("1.10.2", 8, 15, 2, Some(1))
    case 15 => Release("1.11.0", 8, 16, 3, Some(1))
    case 16 => Release("1.12.0", 8, 17, 3, Some(1))
    case 17 => Release("1.13.0", 8, 18, 3, Some(1))
    case 18 => Release("1.13.1", 8, 18, 3, Some(1))
    case 19 => Release("1.14.0", 9, 19, 3, Some(1))
    case 20 => Release("1.14.1", 9, 19, 3, Some(1))
    case 21 => Release("1.15.0", 9, 20, 4, Some(1))
    case 22 => Release("1.16.0", 10, 21, 5, Some(1))
    case 23 => Release("1.17.0", 10, 22, 5, Some(1))
    case 24 => Release("1.18.0", 11, 23, 5, Some(1))
    case _ => Release("1.19.0", 12, 24, 5, Some(1))
  }

  const RowCount: nat := 26

  /** The release history as a table. */
  function VersionTable(): (t: seq<Release>)
    ensures |t| == RowCount && forall i :: 0 <= i < RowCount ==> t[i] == Row(i)
  {
    seq(RowCount, i requires 0 <= i < RowCount => Row(i))
  }

  /** The empty domain and "ai.onnx" both name the default operator set. */
  function CanonicalDomain(domain: string): string {
    if domain == "" then "ai.onnx" else domain
  }

  /** The opset version a release row declares for a (canonical) domain;
      the preview training domain shares the training column. */
  function DeclaredVersion(row: Release, domain: string): Option<nat> {
    if domain == "ai.onnx" then Some(row.onnx)
    else if domain == "ai.onnx.ml" then Some(row.ml)
    else if domain == "ai.onnx.training" || domain == "ai.onnx.preview.training" then row.training
    else None
  }

  predicate Declares(row: Release, domain: string, version: int) {
    DeclaredVersion(row, domain) == Some(version)
  }

  /** The index of the first row that declares (domain, version). */
  function FirstDeclaring(rows: seq<Release>, domain: string, version: int): (r: Option<nat>)
    ensures r.None? <==> forall i :: 0 <= i < |rows| ==> !Declares(rows[i], domain, version)
    ensures r.Some? ==> r.value < |rows| && Declares(rows[r.value], domain, version)
    ensures r.Some? ==> forall i :: 0 <= i < r.value ==> !Declares(rows[i], domain, version)
    decreases |rows|
  {
    if |rows| == 0 then None
    else if Declares(rows[0], domain, version) then Some(0)
    else match FirstDeclaring(rows[1..], domain, version)
      case None => None
      case Some(i) => Some(i + 1)
  }

  /** The minimum IR version of one opset import according to `table`: the
      IR version of the first row declaring it, or an error when none does. */
  function MinIrVersionIn(table: seq<Release>, id: OpsetId): (r: Result<nat, VersionError>)
    ensures r.Err? <==> forall i :: 0 <= i < |table| ==> !Declares(table[i], CanonicalDomain(id.domain), id.version)
    ensures r.Err? ==> r.error == UnsupportedOpset(id.domain, id.version)
  {
    match FirstDeclaring(table, CanonicalDomain(id.domain), id.version)
    case None => Err(UnsupportedOpset(id.domain, id.version))
    case Some(i) => Ok(table[i].ir)
  }

  /** A supported import needs exactly the IR version of the first row that
      declares it. */
  lemma MinIrVersionIsFirstRow(table: seq<Release>, id: OpsetId)
    requires MinIrVersionIn(table, id).Ok?
    ensures exists i :: 0 <= i < |table| && MinIrVersionIn(table, id).value == table[i].ir
                        && Declares(table[i], CanonicalDomain(id.domain), id.version)
                        && forall j :: 0 <= j < i ==> !Declares(table[j], CanonicalDomain(id.domain), id.version)
  {
    var i := FirstDeclaring(table, CanonicalDomain(id.domain), id.version).value;
    assert MinIrVersionIn(table, id).value == table[i].ir;
  }

  /** `find_min_ir_version_for` over `table`: the largest per-import minimum,
      the default for an empty list, and the first unsupported import's error
      otherwise. */
  function FindMinIrVersionIn(table: seq<Release>, ids: seq<OpsetId>): (r: Result<nat, VersionError>)
    ensures |ids| == 0 ==> r == Ok(DefaultMinIrVersion)
    ensures r.Err? ==> r.error.UnsupportedOpset?
    decreases |ids|
  {
    if |ids| == 0 then Ok(DefaultMinIrVersion)
    else match MinIrVersionIn(table, ids[0])
      case Err(e) => Err(e)
      case Ok(first) =>
        if |ids| == 1 then Ok(first)
        else match FindMinIrVersionIn(table, ids[1..])
          case Err(e) => Err(e)
          case Ok(rest) => Ok(if first >= rest then first else rest)
  }

  /** Resolution succeeds exactly when every import is supported. */
  lemma {:induction false} ResolvedIffSupported(table: seq<Release>, ids: seq<OpsetId>)
    ensures FindMinIrVersionIn(table, ids).Ok? <==> forall k :: 0 <= k < |ids| ==> MinIrVersionIn(table, ids[k]).Ok?
    decreases |ids|
  {
    if |ids| > 1 && MinIrVersionIn(table, ids[0]).Ok? {
      var tail := ids[1..];
      ResolvedIffSupported(table, tail);
      forall k | 1 <= k < |ids|
        ensures ids[k] == tail[k - 1]
      {
      }
    }
  }

  /** A successful resolution bounds every import's minimum from above. */
  lemma {:induction false} ResolvedIsUpperBound(table: seq<Release>, ids: seq<OpsetId>, k: nat)
    requires FindMinIrVersionIn(table, ids).Ok? && k < |ids|
    ensures MinIrVersionIn(table, ids[k]).Ok?
    ensures MinIrVersionIn(table, ids[k]).value <= FindMinIrVersionIn(table, ids).value
    decreases |ids|
  {
    var r := FindMinIrVersionIn(table, ids);
    var head := MinIrVersionIn(table, ids[0]);
    assert head.Ok?;
    if |ids| > 1 {
      var tail := ids[1..];
      var rest := FindMinIrVersionIn(table, tail);
      assert rest.Ok? && head.value <= r.value && rest.value <= r.value;
      if k > 0 {
        ResolvedIsUpperBound(table, tail, k - 1);
        assert ids[k] == tail[k - 1];
      }
    }
  }

  /** The resolved version is one of the per-import minima, not merely an
      upper bound on them. */
  lemma {:induction false} ResolvedIsAttained(table: seq<Release>, ids: seq<OpsetId>)
    requires |ids| > 0 && FindMinIrVersionIn(table, ids).Ok?
    ensures exists k :: 0 <= k < |ids| && MinIrVersionIn(table, ids[k]) == FindMinIrVersionIn(table, ids)
    decreases |ids|
  {
    var r := FindMinIrVersionIn(table, ids);
    var head := MinIrVersionIn(table, ids[0]);
    if |ids| == 1 {
      assert head == r;
    } else {
      var tail := ids[1..];
      var rest := FindMinIrVersionIn(table, tail);
      if head.value >= rest.value {
        assert head == r;
      } else {
        ResolvedIsAttained(table, tail);
        var k :| 0 <= k < |tail| && MinIrVersionIn(table, tail[k]) == rest;
        assert tail[k] == ids[k + 1];
      }
    }
  }

  /** A failed resolution reports the first unsupported import, in list order. */
  lemma {:induction false} FirstUnsupportedReported(table: seq<Release>, ids: seq<OpsetId>)
    requires FindMinIrVersionIn(table, ids).Err?
    ensures exists k :: 0 <= k < |ids| && FindMinIrVersionIn(table, ids) == MinIrVersionIn(table, ids[k])
                        && forall j :: 0 <= j < k ==> MinIrVersionIn(table, ids[j]).Ok?
    decreases |ids|
  {
    var r := FindMinIrVersionIn(table, ids);
    if MinIrVersionIn(table, ids[0]).Err? {
      assert r == MinIrVersionIn(table, ids[0]);
    } else {
      var tail := ids[1..];
      assert r == FindMinIrVersionIn(table, tail);
      FirstUnsupportedReported(table, tail);
      var k :| 0 <= k < |tail| && r == MinIrVersionIn(table, tail[k])
               && forall j :: 0 <= j < k ==> MinIrVersionIn(table, tail[j]).Ok?;
      assert ids[k + 1] == tail[k];
      forall j | 1 <= j < k + 1
        ensures MinIrVersionIn(table, ids[j]).Ok?
      {
        assert ids[j] == tail[j - 1];
      }
    }
  }

  /** The resolver over the library's own version table. */
  function FindMinIrVersion(ids: seq<OpsetId>): Result<nat, VersionError> {
    FindMinIrVersionIn(VersionTable(), ids)
  }

  function MinIrVersion(id: OpsetId): Result<nat, VersionError> {
    MinIrVersionIn(VersionTable(), id)
  }

  /** Resolving an import list is insensitive to writing the default domain
      as "" or as "ai.onnx". */
  lemma {:induction false} DefaultDomainAlias(ids: seq<OpsetId>, aliased: seq<OpsetId>)
    requires |aliased| == |ids|
    requires forall k :: 0 <= k < |ids| ==>
               aliased[k].version == ids[k].version
               && CanonicalDomain(aliased[k].domain) == CanonicalDomain(ids[k].domain)
    ensures FindMinIrVersion(aliased).Ok? <==> FindMinIrVersion(ids).Ok?
    ensures FindMinIrVersion(aliased).Ok? ==> FindMinIrVersion(aliased) == FindMinIrVersion(ids)
    decreases |ids|
  {
    if |ids| > 1 {
      DefaultDomainAlias(ids[1..], aliased[1..]);
    }
  }

  /** Row `a` comes no later than row `b`: `b` lowers neither the IR
      version nor any declared opset version. */
  predicate RowLe(a: Release, b: Release) {
    && a.ir <= b.ir && a.onnx <= b.onnx && a.ml <= b.ml
    && (a.training.Some? ==> b.training.Some? && a.training.value <= b.training.value)
  }

  /** Rows are ordered: later releases never lower anything. */
  predicate Ordered(rows: seq<Release>) {
    forall i, j :: 0 <= i < j < |rows| ==> RowLe(rows[i], rows[j])
  }

  predicate OrderedAdjacent(rows: seq<Release>) {
    forall i :: 0 <= i < |rows| - 1 ==> RowLe(rows[i], rows[i + 1])
  }

  lemma {:induction false} AdjacentToOrdered(rows: seq<Release>)
    requires OrderedAdjacent(rows)
    ensures Ordered(rows)
    decreases |rows|
  {
    if |rows| > 1 {
      AdjacentToOrdered(rows[1..]);
      assert Ordered(rows[1..]);
      forall i, j | 0 <= i < j < |rows|
        ensures RowLe(rows[i], rows[j])
      {
        if i > 0 {
          assert rows[i] == rows[1..][i - 1] && rows[j] == rows[1..][j - 1];
        } else if j > 1 {
          assert rows[1] == rows[1..][0] && rows[j] == rows[1..][j - 1];
        }
      }
    }
  }

  /** Each row of the library's table comes no later than the next. */
  lemma TableAdjacent()
    ensures OrderedAdjacent(VersionTable())
  {
    RowsAdjacentOld();
    RowsAdjacentNew();
  }

  /** Releases 1.0 to 1.10.1, each against its successor. */
  lemma RowsAdjacentOld()
    ensures forall i :: 0 <= i < 13 ==> RowLe(Row(i), Row(i + 1))
  {
    forall i | 0 <= i < 13
      ensures RowLe(Row(i), Row(i + 1))
    {
      if i == 0 { assert RowLe(Row(0), Row(1)); }
      else if i == 1 { assert RowLe(Row(1), Row(2)); }
      else if i == 2 { assert RowLe(Row(2), Row(3)); }
      else if i == 3 { assert RowLe(Row(3), Row(4)); }
      else if i == 4 { assert RowLe(Row(4), Row(5)); }
      else if i == 5 { assert RowLe(Row(5), Row(6)); }
      else if i == 6 { assert RowLe(Row(6), Row(7)); }
      else if i == 7 { assert RowLe(Row(7), Row(8)); }
      else if i == 8 { assert RowLe(Row(8), Row(9)); }
      else if i == 9 { assert RowLe(Row(9), Row(10)); }
      else if i == 10 { assert RowLe(Row(10), Row(11)); }
      else if i == 11 { assert RowLe(Row(11), Row(12)); }
      else { assert RowLe(Row(12), Row(13)); }
    }
  }

  /** Releases 1.10.1 to 1.19.0, each against its successor. */
  lemma RowsAdjacentNew()
    ensures forall i :: 13 <= i < RowCount - 1 ==> RowLe(Row(i), Row(i + 1))
  {
    forall i | 13 <= i < RowCount - 1
      ensures RowLe(Row(i), Row(i + 1))
    {
      if i == 13 { assert RowLe(Row(13), Row(14)); }
      else if i == 14 { assert RowLe(Row(14), Row(15)); }
      else if i == 15 { assert RowLe(Row(15), Row(16)); }
      else if i == 16 { assert RowLe(Row(16), Row(17)); }
      else if i == 17 { assert RowLe(Row(17), Row(18)); }
      else if i == 18 { assert RowLe(Row(18), Row(19)); }
      else if i == 19 { assert RowLe(Row(19), Row(20)); }
      else if i == 20 { assert RowLe(Row(20), Row(21)); }
      else if i == 21 { assert RowLe(Row(21), Row(22)); }
      else if i == 22 { assert RowLe(Row(22), Row(23)); }
      else if i == 23 { assert RowLe(Row(23), Row(24)); }
      else { assert RowLe(Row(24), Row(25)); }
    }
  }

  /** The library's table is ordered. */
  lemma TableOrdered()
    ensures Ordered(VersionTable())
  {
    TableAdjacent();
    AdjacentToOrdered(VersionTable());
  }

  /** In an ordered table the declared version of a domain never decreases. */
  lemma DeclaredOrdered(rows: seq<Release>, domain: string, i: nat, j: nat)
    requires Ordered(rows) && i < j < |rows|
    requires DeclaredVersion(rows[i], domain).Some?
    ensures DeclaredVersion(rows[j], domain).Some?
    ensures DeclaredVersion(rows[i], domain).value <= DeclaredVersion(rows[j], domain).value
  {
    assert RowLe(rows[i], rows[j]);
  }

  /** In an ordered table, a higher opset version of the same domain never
      needs a lower IR version. */
  lemma MinIrMonotoneIn(table: seq<Release>, domain: string, v1: int, v2: int)
    requires Ordered(table)
    requires v1 <= v2
    requires MinIrVersionIn(table, OpsetId(domain, v1)).Ok? && MinIrVersionIn(table, OpsetId(domain, v2)).Ok?
    ensures MinIrVersionIn(table, OpsetId(domain, v1)).value <= MinIrVersionIn(table, OpsetId(domain, v2)).value
  {
    var d := CanonicalDomain(domain);
    var i1 := FirstDeclaring(table, d, v1).value;
    var i2 := FirstDeclaring(table, d, v2).value;
    if i2 < i1 {
      DeclaredOrdered(table, d, i2, i1);
      assert false;
    }
    assert i1 <= i2;
    if i1 < i2 {
      assert RowLe(table[i1], table[i2]);
    }
  }

  /** The same over the library's own table. */
  lemma MinIrMonotone(domain: string, v1: int, v2: int)
    requires v1 <= v2
    requires MinIrVersion(OpsetId(domain, v1)).Ok? && MinIrVersion(OpsetId(domain, v2)).Ok?
    ensures MinIrVersion(OpsetId(domain, v1)).value <= MinIrVersion(OpsetId(domain, v2)).value
  {
    TableOrdered();
    MinIrMonotoneIn(VersionTable(), domain, v1, v2);
  }

  /** The row declares nothing for `domain`, or something below `version`. */
  predicate DeclaresBelow(row: Release, domain: string, version: int) {
    DeclaredVersion(row, domain).None? || DeclaredVersion(row, domain).value < version
  }

  /** In an ordered table, a row declaring (domain, version) whose predecessor
      declares something lower is the first one, so it decides the minimum. */
  lemma FirstByOrder(table: seq<Release>, domain: string, version: int, i: nat)
    requires Ordered(table) && i < |table|
    requires Declares(table[i], CanonicalDomain(domain), version)
    requires i == 0 || DeclaresBelow(table[i - 1], CanonicalDomain(domain), version)
    ensures MinIrVersionIn(table, OpsetId(domain, version)) == Ok(table[i].ir)
  {
    var d := CanonicalDomain(domain);
    forall j | 0 <= j < i
      ensures !Declares(table[j], d, version)
    {
      if j < i - 1 && DeclaredVersion(table[j], d).Some? {
        DeclaredOrdered(table, d, j, i - 1);
      }
    }
    var f := FirstDeclaring(table, d, version);
    assert f.Some?;
    assert f.value == i;
  }

  /** In an ordered table, nothing past the last row's declared version is
      supported. */
  lemma BeyondLastRow(table: seq<Release>, domain: string, version: int)
    requires Ordered(table) && |table| > 0
    requires DeclaredVersion(table[|table| - 1], CanonicalDomain(domain)).Some?
    requires DeclaredVersion(table[|table| - 1], CanonicalDomain(domain)).value < version
    ensures MinIrVersionIn(table, OpsetId(domain, version)) == Err(UnsupportedOpset(domain, version))
  {
    var d := CanonicalDomain(domain);
    var last := |table| - 1;
    forall j | 0 <= j < |table|
      ensures !Declares(table[j], d, version)
    {
      if j < last && DeclaredVersion(table[j], d).Some? {
        DeclaredOrdered(table, d, j, last);
      }
    }
  }

  /** `FirstByOrder` on the library's own table. */
  lemma TableFirst(domain: string, version: int, i: nat)
    requires i < RowCount
    requires Declares(Row(i), CanonicalDomain(domain), version)
    requires i == 0 || DeclaresBelow(Row(i - 1), CanonicalDomain(domain), version)
    ensures MinIrVersion(OpsetId(domain, version)) == Ok(Row(i).ir)
  {
    TableOrdered();
    FirstByOrder(VersionTable(), domain, version, i);
  }

  /** Default-domain opsets 9 to 16 need IR versions 4, 5, 6, 7, 7, 7, 8 and 8. */
  lemma DefaultOpsetVectorOld()
    ensures MinIrVersion(OpsetId("", 9)) == Ok(4)
    ensures MinIrVersion(OpsetId("", 10)) == Ok(5)
    ensures MinIrVersion(OpsetId("", 11)) == Ok(6)
    ensures MinIrVersion(OpsetId("", 12)) == Ok(7)
    ensures MinIrVersion(OpsetId("", 13)) == Ok(7)
    ensures MinIrVersion(OpsetId("", 14)) == Ok(7)
    ensures MinIrVersion(OpsetId("", 15)) == Ok(8)
    ensures MinIrVersion(OpsetId("", 16)) == Ok(8)
  {
    TableFirst("", 9, 5);
    TableFirst("", 10, 6);
    TableFirst("", 11, 7);
    TableFirst("", 12, 8);
    TableFirst("", 13, 9);
    TableFirst("", 14, 11);
    TableFirst("", 15, 12);
    TableFirst("", 16, 15);
  }

  /** Default-domain opsets 17 to 24 need IR versions 8, 8, 9, 9, 10, 10, 11 and 12. */
  lemma DefaultOpsetVectorNew()
    ensures MinIrVersion(OpsetId("", 17)) == Ok(8)
    ensures MinIrVersion(OpsetId("", 18)) == Ok(8)
    ensures MinIrVersion(OpsetId("", 19)) == Ok(9)
    ensures MinIrVersion(OpsetId("", 20)) == Ok(9)
    ensures MinIrVersion(OpsetId("", 21)) == Ok(10)
    ensures MinIrVersion(OpsetId("", 22)) == Ok(10)
    ensures MinIrVersion(OpsetId("", 23)) == Ok(11)
    ensures MinIrVersion(OpsetId("", 24)) == Ok(12)
  {
    TableFirst("", 17, 16);
    TableFirst("", 18, 17);
    TableFirst("", 19, 19);
    TableFirst("", 20, 21);
    TableFirst("", 21, 22);
    TableFirst("", 22, 23);
    TableFirst("", 23, 24);
    TableFirst("", 24, 25);
  }

  /** ai.onnx.ml opsets 2 to 5 need IR versions 6, 8, 9 and 10. */
  lemma MlOpsetVector()
    ensures MinIrVersion(OpsetId("ai.onnx.ml", 2)) == Ok(6)
    ensures MinIrVersion(OpsetId("ai.onnx.ml", 3)) == Ok(8)
    ensures MinIrVersion(OpsetId("ai.onnx.ml", 4)) == Ok(9)
    ensures MinIrVersion(OpsetId("ai.onnx.ml", 5)) == Ok(10)
  {
    TableFirst("ai.onnx.ml", 2, 7);
    TableFirst("ai.onnx.ml", 3, 15);
    TableFirst("ai.onnx.ml", 4, 21);
    TableFirst("ai.onnx.ml", 5, 22);
  }

  /** The training domain's opset 1 needs IR version 7, and the default
      domain may be spelled "ai.onnx". */
  lemma OtherDomainVector()
    ensures MinIrVersion(OpsetId("ai.onnx.training", 1)) == Ok(7)
    ensures MinIrVersion(OpsetId("ai.onnx", 9)) == Ok(4)
  {
    TableFirst("ai.onnx.training", 1, 8);
    TableFirst("ai.onnx", 9, 5);
  }

  /** A model importing default opset 10 and ai.onnx.ml opset 2 needs IR
      version 6; default opset 100 is not supported; an empty import list
      gets the default. */
  lemma ModelVector()
    ensures FindMinIrVersion([OpsetId("", 10), OpsetId("ai.onnx.ml", 2)]) == Ok(6)
    ensures FindMinIrVersion([OpsetId("", 100)]) == Err(UnsupportedOpset("", 100))
    ensures FindMinIrVersion([]) == Ok(DefaultMinIrVersion)
  {
    TableFirst("", 10, 6);
    TableFirst("ai.onnx.ml", 2, 7);
    TableOrdered();
    BeyondLastRow(VersionTable(), "", 100);
  }
}
