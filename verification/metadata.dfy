/**
  Model metadata: the `metadata_props` list of key/value entries, the helper
  that sets it from a dictionary, and the checker's rule that no key occurs
  twice.
 */
module Metadata {
  import opened Wrappers

  datatype Entry = Entry(key: string, value: string)

  /** The parts of a `ModelProto` that setting the properties touches or
      must leave alone. */
  datatype Model = Model(irVersion: int, docString: string, graphName: string, metadataProps: seq<Entry>)

  /** No key occurs twice. */
  predicate UniqueKeys(props: seq<Entry>) {
    forall i, j :: 0 <= i < j < |props| ==> props[i].key != props[j].key
  }

  /** The keys of a list of entries. */
  function Keys(props: seq<Entry>): (ks: set<string>)
    ensures forall k :: k in ks <==> exists i :: 0 <= i < |props| && props[i].key == k
  {
    set i | 0 <= i < |props| :: props[i].key
  }

  /** The value stored under a key: the first entry's, if any. */
  function Lookup(props: seq<Entry>, key: string): (r: Option<string>)
    ensures r.None? <==> key !in Keys(props)
    ensures r.Some? ==> Entry(key, r.value) in props
    decreases |props|
  {
    if |props| == 0 then None
    else if props[0].key == key then Some(props[0].value)
    else
      var rest := Lookup(props[1..], key);
      assert forall i :: 1 <= i < |props| ==> props[i] == props[1..][i - 1];
      assert key !in Keys(props[1..]) && props[0].key != key ==> key !in Keys(props);
      rest
  }

  /** `set_model_props`: the old entries are all removed, then one entry is
      added per dictionary item, in the dictionary's order. A dictionary's
      keys are distinct. */
  function SetModelProps(m: Model, dict: seq<Entry>): (r: Model)
    requires UniqueKeys(dict)
    ensures UniqueKeys(r.metadataProps)
    ensures r.irVersion == m.irVersion && r.docString == m.docString && r.graphName == m.graphName
    ensures forall key :: Lookup(r.metadataProps, key) == Lookup(dict, key)
    ensures |r.metadataProps| == |dict|
  {
    m.(metadataProps := dict)
  }

  /** Setting the same dictionary twice is the same as setting it once. */
  lemma SetModelPropsIdempotent(m: Model, dict: seq<Entry>)
    requires UniqueKeys(dict)
    ensures SetModelProps(SetModelProps(m, dict), dict) == SetModelProps(m, dict)
  {
  }

  /** `metadata_props.add()` followed by setting its key and value. */
  function AddEntry(m: Model, key: string, value: string): (r: Model)
    ensures |r.metadataProps| == |m.metadataProps| + 1 && r.metadataProps[|m.metadataProps|] == Entry(key, value)
    ensures r.metadataProps[..|m.metadataProps|] == m.metadataProps
  {
    m.(metadataProps := m.metadataProps + [Entry(key, value)])
  }

  /** Adding an entry keeps keys distinct iff its key is new. */
  lemma AddEntryUnique(m: Model, key: string, value: string)
    requires UniqueKeys(m.metadataProps)
    ensures UniqueKeys(AddEntry(m, key, value).metadataProps) <==> key !in Keys(m.metadataProps)
  {
    var props := AddEntry(m, key, value).metadataProps;
    var n := |m.metadataProps|;
    if key in Keys(m.metadataProps) {
      var i :| 0 <= i < n && m.metadataProps[i].key == key;
      assert props[i].key == props[n].key;
    }
  }

  /** The checker's scan: keys are collected in a set as the list is read,
      and the first entry whose key is already in the set is reported. */
  method CheckMetadataProps(props: seq<Entry>) returns (dup: Option<nat>)
    ensures dup.None? <==> UniqueKeys(props)
    ensures dup.Some? ==> && dup.value < |props|
                          && UniqueKeys(props[..dup.value])
                          && props[dup.value].key in Keys(props[..dup.value])
  {
    var seen: set<string> := {};
    var i := 0;
    while i < |props|
      invariant 0 <= i <= |props|
      invariant UniqueKeys(props[..i])
      invariant seen == Keys(props[..i])
    {
      if props[i].key in seen {
        var j :| 0 <= j < i && props[..i][j].key == props[i].key;
        assert props[j].key == props[i].key;
        return Some(i);
      }
      assert props[..i + 1] == props[..i] + [props[i]];
      seen := seen + {props[i].key};
      i := i + 1;
    }
    assert props[..i] == props;
    return None;
  }

  /** The metadata test: setting {"Title": "my graph", "Keywords":
      "test;graph"} twice leaves two entries with distinct keys; adding a
      second "Title" then breaks the rule. */
  lemma MetadataVector(m: Model)
    ensures var dict := [Entry("Title", "my graph"), Entry("Keywords", "test;graph")];
            && UniqueKeys(dict)
            && var once := SetModelProps(m, dict);
               && SetModelProps(once, dict) == once
               && |once.metadataProps| == 2
               && !UniqueKeys(AddEntry(once, "Title", "Other").metadataProps)
  {
    var dict := [Entry("Title", "my graph"), Entry("Keywords", "test;graph")];
    assert UniqueKeys(dict);
    var once := SetModelProps(m, dict);
    assert once.metadataProps[0].key == "Title";
    AddEntryUnique(once, "Title", "Other");
  }
}
