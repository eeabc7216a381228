/** User metadata of a listing: `AtmosObjectMetadata_parse_usermeta` counts the elements of each
    class in one pass, allocates, and fills the two arrays in a second pass. */
module UserMetaNodes {
  import opened MetadataCodec

  /** A child of `UserMetadataList`: text, or an element with what `AtmosUtil_parse_meta` finds in it. */
  datatype Node = Text | Element(tag: string, name: string, value: string, listable: bool)

  const DIR_NODE_METADATA := "Metadata"

  predicate IsMetadata(n: Node) { n.Element? && n.tag == DIR_NODE_METADATA }

  /** The entries of one class, in document order. */
  function Class(nodes: seq<Node>, listable: bool): seq<Metadata> {
    if nodes == [] then [] else Share(nodes[0], listable) + Class(nodes[1..], listable)
  }

  /** What one node adds to a class. */
  function Share(n: Node, listable: bool): seq<Metadata> {
    if IsMetadata(n) && n.listable == listable then [Metadata(n.name, n.value)] else []
  }

  function MetadataNodes(nodes: seq<Node>): nat {
    if nodes == [] then 0 else (if IsMetadata(nodes[0]) then 1 else 0) + MetadataNodes(nodes[1..])
  }

  /** Every element is of one class: the two counts add up to their number. */
  lemma {:induction false} CountsAddUp(nodes: seq<Node>)
    ensures |Class(nodes, false)| + |Class(nodes, true)| == MetadataNodes(nodes)
  {
    if nodes != [] { CountsAddUp(nodes[1..]); }
  }

  /** `entries` are the elements of one class, in document order: the nodes at `from` and no others. */
  ghost predicate TakenFrom(entries: seq<Metadata>, from: seq<nat>, nodes: seq<Node>, listable: bool) {
    && |from| == |entries|
    && (forall i :: 0 <= i < |from| ==>
          && from[i] < |nodes| && nodes[from[i]].Element? && nodes[from[i]].tag == "Metadata"
          && nodes[from[i]].listable == listable
          && entries[i].name == nodes[from[i]].name && entries[i].value == nodes[from[i]].value)
    && (forall i, j :: 0 <= i < j < |from| ==> from[i] < from[j])
    && (forall k :: 0 <= k < |nodes| && IsMetadata(nodes[k]) && nodes[k].listable == listable ==> k in from)
  }

  lemma NoClass(listable: bool)
    ensures Class([], listable) == []
  {
  }

  /** Every entry of a class comes from its own node. */
  lemma {:induction false} ClassTakenFrom(nodes: seq<Node>, listable: bool) returns (from: seq<nat>)
    ensures TakenFrom(Class(nodes, listable), from, nodes, listable)
  {
    hide Class;
    from := [];
    if nodes == [] {
      assert Class(nodes, listable) == [] by { NoClass(listable); }
    } else {
      var last := |nodes| - 1;
      assert nodes == nodes[..last] + [nodes[last]];
      from := ClassTakenFrom(nodes[..last], listable);
      ClassSnoc(nodes[..last], nodes[last], listable);
      if IsMetadata(nodes[last]) && nodes[last].listable == listable { from := from + [last]; }
    }
  }

  lemma {:induction false} ClassSnoc(nodes: seq<Node>, n: Node, listable: bool)
    ensures Class(nodes + [n], listable) ==
            Class(nodes, listable) + Share(n, listable)
  {
    if nodes == [] {
      assert nodes + [n] == [n] && [n][1..] == nodes;
    } else {
      assert (nodes + [n])[1..] == nodes[1..] + [n];
      ClassSnoc(nodes[1..], n, listable);
    }
  }

  lemma {:induction false} ClassPrefix(nodes: seq<Node>, i: nat, listable: bool)
    requires i < |nodes|
    ensures Class(nodes[..i + 1], listable) ==
            Class(nodes[..i], listable) + Share(nodes[i], listable)
  {
    assert nodes[..i + 1] == nodes[..i] + [nodes[i]];
    ClassSnoc(nodes[..i], nodes[i], listable);
  }

  lemma {:induction false} ClassPrefixLength(nodes: seq<Node>, i: nat, listable: bool)
    requires i <= |nodes|
    ensures |Class(nodes[..i], listable)| <= |Class(nodes, listable)|
    decreases |nodes| - i
  {
    if i < |nodes| {
      ClassPrefix(nodes, i, listable);
      ClassPrefixLength(nodes, i + 1, listable);
    } else {
      assert nodes[..i] == nodes;
    }
  }

  method CountClasses(nodes: seq<Node>) returns (regular: nat, listable: nat)
    ensures regular == |Class(nodes, false)| && listable == |Class(nodes, true)|
  {
    regular, listable := 0, 0;
    for i := 0 to |nodes|
      invariant regular == |Class(nodes[..i], false)| && listable == |Class(nodes[..i], true)|
    {
      ClassPrefix(nodes, i, false);
      ClassPrefix(nodes, i, true);
      if nodes[i].Text? { continue; }
      if nodes[i].tag == DIR_NODE_METADATA {
        if nodes[i].listable { listable := listable + 1; } else { regular := regular + 1; }
      }
    }
    assert nodes[..|nodes|] == nodes;
  }

  class AtmosObjectMetadata {
    var meta: array?<Metadata>
    var meta_count: nat
    var listable_meta: array?<Metadata>
    var listable_meta_count: nat

    method Fill(nodes: seq<Node>, meta: array<Metadata>, listable_meta: array<Metadata>)
      requires meta != listable_meta
      requires meta.Length == |Class(nodes, false)| && listable_meta.Length == |Class(nodes, true)|
      modifies meta, listable_meta
      ensures meta[..] == Class(nodes, false) && listable_meta[..] == Class(nodes, true)
      ensures exists from :: TakenFrom(meta[..], from, nodes, false)
      ensures exists from :: TakenFrom(listable_meta[..], from, nodes, true)
    {
      var regular, listable := 0, 0;
      for i := 0 to |nodes|
        invariant regular == |Class(nodes[..i], false)| <= meta.Length
        invariant listable == |Class(nodes[..i], true)| <= listable_meta.Length
        invariant meta[..regular] == Class(nodes[..i], false)
        invariant listable_meta[..listable] == Class(nodes[..i], true)
      {
        ClassPrefix(nodes, i, false);
        ClassPrefix(nodes, i, true);
        ClassPrefixLength(nodes, i + 1, false);
        ClassPrefixLength(nodes, i + 1, true);
        if nodes[i].Text? { continue; }
        if nodes[i].tag == DIR_NODE_METADATA {
          if nodes[i].listable {
            listable_meta[listable] := Metadata(nodes[i].name, nodes[i].value);
            listable := listable + 1;
          } else {
            meta[regular] := Metadata(nodes[i].name, nodes[i].value);
            regular := regular + 1;
          }
        }
      }
      assert nodes[..|nodes|] == nodes;
      ghost var own := ClassTakenFrom(nodes, false);
      ghost var others := ClassTakenFrom(nodes, true);
    }

    /** Both arrays have a slot for each entry of their class and no other, and every slot holds the
        entry of its place; a class without entries leaves its array and count alone. */
    method ParseUsermeta(nodes: seq<Node>)
      modifies this
      ensures if Class(nodes, false) == [] then meta == old(meta) && meta_count == old(meta_count)
              else meta != null && fresh(meta) && meta_count == meta.Length && meta[..] == Class(nodes, false)
      ensures if Class(nodes, true) == [] then listable_meta == old(listable_meta)
          && listable_meta_count == old(listable_meta_count)
              else listable_meta != null && fresh(listable_meta) && listable_meta_count == listable_meta.Length
                   && listable_meta[..] == Class(nodes, true)
    {
      var regular, listable := CountClasses(nodes);
      var regulars := new Metadata[regular](_ => Metadata("", ""));
      var listables := new Metadata[listable](_ => Metadata("", ""));
      if regular > 0 { meta, meta_count := regulars, regular; }
      if listable > 0 { listable_meta, listable_meta_count := listables, listable; }
      Fill(nodes, regulars, listables);
    }
  }
}
