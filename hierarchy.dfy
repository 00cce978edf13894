/**
 * The node hierarchy of an imported scene and its copy into the clip's bone tree
 * (AnimationClip::ReadHierarchyData).
 */
module Hierarchy {

  /** An importer scene node: its name, its transformation (kept opaque) and its children. */
  datatype Node<M> = Node(name: string, transformation: M, children: seq<Node<M>>)

  /** AssimpBoneData: name, transformation, the recorded child count and the copied children. */
  datatype BoneData<M> = BoneData(name: string, transformation: M, childCount: nat, children: seq<BoneData<M>>)

  /** The complete copy of a scene node into bone data. */
  function Copy<M>(src: Node<M>): BoneData<M>
  {
    BoneData(src.name, src.transformation, |src.children|,
             seq(|src.children|, i requires 0 <= i < |src.children| => Copy(src.children[i])))
  }

  /** Every node of the tree records the number of children it really has. */
  ghost predicate WellFormed<M>(d: BoneData<M>)
  {
    d.childCount == |d.children| && forall i :: 0 <= i < |d.children| ==> WellFormed(d.children[i])
  }

  /** Forgets the child counts, giving back the node tree the bone data describes. */
  function ToNode<M>(d: BoneData<M>): Node<M>
  {
    Node(d.name, d.transformation,
         seq(|d.children|, i requires 0 <= i < |d.children| => ToNode(d.children[i])))
  }

  /**
   * ReadHierarchyData(dest, src): overwrites dest's name, transformation and child
   * count from src and appends one fully copied child per child of src, in order.
   */
  method ReadHierarchyData<M(0)>(dest: BoneData<M>, src: Node<M>) returns (out: BoneData<M>)
    ensures out.name == src.name && out.transformation == src.transformation
    ensures out.childCount == |src.children|
    ensures out.children == dest.children + Copy(src).children
    ensures dest.children == [] ==> out == Copy(src)
    decreases src
  {
    out := dest.(name := src.name, transformation := src.transformation, childCount := |src.children|);
    var i := 0;
    while i < |src.children|
      invariant 0 <= i <= |src.children|
      invariant out.name == src.name && out.transformation == src.transformation
      invariant out.childCount == |src.children|
      invariant out.children == dest.children + Copy(src).children[..i]
    {
      var blank: M := *;
      var newData := BoneData("", blank, 0, []);
      newData := ReadHierarchyData(newData, src.children[i]);
      assert newData == Copy(src.children[i]);
      out := out.(children := out.children + [newData]);
      i := i + 1;
    }
    assert Copy(src).children[..i] == Copy(src).children;
  }

  /** The copy records the true child count at every level. */
  lemma {:induction false} CopyWellFormed<M>(src: Node<M>)
    ensures WellFormed(Copy(src))
    decreases src
  {
    forall i | 0 <= i < |src.children|
      ensures WellFormed(Copy(src).children[i])
    {
      CopyWellFormed(src.children[i]);
    }
  }

  /** The copy mirrors the source: forgetting the counts gives the source tree back. */
  lemma {:induction false} CopyRoundTrip<M>(src: Node<M>)
    ensures ToNode(Copy(src)) == src
    decreases src
  {
    var back := ToNode(Copy(src));
    forall i | 0 <= i < |src.children|
      ensures back.children[i] == src.children[i]
    {
      CopyRoundTrip(src.children[i]);
    }
  }

  /** Conversely, every well-formed bone tree is the copy of the node tree it describes. */
  lemma {:induction false} ToNodeRoundTrip<M>(d: BoneData<M>)
    requires WellFormed(d)
    ensures Copy(ToNode(d)) == d
    decreases d
  {
    var back := Copy(ToNode(d));
    forall i | 0 <= i < |d.children|
      ensures back.children[i] == d.children[i]
    {
      ToNodeRoundTrip(d.children[i]);
    }
  }
}
