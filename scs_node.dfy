/**
 * A node of a component construction tree (USCS_Node): it owns an ordered
 * list of child nodes, an ordered list of metadata entries and the name of
 * the variable that holds the component built from it.
 *
 * Every node carries a ghost footprint `Repr`: the node itself and every node
 * reachable below it through `ChildNodes`. `Valid()` says that the structure
 * below a node is a tree: each child's footprint lies inside the parent's,
 * the footprints of distinct children do not overlap, and the parent's
 * footprint is exactly itself plus its children's.
 */
module SCSNodes {
  import opened CoreTypes
  import opened MetaData
  import opened Sequences

  /** The nodes reachable through the nodes of `cs`: the union of their footprints. */
  ghost function ReprOf(cs: seq<SCSNode>): set<SCSNode>
    reads cs
  {
    if cs == [] then {} else ReprOf(cs[..|cs| - 1]) + cs[|cs| - 1].Repr
  }

  /** Every node of `cs` is a valid tree. */
  ghost predicate AllValid(cs: seq<SCSNode>)
    reads cs, ReprOf(cs)
    decreases ReprOf(cs), |cs|
  {
    cs != [] ==> AllValid(cs[..|cs| - 1]) && cs[|cs| - 1].Valid()
  }

  /** The nodes of `cs` reach pairwise disjoint sets of nodes: no node hangs below two of them. */
  ghost predicate Disjoint(cs: seq<SCSNode>)
    reads cs
  {
    cs != [] ==> Disjoint(cs[..|cs| - 1]) && ReprOf(cs[..|cs| - 1]) !! cs[|cs| - 1].Repr
  }

  /** Distinct nodes of `cs` reach disjoint sets of nodes. */
  ghost predicate PairwiseDisjoint(cs: seq<SCSNode>)
    reads cs
  {
    forall a, b :: a in cs && b in cs && a != b ==> a.Repr !! b.Repr
  }

  /** A list of sibling subtrees: each a valid tree, none sharing a node with another. */
  ghost predicate Forest(cs: seq<SCSNode>)
    reads cs, ReprOf(cs)
  {
    AllValid(cs) && Disjoint(cs)
  }

  /** The pre-order listings of the subtrees in `cs`, concatenated left to right. */
  function Flatten(cs: seq<SCSNode>): (r: seq<SCSNode>)
    reads cs, ReprOf(cs)
    requires AllValid(cs)
    decreases ReprOf(cs), |cs|
  {
    if cs == [] then []
    else
      Flatten(cs[..|cs| - 1]) + cs[|cs| - 1].AllNodes()
  }

  class SCSNode {
    /** Set of child nodes. */
    var ChildNodes: seq<SCSNode>
    /** Metadata information for this node. */
    var MetaDataArray: seq<MetaDataEntry>
    /** Name of the variable created for the component instance. */
    var InternalVariableName: Name
    /** Socket or bone the node might attach to. */
    var AttachToName: Name
    /** Component template or variable the node might be parented to. */
    var ParentComponentOrVariableName: Name
    /** The class owning the parent component template, when it is inherited. */
    var ParentComponentOwnerClassName: Name
    /** Whether the parent template is a native component. */
    var bIsParentComponentNative: bool

    /** This node and every node below it. */
    ghost var Repr: set<SCSNode>

    ghost predicate Valid()
      reads this`ChildNodes, this`Repr, Repr - {this}
      decreases Repr, 0
    {
      && this in Repr
      && (forall i :: 0 <= i < |ChildNodes| ==> ChildNodes[i] in Repr - {this})
      && this !in ReprOf(ChildNodes)
      && Repr == {this} + ReprOf(ChildNodes)
      && AllValid(ChildNodes)
      && Disjoint(ChildNodes)
    }

    /** A fresh node with no children, no metadata and the given variable name. */
    constructor (InVariableName: Name)
      ensures Valid() && Repr == {this}
      ensures ChildNodes == [] && MetaDataArray == [] && InternalVariableName == InVariableName
      ensures AttachToName == NAME_None && ParentComponentOrVariableName == NAME_None
      ensures ParentComponentOwnerClassName == NAME_None && !bIsParentComponentNative
    {
      ChildNodes := [];
      MetaDataArray := [];
      InternalVariableName := InVariableName;
      AttachToName := NAME_None;
      ParentComponentOrVariableName := NAME_None;
      ParentComponentOwnerClassName := NAME_None;
      bIsParentComponentNative := false;
      Repr := {this};
    }

    /** This node followed by all nodes below it, in pre-order. */
    function AllNodes(): (r: seq<SCSNode>)
      reads this`ChildNodes, this`Repr, Repr - {this}
      requires Valid()
      decreases Repr, 0
    {
      [this] + Flatten(ChildNodes)
    }

    /**
     * Whether this node is TestParent or lies somewhere below it, found by searching
     * TestParent's listing of itself and all its descendants.
     */
    function IsChildOf(TestParent: SCSNode?): (r: bool)
      reads TestParent, if TestParent == null then {} else TestParent.Repr
      requires TestParent != null ==> TestParent.Valid()
      ensures r <==> TestParent != null && this in TestParent.Repr
    {
      if TestParent == null then false
      else
        TestParent.AllNodesExact();
        this in TestParent.AllNodes()
    }

    /** Lists this node and all nodes below it, parent before children and children left to right. */
    method GetAllNodes() returns (AllNodesList: seq<SCSNode>)
      requires Valid()
      ensures AllNodesList == AllNodes()
      ensures AllNodesList[0] == this
      ensures forall n :: n in AllNodesList ==> n in Repr
      ensures forall n :: n in Repr ==> n in AllNodesList
      ensures NoDup(AllNodesList)
    {
      AllNodesList := [this];
      var i := 0;
      FlattenPrefix(ChildNodes, 0);
      while i < |ChildNodes|
        invariant 0 <= i <= |ChildNodes|
        invariant AllValid(ChildNodes[..i])
        invariant AllNodesList == [this] + Flatten(ChildNodes[..i])
      {
        FlattenPrefix(ChildNodes, i);
        AppendAssoc([this], Flatten(ChildNodes[..i]), ChildNodes[i].AllNodes());
        AllNodesList := AllNodesList + ChildNodes[i].AllNodes();
        i := i + 1;
      }
      assert ChildNodes[..i] == ChildNodes;
      AllNodesExact();
    }

    /** The pre-order listing holds this node first, then every node below it exactly once, and nothing else. */
    lemma {:induction false} AllNodesExact()
      requires Valid()
      ensures AllNodes()[0] == this
      ensures forall n :: n in AllNodes() ==> n in Repr
      ensures forall n :: n in Repr ==> n in AllNodes()
      ensures NoDup(AllNodes())
      decreases Repr, 0
    {
      FlattenExact(ChildNodes);
      NoDupJoin([this], Flatten(ChildNodes), {this}, ReprOf(ChildNodes));
    }

    /** Each listed child is a valid node below this one, and this node is not below it. */
    lemma ChildNodesAreChildren(Child: SCSNode)
      requires Valid() && Child in GetChildNodes()
      ensures Child.Valid() && Child != this
      ensures Child.IsChildOf(this) && !IsChildOf(Child)
    {
      AllValidIff(ChildNodes);
      ReprOfContains(ChildNodes, Child);
    }

    /** Being below is transitive: below a node that is below Ancestor means below Ancestor. */
    lemma IsChildOfTransitive(Ancestor: SCSNode, Descendant: SCSNode)
      requires Valid() && Ancestor.Valid()
      requires IsChildOf(Ancestor) && Descendant.IsChildOf(this)
      ensures Descendant.IsChildOf(Ancestor)
    {
      Ancestor.ReprClosed(this);
    }

    /** There are no cycles: two nodes each below the other are the same node. */
    lemma IsChildOfAntisymmetric(Other: SCSNode)
      requires Valid() && Other.Valid()
      requires IsChildOf(Other) && Other.IsChildOf(this)
      ensures Other == this
    {
      Other.ReprClosed(this);
    }

    /**
     * Every node of a valid footprint is itself a valid tree whose footprint lies
     * inside this one and, unless it is this node, does not reach back to it.
     */
    lemma {:induction false} ReprClosed(n: SCSNode)
      requires Valid() && n in Repr
      ensures n.Valid() && n.Repr <= Repr
      ensures n != this ==> this !in n.Repr
      decreases Repr
    {
      if n != this {
        var c := ReprOfWitness(ChildNodes, n);
        AllValidIff(ChildNodes);
        ReprOfContains(ChildNodes, c);
        c.ReprClosed(n);
      }
    }

    /**
     * Appends InNode to the child list, unless it is null or already a child.
     * The new child must be a valid tree sharing no node with this one, which
     * rules out cycles and shared children.
     */
    method AddChildNode(InNode: SCSNode?, bAddToAllNodes: bool)
      requires Valid()
      requires InNode != null && InNode !in ChildNodes ==> InNode.Valid() && InNode.Repr !! Repr
      modifies this`ChildNodes, this`Repr
      ensures Valid()
      ensures InNode != null && InNode !in old(ChildNodes) ==>
                ChildNodes == old(ChildNodes) + [InNode] && Repr == old(Repr) + InNode.Repr
      ensures InNode != null && InNode !in old(ChildNodes) ==>
                AllNodes() == old(AllNodes()) + InNode.AllNodes()
      ensures InNode == null || InNode in old(ChildNodes) ==>
                ChildNodes == old(ChildNodes) && Repr == old(Repr)
      ensures InNode != null ==> InNode in ChildNodes && InNode.IsChildOf(this)
    {
      if InNode != null && InNode !in ChildNodes {
        var cs := ChildNodes + [InNode];
        assert cs[..|cs| - 1] == ChildNodes;
        assert InNode in InNode.Repr;
        ghost var listing := Flatten(ChildNodes);
        ChildNodes := cs;
        Repr := Repr + InNode.Repr;
        assert Flatten(old(ChildNodes)) == listing;
        AppendAssoc([this], listing, InNode.AllNodes());
      }
    }

    /**
     * Removes InNode from the child list; the detached subtree keeps its own
     * structure. Nothing happens when InNode is null or not a child.
     */
    method RemoveChildNode(InNode: SCSNode?, bRemoveFromAllNodes: bool)
      requires Valid()
      modifies this`ChildNodes, this`Repr
      ensures Valid()
      ensures InNode != null ==> InNode !in ChildNodes
      ensures InNode != null && InNode in old(ChildNodes) ==>
                ChildNodes == Without(old(ChildNodes), InNode as SCSNode) && Repr == old(Repr) - InNode.Repr
      ensures InNode != null && InNode in old(ChildNodes) ==> InNode.Valid() && !InNode.IsChildOf(this)
      ensures InNode == null || InNode !in old(ChildNodes) ==>
                ChildNodes == old(ChildNodes) && Repr == old(Repr)
    {
      if InNode != null {
        if InNode in ChildNodes {
          var node: SCSNode := InNode;
          ChildInside(node);
          var remaining := Without(ChildNodes, node);
          ForestWithout(ChildNodes, node);
          assert this !in remaining;
          assert this !in ReprOf(remaining);
          ChildNodes := remaining;
          Repr := Repr - node.Repr;
          ValidIntro();
        } else {
          WithoutAbsent(ChildNodes, InNode);
          ChildNodes := Without(ChildNodes, InNode);
        }
      }
    }

    /**
     * Removes the child at ChildIndex; the detached subtree keeps its own
     * structure. Nothing happens when the index is out of range.
     */
    method RemoveChildNodeAt(ChildIndex: int, bRemoveFromAllNodes: bool)
      requires Valid()
      modifies this`ChildNodes, this`Repr
      ensures Valid()
      ensures 0 <= ChildIndex < |old(ChildNodes)| ==>
                ChildNodes == old(ChildNodes[..ChildIndex] + ChildNodes[ChildIndex + 1..])
                && Repr == old(Repr - ChildNodes[ChildIndex].Repr)
      ensures 0 <= ChildIndex < |old(ChildNodes)| ==>
                old(ChildNodes[ChildIndex]).Valid() && !old(ChildNodes[ChildIndex]).IsChildOf(this)
      ensures !(0 <= ChildIndex < |old(ChildNodes)|) ==> ChildNodes == old(ChildNodes) && Repr == old(Repr)
    {
      if 0 <= ChildIndex < |ChildNodes| {
        var child := ChildNodes[ChildIndex];
        ChildInside(child);
        ForestRemoveAt(ChildNodes, ChildIndex);
        var remaining := ChildNodes[..ChildIndex] + ChildNodes[ChildIndex + 1..];
        assert this !in ReprOf(remaining);
        ForestOutside(remaining, this);
        ChildNodes := remaining;
        Repr := Repr - child.Repr;
        ValidIntro();
      }
    }

    /**
     * Moves every child of SourceNode, in order, into this node's child list:
     * appended when InsertLocation is INDEX_NONE, inserted before position
     * InsertLocation otherwise. SourceNode is left without children. Nothing
     * happens for a null SourceNode.
     */
    method MoveChildNodes(SourceNode: SCSNode?, InsertLocation: int)
      requires Valid()
      requires SourceNode != null ==> SourceNode != this && SourceNode.Valid()
      requires SourceNode != null ==> SourceNode in ChildNodes || SourceNode.Repr !! Repr
      requires SourceNode != null && InsertLocation != INDEX_NONE ==> 0 <= InsertLocation <= |ChildNodes|
      modifies this`ChildNodes, this`Repr
      modifies (if SourceNode == null then {} else {SourceNode})`ChildNodes
      modifies (if SourceNode == null then {} else {SourceNode})`Repr
      ensures Valid()
      ensures SourceNode != null && InsertLocation == INDEX_NONE ==>
                ChildNodes == old(ChildNodes) + old(SourceNode.ChildNodes)
      ensures SourceNode != null && InsertLocation != INDEX_NONE ==>
                ChildNodes == old(ChildNodes[..InsertLocation]) + old(SourceNode.ChildNodes) + old(ChildNodes[InsertLocation..])
      ensures SourceNode != null ==> Repr == old(Repr + ReprOf(SourceNode.ChildNodes))
      ensures SourceNode != null ==> SourceNode.ChildNodes == [] && SourceNode.Repr == {SourceNode} && SourceNode.Valid()
      ensures SourceNode != null ==> forall n :: n in old(SourceNode.ChildNodes) ==> n.IsChildOf(this)
      ensures SourceNode == null ==> ChildNodes == old(ChildNodes) && Repr == old(Repr)
    {
      if SourceNode != null {
        var at := if InsertLocation == INDEX_NONE then |ChildNodes| else InsertLocation;
        assert InsertLocation == INDEX_NONE ==> ChildNodes == ChildNodes[..at] && ChildNodes[at..] == [];
        if SourceNode in ChildNodes {
          MoveFromChild(SourceNode, at);
        } else {
          MoveFromOutside(SourceNode, at);
        }
      }
    }

    /** MoveChildNodes when SourceNode is itself one of this node's children. */
    method MoveFromChild(source: SCSNode, at: nat)
      requires Valid() && source.Valid() && source != this
      requires source in ChildNodes && at <= |ChildNodes|
      modifies this`ChildNodes, source`ChildNodes, source`Repr
      ensures ChildNodes == old(ChildNodes[..at]) + old(source.ChildNodes) + old(ChildNodes[at..])
      ensures Repr == old(Repr + ReprOf(source.ChildNodes))
      ensures forall n :: n in old(source.ChildNodes) ==> n in Repr
      ensures source.ChildNodes == [] && source.Repr == {source}
      ensures Valid() && source.Valid()
    {
      var moved := source.ChildNodes;
      var a := ChildNodes;
      var spliced := a[..at] + moved + a[at..];
      ghost var k :| 0 <= k < |a| && a[k] == source;
      ghost var rest := a[..k] + a[k + 1..];
      ghost var R, M := ReprOf(rest), ReprOf(moved);
      assert Forest(rest) && Forest(moved) && Repr == {this} + (R + {source}) + M && R !! ({source} + M)
        && this !in rest && source !in rest && this !in moved && source !in moved
        && this !in R && source !in R && this !in M && source !in M
        && (forall n :: n in moved ==> n in M) && rest[..k] + [source] + rest[k..] == a
      by {
        ChildSourceSplit(k);
        ForestMembers(moved);
        ReinsertAt(a, k);
      }
      Rehang(source, spliced, rest, moved);
      assert Forest(spliced) && ReprOf(spliced) == (R + {source}) + M by {
        ForestSingleton(source);
        ForestSplice(rest, [source], k);
        ForestSplice(a, moved, at);
      }
      ValidIntro();
    }

    /**
     * The two list updates of MoveChildNodes: this node takes `children`,
     * `source` is emptied. Forests hanging below neither node keep their shape.
     */
    method Rehang(source: SCSNode, children: seq<SCSNode>, ghost kept: seq<SCSNode>, ghost moved: seq<SCSNode>)
      requires source != this && Forest(kept) && Forest(moved)
      requires this !in kept && source !in kept && this !in moved && source !in moved
      requires this !in ReprOf(kept) && source !in ReprOf(kept) && this !in ReprOf(moved) && source !in ReprOf(moved)
      modifies this`ChildNodes, source`ChildNodes, source`Repr
      ensures ChildNodes == children && source.ChildNodes == [] && source.Repr == {source} && source.Valid()
      ensures Forest(kept) && ReprOf(kept) == old(ReprOf(kept))
      ensures Forest(moved) && ReprOf(moved) == old(ReprOf(moved))
    {
      ChildNodes := children;
      source.ChildNodes := [];
      source.Repr := {source};
      source.ValidIntro();
    }

    /**
     * How the footprint of a valid node splits around its k-th child: the
     * other children, the child itself and the child's own children.
     */
    lemma ChildSourceSplit(k: nat)
      requires Valid() && k < |ChildNodes|
      ensures Forest(ChildNodes[..k] + ChildNodes[k + 1..]) && Forest(ChildNodes[k].ChildNodes)
      ensures Repr == {this} + (ReprOf(ChildNodes[..k] + ChildNodes[k + 1..]) + {ChildNodes[k]}) + ReprOf(ChildNodes[k].ChildNodes)
      ensures ReprOf(ChildNodes[..k] + ChildNodes[k + 1..]) !! ({ChildNodes[k]} + ReprOf(ChildNodes[k].ChildNodes))
      ensures this !in ReprOf(ChildNodes[..k] + ChildNodes[k + 1..]) + ReprOf(ChildNodes[k].ChildNodes)
      ensures this !in ChildNodes[..k] + ChildNodes[k + 1..] && this !in ChildNodes[k].ChildNodes
      ensures ChildNodes[k] !in ChildNodes[..k] + ChildNodes[k + 1..] && ChildNodes[k] !in ChildNodes[k].ChildNodes
      ensures ChildNodes[k] !in ReprOf(ChildNodes[k].ChildNodes)
    {
      var source, rest := ChildNodes[k], ChildNodes[..k] + ChildNodes[k + 1..];
      ChildInside(source);
      ForestRemoveAt(ChildNodes, k);
      ForestOutside(source.ChildNodes, this);
      ForestOutside(source.ChildNodes, source);
      ForestOutside(rest, this);
      ForestOutside(rest, source);
    }

    /** MoveChildNodes when SourceNode lies outside this node's tree. */
    method MoveFromOutside(source: SCSNode, at: nat)
      requires Valid() && source.Valid() && source.Repr !! Repr && at <= |ChildNodes|
      modifies this`ChildNodes, this`Repr, source`ChildNodes, source`Repr
      ensures ChildNodes == old(ChildNodes[..at]) + old(source.ChildNodes) + old(ChildNodes[at..])
      ensures Repr == old(Repr + ReprOf(source.ChildNodes))
      ensures forall n :: n in old(source.ChildNodes) ==> n in Repr
      ensures source.ChildNodes == [] && source.Repr == {source}
      ensures Valid() && source.Valid()
    {
      var moved := source.ChildNodes;
      var a := ChildNodes;
      var spliced := a[..at] + moved + a[at..];
      ForestMembers(moved);
      ForestOutside(moved, this);
      ForestOutside(moved, source);
      ForestSplice(a, moved, at);
      ForestOutside(spliced, this);
      ForestOutside(spliced, source);
      ChildNodes := spliced;
      Repr := Repr + ReprOf(moved);
      source.ChildNodes := [];
      source.Repr := {source};
      source.ValidIntro();
      ValidIntro();
    }

    /** A node whose footprint is itself plus a forest of children not reaching back to it is valid. */
    lemma ValidIntro()
      requires Forest(ChildNodes) && this !in ReprOf(ChildNodes)
      requires Repr == {this} + ReprOf(ChildNodes)
      ensures Valid()
    {
      ForestElim(ChildNodes);
      forall i | 0 <= i < |ChildNodes| ensures ChildNodes[i] in Repr - {this} {
        assert ChildNodes[i] in ChildNodes;
      }
    }

    /** A child of a valid node is a valid tree inside the children's footprint, not reaching back. */
    lemma ChildInside(c: SCSNode)
      requires Valid() && c in ChildNodes
      ensures c.Valid() && c in c.Repr && c.Repr <= ReprOf(ChildNodes) && this !in c.Repr
    {
      AllValidIff(ChildNodes);
      ReprOfContains(ChildNodes, c);
    }

    /** The child node list of this node; in a valid tree it lists distinct valid subtrees below this node. */
    function GetChildNodes(): (r: seq<SCSNode>)
      reads this`ChildNodes, this`Repr, Repr - {this}
      ensures Valid() ==> NoDup(r) && forall c :: c in r ==> c.Valid() && c in Repr && c != this
    {
      ValidChildren();
      ChildNodes
    }

    /** The children of a valid node are distinct valid subtrees inside its footprint. */
    lemma ValidChildren()
      ensures Valid() ==> NoDup(ChildNodes)
      ensures Valid() ==> forall c :: c in ChildNodes ==> c.Valid() && c in Repr && c != this
    {
      if Valid() {
        ForestElim(ChildNodes);
        forall c | c in ChildNodes ensures c in Repr && c != this {
          ReprOfContains(ChildNodes, c);
        }
      }
    }

    /** The name of the variable created for this node's component instance. */
    function GetVariableName(): Name
      reads this`InternalVariableName
    {
      InternalVariableName
    }

    /**
     * Renames the variable made for this node's component. Renaming the
     * component template as well (bRenameTemplate) touches objects outside
     * the node and is not modelled.
     */
    method SetVariableName(NewName: Name, bRenameTemplate: bool)
      modifies this`InternalVariableName
      ensures GetVariableName() == NewName
    {
      InternalVariableName := NewName;
    }

    /** Front-to-back search of the metadata array for the first entry with key Key. */
    method FindMetaDataEntryIndexForKey(Key: Name) returns (EntryIndex: int)
      ensures EntryIndex == IndexOfKey(MetaDataArray, Key)
    {
      var i := 0;
      while i < |MetaDataArray|
        invariant 0 <= i <= |MetaDataArray|
        invariant forall j :: 0 <= j < i ==> MetaDataArray[j].DataKey != Key
      {
        if MetaDataArray[i].DataKey == Key {
          return i;
        }
        i := i + 1;
      }
      return INDEX_NONE;
    }

    /** The value stored under Key; the caller must make sure an entry with that key exists. */
    method GetMetaData(Key: Name) returns (Value: string)
      requires HasKey(MetaDataArray, Key)
      ensures Value == ValueOf(MetaDataArray, Key)
    {
      var EntryIndex := FindMetaDataEntryIndexForKey(Key);
      Value := MetaDataArray[EntryIndex].DataValue;
    }

    /** Stores Value under Key: overwrites the first entry with that key, or appends a new entry. */
    method SetMetaData(Key: Name, Value: string)
      modifies this`MetaDataArray
      ensures MetaDataArray == SetEntry(old(MetaDataArray), Key, Value)
      ensures HasKey(MetaDataArray, Key) && ValueOf(MetaDataArray, Key) == Value
      ensures UniqueKeys(old(MetaDataArray)) ==> UniqueKeys(MetaDataArray)
    {
      SetThenGet(MetaDataArray, Key, Value);
      if UniqueKeys(MetaDataArray) {
        SetPreservesUniqueKeys(MetaDataArray, Key, Value);
      }
      var EntryIndex := FindMetaDataEntryIndexForKey(Key);
      if EntryIndex != INDEX_NONE {
        MetaDataArray := MetaDataArray[EntryIndex := MetaDataEntry(Key, Value)];
      } else {
        MetaDataArray := MetaDataArray + [MetaDataEntry(Key, Value)];
      }
    }

    /** Removes the first entry with key Key, if there is one. */
    method RemoveMetaData(Key: Name)
      modifies this`MetaDataArray
      ensures MetaDataArray == RemoveEntry(old(MetaDataArray), Key)
      ensures UniqueKeys(old(MetaDataArray)) ==> UniqueKeys(MetaDataArray) && !HasKey(MetaDataArray, Key)
    {
      if UniqueKeys(MetaDataArray) {
        RemoveThenAbsent(MetaDataArray, Key);
        RemovePreservesUniqueKeys(MetaDataArray, Key);
      }
      var EntryIndex := FindMetaDataEntryIndexForKey(Key);
      if EntryIndex != INDEX_NONE {
        MetaDataArray := MetaDataArray[..EntryIndex] + MetaDataArray[EntryIndex + 1..];
      }
    }

  }

  /** A node's footprint is part of the footprint of any list holding it. */
  lemma {:induction false} ReprOfContains(cs: seq<SCSNode>, c: SCSNode)
    requires c in cs
    ensures c.Repr <= ReprOf(cs)
    decreases |cs|
  {
    var p := cs[..|cs| - 1];
    if c != cs[|cs| - 1] {
      assert cs == p + [cs[|cs| - 1]];
      ReprOfContains(p, c);
    }
  }

  /** A node of a list's footprint lies in the footprint of some node of the list. */
  lemma {:induction false} ReprOfWitness(cs: seq<SCSNode>, n: SCSNode) returns (c: SCSNode)
    requires n in ReprOf(cs)
    ensures c in cs && n in c.Repr
    decreases |cs|
  {
    var p := cs[..|cs| - 1];
    if n in cs[|cs| - 1].Repr {
      c := cs[|cs| - 1];
    } else {
      c := ReprOfWitness(p, n);
      assert c in cs;
    }
  }

  /** The footprint of a concatenation is the union of the footprints. */
  lemma {:induction false} ReprOfConcat(a: seq<SCSNode>, b: seq<SCSNode>)
    ensures ReprOf(a + b) == ReprOf(a) + ReprOf(b)
    decreases |b|
  {
    if b == [] {
      assert a + b == a;
    } else {
      var q := b[..|b| - 1];
      assert (a + b)[..|a + b| - 1] == a + q;
      ReprOfConcat(a, q);
    }
  }

  /** AllValid means: every listed node is valid. */
  lemma {:induction false} AllValidIff(cs: seq<SCSNode>)
    ensures AllValid(cs) <==> forall c :: c in cs ==> c.Valid()
    decreases |cs|
  {
    if cs != [] {
      var p := cs[..|cs| - 1];
      assert cs == p + [cs[|cs| - 1]];
      AllValidIff(p);
      if AllValid(cs) {
        forall x | x in cs ensures x.Valid() {
          if x != cs[|cs| - 1] {
            assert x in p;
          }
        }
      }
      if forall x :: x in cs ==> x.Valid() {
        assert forall x :: x in p ==> x in cs;
      }
    }
  }

  /** Among valid trees, Disjoint means: no node listed twice, and distinct listed nodes reach disjoint node sets. */
  lemma {:induction false} DisjointIff(cs: seq<SCSNode>)
    requires AllValid(cs)
    ensures Disjoint(cs) <==> NoDup(cs) && PairwiseDisjoint(cs)
    decreases |cs|
  {
    if cs != [] {
      var p, c := cs[..|cs| - 1], cs[|cs| - 1];
      assert cs == p + [c];
      AllValidIff(cs);
      AllValidIff(p);
      DisjointIff(p);
      assert c in c.Repr;
      if Disjoint(cs) {
        forall x | x in p ensures x != c && x.Repr !! c.Repr {
          ReprOfContains(p, x);
        }
        NoDupConcat(p, [c]);
      }
      if NoDup(cs) && PairwiseDisjoint(cs) {
        NoDupSplit(p, [c]);
        forall n | n in ReprOf(p) ensures n !in c.Repr {
          var x := ReprOfWitness(p, n);
        }
      }
    }
  }

  /** The concatenated listing of a forest holds each of its nodes exactly once, and nothing else. */
  lemma {:induction false} FlattenExact(cs: seq<SCSNode>)
    requires Forest(cs)
    ensures forall n :: n in Flatten(cs) ==> n in ReprOf(cs)
    ensures forall n :: n in ReprOf(cs) ==> n in Flatten(cs)
    ensures NoDup(Flatten(cs))
    decreases ReprOf(cs), |cs|
  {
    if cs != [] {
      var p, c := cs[..|cs| - 1], cs[|cs| - 1];
      FlattenExact(p);
      c.AllNodesExact();
      NoDupJoin(Flatten(p), c.AllNodes(), ReprOf(p), c.Repr);
    }
  }

  /** Listing one more subtree of a forest appends that subtree's listing. */
  lemma FlattenPrefix(cs: seq<SCSNode>, i: nat)
    requires AllValid(cs) && i <= |cs|
    ensures AllValid(cs[..i])
    ensures i < |cs| ==> cs[i].Valid() && AllValid(cs[..i + 1])
    ensures i < |cs| ==> Flatten(cs[..i + 1]) == Flatten(cs[..i]) + cs[i].AllNodes()
  {
    AllValidPrefix(cs, i);
    if i < |cs| {
      AllValidPrefix(cs, i + 1);
      var p := cs[..i + 1];
      assert p[..i] == cs[..i] && p[i] == cs[i];
    }
  }

  /** Every prefix of a list of valid trees is one, and so is each of its elements. */
  lemma AllValidPrefix(cs: seq<SCSNode>, i: nat)
    requires AllValid(cs) && i <= |cs|
    ensures AllValid(cs[..i])
    ensures i < |cs| ==> cs[i].Valid()
  {
    AllValidIff(cs);
    AllValidIff(cs[..i]);
    assert forall c :: c in cs[..i] ==> c in cs;
    if i < |cs| {
      assert cs[i] in cs;
    }
  }

  /** Concatenation of node lists is associative. */
  lemma AppendAssoc(a: seq<SCSNode>, b: seq<SCSNode>, c: seq<SCSNode>)
    ensures (a + b) + c == a + (b + c)
  {
  }

  /** A list of valid trees, none listed twice, whose footprints do not meet, is a forest. */
  lemma ForestIntro(cs: seq<SCSNode>)
    requires forall c :: c in cs ==> c.Valid()
    requires NoDup(cs) && PairwiseDisjoint(cs)
    ensures Forest(cs)
  {
    AllValidIff(cs);
    DisjointIff(cs);
  }

  /** The nodes of a forest are valid trees, listed once each, reaching disjoint node sets. */
  lemma ForestElim(cs: seq<SCSNode>)
    requires Forest(cs)
    ensures forall c :: c in cs ==> c.Valid() && c in c.Repr && c.Repr <= ReprOf(cs)
    ensures NoDup(cs) && PairwiseDisjoint(cs)
  {
    AllValidIff(cs);
    DisjointIff(cs);
    forall c | c in cs ensures c.Repr <= ReprOf(cs) {
      ReprOfContains(cs, c);
    }
  }

  /** Dropping the k-th tree of a forest leaves a forest reaching everything but that tree's nodes. */
  lemma ForestRemoveAt(cs: seq<SCSNode>, k: nat)
    requires Forest(cs) && k < |cs|
    ensures Forest(cs[..k] + cs[k + 1..])
    ensures ReprOf(cs[..k] + cs[k + 1..]) == ReprOf(cs) - cs[k].Repr
  {
    var r := cs[..k] + cs[k + 1..];
    ForestElim(cs);
    NoDupRemoveAt(cs, k);
    ForestIntro(r);
    ReprOfRemoveAt(cs, k);
  }

  /** Removing a tree of a forest by identity is dropping its one position. */
  lemma ForestWithout(cs: seq<SCSNode>, x: SCSNode)
    requires Forest(cs) && x in cs
    ensures Forest(Without(cs, x))
    ensures ReprOf(Without(cs, x)) == ReprOf(cs) - x.Repr
  {
    var k :| 0 <= k < |cs| && cs[k] == x;
    ForestElim(cs);
    WithoutUnique(cs, k);
    ForestRemoveAt(cs, k);
  }

  /** Every tree of a forest is among the nodes the forest reaches. */
  lemma ForestMembers(cs: seq<SCSNode>)
    requires Forest(cs)
    ensures forall c :: c in cs ==> c in ReprOf(cs)
  {
    ForestElim(cs);
  }

  /** A node no tree of a forest reaches is not one of its trees. */
  lemma ForestOutside(cs: seq<SCSNode>, n: SCSNode)
    requires Forest(cs) && n !in ReprOf(cs)
    ensures n !in cs
  {
    ForestElim(cs);
  }

  /** A single valid tree is a forest reaching its own footprint. */
  lemma ForestSingleton(n: SCSNode)
    requires n.Valid()
    ensures Forest([n]) && ReprOf([n]) == n.Repr
  {
    assert [n][..0] == [];
  }

  /** Putting the k-th element back where it was dropped restores the sequence. */
  lemma ReinsertAt(a: seq<SCSNode>, k: nat)
    requires k < |a|
    ensures (a[..k] + a[k + 1..])[..k] + [a[k]] + (a[..k] + a[k + 1..])[k..] == a
  {
    var rest := a[..k] + a[k + 1..];
    assert rest[..k] == a[..k];
    assert rest[k..] == a[k + 1..];
  }

  /** Two forests reaching disjoint node sets join into one forest reaching both. */
  lemma ForestConcat(x: seq<SCSNode>, y: seq<SCSNode>)
    requires Forest(x) && Forest(y) && ReprOf(x) !! ReprOf(y)
    ensures Forest(x + y)
    ensures ReprOf(x + y) == ReprOf(x) + ReprOf(y)
  {
    ForestElim(x);
    ForestElim(y);
    NoDupJoin(x, y, ReprOf(x), ReprOf(y));
    forall a, b | a in x + y && b in x + y && a != b ensures a.Repr !! b.Repr {
      if a in x && b in y {
        assert a.Repr <= ReprOf(x) && b.Repr <= ReprOf(y);
      } else if a in y && b in x {
        assert a.Repr <= ReprOf(y) && b.Repr <= ReprOf(x);
      }
    }
    ForestIntro(x + y);
    ReprOfConcat(x, y);
  }

  /** Cutting a forest in two gives two forests reaching disjoint node sets. */
  lemma ForestSplit(x: seq<SCSNode>, i: nat)
    requires Forest(x) && i <= |x|
    ensures Forest(x[..i]) && Forest(x[i..])
    ensures ReprOf(x[..i]) !! ReprOf(x[i..])
    ensures ReprOf(x[..i]) + ReprOf(x[i..]) == ReprOf(x)
  {
    var a, b := x[..i], x[i..];
    assert x == a + b;
    ForestElim(x);
    NoDupSplit(a, b);
    ForestIntro(a);
    ForestIntro(b);
    ReprOfConcat(a, b);
    forall n | n in ReprOf(a) ensures n !in ReprOf(b) {
      var c := ReprOfWitness(a, n);
      if n in ReprOf(b) {
        var d := ReprOfWitness(b, n);
      }
    }
  }

  /** Inserting a forest into another at position i, when they reach disjoint node sets, gives a forest reaching both. */
  lemma ForestSplice(x: seq<SCSNode>, y: seq<SCSNode>, i: nat)
    requires Forest(x) && Forest(y) && ReprOf(x) !! ReprOf(y) && i <= |x|
    ensures Forest(x[..i] + y + x[i..])
    ensures ReprOf(x[..i] + y + x[i..]) == ReprOf(x) + ReprOf(y)
  {
    ForestSplit(x, i);
    ForestConcat(x[..i], y);
    ForestConcat(x[..i] + y, x[i..]);
  }

  /** Without the k-th tree, a forest reaches exactly the nodes outside that tree. */
  lemma ReprOfRemoveAt(cs: seq<SCSNode>, k: nat)
    requires k < |cs| && NoDup(cs) && PairwiseDisjoint(cs)
    ensures ReprOf(cs[..k] + cs[k + 1..]) == ReprOf(cs) - cs[k].Repr
  {
    ReprOfAround(cs, k);
    OthersAvoid(cs, k);
    ReprOfConcat(cs[..k], cs[k + 1..]);
  }

  /** The nodes a list reaches are those reached before position k, at k, and after k. */
  lemma ReprOfAround(cs: seq<SCSNode>, k: nat)
    requires k < |cs|
    ensures ReprOf(cs) == ReprOf(cs[..k]) + cs[k].Repr + ReprOf(cs[k + 1..])
  {
    var p := cs[..k + 1];
    assert p[..k] == cs[..k] && p[k] == cs[k];
    assert ReprOf(p) == ReprOf(cs[..k]) + cs[k].Repr;
    assert cs == p + cs[k + 1..];
    ReprOfConcat(p, cs[k + 1..]);
  }

  /** In a list of distinct trees with disjoint footprints, the trees before and after position k avoid the k-th. */
  lemma OthersAvoid(cs: seq<SCSNode>, k: nat)
    requires k < |cs| && NoDup(cs) && PairwiseDisjoint(cs)
    ensures ReprOf(cs[..k]) !! cs[k].Repr && ReprOf(cs[k + 1..]) !! cs[k].Repr
  {
    var a, x, b := cs[..k], cs[k], cs[k + 1..];
    forall c | c in a ensures c.Repr !! x.Repr {
      var j :| 0 <= j < |a| && a[j] == c;
      assert cs[j] == c;
    }
    forall c | c in b ensures c.Repr !! x.Repr {
      var j :| 0 <= j < |b| && b[j] == c;
      assert cs[k + 1 + j] == c;
    }
    ReprOfAvoids(a, x.Repr);
    ReprOfAvoids(b, x.Repr);
  }

  /** Trees that each avoid a set of nodes together avoid it. */
  lemma ReprOfAvoids(cs: seq<SCSNode>, s: set<SCSNode>)
    requires forall c :: c in cs ==> c.Repr !! s
    ensures ReprOf(cs) !! s
  {
    forall n | n in ReprOf(cs) ensures n !in s {
      var c := ReprOfWitness(cs, n);
    }
  }
}
