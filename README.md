# USCS_Node: construction-script node tree and metadata store

This project models the core of `USCS_Node`, a node in a Blueprint's simple
construction script. Each node describes one component to create. A node owns:

- an ordered list of child nodes (`ChildNodes`), which makes the nodes of a
  script a forest of trees;
- an ordered array of key/value metadata entries (`MetaDataArray`);
- the name of the variable that will hold the component instance built from it
  (`InternalVariableName`).

The model has four modules.

- `CoreTypes` (`core_types.dfy`): the engine types it needs. `FName` is a
  string and `INDEX_NONE` is `-1`.
- `MetaData` (`metadata.dfy`): the metadata array as a sequence of entries.
  - Specification functions give the front-to-back search for a key
    (`IndexOfKey`), the upsert (`SetEntry`) and the removal of the first
    matching entry (`RemoveEntry`).
  - Lemmas give their laws: set-then-get, other keys untouched, unique keys
    preserved, idempotence, remove-then-absent, and remove undoing an insert.
- `SCSNodes` (`scs_node.dfy`): the class `SCSNode` with the fields of the node.
  - Its readers are functions: `GetChildNodes`, `GetVariableName`, `AllNodes`
    and `IsChildOf`.
  - Its list and metadata operations are methods that update the fields in
    place.
  - Every node has a ghost footprint `Repr`: the node and everything reachable
    below it. `Valid()` says the structure below the node is a tree:
    - children's footprints lie inside the parent's;
    - distinct children share no node;
    - no node reaches back to itself.
  - The tree operations keep `Valid()`. That is how the model states that adding,
    removing or moving children creates no cycle and no shared child within the
    tree below the node the operation runs on. Nodes outside that tree are not
    tracked: a node added here may still be listed as a child elsewhere.
- `Sequences` (`sequences.dfy`): the array operations the node relies on.
  - `Without` models `TArray::Remove`, which drops every occurrence of an element.
  - `NoDup` is duplicate-freedom, with its lemmas.

The method bodies of `USCS_Node` live in `SCS_Node.cpp`, which is not part of
this model. The operations follow the declarations and doc comments of
`SCS_Node.h`. The header does not show what happens beyond those promises, and
the model makes these choices of its own:

- `AddChildNode` ignores a null node and a node that is already a child.
  Otherwise it appends. A plain array append would store either; the model's
  tree could then not be valid.
- `RemoveChildNode` removes every occurrence of the node from the list, as an
  array remove does.
- `RemoveChildNodeAt` removes the entry at a valid index. It ignores an index
  outside the list, where a plain array removal would fail an assertion.
- `MoveChildNodes` appends (at `INDEX_NONE`) or inserts the source's children,
  then empties the source's list.
- `IsChildOf` searches the listing `GetAllNodes` gives for the candidate parent.
  A node therefore counts as a child of itself.
- The metadata operations use the search of `FindMetaDataEntryIndexForKey`.
  `SetMetaData` overwrites the value of the first matching entry or appends a
  new entry. `RemoveMetaData` removes the first matching entry. `GetMetaData`
  demands that the key exists.

An observation about the header: `AddChildNode` (`SCS_Node.h:126`) and
`MoveChildNodes` (`SCS_Node.h:135`) return `void` and show no guard against a
cycle or against a child shared by two parents. Either would break the node
listing:

- after a cycle, the recursive `GetAllNodes` (`SCS_Node.h:119-120`), and with it
  `IsChildOf` (`SCS_Node.h:141`), would not end;
- a shared child would be listed twice.

The model therefore makes callers avoid both. `Valid()` demands a tree, and the
preconditions of `AddChildNode` and `MoveChildNodes` exclude a node that would
close a cycle or share a subtree. `SetVariableName` always stores the new name.

## Model

| member | source | states |
|---|---|---|
| SCSNodes.SCSNode.constructor | Engine/Source/Runtime/Engine/Classes/Engine/SCS_Node.h:42-65 | A new node has no children and no metadata, and it is a valid single-node tree. |
| SCSNodes.SCSNode.GetAllNodes | Engine/Source/Runtime/Engine/Classes/Engine/SCS_Node.h:119-120 | Returns this node followed by the pre-order listings of its children, left to right. The list starts with the node itself, holds every node reachable below it and nothing else, and lists each node once. |
| SCSNodes.SCSNode.AllNodesExact | Engine/Source/Runtime/Engine/Classes/Engine/SCS_Node.h:137-138 | The listing of a valid node starts with the node. Its members are exactly the node's footprint, and none repeats. |
| SCSNodes.FlattenExact | Engine/Source/Runtime/Engine/Classes/Engine/SCS_Node.h:119-120 | The concatenated listings of a forest of children hold exactly the nodes the forest reaches, each once. |
| SCSNodes.SCSNode.ChildNodesAreChildren | Engine/Source/Runtime/Engine/Classes/Engine/SCS_Node.h:122-123 | Every node `GetChildNodes` returns is a valid node different from this one. It is a child of this node, and this node is not a child of it. |
| SCSNodes.SCSNode.GetChildNodes | Engine/Source/Runtime/Engine/Classes/Engine/SCS_Node.h:122-123 | Returns the child list. In a valid tree its entries are distinct, and each is a valid subtree inside this node's footprint that is not this node. |
| SCSNodes.SCSNode.GetVariableName | Engine/Source/Runtime/Engine/Classes/Engine/SCS_Node.h:149-153 | Returns the stored variable name. This is the field the constructor initialises and `SetVariableName` writes. |
| SCSNodes.SCSNode.IsChildOf | Engine/Source/Runtime/Engine/Classes/Engine/SCS_Node.h:140-141 | True exactly when TestParent is non-null and this node is TestParent or lies below it. |
| SCSNodes.SCSNode.IsChildOfTransitive | Engine/Source/Runtime/Engine/Classes/Engine/SCS_Node.h:140-141 | A node below a node that is below Ancestor is below Ancestor. |
| SCSNodes.SCSNode.IsChildOfAntisymmetric | Engine/Source/Runtime/Engine/Classes/Engine/SCS_Node.h:140-141 | Two valid nodes each below the other are the same node, so the child relation has no cycles. |
| SCSNodes.SCSNode.ReprClosed | Engine/Source/Runtime/Engine/Classes/Engine/SCS_Node.h:59-61 | Every node below a valid node is itself a valid tree inside the footprint. Apart from the node itself, none of them reaches back to it. |
| SCSNodes.SCSNode.AddChildNode | Engine/Source/Runtime/Engine/Classes/Engine/SCS_Node.h:125-126 | Afterwards InNode is in the child list and `InNode.IsChildOf(this)` holds. A new child is appended and the listing grows by the child's listing. A null node or an existing child leaves the list as it was. The tree stays valid. |
| SCSNodes.SCSNode.RemoveChildNode | Engine/Source/Runtime/Engine/Classes/Engine/SCS_Node.h:128-129 | Afterwards InNode is not a child. A former child is dropped from the list and its subtree from the footprint. The detached subtree stays a valid tree that no longer lies below this node. Anything else leaves the list as it was. Metadata and names are untouched. |
| SCSNodes.SCSNode.RemoveChildNodeAt | Engine/Source/Runtime/Engine/Classes/Engine/SCS_Node.h:131-132 | For an index inside the list, exactly that entry is removed and the order of the others is kept. The detached subtree stays valid and is no longer below this node. An index outside the list changes nothing. |
| SCSNodes.SCSNode.MoveChildNodes | Engine/Source/Runtime/Engine/Classes/Engine/SCS_Node.h:134-135 | The source's children, in order, are appended (INDEX_NONE) or inserted at InsertLocation. The source's list is then empty, and every moved node is a child of this node. The footprint grows by the moved nodes. Both nodes stay valid trees. A null source changes nothing. |
| SCSNodes.SCSNode.SetVariableName | Engine/Source/Runtime/Engine/Classes/Engine/SCS_Node.h:149-156 | Afterwards `GetVariableName()` returns the new name. Only the name field changes. |
| SCSNodes.SCSNode.FindMetaDataEntryIndexForKey | Engine/Source/Runtime/Engine/Classes/Engine/SCS_Node.h:181-182 | Returns what the front-to-back search `IndexOfKey` gives, and changes nothing. |
| MetaData.IndexOfKey | Engine/Source/Runtime/Engine/Classes/Engine/SCS_Node.h:181-182 | The result is INDEX_NONE exactly when no entry has the key. Otherwise it is the index of the first entry with the key. |
| SCSNodes.SCSNode.GetMetaData | Engine/Source/Runtime/Engine/Classes/Engine/SCS_Node.h:175-176 | Requires an entry with the key to exist. Returns the value of the first such entry. |
| MetaData.ValueOf | Engine/Source/Runtime/Engine/Classes/Engine/SCS_Node.h:175-176 | The value returned for a present key belongs to an entry of the array carrying that key. |
| MetaData.SetEntry | Engine/Source/Runtime/Engine/Classes/Engine/SCS_Node.h:172-173 | The upsert contains the new entry. It keeps the length when the key was present and grows by one entry otherwise. |
| SCSNodes.SCSNode.SetMetaData | Engine/Source/Runtime/Engine/Classes/Engine/SCS_Node.h:172-173 | The array becomes the upsert of (Key, Value). Afterwards the key is present, reading it gives Value, and unique keys stay unique. |
| MetaData.SetThenGet | Engine/Source/Runtime/Engine/Classes/Engine/SCS_Node.h:172-176 | After setting a key, the key is present and its value is the one set. |
| MetaData.SetShape | Engine/Source/Runtime/Engine/Classes/Engine/SCS_Node.h:172-173 | Setting a present key overwrites in place: same length, same position, same keys. Setting an absent key appends one entry. |
| MetaData.SetKeepsOtherKeys | Engine/Source/Runtime/Engine/Classes/Engine/SCS_Node.h:172-173 | Setting one key leaves the position and value of every other key unchanged. |
| MetaData.SetPreservesUniqueKeys | Engine/Source/Runtime/Engine/Classes/Engine/SCS_Node.h:172-173 | Setting never introduces a duplicate key. |
| MetaData.SetIdempotent | Engine/Source/Runtime/Engine/Classes/Engine/SCS_Node.h:172-173 | Setting the same key and value twice is the same as setting it once. |
| MetaData.RemoveEntry | Engine/Source/Runtime/Engine/Classes/Engine/SCS_Node.h:178-179 | When the key is present, exactly the position of its first entry is dropped: earlier entries stay in place and later ones move down by one. When it is absent, the array is unchanged. |
| SCSNodes.SCSNode.RemoveMetaData | Engine/Source/Runtime/Engine/Classes/Engine/SCS_Node.h:178-179 | The array loses its first entry with the key. When keys were unique, they stay unique and the key is gone. |
| MetaData.RemoveThenAbsent | Engine/Source/Runtime/Engine/Classes/Engine/SCS_Node.h:178-182 | With unique keys, searching for a key after removing it gives INDEX_NONE. |
| MetaData.RemoveKeepsOtherKeys | Engine/Source/Runtime/Engine/Classes/Engine/SCS_Node.h:178-179 | Removing one key leaves the presence and value of every other key unchanged. |
| MetaData.RemovePreservesUniqueKeys | Engine/Source/Runtime/Engine/Classes/Engine/SCS_Node.h:178-179 | Removing never introduces a duplicate key. |
| MetaData.SetThenRemove | Engine/Source/Runtime/Engine/Classes/Engine/SCS_Node.h:172-179 | Setting an absent key and then removing it restores the array. |
| Sequences.Without | Engine/Source/Runtime/Engine/Classes/Engine/SCS_Node.h:128-129 | The list with an element removed holds exactly the other elements of the original. |
| Sequences.WithoutUnique | Engine/Source/Runtime/Engine/Classes/Engine/SCS_Node.h:128-132 | On a duplicate-free child list, removing a node is removing the one index where it sits. So RemoveChildNode and RemoveChildNodeAt agree. |
| Sequences.WithoutAppended | Engine/Source/Runtime/Engine/Classes/Engine/SCS_Node.h:125-129 | Removing a node that was just appended as a new child restores the child list. So RemoveChildNode undoes AddChildNode. |

## Left out

- `ExecuteNodeOnActor`: it creates live engine components and does floating-point transform math. Neither is modelled.
- `GetActualComponentTemplate`, `GetActualComponentTemplateData`, `GetParentComponentTemplate`: these walk generated-class hierarchies, which are foreign engine types.
- `Serialize`, `PostLoad`, `PreloadChain`, `ValidateGuid`: persistence and asset loading.
- `IsRootNode`, `GetSCS`: these depend on the owning construction script, which is not part of this model.
- `bAddToAllNodes` and `bRemoveFromAllNodes` only maintain that script's node index. They are accepted and have no effect here.
- Editor-only machinery is not modelled: `SetParent`, `SaveToTransactionBuffer`, `IsDataValid`, `EditorComponentInstance`, the name-change delegate, `RenameComponentTemplate`.
- Deprecated fields and the opaque engine references are not modelled: `ComponentClass`, `ComponentTemplate`, `CookedComponentInstancingData`, `VariableGuid`, `CategoryName`.
- SetVariableName: `bRenameTemplate` (renaming the component template and its instances) acts on objects outside the node and is not modelled. The uniqueness of variable names across a script is not modelled either.
- `FName` equality is case-insensitive in the engine. The model compares names as plain strings.
- `int32` indices are unbounded integers. No index in these operations comes near the 32-bit range.
- SCSNode: footprints are local to the receiver. The model has no parent pointers, so a mutator updates the footprint of the node it runs on. Footprints of that node's ancestors are not updated.
- AddChildNode: the precondition demands that a new child is a valid tree sharing no node with this one. This reflects the missing guard in the header described above.
- AddChildNode: a node added here is not detached from a parent elsewhere. The model has no parent pointers, so it cannot say that a node has at most one parent across separate trees.
- SCSNode: `ChildNodes` is a list of non-null nodes, and `Valid()` rules out repeated entries. The engine's array of node pointers can hold a null entry or a repeated one, for example after loading. The model does not represent such lists.
- MoveChildNodes: the source must not be this node. It must be either a direct child of this node or outside its tree. Moving the children of a deeper descendant is not modelled, because that would change the footprints of nodes between the two. InsertLocation must be INDEX_NONE or a position in the list; the engine's array insert asserts that range.
- MoveChildNodes: any bookkeeping beyond the two child lists is not part of this model. This includes the owning script's index and editor state.
- GetAllNodes: the loop appends each child's listing as `AllNodes` defines it, rather than as a recursive call of the method. The result is the same pre-order list.
- RemoveThenAbsent: the promise that a removed key is no longer found is proved only for arrays with unique keys. The first matching entry is the one removed, so a second entry with the same key would then be found. `SetMetaData` and `RemoveMetaData` preserve unique keys.
