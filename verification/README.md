# anytree `Node` construction, modelled in Dafny

This project models the constructor of anytree's `Node` (`Node.__init__`), in the fork
that gives every node a `gate`, a `name`, a set-valued `index` and an integer `id`.
Construction has two parts:

1. The node's fields are written in a fixed order:
   - the keyword attributes go into the node's dictionary;
   - then `gate` and `name` are written;
   - then the node is hung below `parent`;
   - then `index` is stored as a set;
   - last, `children` are adopted, but only when that argument is not empty.
2. The node receives its id:
   - a node without a parent gets 0;
   - otherwise the ids of all descendants of the node's root are collected, skipping nodes that have no id;
   - the new id is 1 when nothing was found, and the maximum plus one otherwise.

All nodes live in an arena, the class `AnytreeNode.Forest`. A node is addressed by its
index in `nodes` (a `Handle`). Each node has:

- an attribute dictionary (`map<string, Value>`);
- a parent link;
- an ordered list of children.

The tree capability that `Node` inherits (anytree's `NodeMixin`) is modelled only as far as
construction uses it:

- setting a parent: `Forest.Attach`, whose effect is the function `Relink`;
- setting the children: `Forest.SetChildren`, whose effect is the function `Adopt` (each child in turn hung below the node), described node by node by `Adopted`;
- `root` and `descendants`: `Links.Root` and `Links.IsDescendant`, defined over the parent links.

The links always form a forest (`Linked`):

- every listed child points back to the node listing it;
- every node with a parent is listed by that parent;
- no child list holds a node twice;
- a ghost rank, strictly smaller at a parent than at its child, shows that there is no cycle.

Two consequences of the code that a reader of the constructor might expect otherwise:

- **Ids are not unique.** One might expect every node with a parent to get a unique id greater than 0. A tree built bottom-up through `children` breaks this: every node built without a parent gets 0, and that id is never rewritten when the node is later adopted. A later construction with a parent in the same tree does scan such a node, and its 0 counts toward the maximum. `BottomUp.LeafThenParent` shows a leaf and its parent that both hold 0.
- **Only `id` is overwritten by a keyword attribute.** Python's call binding never lets `gate`, `name`, `index`, `parent` or `children` reach `**kwargs`, so a keyword such as `name="x"` cannot arrive, and `id` is the only explicit field that can actually overwrite a keyword attribute. The model still accepts any dictionary, and the later explicit write wins, as it would in the code.

Files:

- `values.dfy`: the values an attribute can hold.
- `id_rule.dfy`: the pure id rule of lines 75-82.
- `links.dfy`: parent links, ancestry, root and descendants, plus the list filter the children setter uses.
- `node.dfy`: the arena, its invariant and the construction methods.
- `scenarios.dfy`: trees built through the constructor, top-down (ids 0 .. n-1) and bottom-up (ids all 0).

## Model

| member | source | states |
|---|---|---|
| IdRule.NextId | anytree/node/node.py:75-82 | A node without a parent gets 0. With a parent: the id is 1 when no id was found. Otherwise the id minus one is one of the ids found (the maximum). In every case with a parent, the id is larger than every id found. |
| IdRule.Max | anytree/node/node.py:82 | `max` of a non-empty list is one of its elements and is at least every element. |
| IdRule.NextIdIsLeastAbove | anytree/node/node.py:81-82 | With ids found, the new id is the least integer above all of them, so it is exactly the maximum plus one. |
| IdRule.NextIdIsFresh | anytree/node/node.py:78-82 | With a parent, the new id is never one of the ids found. |
| IdRule.NextIdIgnoresOrder | anytree/node/node.py:78 | Two scans that find the same ids, in any order and with any repetition, give the same new id. Traversal order of `descendants` does not matter. |
| Links.IsDescendant | anytree/node/node.py:78 | `d in root.descendants`, over parent links: a proper descendant has a parent, and the ancestor it lies below is a node of the arena. `AnytreeNode.DescendantsByChildren` ties it to the walk down `children`. |
| Links.Without | anytree/node/node.py:67-70 | The list filter by which a node leaves its old parent's child list: an element is kept exactly when it was in the list and is not being moved, and the list never grows. |
| Links.Root | anytree/node/node.py:78 | `root` is an ancestor-or-self of the node and has no parent. |
| Links.BelowOwnRoot | anytree/node/node.py:78 | A node with a parent is a descendant of its root, so the scan covers the new node itself. |
| Links.ChildBelowRoot | anytree/node/node.py:69-70 | A child shares its parent's root and lies strictly below it, so adopted children are scanned. |
| Links.RelinkRanked | anytree/node/node.py:67 | Hanging a node below a parent that is neither the node nor one of its descendants keeps the parent links acyclic. |
| Links.WithoutStep | anytree/node/node.py:70 | Removing children one at a time gives the same list as removing them all at once. |
| AnytreeNode.IdOf | anytree/node/node.py:78 | `hasattr(node, 'id')` and `node.id`: an id is present exactly when the dictionary holds an integer under `id`, and then it is that integer. |
| AnytreeNode.PathBelow | anytree/node/node.py:78 | A walk down the child lists ends at a node of the arena, strictly below its start, with a higher rank. |
| AnytreeNode.PathDown | anytree/node/node.py:78 | Every node below `r` by parent links is reached from `r` by a walk down the child lists. |
| AnytreeNode.DescendantsByChildren | anytree/node/node.py:78 | Under the forest invariant, a node is a descendant of `r` by parent links exactly when it is reached from `r` down the child lists, the way `descendants` walks the tree. |
| AnytreeNode.Relink | anytree/node/node.py:67 | `self.parent = parent` as a function of the arena: the length is kept. Its effect is stated by `RelinkSpec` and `RelinkLinked`. |
| AnytreeNode.RelinkLinked | anytree/node/node.py:67 | Setting `parent` keeps the links a forest. Only the node's own parent link changes. |
| AnytreeNode.RelinkSpec | anytree/node/node.py:67 | Setting `parent`: no attribute changes; the node now has the new parent; the new parent lists it last; every other child list loses exactly that node. |
| AnytreeNode.Adopt | anytree/node/node.py:70 | `self.children = children` as a function of the arena, each child in turn hung below the node: the length is kept. `AdoptPointwise` equates it with `Adopted`, and `AdoptRank` keeps the forest linked. |
| AnytreeNode.Adopted | anytree/node/node.py:70 | The node-by-node description of the children setter's result: the length is kept. `AdoptNothing` and `AdoptOneMore` state how it grows one child at a time. |
| AnytreeNode.AdoptNothing | anytree/node/node.py:69-70 | Adopting an empty list leaves the forest unchanged, so skipping an empty `children` is the same as assigning it. |
| AnytreeNode.AdoptPointwise | anytree/node/node.py:70 | Hanging the children below the node one after the other, as the children setter does (`Adopt`), gives the forest described node by node (`Adopted`): the node lists exactly the given children, in order; each child has it as parent; every other node keeps its parent; every other child list loses exactly those children. |
| AnytreeNode.AdoptOneMore | anytree/node/node.py:70 | One step of the children setter: a child not yet adopted does not have the node as parent, and hanging it below the node extends the node-by-node description from the children so far to one more child. |
| AnytreeNode.AdoptRank | anytree/node/node.py:70 | After the children are adopted, the links are still a forest, and the ancestry of the adopting node is unchanged. |
| AnytreeNode.AttrsOnly | anytree/node/node.py:64-68 | Writing attributes changes neither parent links nor child lists. |
| AnytreeNode.AppendRoot | anytree/node/node.py:9 | A fresh node without parent or children joins the forest as a new root. |
| AnytreeNode.ScanBelow | anytree/node/node.py:78 | An id is collected from the first `k` nodes exactly when one of them lies below the root and holds that id. |
| AnytreeNode.Scan | anytree/node/node.py:78 | The list comprehension over `root.descendants`: an id is in the list exactly when some descendant of the root holds it. Nodes without an id contribute nothing. |
| AnytreeNode.ScanSkipsIdless | anytree/node/node.py:78 | When no descendant has an id, the scan is empty, just as for a tree without descendants. |
| AnytreeNode.IndexSet | anytree/node/node.py:68 | `set(index)` holds exactly the elements of the iterable. |
| AnytreeNode.IndexSetSize | anytree/node/node.py:68 | Duplicates collapse: the set is never larger than the iterable, and is as large as it when there are no duplicates. |
| AnytreeNode.IndexSetExample | anytree/node/node.py:68 | `set([1, 2, 2, 3])` is `{1, 2, 3}`, with 3 elements. |
| AnytreeNode.InitialAttributes | anytree/node/node.py:64-68 | The dictionary holds the keyword attributes plus `gate`, `name` and `index`. The explicit fields win over keyword attributes of the same name; every other keyword attribute is kept unchanged. |
| AnytreeNode.ScannedId | anytree/node/node.py:75-82 | The id `NextId` gives a node with a parent, read after it is written: above every id held below the root and above the node's own earlier id. When any such id exists, it is one above one of them, which makes it their maximum plus one. It is 1 when none exists. |
| AnytreeNode.FoundIds | anytree/node/node.py:64-78 | The ids the scan finds for a node with a parent are exactly two kinds: the ids held by other nodes below its root, and an id the node itself already holds from a keyword attribute. |
| AnytreeNode.JoinedShape | anytree/node/node.py:67-70 | After the parent and children writes, the new node has the given parent and children. Every existing node is `Joined`: its attributes are untouched. It takes the new node as parent when it is among the children. Its child list loses those children, and gains the new node at the end when it is the parent. |
| AnytreeNode.ChildrenIdsHeld | anytree/node/node.py:69-78 | Every id an adopted child held before construction is held below the root of the new node. |
| AnytreeNode.Forest.SetAttr | anytree/node/node.py:65-68 | `setattr`: only the dictionary of the node changes, at one key, and the forest stays linked. |
| AnytreeNode.Forest.UpdateAttrs | anytree/node/node.py:64 | `__dict__.update(kwargs)`: the keyword attributes are merged into the node's dictionary, and nothing else changes. |
| AnytreeNode.Forest.Attach | anytree/node/node.py:67 | `self.parent = parent`. The arena becomes `Relink` of the old one, or is unchanged when the parent is already set. The forest stays linked, and the ancestry of the parent is unchanged. |
| AnytreeNode.Forest.SetChildren | anytree/node/node.py:69-70 | `self.children = children` for a node without children. The arena becomes `Adopt` of the old one, which is the node-by-node description `Adopted`, and the forest stays linked. |
| AnytreeNode.Forest.HangEach | anytree/node/node.py:70 | The setter's loop hangs the children below the node one at a time. After the loop the arena is `Adopt` of the old one, and the ranks are untouched. |
| AnytreeNode.Forest.NewRoot | anytree/node/node.py:64-66 | A new root joins the arena with an empty dictionary. The keyword attributes are merged into it, then `gate` and `name` are written over them. |
| AnytreeNode.Forest.Build | anytree/node/node.py:64-70 | The first part, in source order. The new node holds `InitialAttributes`, the given parent and the given children; every existing node is `Joined`; the forest stays linked. |
| AnytreeNode.Forest.AssignId | anytree/node/node.py:75-82 | Only the new node's `id` is written. It is 0 without a parent. With a parent, it is above every id held below the root and above the node's own earlier id. When any of those ids exists, it is one above one of them, so it is their maximum plus one, negative ids included. It is 1 when none exists. |
| AnytreeNode.Forest.Construct | anytree/node/node.py:9-82 | The whole constructor. The new node holds `InitialAttributes` with the id written last, and the given parent and children. Existing nodes are `Joined`, and no existing id changes. Without a parent the id is 0. With a parent it exceeds every id below the root, a keyword `id` and every id an adopted child held. When a keyword `id` or an id below the root exists, it is one above one of them, so it is their maximum plus one, negative ids included. It is exactly 1 when there are none. The forest stays valid. |
| Scenarios.RootIsZero | anytree/node/node.py:78 | When every node but node 0 has a parent, `root` of every node is node 0. |
| Scenarios.HeldIsBelow | anytree/node/node.py:78 | A node just attached to a top-down tree of `n` nodes finds exactly the ids 1 .. n-1 among the other descendants of the root. |
| Scenarios.InsertedTopDown | anytree/node/node.py:75-82 | What the constructor promises for a node attached below a top-down tree of `n` nodes, with no keyword `id` and no children, gives it the id `n` and keeps the tree top-down. |
| Scenarios.SingleNodeTopDown | anytree/node/node.py:75-76 | A lone root holding 0 is a top-down tree. |
| Scenarios.NewTree | anytree/node/node.py:9-76 | A node constructed without a parent in a fresh arena is a top-down tree whose root holds 0. |
| Scenarios.InsertBelow | anytree/node/node.py:9-82 | A node constructed below any node of a top-down tree of `n` nodes gets the id `n`. It has the given parent, every existing node keeps its parent, and the tree stays top-down. |
| Scenarios.GrowBelowRoot | anytree/node/node.py:9-82 | A root and then `k` nodes inserted one at a time below it, with no removals: node `i` holds the id `i`, so the ids are exactly 0 .. k. |
| Scenarios.Grandchild | anytree/node/node.py:9-82 | A root, two children below it, then a grandchild below the first child, all built by the constructor: the ids are 0, 1, 2 and 3, and the parents are none, 0, 0 and 1. |
| BottomUp.Leaf | anytree/node/node.py:75-76 | A node built without a parent holds id 0. |
| BottomUp.LeafThenParent | anytree/node/node.py:69-76 | A leaf built first, then adopted by a parent built without a parent: the leaf is now a child of the parent, and both hold id 0. |

## Left out

- `__repr__` (anytree/node/node.py:85-87) is not modelled. It is string formatting through the `_repr` helper and `NodeMixin.path`/`separator`, which are not part of this model.
- The doctest examples (anytree/node/node.py:15-62) are not modelled. They call `Node("root")` with one positional argument, which does not match the signature at line 9.
- `NodeMixin` is not part of this model. Its refusals are preconditions of `Attach`, `SetChildren`, `Build` and `Construct`, not modelled error results:
  - a loop through the parent links;
  - a duplicate or non-node child.
- `NodeMixin`'s attach and detach hooks, and its traversal order, are not modelled. `NextIdIgnoresOrder` shows that the order does not affect the id.
- AnytreeNode.Forest.SetChildren: covers only a node that has no children yet, which is all construction needs. Detaching children a node already had is not modelled.
- AnytreeNode.Forest.Construct: requires a keyword `id` to be an integer when a parent is given. With a string as the only id found, `max` returns it and the `+ 1` raises; with a string among integers, `max` raises. With a float, the id becomes a float. None of these is modelled.
- AnytreeNode.Forest.Construct: a Boolean keyword `id` is excluded by the same precondition, although Python's `bool` is an `int` (`True` would count as 1). The model keeps `Bool` apart from `Int`.
- AnytreeNode.Forest.Construct: `children` is a list of handles. Python's truthiness of other iterables (a generator is truthy even when it yields nothing) is not modelled.
- Attribute values are limited to atoms (None, booleans, integers, strings) and sets of atoms, not arbitrary Python objects. `hasattr(node, 'id')` becomes the presence of an integer `id` key in the dictionary.
- Object identity is modelled by arena handles, and garbage collection is not modelled.
- Detaching or deleting nodes after construction is not modelled, so ids reused after a deletion are not covered.
- Concurrent construction is not modelled. The code has no concurrency, and the race between scan and assignment cannot arise in a single thread.
- AnytreeNode.IndexSet: compares index elements structurally. Python's `set` merges values that compare equal across types, so `set([1, True])` is `{1}` and `set([0, False])` is `{0}`. In the model `Int(1)` and `Bool(true)` stay apart, and `IndexSet([Int(1), Bool(true)])` has 2 elements. `AnytreeNode.IndexSetSize` counts duplicates in the same structural sense. Which of two equal values Python keeps in the set is not modelled either.
