/** The mutating side of com.solovev.model.TreeNode: the constructors,
    `setParent`, `appendChild` and the search loop of `wideSearch`, as methods
    of one object that holds every TreeNode in existence. */
module TreeNodes {
  import opened Wrappers
  import opened TreeModel

  /** All TreeNode objects, by identity, and the next identity to hand out. */
  class Forest {
    var nodes: Heap
    var next: NodeId

    ghost predicate Valid()
      reads this
    {
      Closed(nodes) && forall id | id in nodes :: id < next
    }

    constructor ()
      ensures Valid() && nodes == map[]
    {
      nodes := map[];
      next := 0;
    }

    /** Allocates a node with the given fields. */
    method Allocate(node: TreeNode) returns (id: NodeId)
      requires Valid() && RefIn(nodes, node.parent) && AllIn(nodes, node.children)
      modifies this
      ensures Valid() && id !in old(nodes) && nodes == old(nodes)[id := node]
    {
      id := next;
      ClosedAfterAllocation(nodes, id, node);
      nodes := nodes[id := node];
      next := next + 1;
    }

    /** `new TreeNode(name)`: a null name throws; otherwise a node with that
        name, no parent and no children. */
    method NewNode(name: Option<string>) returns (r: Result<NodeId>)
      requires Valid()
      modifies this
      ensures Valid()
      ensures name == None ==> r == Err(NullPointer) && nodes == old(nodes)
      ensures name != None ==> r.Ok? && r.value !in old(nodes) &&
                               nodes == old(nodes)[r.value := TreeNode(name, None, [])]
    {
      if name == None {
        return Err(NullPointer);
      }
      var id := Allocate(TreeNode(name, None, []));
      return Ok(id);
    }

    /** `new TreeNode()`, the unnamed node the builder asks for (the
        constructor itself is not in TreeNode.java). */
    method NewUnnamed() returns (id: NodeId)
      requires Valid()
      modifies this
      ensures Valid() && id !in old(nodes) && nodes == old(nodes)[id := TreeNode(None, None, [])]
    {
      id := Allocate(TreeNode(None, None, []));
    }

    /** `self.setParent(parent)`: refused when `parent` equals this node, and
        otherwise an assignment of the parent field and nothing else. The
        descendant check of the source is an empty branch. */
    method SetParent(self: NodeId, parent: Ref) returns (o: Outcome)
      requires Valid() && self in nodes && RefIn(nodes, parent)
      modifies this
      ensures Valid()
      ensures Equals(old(nodes), self, parent) == Equal ==> o == Fail(IllegalArgument) && nodes == old(nodes)
      ensures Equals(old(nodes), self, parent) == Diverges ==> o == Fail(StackOverflow) && nodes == old(nodes)
      ensures Equals(old(nodes), self, parent) == Unequal ==>
                o == Pass && nodes == old(nodes)[self := old(nodes)[self].(parent := parent)]
    {
      match Equals(nodes, self, parent)
      case Equal => o := Fail(IllegalArgument);
      case Diverges => o := Fail(StackOverflow);
      case Unequal =>
        nodes := nodes[self := nodes[self].(parent := parent)];
        o := Pass;
    }

    /** `new TreeNode(name, parent)`: the one-argument constructor, then
        `setParent(parent)`. The fresh node is refused as a child of exactly
        the nodes that look like it: same name, no parent, no children. */
    method NewNodeWithParent(name: Option<string>, parent: Ref) returns (r: Result<NodeId>)
      requires Valid() && RefIn(nodes, parent)
      modifies this
      ensures Valid()
      ensures name == None ==> r == Err(NullPointer) && nodes == old(nodes)
      ensures name != None && parent != None && old(nodes)[parent.value] == TreeNode(name, None, []) ==>
                r == Err(IllegalArgument)
      ensures r.Ok? ==> r.value !in old(nodes) && nodes == old(nodes)[r.value := TreeNode(name, parent, [])]
      ensures name != None && (parent == None || old(nodes)[parent.value] != TreeNode(name, None, [])) ==> r.Ok?
      ensures r.Err? && name != None ==>
                r.error == IllegalArgument && exists id :: AllocatedAs(old(nodes), nodes, id, TreeNode(name, None, []))
    {
      r := NewNode(name);
      if r.Err? {
        return;
      }
      var id := r.value;
      if parent != None {
        NewNodeEquals(nodes, id, parent.value);
      }
      var o := SetParent(id, parent);
      if o.Fail? {
        assert AllocatedAs(old(nodes), nodes, id, TreeNode(name, None, []));
        r := Err(o.error);
      }
    }

    /** `self.appendChild(child)`: appends the child at the end of the
        children list when the guard lets it through, and changes nothing
        else; the child's parent field is left alone. */
    method AppendChild(self: NodeId, child: Ref) returns (r: Result<bool>)
      requires Valid() && self in nodes && RefIn(nodes, child)
      modifies this
      ensures Valid()
      ensures r == AppendVerdict(old(nodes), self, child)
      ensures r == Ok(true) ==>
                nodes == old(nodes)[self := old(nodes)[self].(children := old(nodes)[self].children + [child])]
      ensures r != Ok(true) ==> nodes == old(nodes)
    {
      if nodes[self].parent == child {
        return Ok(false);
      }
      match Equals(nodes, self, child)
      case Equal => r := Ok(false);
      case Diverges => r := Err(StackOverflow);
      case Unequal =>
        var node := nodes[self];
        var h' := nodes[self := node.(children := node.children + [child])];
        assert AllIn(h', node.children + [child]) by {
          forall i | 0 <= i < |node.children| + 1 ensures RefIn(h', (node.children + [child])[i]) {
            if i < |node.children| {
              assert RefIn(nodes, node.children[i]);
            }
          }
        }
        forall id | id in h' ensures RefIn(h', h'[id].parent) && AllIn(h', h'[id].children) {
          if id != self {
            assert AllIn(nodes, h'[id].children);
            forall i | 0 <= i < |h'[id].children| ensures RefIn(h', h'[id].children[i]) {
              assert RefIn(nodes, h'[id].children[i]);
            }
          }
        }
        nodes := h';
        r := Ok(true);
    }

    /** `self.wideSearch(key)`: the root when it bears the name, otherwise a
        breadth-first loop over a queue seeded with the root's children, with
        a set of the nodes already examined. */
    method WideSearch(self: NodeId, key: Option<string>) returns (r: Result<Ref>)
      requires Valid() && self in nodes
      ensures r == WideSearchOf(nodes, self, key)
    {
      if nodes[self].name == key {
        return Ok(Some(self));
      }
      if None in nodes[self].children {
        return Err(NullPointer);
      }
      UnwrapIn(nodes, nodes[self].children);
      var queue := Unwrap(nodes[self].children);
      var checked := {self};
      while queue != []
        invariant IdsIn(nodes, queue) && checked <= nodes.Keys
        invariant SearchQueue(nodes, queue, checked, key) == WideSearchOf(nodes, self, key)
        decreases |nodes.Keys - checked|, |queue|
      {
        var n := queue[0];
        queue := queue[1..];
        if n in checked {
          continue;
        }
        if nodes[n].name == key {
          return Ok(Some(n));
        }
        if None in nodes[n].children {
          return Err(NullPointer);
        }
        SmallerWithout(nodes.Keys, checked, n);
        UnwrapIn(nodes, nodes[n].children);
        checked := checked + {n};
        queue := queue + Unwrap(nodes[n].children);
      }
      return Ok(None);
    }

    method GetName(self: NodeId) returns (name: Option<string>)
      requires self in nodes
      ensures name == nodes[self].name
    {
      name := nodes[self].name;
    }

    method GetParent(self: NodeId) returns (parent: Ref)
      requires self in nodes
      ensures parent == nodes[self].parent
    {
      parent := nodes[self].parent;
    }

    method GetChildren(self: NodeId) returns (children: seq<Ref>)
      requires self in nodes
      ensures children == nodes[self].children
    {
      children := nodes[self].children;
    }
  }
}
