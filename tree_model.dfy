/** The TreeNode objects of com.solovev.model.TreeNode as values in a heap
    (an arena from object identities to field values), with the two read-only
    algorithms of the class: the structural `equals` and the breadth-first
    `wideSearch`, as functions of the heap. */
module TreeModel {
  import opened Wrappers

  /** The identity of a TreeNode object. */
  type NodeId = nat

  /** A TreeNode reference; None is Java's null. */
  type Ref = Option<NodeId>

  /** The fields of one TreeNode object: the final name (None only for the
      unnamed node the builder creates), the parent reference and the
      children list, which may hold null. */
  datatype TreeNode = TreeNode(name: Option<string>, parent: Ref, children: seq<Ref>)

  /** Every TreeNode object in existence, by identity. */
  type Heap = map<NodeId, TreeNode>

  ghost predicate RefIn(h: Heap, r: Ref) {
    r.Some? ==> r.value in h
  }

  ghost predicate AllIn(h: Heap, rs: seq<Ref>) {
    forall i | 0 <= i < |rs| :: RefIn(h, rs[i])
  }

  ghost predicate IdsIn(h: Heap, ids: seq<NodeId>) {
    forall i | 0 <= i < |ids| :: ids[i] in h
  }

  /** No field of any object refers to an object outside the heap. */
  ghost predicate Closed(h: Heap) {
    forall id | id in h :: RefIn(h, h[id].parent) && AllIn(h, h[id].children)
  }

  /** No children list holds null. */
  ghost predicate NullFree(h: Heap) {
    forall id | id in h :: None !in h[id].children
  }

  lemma SmallerWithout<T>(a: set<T>, b: set<T>, e: T)
    requires e in a && e !in b
    ensures |a - (b + {e})| < |a - b|
  {
    assert a - b == (a - (b + {e})) + {e};
  }

  /** The identities held by a children list that holds no null. */
  function Unwrap(rs: seq<Ref>): (ids: seq<NodeId>)
    requires None !in rs
    ensures |ids| == |rs| && forall i | 0 <= i < |rs| :: rs[i] == Some(ids[i])
  {
    if rs == [] then [] else [rs[0].value] + Unwrap(rs[1..])
  }

  /** Storing a node whose references are all in the heap keeps the heap
      closed. */
  lemma ClosedAfterAllocation(h: Heap, id: NodeId, node: TreeNode)
    requires Closed(h) && RefIn(h, node.parent) && AllIn(h, node.children)
    ensures Closed(h[id := node])
  {
    var h' := h[id := node];
    forall i | 0 <= i < |node.children| ensures RefIn(h', node.children[i]) {
      assert RefIn(h, node.children[i]);
    }
    forall n | n in h' ensures RefIn(h', h'[n].parent) && AllIn(h', h'[n].children) {
      if n != id {
        assert AllIn(h, h[n].children);
        forall i | 0 <= i < |h[n].children| ensures RefIn(h', h[n].children[i]) {
          assert RefIn(h, h[n].children[i]);
        }
      }
    }
  }

  /** `h'` is `h` with exactly one new object, `id`, holding `node`. */
  ghost predicate AllocatedAs(h: Heap, h': Heap, id: NodeId, node: TreeNode) {
    id !in h && h' == h[id := node]
  }

  lemma UnwrapIn(h: Heap, rs: seq<Ref>)
    requires None !in rs && AllIn(h, rs)
    ensures IdsIn(h, Unwrap(rs))
  {
    var ids := Unwrap(rs);
    forall i | 0 <= i < |ids| ensures ids[i] in h {
      assert rs[i] == Some(ids[i]);
    }
  }

  // ---------------------------------------------------------------------
  // equals (TreeNode.java:88-97)
  // ---------------------------------------------------------------------

  /** What a call of `equals` does: answers true, answers false, or calls
      itself forever (and so ends in StackOverflowError). */
  datatype Verdict = Equal | Unequal | Diverges

  ghost function AllPairs(h: Heap): set<(NodeId, NodeId)> {
    set x, y | x in h && y in h :: (x, y)
  }

  lemma InAllPairs(h: Heap, x: NodeId, y: NodeId)
    requires x in h && y in h
    ensures (x, y) in AllPairs(h)
  {
  }

  /** `x.equals(y)` evaluated while the calls `equals` on the pairs in `stack`
      are still running. Java evaluates the checks in this order: identity,
      name, parent (Objects.equals), then the children lists (ArrayList.equals:
      sizes, then element by element, stopping at the first difference).
      Since the heap does not change during the call, a call on a pair that is
      already running repeats itself without end. */
  function NodeEquals(h: Heap, x: NodeId, y: NodeId, stack: set<(NodeId, NodeId)>): Verdict
    requires Closed(h) && x in h && y in h && stack <= AllPairs(h)
    decreases |AllPairs(h) - stack|, 0, 0
  {
    if x == y then Equal
    else if (x, y) in stack then Diverges
    else if h[x].name != h[y].name then Unequal
    else
      InAllPairs(h, x, y);
      SmallerWithout(AllPairs(h), stack, (x, y));
      var running := stack + {(x, y)};
      match RefEquals(h, h[x].parent, h[y].parent, running)
      case Equal => ListEquals(h, h[x].children, h[y].children, running)
      case other => other
  }

  /** `Objects.equals(a, b)`: true on the same reference (null included),
      false when exactly one is null (`a.equals(null)` is false), otherwise
      `a.equals(b)`. */
  function RefEquals(h: Heap, a: Ref, b: Ref, stack: set<(NodeId, NodeId)>): Verdict
    requires Closed(h) && RefIn(h, a) && RefIn(h, b) && stack <= AllPairs(h)
    decreases |AllPairs(h) - stack|, 1, 0
  {
    if a == b then Equal
    else if a.None? || b.None? then Unequal
    else NodeEquals(h, a.value, b.value, stack)
  }

  /** The element-by-element part of `ArrayList.equals`. */
  function ElementsEqual(h: Heap, xs: seq<Ref>, ys: seq<Ref>, stack: set<(NodeId, NodeId)>): Verdict
    requires Closed(h) && AllIn(h, xs) && AllIn(h, ys) && |xs| == |ys| && stack <= AllPairs(h)
    decreases |AllPairs(h) - stack|, 2, |xs|
  {
    if xs == [] then Equal
    else
      match RefEquals(h, xs[0], ys[0], stack)
      case Equal => ElementsEqual(h, xs[1..], ys[1..], stack)
      case other => other
  }

  /** `ArrayList.equals` on two children lists. */
  function ListEquals(h: Heap, xs: seq<Ref>, ys: seq<Ref>, stack: set<(NodeId, NodeId)>): Verdict
    requires Closed(h) && AllIn(h, xs) && AllIn(h, ys) && stack <= AllPairs(h)
    decreases |AllPairs(h) - stack|, 3, 0
  {
    if |xs| != |ys| then Unequal else ElementsEqual(h, xs, ys, stack)
  }

  /** `x.equals(o)` called from outside any other `equals`. */
  function Equals(h: Heap, x: NodeId, o: Ref): (v: Verdict)
    requires Closed(h) && x in h && RefIn(h, o)
    ensures o == Some(x) ==> v == Equal
    ensures o == None ==> v == Unequal
  {
    if o.None? then Unequal else NodeEquals(h, x, o.value, {})
  }

  /** Two lists compare equal exactly when they compare equal position by position. */
  lemma {:induction false} ElementsEqualPairwise(h: Heap, xs: seq<Ref>, ys: seq<Ref>, stack: set<(NodeId, NodeId)>)
    requires Closed(h) && AllIn(h, xs) && AllIn(h, ys) && |xs| == |ys| && stack <= AllPairs(h)
    ensures ElementsEqual(h, xs, ys, stack) == Equal <==>
              forall i | 0 <= i < |xs| :: RefEquals(h, xs[i], ys[i], stack) == Equal
  {
    if xs != [] {
      ElementsEqualPairwise(h, xs[1..], ys[1..], stack);
      if RefEquals(h, xs[0], ys[0], stack) == Equal {
        assert forall i | 1 <= i < |xs| :: xs[i] == xs[1..][i - 1] && ys[i] == ys[1..][i - 1];
      }
    }
  }

  /** Two distinct nodes are equal exactly when their names are equal, their
      parents are equal and their children lists are equal pairwise, each of
      the inner comparisons made while the outer one is running. */
  lemma EqualsCharacterization(h: Heap, x: NodeId, y: NodeId)
    requires Closed(h) && x in h && y in h && x != y
    ensures Equals(h, x, Some(y)) == Equal <==>
              && h[x].name == h[y].name
              && RefEquals(h, h[x].parent, h[y].parent, {(x, y)}) == Equal
              && |h[x].children| == |h[y].children|
              && forall i | 0 <= i < |h[x].children| ::
                   RefEquals(h, h[x].children[i], h[y].children[i], {(x, y)}) == Equal
  {
    var st: set<(NodeId, NodeId)> := {};
    assert st + {(x, y)} == {(x, y)};
    InAllPairs(h, x, y);
    assert Equals(h, x, Some(y)) == NodeEquals(h, x, y, st);
    if h[x].name == h[y].name {
      var pv := RefEquals(h, h[x].parent, h[y].parent, {(x, y)});
      if pv == Equal && |h[x].children| == |h[y].children| {
        ElementsEqualPairwise(h, h[x].children, h[y].children, {(x, y)});
        assert NodeEquals(h, x, y, st) == ElementsEqual(h, h[x].children, h[y].children, {(x, y)});
      }
    }
  }

  /** A node that was just constructed with a name and no parent equals
      another node exactly when that node has the same name, no parent and no
      children; the comparison always terminates. */
  lemma NewNodeEquals(h: Heap, x: NodeId, p: NodeId)
    requires Closed(h) && x in h && p in h && x != p
    requires h[x].parent == None && h[x].children == []
    ensures Equals(h, x, Some(p)) != Diverges
    ensures Equals(h, x, Some(p)) == Equal <==> h[p] == TreeNode(h[x].name, None, [])
  {
    var st: set<(NodeId, NodeId)> := {};
    assert st + {(x, p)} == {(x, p)};
    InAllPairs(h, x, p);
    assert Equals(h, x, Some(p)) == NodeEquals(h, x, p, st);
    if h[x].name == h[p].name {
      var pv := RefEquals(h, None, h[p].parent, {(x, p)});
      assert pv == (if h[p].parent == None then Equal else Unequal);
      if pv == Equal {
        var lv := ListEquals(h, [], h[p].children, {(x, p)});
        if h[p].children == [] {
          assert ElementsEqual(h, [], h[p].children, {(x, p)}) == Equal;
        }
        assert lv == (if h[p].children == [] then Equal else Unequal);
        assert NodeEquals(h, x, p, st) == lv;
      }
    }
  }

  /** The value of `parent != child && !this.equals(child) && children.add(child)`
      (TreeNode.java:33-35); ArrayList.add always answers true. */
  function AppendVerdict(h: Heap, self: NodeId, child: Ref): (r: Result<bool>)
    requires Closed(h) && self in h && RefIn(h, child)
    ensures child == Some(self) ==> r == Ok(false)
    ensures child == h[self].parent ==> r == Ok(false)
    ensures child == None ==> r == Ok(h[self].parent.Some?)
    ensures r == Ok(true) ==> child != h[self].parent && Equals(h, self, child) == Unequal
  {
    if h[self].parent == child then Ok(false)
    else
      match Equals(h, self, child)
      case Equal => Ok(false)
      case Unequal => Ok(true)
      case Diverges => Err(StackOverflow)
  }

  // ---------------------------------------------------------------------
  // wideSearch (TreeNode.java:38-59)
  // ---------------------------------------------------------------------

  /** The search loop: take the head of the queue; skip it if already checked;
      answer it if its name is the sought one; otherwise mark it checked and
      queue its children (an ArrayDeque refuses null, so a null child throws). */
  function SearchQueue(h: Heap, queue: seq<NodeId>, checked: set<NodeId>, key: Option<string>): (r: Result<Ref>)
    requires Closed(h) && IdsIn(h, queue) && checked <= h.Keys
    ensures r.Ok? && r.value.Some? ==> r.value.value in h && h[r.value.value].name == key
    ensures r.Err? ==> r.error == NullPointer
    decreases |h.Keys - checked|, |queue|
  {
    if queue == [] then Ok(None)
    else
      var n := queue[0];
      if n in checked then SearchQueue(h, queue[1..], checked, key)
      else if h[n].name == key then Ok(Some(n))
      else if None in h[n].children then Err(NullPointer)
      else
        SmallerWithout(h.Keys, checked, n);
        UnwrapIn(h, h[n].children);
        SearchQueue(h, queue[1..] + Unwrap(h[n].children), checked + {n}, key)
  }

  /** `root.wideSearch(key)`: the root itself when it bears the name, otherwise
      the search loop seeded with the root's children and the root checked. */
  function WideSearchOf(h: Heap, root: NodeId, key: Option<string>): (r: Result<Ref>)
    requires Closed(h) && root in h
    ensures h[root].name == key ==> r == Ok(Some(root))
    ensures r.Ok? && r.value.Some? ==> r.value.value in h && h[r.value.value].name == key
    ensures r.Err? ==> r.error == NullPointer
  {
    if h[root].name == key then Ok(Some(root))
    else if None in h[root].children then Err(NullPointer)
    else
      UnwrapIn(h, h[root].children);
      SearchQueue(h, Unwrap(h[root].children), {root}, key)
  }

  /** The order in which the search loop examines nodes when nothing stops it. */
  ghost function Visit(h: Heap, queue: seq<NodeId>, checked: set<NodeId>): (vs: seq<NodeId>)
    requires Closed(h) && NullFree(h) && IdsIn(h, queue) && checked <= h.Keys
    ensures IdsIn(h, vs)
    decreases |h.Keys - checked|, |queue|
  {
    if queue == [] then []
    else
      var n := queue[0];
      if n in checked then Visit(h, queue[1..], checked)
      else
        SmallerWithout(h.Keys, checked, n);
        UnwrapIn(h, h[n].children);
        [n] + Visit(h, queue[1..] + Unwrap(h[n].children), checked + {n})
  }

  /** The breadth-first order of the nodes below `root`, the root first. */
  ghost function Traversal(h: Heap, root: NodeId): (vs: seq<NodeId>)
    requires Closed(h) && NullFree(h) && root in h
    ensures |vs| > 0 && vs[0] == root && IdsIn(h, vs)
  {
    UnwrapIn(h, h[root].children);
    [root] + Visit(h, Unwrap(h[root].children), {root})
  }

  /** The first node of `vs` bearing the name `key`, or null. */
  function FirstNamed(h: Heap, vs: seq<NodeId>, key: Option<string>): (r: Ref)
    requires IdsIn(h, vs)
  {
    if vs == [] then None
    else if h[vs[0]].name == key then Some(vs[0])
    else FirstNamed(h, vs[1..], key)
  }

  lemma {:induction false} SearchQueueFollowsVisit(h: Heap, queue: seq<NodeId>, checked: set<NodeId>, key: Option<string>)
    requires Closed(h) && NullFree(h) && IdsIn(h, queue) && checked <= h.Keys
    ensures SearchQueue(h, queue, checked, key) == Ok(FirstNamed(h, Visit(h, queue, checked), key))
    decreases |h.Keys - checked|, |queue|
  {
    if queue != [] {
      var n := queue[0];
      if n in checked {
        SearchQueueFollowsVisit(h, queue[1..], checked, key);
      } else {
        SmallerWithout(h.Keys, checked, n);
        UnwrapIn(h, h[n].children);
        var rest := queue[1..] + Unwrap(h[n].children);
        SearchQueueFollowsVisit(h, rest, checked + {n}, key);
        var v := Visit(h, rest, checked + {n});
        assert Visit(h, queue, checked) == [n] + v;
        assert ([n] + v)[1..] == v;
      }
    }
  }

  /** With no null child anywhere, the search never throws and answers the
      first node in breadth-first order that bears the name. */
  lemma WideSearchIsFirstInTraversal(h: Heap, root: NodeId, key: Option<string>)
    requires Closed(h) && NullFree(h) && root in h
    ensures WideSearchOf(h, root, key) == Ok(FirstNamed(h, Traversal(h, root), key))
  {
    UnwrapIn(h, h[root].children);
    var v := Visit(h, Unwrap(h[root].children), {root});
    SearchQueueFollowsVisit(h, Unwrap(h[root].children), {root}, key);
    assert ([root] + v)[1..] == v;
  }

  lemma {:induction false} VisitOnce(h: Heap, queue: seq<NodeId>, checked: set<NodeId>)
    requires Closed(h) && NullFree(h) && IdsIn(h, queue) && checked <= h.Keys
    ensures forall i | 0 <= i < |Visit(h, queue, checked)| :: Visit(h, queue, checked)[i] !in checked
    ensures forall i, j | 0 <= i < j < |Visit(h, queue, checked)| ::
              Visit(h, queue, checked)[i] != Visit(h, queue, checked)[j]
    decreases |h.Keys - checked|, |queue|, 1
  {
    if queue != [] {
      if queue[0] in checked {
        VisitOnce(h, queue[1..], checked);
      } else {
        VisitOnceExpand(h, queue, checked);
      }
    }
  }

  /** The case of VisitOnce where the head of the queue is new: it is
      visited first, and the rest of the visit avoids it. */
  lemma {:induction false} VisitOnceExpand(h: Heap, queue: seq<NodeId>, checked: set<NodeId>)
    requires Closed(h) && NullFree(h) && IdsIn(h, queue) && checked <= h.Keys
    requires queue != [] && queue[0] !in checked
    ensures forall i | 0 <= i < |Visit(h, queue, checked)| :: Visit(h, queue, checked)[i] !in checked
    ensures forall i, j | 0 <= i < j < |Visit(h, queue, checked)| ::
              Visit(h, queue, checked)[i] != Visit(h, queue, checked)[j]
    decreases |h.Keys - checked|, |queue|, 0
  {
    var n := queue[0];
    SmallerWithout(h.Keys, checked, n);
    UnwrapIn(h, h[n].children);
    var rest := queue[1..] + Unwrap(h[n].children);
    VisitOnce(h, rest, checked + {n});
    var v := Visit(h, rest, checked + {n});
    assert Visit(h, queue, checked) == [n] + v;
    ConsFresh(n, v, checked);
  }

  /** A sequence of distinct ids outside `checked + {n}`, with `n` in front,
      is a sequence of distinct ids outside `checked`. */
  lemma ConsFresh(n: NodeId, v: seq<NodeId>, checked: set<NodeId>)
    requires n !in checked
    requires forall i | 0 <= i < |v| :: v[i] !in checked + {n}
    requires forall i, j | 0 <= i < j < |v| :: v[i] != v[j]
    ensures forall i | 0 <= i < |[n] + v| :: ([n] + v)[i] !in checked
    ensures forall i, j | 0 <= i < j < |[n] + v| :: ([n] + v)[i] != ([n] + v)[j]
  {
    assert forall i | 1 <= i < |v| + 1 :: ([n] + v)[i] == v[i - 1];
  }


  /** The breadth-first traversal meets every node at most once. */
  lemma TraversalVisitsOnce(h: Heap, root: NodeId)
    requires Closed(h) && NullFree(h) && root in h
    ensures forall i, j | 0 <= i < j < |Traversal(h, root)| :: Traversal(h, root)[i] != Traversal(h, root)[j]
  {
    UnwrapIn(h, h[root].children);
    var v := Visit(h, Unwrap(h[root].children), {root});
    VisitOnce(h, Unwrap(h[root].children), {root});
    assert Traversal(h, root) == [root] + v;
    assert forall i | 1 <= i < |v| + 1 :: ([root] + v)[i] == v[i - 1];
  }

  // ---------------------------------------------------------------------
  // Reachability through children lists
  // ---------------------------------------------------------------------

  ghost predicate IsPath(h: Heap, p: seq<NodeId>) {
    && |p| > 0
    && (forall i | 0 <= i < |p| :: p[i] in h)
    && (forall i | 0 <= i < |p| - 1 :: Some(p[i + 1]) in h[p[i]].children)
  }

  /** `to` is `from` or lies below it, following children lists. */
  ghost predicate Reachable(h: Heap, from: NodeId, to: NodeId) {
    exists p :: IsPath(h, p) && p[0] == from && p[|p| - 1] == to
  }

  lemma ReachableSelf(h: Heap, n: NodeId)
    requires n in h
    ensures Reachable(h, n, n)
  {
    assert IsPath(h, [n]);
  }

  lemma ReachableChild(h: Heap, root: NodeId, n: NodeId, m: NodeId)
    requires Reachable(h, root, n) && m in h && Some(m) in h[n].children
    ensures Reachable(h, root, m)
  {
    var p :| IsPath(h, p) && p[0] == root && p[|p| - 1] == n;
    var q := p + [m];
    assert forall i | 0 <= i < |p| :: q[i] == p[i];
    assert IsPath(h, q);
  }

  /** A set of nodes that holds every child of each of its members. */
  ghost predicate ClosedSet(h: Heap, c: set<NodeId>) {
    forall n, i | n in c && n in h && 0 <= i < |h[n].children| ::
      h[n].children[i].Some? && h[n].children[i].value in c
  }

  lemma {:induction false} PathStaysInClosedSet(h: Heap, c: set<NodeId>, p: seq<NodeId>, k: nat)
    requires IsPath(h, p) && ClosedSet(h, c) && p[0] in c && k < |p|
    ensures p[k] in c
  {
    if k > 0 {
      PathStaysInClosedSet(h, c, p, k - 1);
      var ch := h[p[k - 1]].children;
      var i :| 0 <= i < |ch| && ch[i] == Some(p[k]);
      assert ch[i].value in c;
    }
  }

  /** The children of checked nodes are checked or still queued. */
  ghost predicate Covered(h: Heap, checked: set<NodeId>, queue: seq<NodeId>) {
    forall n, i | n in checked && n in h && 0 <= i < |h[n].children| ::
      h[n].children[i].Some? && (h[n].children[i].value in checked || h[n].children[i].value in queue)
  }

  lemma CoveredAfterSkip(h: Heap, checked: set<NodeId>, queue: seq<NodeId>)
    requires queue != [] && queue[0] in checked && Covered(h, checked, queue)
    ensures Covered(h, checked, queue[1..])
  {
    assert queue == [queue[0]] + queue[1..];
  }

  lemma CoveredAfterExpand(h: Heap, checked: set<NodeId>, queue: seq<NodeId>)
    requires Closed(h) && queue != [] && queue[0] in h && None !in h[queue[0]].children
    requires Covered(h, checked, queue)
    ensures Covered(h, checked + {queue[0]}, queue[1..] + Unwrap(h[queue[0]].children))
  {
    var n := queue[0];
    var kids := Unwrap(h[n].children);
    var rest := queue[1..] + kids;
    assert queue == [n] + queue[1..];
    forall i | 0 <= i < |h[n].children|
      ensures h[n].children[i].Some? && h[n].children[i].value in rest
    {
      assert h[n].children[i] == Some(kids[i]);
      assert rest[|queue| - 1 + i] == kids[i];
    }
  }

  /** `c` extends `checked`, holds the queue, holds the children of its
      members, and none of its members bears the name `key`. */
  ghost predicate Explored(h: Heap, c: set<NodeId>, queue: seq<NodeId>, checked: set<NodeId>, key: Option<string>) {
    && checked <= c
    && (forall i | 0 <= i < |queue| :: queue[i] in c)
    && ClosedSet(h, c)
    && (forall n | n in c && n in h :: h[n].name != key)
  }

  lemma ExploredExtend(h: Heap, c: set<NodeId>, queue: seq<NodeId>, rest: seq<NodeId>,
                       checked: set<NodeId>, checked': set<NodeId>, key: Option<string>)
    requires queue != [] && queue[0] in checked' && checked <= checked'
    requires queue[1..] <= rest
    requires Explored(h, c, rest, checked', key)
    ensures Explored(h, c, queue, checked, key)
  {
    forall i | 0 <= i < |queue| ensures queue[i] in c {
      if i > 0 {
        assert queue[i] == queue[1..][i - 1] == rest[i - 1];
      }
    }
  }

  /** ExploredExtend for some explored set of the rest of the queue. */
  lemma ExploredExtendSome(h: Heap, queue: seq<NodeId>, rest: seq<NodeId>,
                           checked: set<NodeId>, checked': set<NodeId>, key: Option<string>)
    requires queue != [] && queue[0] in checked' && checked <= checked'
    requires queue[1..] <= rest
    requires exists c :: Explored(h, c, rest, checked', key)
    ensures exists c :: Explored(h, c, queue, checked, key)
  {
    var c :| Explored(h, c, rest, checked', key);
    ExploredExtend(h, c, queue, rest, checked, checked', key);
  }

  lemma {:induction false} SearchQueueComplete(h: Heap, queue: seq<NodeId>, checked: set<NodeId>, key: Option<string>)
    requires Closed(h) && IdsIn(h, queue) && checked <= h.Keys
    requires Covered(h, checked, queue)
    requires forall n | n in checked :: h[n].name != key
    requires SearchQueue(h, queue, checked, key) == Ok(None)
    ensures exists c :: Explored(h, c, queue, checked, key)
    decreases |h.Keys - checked|, |queue|, 1
  {
    if queue == [] {
      assert ClosedSet(h, checked);
      assert Explored(h, checked, queue, checked, key);
    } else if queue[0] in checked {
      assert queue == [queue[0]] + queue[1..];
      CoveredAfterSkip(h, checked, queue);
      SearchQueueComplete(h, queue[1..], checked, key);
      ExploredExtendSome(h, queue, queue[1..], checked, checked, key);
    } else {
      SearchQueueCompleteExpand(h, queue, checked, key);
    }
  }

  /** The case of SearchQueueComplete where the head of the queue is new:
      it is explored together with its children. */
  lemma {:induction false} SearchQueueCompleteExpand(h: Heap, queue: seq<NodeId>, checked: set<NodeId>, key: Option<string>)
    requires Closed(h) && IdsIn(h, queue) && checked <= h.Keys
    requires Covered(h, checked, queue)
    requires forall n | n in checked :: h[n].name != key
    requires SearchQueue(h, queue, checked, key) == Ok(None)
    requires queue != [] && queue[0] !in checked
    ensures exists c :: Explored(h, c, queue, checked, key)
    decreases |h.Keys - checked|, |queue|, 0
  {
    var n := queue[0];
    SmallerWithout(h.Keys, checked, n);
    UnwrapIn(h, h[n].children);
    CoveredAfterExpand(h, checked, queue);
    var rest := queue[1..] + Unwrap(h[n].children);
    assert SearchQueue(h, rest, checked + {n}, key) == Ok(None);
    SearchQueueComplete(h, rest, checked + {n}, key);
    ExploredExtendSome(h, queue, rest, checked, checked + {n}, key);
  }


  lemma {:induction false} SearchQueueSound(h: Heap, root: NodeId, queue: seq<NodeId>, checked: set<NodeId>, key: Option<string>)
    requires Closed(h) && IdsIn(h, queue) && checked <= h.Keys
    requires forall i | 0 <= i < |queue| :: Reachable(h, root, queue[i])
    ensures var r := SearchQueue(h, queue, checked, key);
            r.Ok? && r.value.Some? ==> r.value.value in h && h[r.value.value].name == key && Reachable(h, root, r.value.value)
    decreases |h.Keys - checked|, |queue|, 1
  {
    if queue != [] {
      var n := queue[0];
      assert Reachable(h, root, n);
      if n in checked {
        SearchQueueSound(h, root, queue[1..], checked, key);
      } else if h[n].name != key && None !in h[n].children {
        SearchQueueSoundExpand(h, root, queue, checked, key);
      }
    }
  }

  /** The case of SearchQueueSound where the head of the queue is new and
      the search goes on over its children. */
  lemma {:induction false} SearchQueueSoundExpand(h: Heap, root: NodeId, queue: seq<NodeId>, checked: set<NodeId>, key: Option<string>)
    requires Closed(h) && IdsIn(h, queue) && checked <= h.Keys
    requires forall i | 0 <= i < |queue| :: Reachable(h, root, queue[i])
    requires queue != [] && queue[0] !in checked && h[queue[0]].name != key && None !in h[queue[0]].children
    ensures var r := SearchQueue(h, queue, checked, key);
            r.Ok? && r.value.Some? ==> r.value.value in h && h[r.value.value].name == key && Reachable(h, root, r.value.value)
    decreases |h.Keys - checked|, |queue|, 0
  {
    var n := queue[0];
    SmallerWithout(h.Keys, checked, n);
    UnwrapIn(h, h[n].children);
    var rest := queue[1..] + Unwrap(h[n].children);
    ReachableAfterExpand(h, root, queue);
    assert IdsIn(h, rest);
    assert forall i | 0 <= i < |rest| :: Reachable(h, root, rest[i]);
    SearchQueueSound(h, root, rest, checked + {n}, key);
  }

  /** The nodes queued after examining the head are reachable when those
      queued before were. */
  lemma ReachableAfterExpand(h: Heap, root: NodeId, queue: seq<NodeId>)
    requires Closed(h) && queue != [] && queue[0] in h && None !in h[queue[0]].children
    requires forall i | 0 <= i < |queue| :: Reachable(h, root, queue[i])
    ensures forall i | 0 <= i < |queue| - 1 + |h[queue[0]].children| ::
              Reachable(h, root, (queue[1..] + Unwrap(h[queue[0]].children))[i])
  {
    var n := queue[0];
    var kids := Unwrap(h[n].children);
    var rest := queue[1..] + kids;
    forall i | 0 <= i < |rest| ensures Reachable(h, root, rest[i]) {
      if i < |queue| - 1 {
        assert rest[i] == queue[i + 1];
      } else {
        assert h[n].children[i - (|queue| - 1)] == Some(rest[i]);
        assert RefIn(h, h[n].children[i - (|queue| - 1)]);
        ReachableChild(h, root, n, rest[i]);
      }
    }
  }


  /** What `wideSearch` promises: a node it answers bears the name and lies
      below the root (or is the root); "not found" means that no node below
      the root bears the name; and with no null child anywhere it never
      throws, so "not found" is then exactly the absence of such a node. */
  lemma WideSearchCorrect(h: Heap, root: NodeId, key: Option<string>)
    requires Closed(h) && root in h
    ensures var r := WideSearchOf(h, root, key);
            && (r.Ok? && r.value.Some? ==>
                  r.value.value in h && h[r.value.value].name == key && Reachable(h, root, r.value.value))
            && (r == Ok(None) ==> forall t | Reachable(h, root, t) :: h[t].name != key)
            && (r.Err? ==> r.error == NullPointer)
            && (NullFree(h) ==> (r == Ok(None) <==> forall t | Reachable(h, root, t) :: h[t].name != key))
  {
    var r := WideSearchOf(h, root, key);
    if NullFree(h) {
      WideSearchIsFirstInTraversal(h, root, key);
    }
    ReachableSelf(h, root);
    if h[root].name != key && None !in h[root].children {
      UnwrapIn(h, h[root].children);
      var kids := Unwrap(h[root].children);
      forall i | 0 <= i < |kids| ensures Reachable(h, root, kids[i]) {
        assert h[root].children[i] == Some(kids[i]);
        ReachableChild(h, root, root, kids[i]);
      }
      SearchQueueSound(h, root, kids, {root}, key);
      if r == Ok(None) {
        forall i | 0 <= i < |h[root].children|
          ensures h[root].children[i].Some? && h[root].children[i].value in kids
        {
          assert h[root].children[i] == Some(kids[i]);
        }
        assert Covered(h, {root}, kids);
        SearchQueueComplete(h, kids, {root}, key);
        var c :| Explored(h, c, kids, {root}, key);
        forall t | Reachable(h, root, t) ensures h[t].name != key {
          var p :| IsPath(h, p) && p[0] == root && p[|p| - 1] == t;
          PathStaysInClosedSet(h, c, p, |p| - 1);
        }
      }
    }
  }
}
