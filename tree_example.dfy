/** The sample tree drawn in the comment of the TreeNode tests, as a heap
    whose parent fields and children lists both hold the drawn edges:

      1
      1 1A 1B 1C
      1A 1A1 1A2 1A3
      1C 1C1 1C2
*/
module TreeExample {
  import opened Wrappers
  import opened TreeModel

  /** Objects 0 ("1"), 1-3 ("1A", "1B", "1C"), 4-6 ("1A1", "1A2", "1A3")
      and 7-8 ("1C1", "1C2"). */
  function SampleTree(): Heap {
    map[
      0 := TreeNode(Some("1"), None, [Some(1), Some(2), Some(3)]),
      1 := TreeNode(Some("1A"), Some(0), [Some(4), Some(5), Some(6)]),
      2 := TreeNode(Some("1B"), Some(0), []),
      3 := TreeNode(Some("1C"), Some(0), [Some(7), Some(8)]),
      4 := TreeNode(Some("1A1"), Some(1), []),
      5 := TreeNode(Some("1A2"), Some(1), []),
      6 := TreeNode(Some("1A3"), Some(1), []),
      7 := TreeNode(Some("1C1"), Some(3), []),
      8 := TreeNode(Some("1C2"), Some(3), [])]
  }

  /** What the lemmas below use of the sample: it is a closed heap without
      null children, holding objects 0-8 with the sample's names and
      children lists. */
  ghost predicate SampleShaped(h: Heap) {
    && Closed(h) && NullFree(h) && (forall n: nat | n < 9 :: n in h)
    && h[0].children == [Some(1), Some(2), Some(3)]
    && h[1].children == [Some(4), Some(5), Some(6)] && h[2].children == [] && h[3].children == [Some(7), Some(8)]
    && h[4].children == [] && h[5].children == [] && h[6].children == [] && h[7].children == [] && h[8].children == []
    && h[0].name == Some("1") && h[1].name == Some("1A") && h[2].name == Some("1B") && h[3].name == Some("1C")
    && h[4].name == Some("1A1") && h[5].name == Some("1A2") && h[6].name == Some("1A3")
    && h[7].name == Some("1C1") && h[8].name == Some("1C2")
  }

  lemma SampleTreeClosed()
    ensures Closed(SampleTree())
  {
    var h := SampleTree();
    assert h.Keys == {0, 1, 2, 3, 4, 5, 6, 7, 8};
    forall id | id in h ensures RefIn(h, h[id].parent) && AllIn(h, h[id].children) {
      assert id in {0, 1, 2, 3, 4, 5, 6, 7, 8};
    }
  }

  lemma SampleTreeNullFree()
    ensures NullFree(SampleTree())
  {
    var h := SampleTree();
    assert h.Keys == {0, 1, 2, 3, 4, 5, 6, 7, 8};
    forall id | id in h ensures None !in h[id].children {
      assert id in {0, 1, 2, 3, 4, 5, 6, 7, 8};
    }
  }

  lemma SampleTreeShaped()
    ensures SampleShaped(SampleTree())
  {
    SampleTreeClosed();
    SampleTreeNullFree();
  }

  /** One step of the walk: the head of the queue, not yet visited, is
      visited and its children join the end of the queue. */
  lemma VisitHead(h: Heap, queue: seq<NodeId>, next: seq<NodeId>, checked: set<NodeId>)
    requires Closed(h) && NullFree(h) && IdsIn(h, queue) && checked <= h.Keys
    requires queue != [] && queue[0] !in checked && next == queue[1..] + Unwrap(h[queue[0]].children)
    ensures IdsIn(h, next)
    ensures Visit(h, queue, checked) == [queue[0]] + Visit(h, next, checked + {queue[0]})
  {
    UnwrapIn(h, h[queue[0]].children);
  }

  /** A queue of distinct leaves that were not visited yet is walked in
      queue order. */
  lemma {:induction false} VisitLeaves(h: Heap, queue: seq<NodeId>, checked: set<NodeId>)
    requires Closed(h) && NullFree(h) && IdsIn(h, queue) && checked <= h.Keys
    requires forall i | 0 <= i < |queue| :: queue[i] !in checked && h[queue[i]].children == []
    requires forall i, j | 0 <= i < j < |queue| :: queue[i] != queue[j]
    ensures Visit(h, queue, checked) == queue
    decreases |queue|
  {
    if queue != [] {
      assert Unwrap([]) == [];
      assert queue[1..] + [] == queue[1..];
      VisitLeaves(h, queue[1..], checked + {queue[0]});
      assert [queue[0]] + queue[1..] == queue;
    }
  }

  /** The walk starts with the second level: "1A" is visited and its
      children queued behind "1B" and "1C". */
  lemma VisitFirst(h: Heap)
    requires SampleShaped(h)
    ensures Visit(h, [1, 2, 3], {0}) == [1] + Visit(h, [2, 3, 4, 5, 6], {0, 1})
  {
    assert Unwrap([Some(4), Some(5), Some(6)]) == [4, 5, 6];
    VisitHead(h, [1, 2, 3], [2, 3, 4, 5, 6], {0});
    assert {0} + {1} == {0, 1};
  }

  /** "1B" is visited next; it has no children. */
  lemma VisitSecond(h: Heap)
    requires SampleShaped(h)
    ensures Visit(h, [2, 3, 4, 5, 6], {0, 1}) == [2] + Visit(h, [3, 4, 5, 6], {0, 1, 2})
  {
    assert Unwrap([]) == [];
    VisitHead(h, [2, 3, 4, 5, 6], [3, 4, 5, 6], {0, 1});
    assert {0, 1} + {2} == {0, 1, 2};
  }

  /** "1C" is visited next and its children queued behind those of "1A". */
  lemma VisitThird(h: Heap)
    requires SampleShaped(h)
    ensures Visit(h, [3, 4, 5, 6], {0, 1, 2}) == [3] + Visit(h, [4, 5, 6, 7, 8], {0, 1, 2, 3})
  {
    assert Unwrap([Some(7), Some(8)]) == [7, 8];
    VisitHead(h, [3, 4, 5, 6], [4, 5, 6, 7, 8], {0, 1, 2});
    assert {0, 1, 2} + {3} == {0, 1, 2, 3};
  }

  /** The third level, all leaves, is visited last, in queue order. */
  lemma VisitThirdLevel(h: Heap)
    requires SampleShaped(h)
    ensures Visit(h, [4, 5, 6, 7, 8], {0, 1, 2, 3}) == [4, 5, 6, 7, 8]
  {
    VisitLeaves(h, [4, 5, 6, 7, 8], {0, 1, 2, 3});
  }

  /** From "1C" on, the walk goes on over the third level. */
  lemma VisitFromThird(h: Heap)
    requires SampleShaped(h)
    ensures Visit(h, [3, 4, 5, 6], {0, 1, 2}) == [3, 4, 5, 6, 7, 8]
  {
    VisitThirdLevel(h);
    VisitThird(h);
  }

  /** The whole walk below the root. */
  lemma VisitBelowRoot(h: Heap)
    requires SampleShaped(h)
    ensures Visit(h, [1, 2, 3], {0}) == [1, 2, 3, 4, 5, 6, 7, 8]
  {
    VisitFromThird(h);
    VisitSecond(h);
    VisitFirst(h);
  }

  /** In any heap shaped like the sample the traversal goes level by level,
      each level left to right. */
  lemma ShapedTraversal(h: Heap)
    requires SampleShaped(h)
    ensures Traversal(h, 0) == [0, 1, 2, 3, 4, 5, 6, 7, 8]
  {
    VisitBelowRoot(h);
    assert Unwrap([Some(1), Some(2), Some(3)]) == [1, 2, 3];
  }

  /** The first node of `vs` named `key` is the one at position `k` when
      the nodes before it bear other names. */
  lemma {:induction false} FirstNamedAt(h: Heap, vs: seq<NodeId>, key: Option<string>, k: nat)
    requires IdsIn(h, vs) && k <= |vs|
    requires forall i | 0 <= i < k :: h[vs[i]].name != key
    requires k < |vs| ==> h[vs[k]].name == key
    ensures FirstNamed(h, vs, key) == if k < |vs| then Some(vs[k]) else None
    decreases k
  {
    if k > 0 {
      FirstNamedAt(h, vs[1..], key, k - 1);
    }
  }

  /** In any heap shaped like the sample, the searches of the tests: "1"
      answers the root, "1C2" the last node and "0" nothing. */
  lemma ShapedSearches(h: Heap)
    requires SampleShaped(h)
    ensures WideSearchOf(h, 0, Some("1")) == Ok(Some(0))
    ensures WideSearchOf(h, 0, Some("1C2")) == Ok(Some(8))
    ensures WideSearchOf(h, 0, Some("0")) == Ok(None)
  {
    ShapedTraversal(h);
    var vs := Traversal(h, 0);
    WideSearchIsFirstInTraversal(h, 0, Some("1C2"));
    WideSearchIsFirstInTraversal(h, 0, Some("0"));
    FirstNamedAt(h, vs, Some("1C2"), 8);
    FirstNamedAt(h, vs, Some("0"), 9);
  }

  /** The traversal of the sample tree goes level by level, each level left
      to right, and its searches answer as the tests expect. */
  lemma SampleTraversal()
    ensures Closed(SampleTree()) && NullFree(SampleTree())
    ensures Traversal(SampleTree(), 0) == [0, 1, 2, 3, 4, 5, 6, 7, 8]
    ensures WideSearchOf(SampleTree(), 0, Some("1")) == Ok(Some(0))
    ensures WideSearchOf(SampleTree(), 0, Some("1C2")) == Ok(Some(8))
    ensures WideSearchOf(SampleTree(), 0, Some("0")) == Ok(None)
  {
    SampleTreeShaped();
    ShapedTraversal(SampleTree());
    ShapedSearches(SampleTree());
  }
}
