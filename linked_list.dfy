/** com.solovev.model.MyLinkedList: a doubly linked list of Node cells with
    a first and a last link and an element count. The ghost fields give its
    abstract value, the elements in order (Contents), and the cells that
    hold them (Nodes). */
module LinkedList {
  import opened Wrappers
  import opened LinkedNodes

  /** The position of the first element of `s` equal to `x`, or -1. */
  function FirstIndex<T(==)>(s: seq<T>, x: T): (k: int)
    ensures -1 <= k < |s|
    ensures k >= 0 ==> s[k] == x && x !in s[..k]
    ensures k == -1 <==> x !in s
  {
    if s == [] then -1
    else if s[0] == x then 0
    else
      var k := FirstIndex(s[1..], x);
      assert s == [s[0]] + s[1..];
      if k == -1 then -1
      else
        assert s[..k + 1] == [s[0]] + s[1..][..k];
        k + 1
  }

  /** The first occurrence of `x` in `a + [x] + b` is the one after `a`
      when `a` does not hold `x`. */
  lemma FirstIndexAfter<T>(a: seq<T>, x: T, b: seq<T>)
    requires x !in a
    ensures FirstIndex(a + [x] + b, x) == |a|
  {
    assert (a + [x] + b)[|a|] == x;
  }

  /** Cutting out position `|a|` of `a + [x] + b` leaves `a + b`. */
  lemma CutMiddle<T>(a: seq<T>, x: T, b: seq<T>)
    ensures (a + [x] + b)[..|a|] + (a + [x] + b)[|a| + 1..] == a + b
  {
    assert (a + [x] + b)[..|a|] == a;
    assert (a + [x] + b)[|a| + 1..] == b;
  }

  /** `s` without its first occurrence of `x`, or `s` itself when `x` does
      not occur. */
  function RemoveFirst<T(==)>(s: seq<T>, x: T): seq<T>
  {
    var k := FirstIndex(s, x);
    if k == -1 then s else s[..k] + s[k + 1..]
  }

  /** Exactly one occurrence of `x` goes, when there is one, and nothing
      else changes. */
  lemma RemoveFirstMultiset<T>(s: seq<T>, x: T)
    ensures multiset(RemoveFirst(s, x)) == multiset(s) - multiset{x}
    ensures |RemoveFirst(s, x)| == if x in s then |s| - 1 else |s|
  {
    var k := FirstIndex(s, x);
    if k != -1 {
      assert s == s[..k] + [x] + s[k + 1..];
    } else {
      assert multiset(s)[x] == 0;
    }
  }

  /** `s` after removing the first occurrence of each of `es` in turn. */
  function RemoveEach<T(==)>(s: seq<T>, es: seq<T>): seq<T>
  {
    if es == [] then s else RemoveFirst(RemoveEach(s, es[..|es| - 1]), es[|es| - 1])
  }

  /** Removing the elements one at a time takes away exactly the multiset
      of them: each element of `s` survives as often as it occurs in `s`
      beyond its occurrences in `es`. */
  lemma {:induction false} RemoveEachMultiset<T>(s: seq<T>, es: seq<T>)
    ensures multiset(RemoveEach(s, es)) == multiset(s) - multiset(es)
    decreases |es|
  {
    if es != [] {
      var front, x := es[..|es| - 1], es[|es| - 1];
      assert es == front + [x];
      var t := RemoveEach(s, front);
      RemoveEachMultiset(s, front);
      RemoveFirstMultiset(t, x);
      var m, f := multiset(s), multiset(front);
      assert multiset(es) == f + multiset{x};
      MultisetMinusMinus(m, f, multiset{x});
    }
  }

  /** An element that occurs more often in `s` than in `es` is still there
      after `removeAll(es)`: only one occurrence goes per argument element,
      not every occurrence. */
  lemma RemoveEachKeepsSurplus<T>(s: seq<T>, es: seq<T>, x: T)
    requires multiset(es)[x] < multiset(s)[x]
    ensures x in RemoveEach(s, es)
  {
    RemoveEachMultiset(s, es);
    assert multiset(RemoveEach(s, es))[x] > 0;
  }

  /** The smallest case: `removeAll([1])` on the list `[1, 1]` leaves `[1]`. */
  lemma RemoveAllOfRepeated()
    ensures RemoveEach([1, 1], [1]) == [1]
  {
    assert [1][..0] == [];
    assert FirstIndex([1, 1], 1) == 0;
  }

  lemma MultisetMinusMinus<T>(a: multiset<T>, b: multiset<T>, c: multiset<T>)
    ensures (a - b) - c == a - (b + c)
  {
    forall y ensures ((a - b) - c)[y] == (a - (b + c))[y] {
    }
  }

  /** The elements of `s` that occur in `es`, in their order in `s`. */
  function Retained<T(==)>(s: seq<T>, es: seq<T>): seq<T>
  {
    if s == [] then []
    else Retained(s[..|s| - 1], es) + (if s[|s| - 1] in es then [s[|s| - 1]] else [])
  }

  /** An element is retained exactly when it is in `s` and in `es`. */
  lemma {:induction false} RetainedMembers<T>(s: seq<T>, es: seq<T>)
    ensures forall x :: x in Retained(s, es) <==> x in s && x in es
    decreases |s|
  {
    if s != [] {
      var front := s[..|s| - 1];
      RetainedMembers(front, es);
      assert s == front + [s[|s| - 1]];
    }
  }

  /** Each retained element keeps all its occurrences, the others keep none. */
  lemma {:induction false} RetainedCount<T>(s: seq<T>, es: seq<T>, x: T)
    ensures multiset(Retained(s, es))[x] == if x in es then multiset(s)[x] else 0
    decreases |s|
  {
    if s != [] {
      var front := s[..|s| - 1];
      RetainedCount(front, es, x);
      assert s == front + [s[|s| - 1]];
    }
  }

  /** Retaining works piece by piece, so the retained elements stay in their
      original relative order. */
  lemma {:induction false} RetainedAppend<T>(a: seq<T>, b: seq<T>, es: seq<T>)
    ensures Retained(a + b, es) == Retained(a, es) + Retained(b, es)
    decreases |b|
  {
    if b != [] {
      var front := b[..|b| - 1];
      RetainedAppend(a, front, es);
      assert (a + b)[..|a + b| - 1] == a + front;
      assert (a + b)[|a + b| - 1] == b[|b| - 1];
    } else {
      assert a + b == a;
    }
  }

  /** Position `i` of `s` taken apart from the rest, after a prefix `a`. */
  lemma SplitAt<T>(a: seq<T>, s: seq<T>, i: int)
    requires 0 <= i < |s|
    ensures a + s[i..] == a + [s[i]] + s[i + 1..]
    ensures (a + s[i..])[|a|] == s[i]
    ensures i + 1 < |s| ==> (a + s[i..])[|a| + 1] == s[i + 1]
    ensures |a + s[i..]| == |a| + |s| - i
  {
    assert s[i..] == [s[i]] + s[i + 1..];
  }

  /** One step of `retainAll` on the abstract value: the element at `i`
      joins the retained prefix when it occurs in `es`, and otherwise does
      not occur in that prefix at all. */
  lemma RetainStep<T>(cs: seq<T>, i: int, es: seq<T>)
    requires 0 <= i < |cs|
    ensures var r, x := Retained(cs[..i], es), cs[i];
            (x in es ==> Retained(cs[..i + 1], es) == r + [x]) &&
            (x !in es ==> Retained(cs[..i + 1], es) == r && x !in r)
  {
    assert cs[..i + 1] == cs[..i] + [cs[i]];
    assert cs[..i + 1][..i] == cs[..i];
    RetainedMembers(cs[..i], es);
  }

  /** The cell before position `i` of a chain, null at the front. */
  function Before<T>(ns: seq<Node<T>>, i: int): Node?<T>
    requires 0 <= i < |ns|
  {
    if i == 0 then null else ns[i - 1]
  }

  /** The cell after position `i` of a chain, null at the back. */
  function After<T>(ns: seq<Node<T>>, i: int): Node?<T>
    requires 0 <= i < |ns|
  {
    if i == |ns| - 1 then null else ns[i + 1]
  }

  /** No cell occurs twice in a chain. */
  ghost predicate Distinct<T>(ns: seq<Node<T>>) {
    forall i, j | 0 <= i < j < |ns| :: Apart(ns, i, j)
  }

  /** Positions `i` and `j` of the chain hold different cells. */
  ghost predicate Apart<T>(ns: seq<Node<T>>, i: int, j: int)
    requires 0 <= i < |ns| && 0 <= j < |ns|
  {
    ns[i] != ns[j]
  }

  /** Cell `i` of the chain holds `cs[i]` and links to its neighbours in
      the chain. */
  ghost predicate LinkedAt<T>(ns: seq<Node<T>>, cs: seq<T>, i: int)
    requires |cs| == |ns| && 0 <= i < |ns|
    reads ns[i]
  {
    ns[i].data == cs[i] && ns[i].prevNode == Before(ns, i) && ns[i].nextNode == After(ns, i)
  }

  ghost predicate Linked<T>(ns: seq<Node<T>>, cs: seq<T>)
    requires |cs| == |ns|
    reads ns
  {
    forall i | 0 <= i < |ns| :: LinkedAt(ns, cs, i)
  }

  /** A chain whose cells at `k - 1` and `k` were linked to a new cell `x`
      between them is the chain with `x` inserted at `k`. */
  lemma InsertLinked<T>(ns0: seq<Node<T>>, cs0: seq<T>, k: int, x: Node<T>, elem: T)
    requires |cs0| == |ns0| && 0 < k < |ns0|
    requires forall i | 0 <= i < |ns0| && i != k - 1 && i != k :: LinkedAt(ns0, cs0, i)
    requires ns0[k - 1].data == cs0[k - 1] && ns0[k - 1].prevNode == Before(ns0, k - 1) && ns0[k - 1].nextNode == x
    requires ns0[k].data == cs0[k] && ns0[k].prevNode == x && ns0[k].nextNode == After(ns0, k)
    requires x.data == elem && x.prevNode == ns0[k - 1] && x.nextNode == ns0[k]
    ensures Linked(ns0[..k] + [x] + ns0[k..], cs0[..k] + [elem] + cs0[k..])
  {
    var ns, cs := ns0[..k] + [x] + ns0[k..], cs0[..k] + [elem] + cs0[k..];
    forall i | 0 <= i < |ns| ensures LinkedAt(ns, cs, i) {
      if i < k - 1 {
        assert ns[i] == ns0[i] && cs[i] == cs0[i] && ns[i + 1] == ns0[i + 1] && LinkedAt(ns0, cs0, i);
      } else if i == k - 1 {
        assert ns[i] == ns0[i] && cs[i] == cs0[i] && ns[i + 1] == x;
      } else if i == k {
        assert ns[i] == x && cs[i] == elem && ns[i - 1] == ns0[k - 1] && ns[i + 1] == ns0[k];
      } else if i == k + 1 {
        assert ns[i] == ns0[k] && cs[i] == cs0[k] && ns[i - 1] == x;
        assert i < |ns| - 1 ==> ns[i + 1] == ns0[k + 1];
      } else {
        assert ns[i] == ns0[i - 1] && cs[i] == cs0[i - 1] && ns[i - 1] == ns0[i - 2] && LinkedAt(ns0, cs0, i - 1);
        assert i < |ns| - 1 ==> ns[i + 1] == ns0[i];
      }
    }
  }

  /** A chain whose cells at `k - 1` and `k + 1` were linked to each other
      is the chain without its cell at `k`. */
  lemma UnlinkLinked<T>(ns0: seq<Node<T>>, cs0: seq<T>, k: int)
    requires |cs0| == |ns0| && 0 < k < |ns0| - 1
    requires forall i | 0 <= i < |ns0| && i != k - 1 && i != k && i != k + 1 :: LinkedAt(ns0, cs0, i)
    requires ns0[k - 1].data == cs0[k - 1] && ns0[k - 1].prevNode == Before(ns0, k - 1) && ns0[k - 1].nextNode == ns0[k + 1]
    requires ns0[k + 1].data == cs0[k + 1] && ns0[k + 1].prevNode == ns0[k - 1] && ns0[k + 1].nextNode == After(ns0, k + 1)
    ensures Linked(ns0[..k] + ns0[k + 1..], cs0[..k] + cs0[k + 1..])
  {
    var ns, cs := ns0[..k] + ns0[k + 1..], cs0[..k] + cs0[k + 1..];
    forall i | 0 <= i < |ns| ensures LinkedAt(ns, cs, i) {
      if i < k - 1 {
        assert ns[i] == ns0[i] && cs[i] == cs0[i] && ns[i + 1] == ns0[i + 1] && LinkedAt(ns0, cs0, i);
      } else if i == k - 1 {
        assert ns[i] == ns0[i] && cs[i] == cs0[i] && ns[i + 1] == ns0[k + 1];
      } else if i == k {
        assert ns[i] == ns0[k + 1] && cs[i] == cs0[k + 1] && ns[i - 1] == ns0[k - 1];
        assert i < |ns| - 1 ==> ns[i + 1] == ns0[k + 2];
      } else {
        assert ns[i] == ns0[i + 1] && cs[i] == cs0[i + 1] && ns[i - 1] == ns0[i] && LinkedAt(ns0, cs0, i + 1);
        assert i < |ns| - 1 ==> ns[i + 1] == ns0[i + 2];
      }
    }
  }

  /** The link updates of `add(elem)` on a non-empty chain: the new cell
      `x` and the last cell are linked to each other. The chain then ends
      with `x`. */
  method Append<T>(ghost ns0: seq<Node<T>>, ghost cs0: seq<T>, last: Node<T>, x: Node<T>, ghost elem: T)
    requires |cs0| == |ns0| && 0 < |ns0| && last == ns0[|ns0| - 1] && Linked(ns0, cs0) && Distinct(ns0)
    requires x.data == elem && x.nextNode == null
    requires forall i | 0 <= i < |ns0| :: ns0[i] != x
    modifies x`prevNode, last`nextNode
    ensures Linked(ns0 + [x], cs0 + [elem])
  {
    var n := |ns0|;
    assert LinkedAt(ns0, cs0, n - 1);
    x.SetPrevNode(last);
    last.SetNextNode(x);
    var ns, cs := ns0 + [x], cs0 + [elem];
    forall i | 0 <= i < n + 1 ensures LinkedAt(ns, cs, i) {
      if i < n - 1 {
        assert old(LinkedAt(ns0, cs0, i));
        assert ns[i] == ns0[i] && Apart(ns0, i, n - 1);
        assert Before(ns, i) == Before(ns0, i) && After(ns, i) == After(ns0, i);
      } else if i == n - 1 {
        assert old(LinkedAt(ns0, cs0, i));
      }
    }
  }

  /** The link update of `addFirst(elem)` on a non-empty chain: the first
      cell links back to the new cell `x`, which already links to it. The
      chain then starts with `x`. */
  method Prepend<T>(ghost ns0: seq<Node<T>>, ghost cs0: seq<T>, first: Node<T>, x: Node<T>, ghost elem: T)
    requires |cs0| == |ns0| && 0 < |ns0| && first == ns0[0] && Linked(ns0, cs0) && Distinct(ns0)
    requires x.data == elem && x.prevNode == null && x.nextNode == first
    requires forall i | 0 <= i < |ns0| :: ns0[i] != x
    modifies first`prevNode
    ensures Linked([x] + ns0, [elem] + cs0)
  {
    assert LinkedAt(ns0, cs0, 0);
    first.SetPrevNode(x);
    var ns, cs := [x] + ns0, [elem] + cs0;
    forall i | 0 <= i < |ns| ensures LinkedAt(ns, cs, i) {
      if i > 0 {
        assert old(LinkedAt(ns0, cs0, i - 1));
        assert ns[i] == ns0[i - 1];
        assert After(ns, i) == After(ns0, i - 1);
        if i > 1 {
          assert Before(ns, i) == Before(ns0, i - 1) && Apart(ns0, 0, i - 1);
        }
      }
    }
  }

  /** The two link updates of `add(index, elem)`: `prev` and `next`, the
      cells at `k - 1` and `k`, are pointed at the new cell `x`, which
      already links to both of them. The chain then holds `x` at `k`. */
  method Splice<T>(ghost ns0: seq<Node<T>>, ghost cs0: seq<T>, k: int, prev: Node<T>, next: Node<T>, x: Node<T>, ghost elem: T)
    requires |cs0| == |ns0| && 0 < k < |ns0| && prev == ns0[k - 1] && next == ns0[k]
    requires Linked(ns0, cs0) && Distinct(ns0)
    requires x.data == elem && x.prevNode == ns0[k - 1] && x.nextNode == next
    requires forall i | 0 <= i < |ns0| :: ns0[i] != x
    modifies prev`nextNode, next`prevNode
    ensures Linked(ns0[..k] + [x] + ns0[k..], cs0[..k] + [elem] + cs0[k..])
  {
    assert LinkedAt(ns0, cs0, k) && LinkedAt(ns0, cs0, k - 1) && Apart(ns0, k - 1, k);
    prev.SetNextNode(x);
    next.SetPrevNode(x);
    forall i | 0 <= i < |ns0| && i != k - 1 && i != k ensures LinkedAt(ns0, cs0, i) {
      assert old(LinkedAt(ns0, cs0, i));
      if i < k {
        assert Apart(ns0, i, k - 1) && Apart(ns0, i, k);
      } else {
        assert Apart(ns0, k - 1, i) && Apart(ns0, k, i);
      }
    }
    InsertLinked(ns0, cs0, k, x, elem);
  }

  /** The two link updates of `remove(index)`: `prev` and `after`, the
      neighbours of the cell at `k`, are linked to each other. The chain
      then lacks that cell. */
  method Bypass<T>(ghost ns0: seq<Node<T>>, ghost cs0: seq<T>, k: int, prev: Node<T>, after: Node<T>)
    requires |cs0| == |ns0| && 0 < k < |ns0| - 1 && prev == ns0[k - 1] && after == ns0[k + 1]
    requires Linked(ns0, cs0) && Distinct(ns0)
    modifies prev`nextNode, after`prevNode
    ensures Linked(ns0[..k] + ns0[k + 1..], cs0[..k] + cs0[k + 1..])
  {
    assert LinkedAt(ns0, cs0, k - 1) && LinkedAt(ns0, cs0, k) && LinkedAt(ns0, cs0, k + 1);
    assert Apart(ns0, k - 1, k + 1) && Apart(ns0, k - 1, k) && Apart(ns0, k, k + 1);
    prev.SetNextNode(after);
    after.SetPrevNode(prev);
    forall i | 0 <= i < |ns0| && i != k - 1 && i != k && i != k + 1 ensures LinkedAt(ns0, cs0, i) {
      assert old(LinkedAt(ns0, cs0, i));
      if i < k {
        assert Apart(ns0, i, k - 1) && Apart(ns0, i, k + 1);
      } else {
        assert Apart(ns0, k - 1, i) && Apart(ns0, k + 1, i);
      }
    }
    UnlinkLinked(ns0, cs0, k);
  }

  /** A cell from outside the chain can be put at any position of it. */
  lemma DistinctInsert<T>(ns: seq<Node<T>>, k: int, x: Node<T>, outside: set<object>)
    requires Distinct(ns) && 0 <= k <= |ns| && x !in outside
    requires forall i | 0 <= i < |ns| :: ns[i] in outside
    ensures Distinct(ns[..k] + [x] + ns[k..])
  {
    var ms := ns[..k] + [x] + ns[k..];
    forall i, j | 0 <= i < j < |ms| ensures Apart(ms, i, j) {
      var a := if i < k then i else i - 1;
      var b := if j < k then j else j - 1;
      if i == k {
        assert ms[j] == ns[b] && ns[b] in outside;
      } else if j == k {
        assert ms[i] == ns[a] && ns[a] in outside;
      } else {
        assert ms[i] == ns[a] && ms[j] == ns[b] && Apart(ns, a, b);
      }
    }
  }

  /** A cell put strictly inside a chain of cells from `outside` leaves both
      ends in place, and every cell is from `outside` or is the new one. */
  lemma InsertShape<T>(ns: seq<Node<T>>, k: int, x: Node<T>, outside: set<object>)
    requires 0 < k < |ns|
    requires forall i | 0 <= i < |ns| :: ns[i] in outside
    ensures var ms := ns[..k] + [x] + ns[k..];
            && |ms| == |ns| + 1 && ms[0] == ns[0] && ms[|ms| - 1] == ns[|ns| - 1]
            && forall i | 0 <= i < |ms| :: ms[i] in outside + {x}
  {
    var ms := ns[..k] + [x] + ns[k..];
    forall i | 0 <= i < |ms| ensures ms[i] in outside + {x} {
      if i < k {
        assert ms[i] == ns[i];
      } else if i > k {
        assert ms[i] == ns[i - 1];
      }
    }
  }

  /** Dropping a cell keeps the others distinct. */
  lemma DistinctRemove<T>(ns: seq<Node<T>>, k: int)
    requires Distinct(ns) && 0 <= k < |ns|
    ensures Distinct(ns[..k] + ns[k + 1..])
  {
    var ms := ns[..k] + ns[k + 1..];
    forall i, j | 0 <= i < j < |ms| ensures Apart(ms, i, j) {
      var a := if i < k then i else i + 1;
      var b := if j < k then j else j + 1;
      assert ms[i] == ns[a] && ms[j] == ns[b] && Apart(ns, a, b);
    }
  }

  class MyLinkedList<T(==)> {
    var firstNode: Node?<T>
    var lastNode: Node?<T>
    var size: int
    ghost var Contents: seq<T>
    ghost var Nodes: seq<Node<T>>
    ghost var Repr: set<object>

    /** The cells form a chain from `firstNode`, linked both ways, holding
        Contents in order. When the list is empty, `lastNode` is not
        constrained: `poll` leaves it pointing at the removed cell. */
    ghost predicate Valid()
      reads this, Repr
    {
      && this in Repr
      && (forall i | 0 <= i < |Nodes| :: Nodes[i] in Repr)
      && size == |Nodes| && |Contents| == |Nodes|
      && (size == 0 ==> firstNode == null)
      && (size > 0 ==> firstNode == Nodes[0] && lastNode == Nodes[size - 1])
      && Linked(Nodes, Contents)
      && Distinct(Nodes)
    }

    constructor ()
      ensures Valid() && fresh(Repr) && Contents == []
    {
      firstNode, lastNode, size := null, null, 0;
      Contents, Nodes, Repr := [], [], {this};
    }

    /** `add(elem)`: a new cell after the last one. */
    method Add(elem: T)
      requires Valid()
      modifies Repr
      ensures Valid() && fresh(Repr - old(Repr))
      ensures Contents == old(Contents) + [elem]
      ensures fresh(lastNode) && Nodes == old(Nodes) + [lastNode]
    {
      ghost var ns0, cs0, n := Nodes, Contents, |Nodes|;
      var nodeToAdd := new Node(null, null, elem);
      assert nodeToAdd !in Repr;
      ghost var ns, cs := ns0 + [nodeToAdd], cs0 + [elem];
      if firstNode == null {
        firstNode := nodeToAdd;
        assert LinkedAt(ns, cs, 0);
      } else {
        Append(ns0, cs0, lastNode, nodeToAdd, elem);
      }
      DistinctInsert(ns0, n, nodeToAdd, Repr);
      assert ns0[..n] + [nodeToAdd] + ns0[n..] == ns;
      lastNode := nodeToAdd;
      size := size + 1;
      Contents := cs;
      Nodes := ns;
      Repr := Repr + {nodeToAdd};
    }

    /** `addLast(elem)`, the same as `add(elem)`. */
    method AddLast(elem: T)
      requires Valid()
      modifies Repr
      ensures Valid() && fresh(Repr - old(Repr))
      ensures Contents == old(Contents) + [elem]
      ensures fresh(lastNode) && Nodes == old(Nodes) + [lastNode]
    {
      Add(elem);
    }

    /** `addFirst(elem)` as written: the new cell is linked in front of
        `firstNode`, whose backward link is set without a null check, so on
        an empty list the call throws and nothing changes. */
    method AddFirst(elem: T) returns (o: Outcome)
      requires Valid()
      modifies Repr
      ensures Valid() && fresh(Repr - old(Repr))
      ensures old(Contents) == [] ==> o == Fail(NullPointer) && Contents == old(Contents)
      ensures old(Contents) != [] ==> o == Pass && Contents == [elem] + old(Contents)
    {
      var nodeToAdd := new Node(null, firstNode, elem);
      if firstNode == null {
        return Fail(NullPointer);
      }
      ghost var ns0, cs0 := Nodes, Contents;
      assert nodeToAdd !in Repr;
      Prepend(ns0, cs0, firstNode, nodeToAdd, elem);
      firstNode := nodeToAdd;
      size := size + 1;
      ghost var ns, cs := [nodeToAdd] + ns0, [elem] + cs0;
      DistinctInsert(ns0, 0, nodeToAdd, Repr);
      assert ns0[..0] + [nodeToAdd] + ns0[0..] == ns;
      Contents, Nodes, Repr := cs, ns, Repr + {nodeToAdd};
      return Pass;
    }

    /** `addFirst(elem)` as evidently intended: on an empty list the new
        cell becomes the only one. */
    method AddFirstCorrected(elem: T)
      requires Valid()
      modifies Repr
      ensures Valid() && fresh(Repr - old(Repr))
      ensures Contents == [elem] + old(Contents)
    {
      if size == 0 {
        Add(elem);
      } else {
        var _ := AddFirst(elem);
      }
    }

    /** `poll()`: removes and answers the first element, or answers null on
        an empty list. The new first cell loses its backward link; when the
        list empties, `lastNode` keeps pointing at the removed cell. */
    method Poll() returns (r: Option<T>)
      requires Valid()
      modifies Repr
      ensures Valid() && Repr == old(Repr)
      ensures old(Contents) == [] ==> r == None && Contents == old(Contents) && Nodes == old(Nodes)
      ensures old(Contents) != [] ==>
                r == Some(old(Contents)[0]) && Contents == old(Contents)[1..] && Nodes == old(Nodes)[1..]
    {
      if size == 0 {
        return None;
      }
      ghost var ns0, cs0 := Nodes, Contents;
      var oldElement := firstNode;
      assert LinkedAt(ns0, cs0, 0);
      firstNode := oldElement.nextNode;
      if firstNode != null {
        assert LinkedAt(ns0, cs0, 1);
        firstNode.SetPrevNode(null);
      }
      size := size - 1;
      ghost var ns, cs := ns0[1..], cs0[1..];
      forall i | 0 <= i < |ns| ensures LinkedAt(ns, cs, i) {
        assert old(LinkedAt(Nodes, Contents, i + 1));
        assert ns[i] == ns0[i + 1] && Apart(ns0, 0, i + 1);
        assert After(ns, i) == After(ns0, i + 1);
        if i > 0 {
          assert Before(ns, i) == Before(ns0, i + 1) && Apart(ns0, 1, i + 1);
        }
      }
      DistinctRemove(ns0, 0);
      assert ns0[..0] + ns0[1..] == ns;
      Contents, Nodes := cs, ns;
      return Some(oldElement.data);
    }

    /** `pollLast()` as written: `lastNode` moves back one cell and its
        forward link is cleared without a null check. On a one-element list
        `lastNode` becomes null and the call throws before `size` changes,
        leaving a list whose last link is lost. */
    method PollLast() returns (r: Result<Option<T>>)
      requires Valid()
      modifies Repr
      ensures |old(Contents)| != 1 ==> Valid()
      ensures Repr == old(Repr)
      ensures old(Contents) == [] ==> r == Ok(None) && Contents == old(Contents) && Nodes == old(Nodes)
      ensures |old(Contents)| == 1 ==>
                r == Err(NullPointer) && Contents == old(Contents) && Nodes == old(Nodes) &&
                firstNode == old(firstNode) && lastNode == null && size == 1 && !Valid()
      ensures |old(Contents)| > 1 ==>
                r == Ok(Some(old(Contents)[|old(Contents)| - 1])) &&
                Contents == old(Contents)[..|old(Contents)| - 1] && Nodes == old(Nodes)[..|old(Nodes)| - 1]
    {
      if size == 0 {
        return Ok(None);
      }
      ghost var ns0, cs0, n := Nodes, Contents, |Nodes|;
      var oldElement := lastNode;
      assert LinkedAt(ns0, cs0, n - 1);
      lastNode := oldElement.prevNode;
      if lastNode == null {
        return Err(NullPointer);
      }
      assert LinkedAt(ns0, cs0, n - 2);
      lastNode.SetNextNode(null);
      size := size - 1;
      ghost var ns, cs := ns0[..n - 1], cs0[..n - 1];
      forall i | 0 <= i < |ns| ensures LinkedAt(ns, cs, i) {
        assert old(LinkedAt(Nodes, Contents, i));
        assert ns[i] == ns0[i] && Apart(ns0, i, n - 1);
        assert Before(ns, i) == Before(ns0, i);
        if i < n - 2 {
          assert After(ns, i) == After(ns0, i) && Apart(ns0, i, n - 2);
        }
      }
      DistinctRemove(ns0, n - 1);
      assert ns0[..n - 1] + ns0[n..] == ns;
      Contents, Nodes := cs, ns;
      return Ok(Some(oldElement.data));
    }

    /** `pollLast()` as evidently intended: a one-element list becomes
        empty, as with `poll()`. */
    method PollLastCorrected() returns (r: Option<T>)
      requires Valid()
      modifies Repr
      ensures Valid() && Repr == old(Repr)
      ensures old(Contents) == [] ==> r == None && Contents == old(Contents) && Nodes == old(Nodes)
      ensures old(Contents) != [] ==>
                r == Some(old(Contents)[|old(Contents)| - 1]) &&
                Contents == old(Contents)[..|old(Contents)| - 1] && Nodes == old(Nodes)[..|old(Nodes)| - 1]
    {
      if size == 1 {
        r := Poll();
      } else {
        var o := PollLast();
        r := o.value;
      }
    }

    /** `add(index, elem)`: at the end when `index` is the size (an empty
        list included), at the front when it is 0, and otherwise between the
        cell at `index` and the one before it; any other index throws. */
    method AddAt(index: int, elem: T) returns (o: Outcome)
      requires Valid()
      modifies Repr
      ensures Valid() && fresh(Repr - old(Repr))
      ensures 0 <= index <= |old(Contents)| ==>
                o == Pass && Contents == old(Contents)[..index] + [elem] + old(Contents)[index..]
      ensures !(0 <= index <= |old(Contents)|) ==>
                o == Fail(IndexOutOfBounds) && Contents == old(Contents) && Nodes == old(Nodes)
    {
      if index == size {
        AddLast(elem);
        assert old(Contents)[index..] == [];
        return Pass;
      } else if index == 0 {
        AddFirstCorrected(elem);
        return Pass;
      }
      var g := GetNode(index);
      if g.Err? {
        return Fail(g.error);
      }
      InsertBefore(index, g.value, elem);
      return Pass;
    }

    /** The middle case of `add(index, elem)`: a new cell between the cell
        at `index` and the one before it. */
    method InsertBefore(index: int, nodeAtPosition: Node<T>, elem: T)
      requires Valid() && 0 < index < |Nodes| && nodeAtPosition == Nodes[index]
      modifies Repr
      ensures Valid() && fresh(Repr - old(Repr))
      ensures Contents == old(Contents)[..index] + [elem] + old(Contents)[index..]
    {
      ghost var ns0, cs0 := Nodes, Contents;
      assert LinkedAt(ns0, cs0, index);
      var nodeToInsert := new Node(nodeAtPosition.prevNode, nodeAtPosition, elem);
      assert nodeToInsert !in Repr;
      Splice(ns0, cs0, index, nodeAtPosition.prevNode, nodeAtPosition, nodeToInsert, elem);
      size := size + 1;
      ghost var ns, cs := ns0[..index] + [nodeToInsert] + ns0[index..], cs0[..index] + [elem] + cs0[index..];
      DistinctInsert(ns0, index, nodeToInsert, Repr);
      InsertShape(ns0, index, nodeToInsert, Repr);
      Contents, Nodes, Repr := cs, ns, Repr + {nodeToInsert};
    }

    /** `addAll(elements)`: each element in turn at the end. */
    method AddAll(elements: seq<T>)
      requires Valid()
      modifies Repr
      ensures Valid() && fresh(Repr - old(Repr))
      ensures Contents == old(Contents) + elements
    {
      for i := 0 to |elements|
        invariant Valid() && fresh(Repr - old(Repr))
        invariant Contents == old(Contents) + elements[..i]
      {
        Add(elements[i]);
        assert elements[..i + 1] == elements[..i] + [elements[i]];
      }
      assert elements[..|elements|] == elements;
    }

    /** `addAll(index, elements)`: unless `index` is the size, it must be the
        position of an element; then the elements go in one after another
        from `index` on, so they end up in their own order at `index`. */
    method AddAllAt(index: int, elements: seq<T>) returns (o: Outcome)
      requires Valid()
      modifies Repr
      ensures Valid() && fresh(Repr - old(Repr))
      ensures 0 <= index <= |old(Contents)| ==>
                o == Pass && Contents == old(Contents)[..index] + elements + old(Contents)[index..]
      ensures !(0 <= index <= |old(Contents)|) ==>
                o == Fail(IndexOutOfBounds) && Contents == old(Contents) && Nodes == old(Nodes)
    {
      if index != size {
        var c := CheckIndex(index);
        if c.Fail? {
          return c;
        }
      }
      ghost var cs0 := Contents;
      var counter := index;
      for i := 0 to |elements|
        invariant Valid() && fresh(Repr - old(Repr))
        invariant counter == index + i
        invariant Contents == cs0[..index] + elements[..i] + cs0[index..]
      {
        var _ := AddAt(counter, elements[i]);
        counter := counter + 1;
        assert elements[..i + 1] == elements[..i] + [elements[i]];
      }
      assert elements[..|elements|] == elements;
      return Pass;
    }

    /** `remove(index)`: the element at a valid position is unlinked and
        answered; the first and the last go through `poll` and `pollLast`,
        which the list reaches here only with two or more elements. */
    method Remove(index: int) returns (r: Result<T>)
      requires Valid()
      modifies Repr
      ensures Valid() && Repr == old(Repr)
      ensures 0 <= index < |old(Contents)| ==>
                r == Ok(old(Contents)[index]) &&
                Contents == old(Contents)[..index] + old(Contents)[index + 1..] &&
                Nodes == old(Nodes)[..index] + old(Nodes)[index + 1..]
      ensures !(0 <= index < |old(Contents)|) ==>
                r == Err(IndexOutOfBounds) && Contents == old(Contents) && Nodes == old(Nodes)
    {
      var c := CheckIndex(index);
      if c.Fail? {
        return Err(c.error);
      }
      if index == 0 {
        var p := Poll();
        return Ok(p.value);
      } else if index + 1 == size {
        var p := PollLastCorrected();
        assert old(Contents)[index + 1..] == [] && old(Nodes)[index + 1..] == [];
        return Ok(p.value);
      }
      var g := GetNode(index);
      assert LinkedAt(Nodes, Contents, index);
      Unlink(index, g.value);
      return Ok(g.value.data);
    }

    /** The middle case of `remove(index)`: the neighbours of the cell at
        `index` are linked to each other. */
    method Unlink(index: int, oldNode: Node<T>)
      requires Valid() && 0 < index < |Nodes| - 1 && oldNode == Nodes[index]
      modifies Repr
      ensures Valid() && Repr == old(Repr) && oldNode.data == old(oldNode.data)
      ensures Contents == old(Contents)[..index] + old(Contents)[index + 1..]
      ensures Nodes == old(Nodes)[..index] + old(Nodes)[index + 1..]
    {
      ghost var ns0, cs0 := Nodes, Contents;
      assert LinkedAt(ns0, cs0, index);
      Bypass(ns0, cs0, index, oldNode.prevNode, oldNode.nextNode);
      size := size - 1;
      ghost var ns, cs := ns0[..index] + ns0[index + 1..], cs0[..index] + cs0[index + 1..];
      DistinctRemove(ns0, index);
      Contents, Nodes := cs, ns;
    }

    /** `removeObj(elem)`: removes the first occurrence, if any, and
        answers whether there was one. */
    method RemoveObj(elem: T) returns (b: bool)
      requires Valid()
      modifies Repr
      ensures Valid() && Repr == old(Repr)
      ensures b <==> elem in old(Contents)
      ensures Contents == RemoveFirst(old(Contents), elem)
      ensures b ==> Nodes == old(Nodes)[..FirstIndex(old(Contents), elem)] +
                             old(Nodes)[FirstIndex(old(Contents), elem) + 1..]
    {
      var index := IndexOf(elem);
      if index != -1 {
        ghost var cs0, ns0 := Contents, Nodes;
        var _ := Remove(index);
        assert Contents == cs0[..index] + cs0[index + 1..] == RemoveFirst(cs0, elem);
        assert Nodes == ns0[..index] + ns0[index + 1..];
      }
      return index != -1;
    }

    /** `removeAll(elements)`: `removeObj` for each of them in turn. */
    method RemoveAll(elements: seq<T>)
      requires Valid()
      modifies Repr
      ensures Valid() && Repr == old(Repr)
      ensures Contents == RemoveEach(old(Contents), elements)
    {
      for i := 0 to |elements|
        invariant Valid() && Repr == old(Repr)
        invariant Contents == RemoveEach(old(Contents), elements[..i])
      {
        var _ := RemoveObj(elements[i]);
        assert elements[..i + 1][..i] == elements[..i];
      }
      assert elements[..|elements|] == elements;
    }

    /** `retainAll(elements)`: walks the list with its iterator and removes,
        with `removeObj`, each element that does not occur in `elements`.
        The first occurrence `removeObj` finds is always the cell the walk
        stands on, since every earlier equal element went before it. */
    method RetainAll(elements: seq<T>)
      requires Valid()
      modifies Repr
      ensures Valid() && Repr == old(Repr)
      ensures Contents == Retained(old(Contents), elements)
    {
      ghost var ns0, cs0 := Nodes, Contents;
      ghost var kept: seq<Node<T>>, done: seq<T> := [], [];
      ghost var i := 0;
      var nextNode := firstNode;
      assert cs0[..0] == [] && cs0[0..] == cs0 && ns0[0..] == ns0;
      while nextNode != null
        invariant Valid() && Repr == old(Repr)
        invariant 0 <= i <= |ns0| == |cs0|
        invariant done == Retained(cs0[..i], elements) && |kept| == |done|
        invariant Contents == done + cs0[i..] && Nodes == kept + ns0[i..]
        invariant nextNode == if i < |ns0| then ns0[i] else null
        decreases |ns0| - i
      {
        nextNode, kept, done := RetainNext(ns0, cs0, i, kept, done, nextNode, elements);
        i := i + 1;
      }
      assert i == |cs0| && cs0[..i] == cs0 && cs0[i..] == [] && ns0[i..] == [];
    }

    /** One turn of the walk of `retainAll`, standing on the cell at
        position `i` of the original chain `ns0`: the iterator moves on to
        the next cell, and the cell is kept or removed. `kept` and `done`
        are the cells and the values that stayed so far. */
    method RetainNext(ghost ns0: seq<Node<T>>, ghost cs0: seq<T>, ghost i: int,
                      ghost kept: seq<Node<T>>, ghost done: seq<T>, returnNode: Node<T>, elements: seq<T>)
      returns (nextNode: Node?<T>, ghost kept': seq<Node<T>>, ghost done': seq<T>)
      requires Valid() && 0 <= i < |ns0| == |cs0| && returnNode == ns0[i]
      requires done == Retained(cs0[..i], elements) && |kept| == |done|
      requires Contents == done + cs0[i..] && Nodes == kept + ns0[i..]
      modifies Repr
      ensures Valid() && Repr == old(Repr)
      ensures done' == Retained(cs0[..i + 1], elements) && |kept'| == |done'|
      ensures Contents == done' + cs0[i + 1..] && Nodes == kept' + ns0[i + 1..]
      ensures nextNode == if i + 1 < |ns0| then ns0[i + 1] else null
    {
      SplitAt(kept, ns0, i);
      SplitAt(done, cs0, i);
      RetainStep(cs0, i, elements);
      assert LinkedAt(Nodes, Contents, |kept|);
      nextNode := returnNode.nextNode;
      var elem := returnNode.data;
      var keep := RetainCell(done, cs0[i + 1..], kept, returnNode, ns0[i + 1..], elem, elements);
      kept', done' := if keep then kept + [returnNode] else kept, if keep then done + [elem] else done;
    }

    /** The body of the walk of `retainAll` for the cell `cell`, which
        holds `elem` and stands after the cells `nb`: the cell stays when
        `elem` occurs in `elements`, and otherwise `removeObj` removes it,
        since it holds the first occurrence of `elem`. */
    method RetainCell(ghost before: seq<T>, ghost after: seq<T>, ghost nb: seq<Node<T>>, ghost cell: Node<T>,
                      ghost na: seq<Node<T>>, elem: T, elements: seq<T>) returns (keep: bool)
      requires Valid() && Contents == before + [elem] + after && Nodes == nb + [cell] + na && |nb| == |before|
      requires elem in elements || elem !in before
      modifies Repr
      ensures Valid() && Repr == old(Repr)
      ensures keep <==> elem in elements
      ensures Contents == (if keep then before + [elem] else before) + after
      ensures Nodes == (if keep then nb + [cell] else nb) + na
    {
      keep := Occurs(elements, elem);
      if !keep {
        FirstIndexAfter(before, elem, after);
        CutMiddle(before, elem, after);
        CutMiddle(nb, cell, na);
        var _ := RemoveObj(elem);
      }
    }

    /** The `contains` lambda of `retainAll`: a linear scan of `elements`. */
    static method Occurs(elements: seq<T>, elem: T) returns (b: bool)
      ensures b <==> elem in elements
    {
      for i := 0 to |elements|
        invariant elem !in elements[..i]
      {
        if elements[i] == elem {
          return true;
        }
        assert elements[..i + 1] == elements[..i] + [elements[i]];
      }
      assert elements[..|elements|] == elements;
      return false;
    }

    /** `size()`. */
    method Size() returns (n: int)
      requires Valid()
      ensures n == |Contents|
    {
      n := size;
    }

    /** What the iterator yields, from `firstNode` along the forward links. */
    method Elements() returns (xs: seq<T>)
      requires Valid()
      ensures xs == Contents
    {
      xs := [];
      var cursor := firstNode;
      ghost var i := 0;
      while cursor != null
        invariant Valid()
        invariant 0 <= i <= |Nodes| && xs == Contents[..i]
        invariant cursor == (if i < |Nodes| then Nodes[i] else null)
        decreases |Nodes| - i
      {
        assert LinkedAt(Nodes, Contents, i);
        xs := xs + [cursor.data];
        cursor := cursor.nextNode;
        i := i + 1;
      }
      assert Contents[..i] == Contents;
    }

    /** `checkIndex(index)`: passes only for a position of an element. */
    method CheckIndex(index: int) returns (o: Outcome)
      requires Valid()
      ensures o == Pass <==> 0 <= index < |Contents|
      ensures o.Fail? ==> o.error == IndexOutOfBounds
    {
      if index < 0 || index >= size {
        return Fail(IndexOutOfBounds);
      }
      return Pass;
    }

    /** `getNode(index)`: the cell at that position, reached by walking
        forward from `firstNode`. */
    method GetNode(index: int) returns (r: Result<Node<T>>)
      requires Valid()
      ensures 0 <= index < |Contents| ==> r == Ok(Nodes[index])
      ensures !(0 <= index < |Contents|) ==> r == Err(IndexOutOfBounds)
    {
      var o := CheckIndex(index);
      if o.Fail? {
        return Err(o.error);
      }
      var currentNode := firstNode;
      for i := 0 to index
        invariant currentNode == Nodes[i]
      {
        assert LinkedAt(Nodes, Contents, i);
        currentNode := currentNode.nextNode;
      }
      return Ok(currentNode);
    }

    /** `get(index)`. */
    method Get(index: int) returns (r: Result<T>)
      requires Valid()
      ensures 0 <= index < |Contents| ==> r == Ok(Contents[index])
      ensures !(0 <= index < |Contents|) ==> r == Err(IndexOutOfBounds)
    {
      var n := GetNode(index);
      if n.Err? {
        return Err(n.error);
      }
      assert LinkedAt(Nodes, Contents, index);
      return Ok(n.value.data);
    }

    /** `peek()`: the first element, or null on an empty list. */
    method Peek() returns (r: Option<T>)
      requires Valid()
      ensures Contents == [] ==> r == None
      ensures Contents != [] ==> r == Some(Contents[0])
    {
      if size > 0 {
        var g := Get(0);
        return Some(g.value);
      }
      return None;
    }

    /** `peekLast()`: the last element, or null on an empty list. */
    method PeekLast() returns (r: Option<T>)
      requires Valid()
      ensures Contents == [] ==> r == None
      ensures Contents != [] ==> r == Some(Contents[|Contents| - 1])
    {
      if size > 0 {
        var g := Get(size - 1);
        return Some(g.value);
      }
      return None;
    }

    /** `indexOf(elem)`: the position of the first element equal to `elem`,
        or -1. */
    method IndexOf(elem: T) returns (k: int)
      requires Valid()
      ensures k == FirstIndex(Contents, elem)
    {
      var cursor := firstNode;
      var i := 0;
      while cursor != null
        invariant Valid()
        invariant 0 <= i <= |Nodes| && elem !in Contents[..i]
        invariant cursor == (if i < |Nodes| then Nodes[i] else null)
        decreases |Nodes| - i
      {
        assert LinkedAt(Nodes, Contents, i);
        if cursor.data == elem {
          return i;
        }
        assert Contents[..i + 1] == Contents[..i] + [Contents[i]];
        cursor := cursor.nextNode;
        i := i + 1;
      }
      assert Contents[..i] == Contents;
      return -1;
    }

    /** `contains(elem)`. */
    method Contains(elem: T) returns (b: bool)
      requires Valid()
      ensures b <==> elem in Contents
    {
      var k := IndexOf(elem);
      b := k != -1;
    }

    /** `containsAll(elems)`: every given element is in the list. */
    method ContainsAll(elems: seq<T>) returns (b: bool)
      requires Valid()
      ensures b <==> forall e | e in elems :: e in Contents
    {
      for i := 0 to |elems|
        invariant forall j | 0 <= j < i :: elems[j] in Contents
      {
        var c := Contains(elems[i]);
        if !c {
          return false;
        }
      }
      return true;
    }
  }

  /** `addFirst` on a new, empty list throws instead of adding. */
  method AddFirstOnEmpty() returns (o: Outcome)
    ensures o == Fail(NullPointer)
  {
    var list := new MyLinkedList<int>();
    o := list.AddFirst(1);
  }

  /** `pollLast` on a list holding one element throws instead of answering
      it, and the list is left without a last cell. */
  method PollLastOnSingleton() returns (r: Result<Option<int>>, size: int)
    ensures r == Err(NullPointer) && size == 1
  {
    var list := new MyLinkedList<int>();
    list.Add(1);
    r := list.PollLast();
    size := list.size;
  }

  /** The corrected `pollLast` on the same list answers the element and
      leaves the list empty. */
  method PollLastCorrectedOnSingleton() returns (r: Option<int>, size: int)
    ensures r == Some(1) && size == 0
  {
    var list := new MyLinkedList<int>();
    list.Add(1);
    r := list.PollLastCorrected();
    size := list.Size();
  }

  /** The corrected `addFirst` on a new, empty list adds the element. */
  method AddFirstCorrectedOnEmpty() returns (xs: seq<int>)
    ensures xs == [1]
  {
    var list := new MyLinkedList<int>();
    list.AddFirstCorrected(1);
    xs := list.Elements();
  }
}
