/** com.solovev.util.TreeNodeCreator: building a tree from a line of words
    ("local root, then the names to hang below it") and the stop rule of the
    line-by-line variant. */
module TreeBuilder {
  import opened Wrappers
  import opened TreeModel
  import opened TreeNodes
  import opened Tokenizer

  // ---------------------------------------------------------------------
  // How the heap may change while one line is applied
  // ---------------------------------------------------------------------

  /** `h'` is `h` with only the children list of `loc` changed and some
      fresh, unattached nodes added. */
  ghost predicate Grown(h: Heap, h': Heap, loc: NodeId) {
    && loc in h
    && h.Keys <= h'.Keys
    && (forall id | id in h && id != loc :: h'[id] == h[id])
    && h'[loc].name == h[loc].name
    && h'[loc].parent == h[loc].parent
    && (forall id | id in h' && id !in h :: h'[id].parent == None && h'[id].children == [])
  }

  lemma GrownRefl(h: Heap, loc: NodeId)
    requires loc in h
    ensures Grown(h, h, loc)
  {
  }

  /** Allocating a fresh node with no parent and no children grows a heap. */
  lemma GrownByAllocation(h: Heap, id: NodeId, node: TreeNode, loc: NodeId)
    requires loc in h && id !in h && node.parent == None && node.children == []
    ensures Grown(h, h[id := node], loc)
  {
  }

  /** Appending a child to `loc` grows a heap. */
  lemma GrownByAppend(h: Heap, loc: NodeId, child: Ref)
    requires loc in h
    ensures Grown(h, h[loc := h[loc].(children := h[loc].children + [child])], loc)
  {
  }

  lemma GrownTrans(h: Heap, h': Heap, h'': Heap, loc: NodeId)
    requires Grown(h, h', loc) && Grown(h', h'', loc)
    ensures Grown(h, h'', loc)
  {
  }

  /** The node a search answers was never marked as examined, and bears the name. */
  lemma {:induction false} SearchAnswerUnchecked(h: Heap, queue: seq<NodeId>, checked: set<NodeId>, key: Option<string>)
    requires Closed(h) && IdsIn(h, queue) && checked <= h.Keys
    ensures var r := SearchQueue(h, queue, checked, key);
            r.Ok? && r.value.Some? ==> r.value.value !in checked
    decreases |h.Keys - checked|, |queue|
  {
    if queue != [] {
      var n := queue[0];
      if n in checked {
        SearchAnswerUnchecked(h, queue[1..], checked, key);
      } else if h[n].name != key && None !in h[n].children {
        SmallerWithout(h.Keys, checked, n);
        UnwrapIn(h, h[n].children);
        SearchAnswerUnchecked(h, queue[1..] + Unwrap(h[n].children), checked + {n}, key);
      }
    }
  }

  lemma {:induction false} SearchQueueStable(h: Heap, h': Heap, loc: NodeId, queue: seq<NodeId>, checked: set<NodeId>, key: Option<string>)
    requires Closed(h) && Closed(h') && Grown(h, h', loc)
    requires IdsIn(h, queue) && checked <= h.Keys
    requires SearchQueue(h, queue, checked, key) == Ok(Some(loc))
    ensures IdsIn(h', queue) && SearchQueue(h', queue, checked, key) == Ok(Some(loc))
    decreases |h.Keys - checked|, |queue|, 1
  {
    var n := queue[0];
    if n in checked {
      SearchQueueStable(h, h', loc, queue[1..], checked, key);
    } else if h[n].name != key {
      SearchQueueStableExpand(h, h', loc, queue, checked, key);
    }
  }

  /** The case of SearchQueueStable where the head of the queue is new and
      does not bear the name: the search goes on over its children. */
  lemma {:induction false} SearchQueueStableExpand(h: Heap, h': Heap, loc: NodeId, queue: seq<NodeId>, checked: set<NodeId>, key: Option<string>)
    requires Closed(h) && Closed(h') && Grown(h, h', loc)
    requires IdsIn(h, queue) && checked <= h.Keys
    requires SearchQueue(h, queue, checked, key) == Ok(Some(loc))
    requires queue != [] && queue[0] !in checked && h[queue[0]].name != key
    ensures IdsIn(h', queue) && SearchQueue(h', queue, checked, key) == Ok(Some(loc))
    decreases |h.Keys - checked|, |queue|, 0
  {
    var n := queue[0];
    SmallerWithout(h.Keys, checked, n);
    UnwrapIn(h, h[n].children);
    var rest := queue[1..] + Unwrap(h[n].children);
    SearchAnswerUnchecked(h, rest, checked + {n}, key);
    assert n != loc;
    SearchQueueStable(h, h', loc, rest, checked + {n}, key);
  }


  /** Growing the children of the node a search found, and adding fresh
      unattached nodes, does not change what that search finds: the nodes
      examined before it are untouched. */
  lemma SearchStable(h: Heap, h': Heap, loc: NodeId, root: NodeId, key: Option<string>)
    requires Closed(h) && Closed(h') && Grown(h, h', loc) && root in h
    requires WideSearchOf(h, root, key) == Ok(Some(loc))
    ensures WideSearchOf(h', root, key) == Ok(Some(loc))
  {
    if h[root].name != key {
      UnwrapIn(h, h[root].children);
      SearchAnswerUnchecked(h, Unwrap(h[root].children), {root}, key);
      SearchQueueStable(h, h', loc, Unwrap(h[root].children), {root}, key);
    }
  }

  // ---------------------------------------------------------------------
  // searchOrCreate (TreeNodeCreator.java:69-73)
  // ---------------------------------------------------------------------

  /** `searchOrCreate(name, tree)`: the node `tree.wideSearch(name)` finds, or
      else a new node with that name; a null tree is not searched. */
  method SearchOrCreate(f: Forest, name: Option<string>, tree: Ref) returns (r: Result<NodeId>)
    requires f.Valid() && RefIn(f.nodes, tree)
    modifies f
    ensures f.Valid()
    ensures tree != None ==>
              var s := WideSearchOf(old(f.nodes), tree.value, name);
              && (s.Ok? && s.value.Some? ==> r == Ok(s.value.value) && f.nodes == old(f.nodes))
              && (s.Err? ==> r == Err(s.error) && f.nodes == old(f.nodes))
    ensures tree == None || WideSearchOf(old(f.nodes), tree.value, name) == Ok(None) ==>
              && (name == None ==> r == Err(NullPointer) && f.nodes == old(f.nodes))
              && (name != None ==>
                    r.Ok? && r.value !in old(f.nodes) && f.nodes == old(f.nodes)[r.value := TreeNode(name, None, [])])
    ensures r.Err? ==> r.error == NullPointer && f.nodes == old(f.nodes)
    ensures r.Ok? ==> r.value in f.nodes && f.nodes[r.value].name == name
  {
    if tree != None {
      var found := f.WideSearch(tree.value, name);
      WideSearchCorrect(f.nodes, tree.value, name);
      if found.Err? {
        return Err(found.error);
      }
      if found.value.Some? {
        return Ok(found.value.value);
      }
    }
    r := f.NewNode(name);
  }

  // ---------------------------------------------------------------------
  // buildTree(String, String, TreeNode) (TreeNodeCreator.java:45-60)
  // ---------------------------------------------------------------------

  /** The heap once `searchOrCreate(word, root)` has answered `c`: the same
      heap when `c` already exists, and otherwise the heap with `c` a new
      node named `word`. */
  ghost function Resolved(h: Heap, c: NodeId, word: string): (h': Heap)
    requires Closed(h)
    ensures Closed(h') && h.Keys <= h'.Keys && c in h'
  {
    if c in h then h
    else
      ClosedAfterAllocation(h, c, TreeNode(Some(word), None, []));
      h[c := TreeNode(Some(word), None, [])]
  }

  /** `h` with `Some(c)` added at the end of the children of `loc`. */
  ghost function Appended(h: Heap, loc: NodeId, c: NodeId): Heap
    requires loc in h
  {
    h[loc := h[loc].(children := h[loc].children + [Some(c)])]
  }

  /** `searchOrCreate(word, root)` may answer `c` in `h`: the node the
      search finds, or a node that does not exist yet when it finds none. */
  ghost predicate Resolves(h: Heap, root: NodeId, word: string, c: NodeId)
    requires Closed(h) && root in h
  {
    var s := WideSearchOf(h, root, Some(word));
    s.Ok? && (s.value.Some? ==> c == s.value.value) && (s.value.None? ==> c !in h)
  }

  /** One call `loc.appendChild(searchOrCreate(word, root))` that returns:
      `word` resolves to `c`, `appendChild` answers `b` on the heap after
      the resolution, and `c` is appended exactly when `b`. */
  ghost predicate Step(h: Heap, h': Heap, loc: NodeId, root: NodeId, word: string, c: NodeId, b: bool) {
    && Closed(h) && root in h && loc in h
    && Resolves(h, root, word, c)
    && var h1 := Resolved(h, c, word);
       && AppendVerdict(h1, loc, Some(c)) == Ok(b)
       && h' == if b then Appended(h1, loc, c) else h1
  }

  /** The same call throwing `e` in `appendChild` after `word` resolved to `c`. */
  ghost predicate FailsAt(h: Heap, h': Heap, loc: NodeId, root: NodeId, word: string, e: Exception, c: NodeId) {
    && Closed(h) && root in h && loc in h
    && Resolves(h, root, word, c)
    && AppendVerdict(Resolved(h, c, word), loc, Some(c)) == Err(e)
    && h' == Resolved(h, c, word)
  }

  /** The same call throwing `e`: the search throws before anything
      changes, or `appendChild` throws after the resolution. */
  ghost predicate Fails(h: Heap, h': Heap, loc: NodeId, root: NodeId, word: string, e: Exception) {
    && Closed(h) && root in h && loc in h
    && var s := WideSearchOf(h, root, Some(word));
       || (s.Err? && e == s.error && h' == h)
       || (s.Ok? && exists c :: FailsAt(h, h', loc, root, word, e, c))
  }

  /** The children an application of one line appends, in order: the resolved
      nodes that `appendChild` accepted. */
  function Picked(resolved: seq<NodeId>, accepted: seq<bool>): seq<Ref>
    requires |resolved| == |accepted|
  {
    if resolved == [] then []
    else (if accepted[0] then [Some(resolved[0])] else []) + Picked(resolved[1..], accepted[1..])
  }

  lemma {:induction false} PickedSnoc(resolved: seq<NodeId>, accepted: seq<bool>, n: NodeId, b: bool)
    requires |resolved| == |accepted|
    ensures Picked(resolved + [n], accepted + [b]) == Picked(resolved, accepted) + (if b then [Some(n)] else [])
    decreases |resolved|
  {
    var last: seq<Ref> := if b then [Some(n)] else [];
    if resolved == [] {
      assert resolved + [n] == [n] && accepted + [b] == [b];
    } else {
      var head: seq<Ref> := if accepted[0] then [Some(resolved[0])] else [];
      assert (resolved + [n])[1..] == resolved[1..] + [n];
      assert (accepted + [b])[1..] == accepted[1..] + [b];
      PickedSnoc(resolved[1..], accepted[1..], n, b);
      calc {
        Picked(resolved + [n], accepted + [b]);
        head + Picked(resolved[1..] + [n], accepted[1..] + [b]);
        head + (Picked(resolved[1..], accepted[1..]) + last);
        (head + Picked(resolved[1..], accepted[1..])) + last;
      }
    }
  }

  /** What applying the words `rest` to the local root `loc`, whose own name
      is `first`, leaves behind: only `loc`'s children changed, by the
      accepted nodes in word order; the j-th resolved node bears the j-th
      word; a word equal to `first` resolves to `loc` itself and is refused;
      and no accepted node is `loc` or its parent. */
  ghost predicate Applied(h: Heap, h': Heap, loc: NodeId, first: string, rest: seq<string>,
                          resolved: seq<NodeId>, accepted: seq<bool>)
  {
    && Grown(h, h', loc)
    && |resolved| == |accepted| == |rest|
    && h'[loc].children == h[loc].children + Picked(resolved, accepted)
    && (forall j | 0 <= j < |rest| :: resolved[j] in h' && h'[resolved[j]].name == Some(rest[j]))
    && (forall j | 0 <= j < |rest| :: rest[j] == first ==> resolved[j] == loc && !accepted[j])
    && (forall j | 0 <= j < |rest| :: accepted[j] ==> resolved[j] != loc && Some(resolved[j]) != h[loc].parent)
  }

  lemma AppliedStep(h0: Heap, h1: Heap, h2: Heap, loc: NodeId, first: string, rest: seq<string>,
                    resolved: seq<NodeId>, accepted: seq<bool>, word: string, c: NodeId, b: bool)
    requires Applied(h0, h1, loc, first, rest, resolved, accepted)
    requires Grown(h1, h2, loc)
    requires c in h2 && h2[c].name == Some(word)
    requires word == first ==> c == loc && !b
    requires b ==> c != loc && Some(c) != h1[loc].parent
    requires h2[loc].children == h1[loc].children + (if b then [Some(c)] else [])
    ensures Applied(h0, h2, loc, first, rest + [word], resolved + [c], accepted + [b])
  {
    GrownTrans(h0, h1, h2, loc);
    PickedSnoc(resolved, accepted, c, b);
    var rest', resolved' := rest + [word], resolved + [c];
    forall j | 0 <= j < |rest'| ensures resolved'[j] in h2 && h2[resolved'[j]].name == Some(rest'[j]) {
      if j < |rest| {
        assert resolved'[j] == resolved[j] && rest'[j] == rest[j];
        assert resolved[j] in h1 && h1[resolved[j]].name == Some(rest[j]);
      }
    }
  }

  /** The heaps `hs` lead from `h` to `h'`, word `j` of `rest` taking
      `hs[j]` to `hs[j + 1]` by one Step that resolves it to `resolved[j]`
      with the verdict `accepted[j]`. */
  ghost predicate Steps(h: Heap, h': Heap, loc: NodeId, root: NodeId, rest: seq<string>,
                        resolved: seq<NodeId>, accepted: seq<bool>, hs: seq<Heap>)
  {
    && |resolved| == |accepted| == |rest| && |hs| == |rest| + 1 && hs[0] == h && hs[|rest|] == h'
    && forall j | 0 <= j < |rest| :: Step(hs[j], hs[j + 1], loc, root, rest[j], resolved[j], accepted[j])
  }

  lemma StepsSnoc(h: Heap, h1: Heap, h2: Heap, loc: NodeId, root: NodeId, rest: seq<string>,
                  resolved: seq<NodeId>, accepted: seq<bool>, hs: seq<Heap>, word: string, c: NodeId, b: bool)
    requires Steps(h, h1, loc, root, rest, resolved, accepted, hs)
    requires Step(h1, h2, loc, root, word, c, b)
    ensures Steps(h, h2, loc, root, rest + [word], resolved + [c], accepted + [b], hs + [h2])
  {
    var rest', resolved', accepted', hs' := rest + [word], resolved + [c], accepted + [b], hs + [h2];
    forall j | 0 <= j < |rest'| ensures Step(hs'[j], hs'[j + 1], loc, root, rest'[j], resolved'[j], accepted'[j]) {
      if j < |rest| {
        assert hs'[j] == hs[j] && hs'[j + 1] == hs[j + 1];
        assert rest'[j] == rest[j] && resolved'[j] == resolved[j] && accepted'[j] == accepted[j];
      }
    }
  }

  lemma TakeSnoc<T>(s: seq<T>, i: int)
    requires 0 <= i < |s|
    ensures s[..i + 1] == s[..i] + [s[i]]
  {
  }

  /** One step of the `forEach` of buildTree: `word` resolved with
      `searchOrCreate` against the main root and passed to the local root's
      `appendChild`; the answer is the resolved node and whether it was
      appended. */
  method ApplyWord(f: Forest, loc: NodeId, root: NodeId, first: string, word: string) returns (r: Result<(NodeId, bool)>)
    requires f.Valid() && root in f.nodes
    requires WideSearchOf(f.nodes, root, Some(first)) == Ok(Some(loc))
    modifies f
    ensures f.Valid()
    ensures r.Ok? ==> Step(old(f.nodes), f.nodes, loc, root, word, r.value.0, r.value.1)
    ensures r.Err? ==> Fails(old(f.nodes), f.nodes, loc, root, word, r.error)
    ensures r.Err? ==> r.error == NullPointer || r.error == StackOverflow
    ensures r.Ok? ==>
              var (c, b) := r.value;
              && Grown(old(f.nodes), f.nodes, loc)
              && c in f.nodes && f.nodes[c].name == Some(word)
              && (word == first ==> c == loc && !b)
              && (b ==> c != loc && Some(c) != old(f.nodes)[loc].parent)
              && f.nodes[loc].children == old(f.nodes)[loc].children + (if b then [Some(c)] else [])
  {
    WideSearchCorrect(f.nodes, root, Some(first));
    ghost var h1 := f.nodes;
    var child := SearchOrCreate(f, Some(word), Some(root));
    if child.Err? {
      return Err(child.error);
    }
    var c := child.value;
    ghost var h2 := f.nodes;
    assert h2 == Resolved(h1, c, word);
    assert Resolves(h1, root, word, c);
    if c in h1 {
      GrownRefl(h1, loc);
    } else {
      GrownByAllocation(h1, c, TreeNode(Some(word), None, []), loc);
    }
    var added := f.AppendChild(loc, Some(c));
    if added.Err? {
      assert FailsAt(h1, f.nodes, loc, root, word, added.error, c);
      return Err(added.error);
    }
    if added == Ok(true) {
      GrownByAppend(h2, loc, Some(c));
    } else {
      GrownRefl(h2, loc);
    }
    GrownTrans(h1, h2, f.nodes, loc);
    r := Ok((c, added.value));
  }

  /** The `forEach` of buildTree: each word, in order, applied to the local
      root; an exception ends the loop and escapes. */
  method AppendWords(f: Forest, loc: NodeId, root: NodeId, first: string, rest: seq<string>)
    returns (r: Result<NodeId>, ghost resolved: seq<NodeId>, ghost accepted: seq<bool>, ghost hs: seq<Heap>)
    requires f.Valid() && root in f.nodes
    requires WideSearchOf(f.nodes, root, Some(first)) == Ok(Some(loc))
    modifies f
    ensures f.Valid()
    ensures r.Ok? ==>
              && r.value == loc
              && Applied(old(f.nodes), f.nodes, loc, first, rest, resolved, accepted)
              && Steps(old(f.nodes), f.nodes, loc, root, rest, resolved, accepted, hs)
    ensures r.Err? ==>
              && |resolved| < |rest| && |hs| == |resolved| + 1
              && Applied(old(f.nodes), hs[|resolved|], loc, first, rest[..|resolved|], resolved, accepted)
              && Steps(old(f.nodes), hs[|resolved|], loc, root, rest[..|resolved|], resolved, accepted, hs)
              && Fails(hs[|resolved|], f.nodes, loc, root, rest[|resolved|], r.error)
    ensures r.Err? ==> r.error == NullPointer || r.error == StackOverflow
    ensures rest == [] ==> r == Ok(loc) && f.nodes == old(f.nodes)
  {
    ghost var h0 := f.nodes;
    resolved, accepted, hs := [], [], [h0];
    GrownRefl(h0, loc);
    var i := 0;
    while i < |rest|
      invariant 0 <= i <= |rest|
      invariant f.Valid() && root in f.nodes
      invariant Applied(h0, f.nodes, loc, first, rest[..i], resolved, accepted)
      invariant Steps(h0, f.nodes, loc, root, rest[..i], resolved, accepted, hs)
      invariant i == 0 ==> f.nodes == h0
    {
      ghost var h1 := f.nodes;
      TakeSnoc(rest, i);
      SearchStable(h0, h1, loc, root, Some(first));
      var step := ApplyWord(f, loc, root, first, rest[i]);
      if step.Err? {
        return Err(step.error), resolved, accepted, hs;
      }
      var (c, b) := step.value;
      AppliedStep(h0, h1, f.nodes, loc, first, rest[..i], resolved, accepted, rest[i], c, b);
      StepsSnoc(h0, h1, f.nodes, loc, root, rest[..i], resolved, accepted, hs, rest[i], c, b);
      resolved, accepted, hs := resolved + [c], accepted + [b], hs + [f.nodes];
      i := i + 1;
    }
    assert rest[..i] == rest;
    return Ok(loc), resolved, accepted, hs;
  }

  /** `buildTree(input, delimiter, mainRoot)`. A null line gives a fresh
      unnamed node and a line without words a fresh node named ""; otherwise
      the first word is searched for below `mainRoot` (not found:
      NoSuchElementException, before anything changes) and the further words
      are applied to the node found. */
  method BuildTree(f: Forest, input: Option<string>, delimiter: string, mainRoot: Ref)
    returns (r: Result<NodeId>, ghost resolved: seq<NodeId>, ghost accepted: seq<bool>, ghost hs: seq<Heap>)
    requires f.Valid() && |delimiter| > 0 && RefIn(f.nodes, mainRoot)
    modifies f
    ensures f.Valid()
    ensures input == None ==>
              r.Ok? && r.value !in old(f.nodes) && f.nodes == old(f.nodes)[r.value := TreeNode(None, None, [])]
    ensures input != None && Tokens(input.value, delimiter) == [] ==>
              r.Ok? && r.value !in old(f.nodes) && f.nodes == old(f.nodes)[r.value := TreeNode(Some(""), None, [])]
    ensures input != None && Tokens(input.value, delimiter) != [] ==>
              var tokens := Tokens(input.value, delimiter);
              && (mainRoot == None ==> r == Err(NullPointer) && f.nodes == old(f.nodes))
              && (mainRoot != None ==>
                    var s := WideSearchOf(old(f.nodes), mainRoot.value, Some(tokens[0]));
                    && (s == Ok(None) ==> r == Err(NoSuchElement) && f.nodes == old(f.nodes))
                    && (s.Err? ==> r == Err(s.error) && f.nodes == old(f.nodes))
                    && (s.Ok? && s.value.Some? ==>
                          && (r.Ok? ==>
                                && r.value == s.value.value
                                && Applied(old(f.nodes), f.nodes, r.value, tokens[0], tokens[1..], resolved, accepted)
                                && Steps(old(f.nodes), f.nodes, r.value, mainRoot.value, tokens[1..], resolved, accepted, hs))
                          && (r.Err? ==>
                                && |resolved| < |tokens| - 1 && |hs| == |resolved| + 1
                                && Applied(old(f.nodes), hs[|resolved|], s.value.value, tokens[0],
                                           tokens[1..][..|resolved|], resolved, accepted)
                                && Steps(old(f.nodes), hs[|resolved|], s.value.value, mainRoot.value,
                                         tokens[1..][..|resolved|], resolved, accepted, hs)
                                && Fails(hs[|resolved|], f.nodes, s.value.value, mainRoot.value, tokens[1 + |resolved|], r.error))
                          && (r.Err? ==> r.error == NullPointer || r.error == StackOverflow)
                          && (|tokens| == 1 ==> r == Ok(s.value.value) && f.nodes == old(f.nodes))))
  {
    resolved, accepted, hs := [], [], [];
    if input == None {
      var id := f.NewUnnamed();
      return Ok(id), resolved, accepted, hs;
    }
    var tokens := Tokens(input.value, delimiter);
    if tokens == [] {
      r := f.NewNode(Some(""));
      return;
    }
    if mainRoot == None {
      return Err(NullPointer), resolved, accepted, hs;
    }
    var found := f.WideSearch(mainRoot.value, Some(tokens[0]));
    if found.Err? {
      return Err(found.error), resolved, accepted, hs;
    }
    if found.value == None {
      return Err(NoSuchElement), resolved, accepted, hs;
    }
    r, resolved, accepted, hs := AppendWords(f, found.value.value, mainRoot.value, tokens[0], tokens[1..]);
  }

  // ---------------------------------------------------------------------
  // buildTree(Scanner, String) (TreeNodeCreator.java:21-32)
  // ---------------------------------------------------------------------

  /** Which of the lines are stop lines. */
  ghost function StopLines(lines: seq<string>, d: string): (flags: seq<bool>)
    requires |d| > 0
    ensures |flags| == |lines| && forall j | 0 <= j < |lines| :: flags[j] == IsTerminator(lines[j], d)
  {
    seq(|lines|, j requires 0 <= j < |lines| => IsTerminator(lines[j], d))
  }

  /** The position of the first set flag from `i` on, or `|flags|` when
      there is none. */
  function FirstTrue(flags: seq<bool>, i: nat): (k: nat)
    requires i <= |flags|
    ensures i <= k <= |flags|
    decreases |flags| - i
  {
    if i == |flags| then |flags|
    else if flags[i] then i
    else FirstTrue(flags, i + 1)
  }

  /** `FirstTrue` is the first set flag: none before it, and it is set when
      it is a position at all. */
  lemma {:induction false} FirstTrueIsFirst(flags: seq<bool>, i: nat)
    requires i <= |flags|
    ensures var k := FirstTrue(flags, i);
            && (forall j | i <= j < k :: !flags[j])
            && (k < |flags| ==> flags[k])
    decreases |flags| - i
  {
    if i < |flags| && !flags[i] {
      FirstTrueIsFirst(flags, i + 1);
    }
  }

  /** One step of FirstTrue. */
  lemma FirstTrueStep(flags: seq<bool>, i: nat)
    requires i < |flags|
    ensures FirstTrue(flags, i) == if flags[i] then i else FirstTrue(flags, i + 1)
  {
  }

  /** The line-by-line variant over the lines of its input: it reads lines up
      to and including the first stop line and answers null; when the lines
      run out first, reading the next line throws NoSuchElementException. */
  method BuildTreeFromLines(lines: seq<string>, delimiter: string) returns (consumed: nat, r: Result<Ref>)
    requires |delimiter| > 0
    ensures var k := FirstTrue(StopLines(lines, delimiter), 0);
            && (k < |lines| ==> r == Ok(None) && consumed == k + 1)
            && (k == |lines| ==> r == Err(NoSuchElement) && consumed == |lines|)
  {
    ghost var flags := StopLines(lines, delimiter);
    consumed := 0;
    var resume := true;
    while resume
      invariant consumed <= |lines|
      invariant resume ==> FirstTrue(flags, consumed) == FirstTrue(flags, 0)
      invariant !resume ==> consumed > 0 && FirstTrue(flags, 0) == consumed - 1
      decreases |lines| - consumed, resume
    {
      if consumed == |lines| {
        return consumed, Err(NoSuchElement);
      }
      var stop := IsTerminator(lines[consumed], delimiter);
      FirstTrueStep(flags, consumed);
      consumed := consumed + 1;
      if stop {
        resume := false;
      }
    }
    r := Ok(None);
  }

  /** What the line-by-line variant promises in terms of the lines: it stops
      exactly when some line is a stop line, after reading the first one and
      no line past it, and otherwise reads every line and throws. */
  lemma BuildTreeFromLinesStops(lines: seq<string>, d: string, consumed: nat, r: Result<Ref>)
    requires |d| > 0
    requires var k := FirstTrue(StopLines(lines, d), 0);
             && (k < |lines| ==> r == Ok(None) && consumed == k + 1)
             && (k == |lines| ==> r == Err(NoSuchElement) && consumed == |lines|)
    ensures consumed <= |lines|
    ensures forall j | 0 <= j < consumed - 1 :: !IsTerminator(lines[j], d)
    ensures r.Ok? <==> exists j | 0 <= j < |lines| :: IsTerminator(lines[j], d)
    ensures r.Ok? ==> r.value == None && consumed > 0 && IsTerminator(lines[consumed - 1], d)
    ensures r.Err? ==> r.error == NoSuchElement && consumed == |lines| &&
                       forall j | 0 <= j < |lines| :: !IsTerminator(lines[j], d)
  {
    FirstTrueIsFirst(StopLines(lines, d), 0);
  }
}
