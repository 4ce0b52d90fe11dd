# MyCollections in Dafny

A verified model of the core of the Practice_Project_MyCollections Java
repository. The core has two parts.

- **The named tree.** `TreeNode` is a node with a final name, a mutable
  parent and an ordered list of children. It has a guarded `appendChild`, a
  guarded `setParent`, a structural `equals` and a breadth-first
  `wideSearch`. `TreeNodeCreator` builds a tree from lines of words.
- **The doubly linked list.** `MyLinkedList` works over `Node` cells, with
  `firstNode`, `lastNode` and `size` fields.

## Layout

| file | module | what it holds |
|---|---|---|
| `wrappers.dfy` | `Wrappers` | `Option`, `Result`, `Outcome` and the Java exceptions the core can throw |
| `linked_node.dfy` | `LinkedNodes` | class `Node`: the list cell, with its getters and setters |
| `linked_list.dfy` | `LinkedList` | class `MyLinkedList` over real heap cells. It keeps ghost fields `Contents` (the elements in order), `Nodes` (the cells) and `Repr`. The file also has the functions on sequences that specify `removeObj`, `removeAll` and `retainAll`. |
| `tree_model.dfy` | `TreeModel` | every TreeNode object as a value in a heap (a map from object identities to field values); `equals` and `wideSearch` as functions of that heap; their properties |
| `tree_nodes.dfy` | `TreeNodes` | class `Forest`, which holds the heap of TreeNodes; the constructors, `setParent`, `appendChild` and the search loop as methods that update it |
| `tokenizer.dfy` | `Tokenizer` | `String.split` with a literal delimiter, the non-empty-token filter and the stop rule of the Scanner variant |
| `tree_builder.dfy` | `TreeBuilder` | `searchOrCreate`, both `buildTree` methods, and what building a line does to the heap |
| `tree_example.dfy` | `TreeExample` | the sample tree of the TreeNode tests, with its traversal and searches worked out |

### Representation choices

- **TreeNode references.** A reference is `Option<NodeId>`, where `None` is
  Java's null. A children list is a `seq<Ref>`. It can hold null:
  `appendChild(null)` on a node that has a parent passes every guard, so
  `ArrayList.add` stores the null.
- **The name** is `Option<string>`. `None` is the unnamed node that
  `buildTree` creates with `new TreeNode()`.
- **`equals` is modelled exactly, including when it never returns.** The
  recursion over parent and children can call itself on the same pair again
  while that pair is still being compared. It then recurses forever and ends
  in `StackOverflowError`. The model carries the set of pairs under
  comparison and answers the verdict `Diverges` on such a pair.
  `appendChild` and `setParent` turn that verdict into
  `Err(StackOverflow)`.
- **`wideSearch` is completed.** The private helper of `wideSearch` is
  unfinished (TreeNode.java:53-59). The model completes it as the doc
  comment states:
  - a breadth-first loop over a queue seeded with the root's children
  - a set of nodes already examined; a node already in it is skipped when it
    reaches the head of the queue
  - the first node bearing the name is the answer
  - queuing a null child throws `NullPointerException`, because
    `ArrayDeque` refuses null

  Names are compared as `Objects.equals` compares them, so a null key finds
  the unnamed node.
- **Only integers that cannot overflow.** The list's `size` is an unbounded
  `int`.
- **List elements** are values compared with Dafny equality, which stands
  for `equals`.

### Where the code differs from its own comments and tests

The code is followed in each case.

- **`setParent`.** Its doc comment (TreeNode.java:69-73) promises
  `IllegalArgumentException` also for a parent among the node's
  descendants. The code throws only for a parent that `equals` the node
  (lines 75-76). The branch meant for descendants is the empty
  `else if (false)` at lines 77-79.
- **`setParent` in the tests.** TreeNodeTest.java:16-31 treats `setParent`
  as a method answering a boolean, and expects it to list the node among
  the new parent's children. The code's `setParent` is `void` and sets
  only this node's `parent` field.
- **The two-argument constructor in the tests.** TreeNodeTest.java:48-53
  expects `new TreeNode("1A", firstNode)` to make "1A" a child of "1". The
  constructor (TreeNode.java:20-23) only calls `setParent`, which leaves
  the parent's children list empty.
- **`appendChild`.** Its doc comment (TreeNode.java:25-31) says that all
  children must be unique. The code (lines 32-36) checks only that the
  child is not the node's parent and not equal to the node, and then adds
  it. A duplicate is added again. The child's `parent` field is never set.
- **`removeAll`.** Its doc comment (MyLinkedList.java:134-138) promises to
  remove every element found in the argument. The code (line 141) removes
  one occurrence per argument element.

## Model

| member | source | states |
|---|---|---|
| LinkedNodes.Node.constructor | src/main/java/com/solovev/model/Node.java:13-17 | the new cell holds exactly the two links and the value it was given |
| LinkedNodes.Node.GetPrevNode | src/main/java/com/solovev/model/Node.java:18-20 | answers the current backward link and changes nothing |
| LinkedNodes.Node.SetPrevNode | src/main/java/com/solovev/model/Node.java:22-24 | the backward link becomes the argument; the frame lets no other field of any object change |
| LinkedNodes.Node.GetNextNode | src/main/java/com/solovev/model/Node.java:26-28 | answers the current forward link and changes nothing |
| LinkedNodes.Node.SetNextNode | src/main/java/com/solovev/model/Node.java:30-32 | the forward link becomes the argument and nothing else changes |
| LinkedNodes.Node.GetData | src/main/java/com/solovev/model/Node.java:34-36 | answers the current value and changes nothing |
| LinkedNodes.Node.SetData | src/main/java/com/solovev/model/Node.java:38-40 | the value becomes the argument and nothing else changes |
| LinkedNodes.Node.ToString | src/main/java/com/solovev/model/Node.java:62-69 | the text is the value's text alone, whatever the links are |
| LinkedList.FirstIndex | src/main/java/com/solovev/model/MyLinkedList.java:214-222 | -1 exactly when the element is absent; otherwise a position that holds it, with no earlier position holding it |
| LinkedList.RemoveFirstMultiset | src/main/java/com/solovev/model/MyLinkedList.java:127-133 | removing the first occurrence takes away exactly one copy of the element when there is one, and nothing else; the length drops by one exactly when the element was present |
| LinkedList.RemoveEachMultiset | src/main/java/com/solovev/model/MyLinkedList.java:140-142 | `removeAll` takes away exactly the multiset of the given elements: each element loses as many copies as it occurs in the argument, or all of them |
| LinkedList.RemoveEachKeepsSurplus | src/main/java/com/solovev/model/MyLinkedList.java:134-142 | unlike its doc comment, `removeAll` leaves an element that occurs more often in the list than in the argument |
| LinkedList.RemoveAllOfRepeated | src/main/java/com/solovev/model/MyLinkedList.java:134-142 | `removeAll([1])` on `[1, 1]` leaves `[1]` |
| LinkedList.RetainedMembers | src/main/java/com/solovev/model/MyLinkedList.java:254-269 | after `retainAll` an element is present exactly when it was in the list and occurs in the argument |
| LinkedList.RetainedCount | src/main/java/com/solovev/model/MyLinkedList.java:254-269 | a kept element keeps every one of its occurrences; any other element keeps none |
| LinkedList.RetainedAppend | src/main/java/com/solovev/model/MyLinkedList.java:254-269 | retaining splits over concatenation, so the kept elements stay in their original relative order |
| LinkedList.InsertLinked | src/main/java/com/solovev/model/MyLinkedList.java:44-47 | once the cells at `k - 1` and `k` point at a new cell that points back at them, the chain is the old chain with the new cell and its value at position `k` |
| LinkedList.UnlinkLinked | src/main/java/com/solovev/model/MyLinkedList.java:113-114 | once the neighbours of the cell at `k` point at each other, the chain is the old chain without position `k` |
| LinkedList.Append | src/main/java/com/solovev/model/MyLinkedList.java:23-24 | linking a new cell after the last cell of a valid chain gives the chain with that cell and its value at the end |
| LinkedList.Prepend | src/main/java/com/solovev/model/MyLinkedList.java:58-59 | pointing the first cell back at a new cell that links to it gives the chain with that cell and its value in front |
| LinkedList.Splice | src/main/java/com/solovev/model/MyLinkedList.java:44-47 | the two link updates of `add(index, elem)` turn a valid chain into the chain with the new cell at `index`, touching only the two links they name |
| LinkedList.Bypass | src/main/java/com/solovev/model/MyLinkedList.java:113-114 | the two link updates of `remove(index)` turn a valid chain into the chain without the cell at `index`, touching only the two links they name |
| LinkedList.MyLinkedList.constructor | src/main/java/com/solovev/model/MyLinkedList.java:9-11 | a new list is valid and empty |
| LinkedList.MyLinkedList.Add | src/main/java/com/solovev/model/MyLinkedList.java:18-28 | the element is appended at the end and earlier elements are unchanged; the cells are the old cells followed by one fresh cell, which `lastNode` now names; the list stays valid, so `size` grows by one |
| LinkedList.MyLinkedList.AddLast | src/main/java/com/solovev/model/MyLinkedList.java:69-71 | the same as `add(elem)`: the element and one fresh cell at the end |
| LinkedList.MyLinkedList.AddFirst | src/main/java/com/solovev/model/MyLinkedList.java:57-62 | as written: on an empty list the call throws `NullPointerException` and the contents are unchanged; otherwise the element is put in front |
| LinkedList.MyLinkedList.AddFirstCorrected | src/main/java/com/solovev/model/MyLinkedList.java:57-62 | as intended: the element is put in front of any list, an empty one included |
| LinkedList.MyLinkedList.Poll | src/main/java/com/solovev/model/MyLinkedList.java:149-161 | an empty list answers null and is unchanged; otherwise the first element is answered and removed and the rest keep their order; validity holds even though `lastNode` goes stale when the list empties |
| LinkedList.MyLinkedList.PollLast | src/main/java/com/solovev/model/MyLinkedList.java:168-177 | as written: an empty list answers null; with two or more elements the last one is answered and removed; with one element the call throws with `lastNode` already null and `size` still 1, so the list is no longer valid |
| LinkedList.MyLinkedList.PollLastCorrected | src/main/java/com/solovev/model/MyLinkedList.java:168-177 | as intended: the last element of any non-empty list is answered and removed, and an empty list answers null |
| LinkedList.MyLinkedList.AddAt | src/main/java/com/solovev/model/MyLinkedList.java:37-50 | for `0 <= index <= size`, the element ends up at `index`, with the elements before it unchanged and those after it shifted by one; `index == size` appends, an empty list included; any other index throws `IndexOutOfBoundsException` and changes nothing |
| LinkedList.MyLinkedList.InsertBefore | src/main/java/com/solovev/model/MyLinkedList.java:42-49 | a new cell between the cell at `index` and the one before it puts the element at `index` |
| LinkedList.MyLinkedList.AddAll | src/main/java/com/solovev/model/MyLinkedList.java:78-80 | the given elements are appended in their order |
| LinkedList.MyLinkedList.AddAllAt | src/main/java/com/solovev/model/MyLinkedList.java:88-96 | for `0 <= index <= size`, the given elements appear in their own order starting at `index`; any other index throws before anything changes |
| LinkedList.MyLinkedList.Remove | src/main/java/com/solovev/model/MyLinkedList.java:104-119 | for a valid position, answers the element there and removes it; the others keep their order and the list stays valid; an out-of-range index throws and changes nothing |
| LinkedList.MyLinkedList.Unlink | src/main/java/com/solovev/model/MyLinkedList.java:111-117 | the middle case of `remove`: the cell at `index` leaves the chain and keeps its value |
| LinkedList.MyLinkedList.RemoveObj | src/main/java/com/solovev/model/MyLinkedList.java:127-133 | answers true exactly when the element was present; only its first occurrence is removed |
| LinkedList.MyLinkedList.RemoveAll | src/main/java/com/solovev/model/MyLinkedList.java:140-142 | each given element in turn loses its first occurrence |
| LinkedList.MyLinkedList.RetainAll | src/main/java/com/solovev/model/MyLinkedList.java:254-269 | leaves exactly the original elements that occur in the argument, in their original order |
| LinkedList.MyLinkedList.RetainNext | src/main/java/com/solovev/model/MyLinkedList.java:264-268 | one turn of the walk: the iterator moves to the next original cell, and the cell it stood on is kept exactly when its element is in the argument |
| LinkedList.MyLinkedList.RetainCell | src/main/java/com/solovev/model/MyLinkedList.java:265-267 | an element missing from the argument is removed by `removeObj` from the very cell the walk stands on, because no earlier element equals it |
| LinkedList.MyLinkedList.Occurs | src/main/java/com/solovev/model/MyLinkedList.java:255-262 | the `contains` lambda answers true exactly when the element occurs in the collection |
| LinkedList.MyLinkedList.Size | src/main/java/com/solovev/model/MyLinkedList.java:303-305 | the count of elements |
| LinkedList.MyLinkedList.Elements | src/main/java/com/solovev/model/MyLinkedList.java:311-327 | following the forward links from `firstNode` yields exactly the contents, so `size()` equals the number of elements iterated |
| LinkedList.MyLinkedList.CheckIndex | src/main/java/com/solovev/model/MyLinkedList.java:292-296 | passes exactly for a position of an element; otherwise `IndexOutOfBoundsException` |
| LinkedList.MyLinkedList.GetNode | src/main/java/com/solovev/model/MyLinkedList.java:278-285 | walking `index` steps from the first cell reaches the cell at `index`; an out-of-range index throws |
| LinkedList.MyLinkedList.Get | src/main/java/com/solovev/model/MyLinkedList.java:186-188 | the element at `index`, or `IndexOutOfBoundsException` for `index < 0` or `index >= size` |
| LinkedList.MyLinkedList.Peek | src/main/java/com/solovev/model/MyLinkedList.java:195-197 | the first element, or null on an empty list |
| LinkedList.MyLinkedList.PeekLast | src/main/java/com/solovev/model/MyLinkedList.java:204-206 | the last element, or null on an empty list |
| LinkedList.MyLinkedList.IndexOf | src/main/java/com/solovev/model/MyLinkedList.java:214-222 | the smallest position whose element equals the argument, or -1 when there is none |
| LinkedList.MyLinkedList.Contains | src/main/java/com/solovev/model/MyLinkedList.java:230-232 | true exactly when the element is in the list |
| LinkedList.MyLinkedList.ContainsAll | src/main/java/com/solovev/model/MyLinkedList.java:240-247 | true exactly when every given element is in the list |
| LinkedList.AddFirstOnEmpty | src/main/java/com/solovev/model/MyLinkedList.java:57-62 | `addFirst` on a new, empty list throws `NullPointerException` |
| LinkedList.AddFirstCorrectedOnEmpty | src/main/java/com/solovev/model/MyLinkedList.java:57-62 | the corrected `addFirst` on a new, empty list gives the list holding just that element |
| LinkedList.PollLastOnSingleton | src/main/java/com/solovev/model/MyLinkedList.java:168-177 | `pollLast` on a one-element list throws `NullPointerException` and `size` stays 1 |
| LinkedList.PollLastCorrectedOnSingleton | src/main/java/com/solovev/model/MyLinkedList.java:168-177 | the corrected `pollLast` on a one-element list answers the element and leaves the list empty |
| TreeModel.Equals | src/main/java/com/solovev/model/TreeNode.java:88-97 | `x.equals(x)` is true, since identity is checked first, and `x.equals(null)` is false |
| TreeModel.ElementsEqualPairwise | src/main/java/com/solovev/model/TreeNode.java:96 | two children lists of the same length compare equal exactly when their elements compare equal position by position |
| TreeModel.EqualsCharacterization | src/main/java/com/solovev/model/TreeNode.java:88-97 | two distinct nodes are equal exactly when they have equal names, equal parents, children lists of the same length and pairwise equal children |
| TreeModel.NewNodeEquals | src/main/java/com/solovev/model/TreeNode.java:14-23 | a freshly constructed node, named and with no parent, never sends `equals` into endless recursion, and equals another node exactly when that node has the same name, no parent and no children |
| TreeModel.AppendVerdict | src/main/java/com/solovev/model/TreeNode.java:32-36 | `appendChild` answers false for the node itself and for its own parent; it answers true only for a child that is not the parent and not equal to the node; `appendChild(null)` is true exactly when the node has a parent |
| TreeModel.SearchQueue | src/main/java/com/solovev/model/TreeNode.java:53-59 | a node the loop answers bears the name, and the only exception is `NullPointerException` |
| TreeModel.WideSearchOf | src/main/java/com/solovev/model/TreeNode.java:43-50 | a root bearing the name is answered itself; any answer bears the name; the only exception is `NullPointerException` |
| TreeModel.SearchQueueFollowsVisit | src/main/java/com/solovev/model/TreeNode.java:53-59 | with no null child, the loop answers the first node bearing the name in the order it visits nodes |
| TreeModel.WideSearchIsFirstInTraversal | src/main/java/com/solovev/model/TreeNode.java:38-50 | with no null child, `wideSearch` never throws and answers the first node in breadth-first order (root first, children left to right) that bears the name, or empty |
| TreeModel.VisitOnce | src/main/java/com/solovev/model/TreeNode.java:48-50 | the loop visits no node already checked and no node twice |
| TreeModel.TraversalVisitsOnce | src/main/java/com/solovev/model/TreeNode.java:38-50 | the breadth-first order meets every node at most once, even on a cyclic structure |
| TreeModel.SearchQueueSound | src/main/java/com/solovev/model/TreeNode.java:53-59 | when every queued node lies below the root, so does any answer, and it bears the name |
| TreeModel.SearchQueueComplete | src/main/java/com/solovev/model/TreeNode.java:53-59 | when the loop finds nothing, a set of nodes containing the queue and closed under children contains no node bearing the name |
| TreeModel.WideSearchCorrect | src/main/java/com/solovev/model/TreeNode.java:38-50 | a found node bears the name and lies below the root or is the root; empty means that no node below the root bears the name; with no null child, empty holds exactly when no such node exists |
| TreeExample.SampleTraversal | src/test/java/com/solovev/model/TreeNodeTest.java:77-83 | on the test tree as its comment draws it, the traversal runs "1", then "1A", "1B", "1C", then "1A1", "1A2", "1A3", "1C1", "1C2"; a search for "1" answers the root, for "1C2" the last node, and for "0" nothing |
| TreeExample.VisitLeaves | src/main/java/com/solovev/model/TreeNode.java:38-50 | a queue of distinct, unvisited nodes without children is walked exactly in queue order |
| TreeNodes.Forest.NewNode | src/main/java/com/solovev/model/TreeNode.java:14-19 | a null name throws `NullPointerException` and creates nothing; otherwise exactly one new node exists, with that name, no parent and no children |
| TreeNodes.Forest.NewUnnamed | src/main/java/com/solovev/util/TreeNodeCreator.java:46-48 | exactly one new node exists, unnamed, with no parent and no children |
| TreeNodes.Forest.SetParent | src/main/java/com/solovev/model/TreeNode.java:74-81 | a parent equal to the node throws `IllegalArgumentException` and changes nothing; an endless `equals` ends in `StackOverflowError` and changes nothing; otherwise only the parent field of this node changes |
| TreeNodes.Forest.NewNodeWithParent | src/main/java/com/solovev/model/TreeNode.java:20-23 | the one-argument constructor then `setParent`: it fails exactly for a null name or a parent that has the same name, no parent and no children, and otherwise gives a new node with that parent and no children; a refusal by `setParent` throws `IllegalArgumentException` after the one-argument constructor has already created the node, so the heap holds exactly one new, unattached node with that name |
| TreeNodes.Forest.AppendChild | src/main/java/com/solovev/model/TreeNode.java:32-36 | the answer is the guard's verdict; on true the child goes at the end of the children list and every earlier child stays in place; on false or an exception nothing changes; the child's parent field is never touched and duplicates are not refused |
| TreeNodes.Forest.WideSearch | src/main/java/com/solovev/model/TreeNode.java:43-59 | the queue-driven loop answers what `WideSearchOf` specifies, so it has every property WideSearchCorrect proves |
| TreeNodes.Forest.GetName | src/main/java/com/solovev/model/TreeNode.java:61-63 | the node's name |
| TreeNodes.Forest.GetParent | src/main/java/com/solovev/model/TreeNode.java:65-67 | the node's parent reference |
| TreeNodes.Forest.GetChildren | src/main/java/com/solovev/model/TreeNode.java:83-85 | the node's children, in order |
| Tokenizer.FindIsLeftmost | src/main/java/com/solovev/util/TreeNodeCreator.java:49-50 | the delimiter search answers the leftmost occurrence, and -1 exactly when there is none |
| Tokenizer.JoinSplit | src/main/java/com/solovev/util/TreeNodeCreator.java:49-50 | splitting loses nothing: putting the delimiter back between the segments gives the line |
| Tokenizer.SegmentsAvoidDelimiter | src/main/java/com/solovev/util/TreeNodeCreator.java:49-50 | no segment contains the delimiter |
| Tokenizer.NonEmpty | src/main/java/com/solovev/util/TreeNodeCreator.java:51 | the filter keeps only non-empty strings of the input, and keeps every one of them |
| Tokenizer.JavaSplit | src/main/java/com/solovev/util/TreeNodeCreator.java:26 | a line without the delimiter splits into itself; otherwise the result never ends in an empty string |
| Tokenizer.DropTrailingEmptyPrefix | src/main/java/com/solovev/util/TreeNodeCreator.java:26 | what `split` drops is exactly a run of empty strings at the end: what remains is a prefix of the segments |
| Tokenizer.NonEmptyDropTrailing | src/main/java/com/solovev/util/TreeNodeCreator.java:49-52 | dropping trailing empty strings does not change the non-empty tokens, so Java's trailing rule does not matter to `buildTree(String, ...)` |
| Tokenizer.TokensAreSegments | src/main/java/com/solovev/util/TreeNodeCreator.java:49-52 | the tokens are exactly the non-empty segments between delimiters, in order; none of them is empty or contains the delimiter |
| Tokenizer.Tokens | src/main/java/com/solovev/util/TreeNodeCreator.java:49-52 | every word is non-empty and free of the delimiter; every non-empty segment between delimiters is a word; a line without the delimiter is its own single word, or gives none when it is empty |
| Tokenizer.IsTerminator | src/main/java/com/solovev/util/TreeNodeCreator.java:26-27 | a stop line contains the delimiter |
| Tokenizer.TerminatorBySegments | src/main/java/com/solovev/util/TreeNodeCreator.java:26-27 | a line stops the input exactly when its first two segments exist and are equal, and, when both are empty, some later segment is non-empty (otherwise `split` drops them all) |
| TreeBuilder.SearchStable | src/main/java/com/solovev/util/TreeNodeCreator.java:57-58 | the changes a line makes (new unattached nodes, children added to the local root) do not change what a search for the local root's name finds, so every word of the line is resolved against the same local root |
| TreeBuilder.SearchOrCreate | src/main/java/com/solovev/util/TreeNodeCreator.java:69-73 | a node the search finds is answered itself and nothing changes; a search that throws passes its exception on with nothing changed; when the tree is null or the search finds nothing, a null name throws `NullPointerException` with nothing changed and any other name gives exactly one new, unattached node with that name |
| TreeBuilder.ApplyWord | src/main/java/com/solovev/util/TreeNodeCreator.java:58 | one word: the node passed to `appendChild` is the one a search for the word from the main root finds, or a new node named after the word when it finds none; the verdict is `appendChild`'s own verdict on the heap after that resolution, and the node is appended exactly on true; an exception in `appendChild` leaves the resolution in place; the local root's own name resolves to it and is refused |
| TreeBuilder.AppendWords | src/main/java/com/solovev/util/TreeNodeCreator.java:58 | the words in order, each one such a step on the heap the previous word left; the local root's children grow by exactly the accepted nodes in word order; no other existing node changes; new nodes are unattached; an exception stops the loop at the failing word, after the steps of the words before it |
| TreeBuilder.BuildTree | src/main/java/com/solovev/util/TreeNodeCreator.java:45-60 | a null line gives a new unnamed node and nothing else; a line without tokens gives a new node named ""; a first token not found throws `NoSuchElementException` with nothing changed; on success the answer is the very node found, and the remaining tokens are applied to it in order, each resolved by a search from `mainRoot` as in ApplyWord, with an exception stopping at the failing token; a single token changes nothing |
| TreeBuilder.BuildTreeFromLines | src/main/java/com/solovev/util/TreeNodeCreator.java:21-32 | the loop reads lines up to and including the first stop line, then answers null; when the lines run out first, reading throws `NoSuchElementException` |
| TreeBuilder.BuildTreeFromLinesStops | src/main/java/com/solovev/util/TreeNodeCreator.java:21-31 | it answers exactly when some line is a stop line; the last line read is a stop line and none before it is; when no line is a stop line, every line is read and the call throws |

## Left out

- `Main.java` is left out. It reads stdin and writes stdout.
- `Scanner` is left out. The input of `buildTree(Scanner, String)` is a `seq<string>` of lines. Reading past the last line is `Err(NoSuchElement)`.
- Regular expressions are left out. The delimiter of `String.split` is a non-empty literal string, so a regex metacharacter in the delimiter is not modelled.
- Every `hashCode` is left out. Each is int-overflow arithmetic that the core never relies on.
- `Node.equals` is left out. It recurses through both links, which never ends on two distinct linked cells, and the list never calls it.
- `MyLinkedList.toString` is left out. It renders text only.
- The anonymous iterator class is left out. Iteration is the `Elements` walk and the `Contents` sequence.
- An `Iterable` argument is a `seq<T>`. The model does not capture what happens when a list is passed to its own `addAll` or `retainAll`.
- TreeNode members that the tests call but the class lacks are left out: `contains`, a boolean `setParent`, a multi-line `toString` and `forEach`.
- The infinite-loop timeout test is left out.
- `new TreeNode()` is not in TreeNode.java. The model's `NewUnnamed` gives the node that `buildTree` asks for.
- TreeNodes.Forest.GetChildren: answers a copy of the list. Java hands out the live `ArrayList`, so a caller could change the children through it.
- TreeNodes.Forest.SetParent: does not add the node to the new parent's children, because the source does not. The descendant check at TreeNode.java:77-79 is an empty branch and is modelled as no check.
- TreeModel.WideSearchOf: compares names as `Objects.equals` compares them. Line 44 calls `name.equals(nameToFind)`, which would throw on the unnamed node. That node exists only through the constructor the source lacks, and the tests search for it by a null name.
- TreeModel.SearchQueue: the set of examined nodes is a set of identities. The unfinished helper does not show whether `checked` would be tested with `List.contains`, which uses `equals`.
- Java's fixed stack depth is left out. Recursion of `equals` that never returns is the verdict `Diverges`. The model does not capture `StackOverflowError` striking a deep but finite comparison.
- The list's `size` is an unbounded integer. Wrap-around past 2^31 - 1 elements is left out.
- Null list elements are left out. `indexOf` calls `equals` on each stored element, so a stored null would throw there.
- LinkedList.MyLinkedList.Remove: at the last position, `remove` calls `pollLast` with at least two elements, and there the code as written and the corrected version agree. The model calls the corrected version.
- LinkedList.MyLinkedList.AddAt: at position 0 of a non-empty list, `add(index, elem)` calls `addFirst`, where the code as written and the corrected version agree. The model calls the corrected version.
- LinkedList.MyLinkedList.RemoveAll: the doc comment at MyLinkedList.java:134-138 says that every element found in the argument is removed. The code (line 141) calls `removeObj` once per argument element, which removes only the first occurrence, so `removeAll([1])` on `[1, 1]` leaves `[1]` (RemoveAllOfRepeated). The contract follows the code.
- LinkedList.MyLinkedList.RemoveObj: the doc comment at MyLinkedList.java:125 says the method answers false when the element is present. The code answers true exactly when the element was present and removed, and the contract follows the code.

## Findings

| source | as written | input that shows it | evidently intended | confidence | as-written member | corrected member |
|---|---|---|---|---|---|---|
| src/main/java/com/solovev/model/MyLinkedList.java:57-62 | `addFirst` calls `firstNode.setPrevNode` without a null check | `addFirst(1)` on a new, empty list throws `NullPointerException` | the element becomes the only one in the list | not executed | LinkedList.AddFirstOnEmpty, LinkedList.MyLinkedList.AddFirst | LinkedList.AddFirstCorrectedOnEmpty, LinkedList.MyLinkedList.AddFirstCorrected |
| src/main/java/com/solovev/model/MyLinkedList.java:168-177 | `pollLast` moves `lastNode` back and calls `setNextNode` on it without a null check | `add(1)` then `pollLast()` throws `NullPointerException`, leaving `size == 1` and `lastNode == null` | the list becomes empty and the element is answered | not executed | LinkedList.PollLastOnSingleton, LinkedList.MyLinkedList.PollLast | LinkedList.PollLastCorrectedOnSingleton, LinkedList.MyLinkedList.PollLastCorrected |
