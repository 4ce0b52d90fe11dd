/** com.solovev.model.Node: one cell of the doubly linked list, holding a
    value and the links to its neighbours. */
module LinkedNodes {

  class Node<T> {
    var prevNode: Node?<T>
    var nextNode: Node?<T>
    var data: T

    constructor (prevNode: Node?<T>, nextNode: Node?<T>, data: T)
      ensures this.prevNode == prevNode && this.nextNode == nextNode && this.data == data
    {
      this.prevNode := prevNode;
      this.nextNode := nextNode;
      this.data := data;
    }

    method GetPrevNode() returns (p: Node?<T>)
      ensures p == prevNode
    {
      p := prevNode;
    }

    /** Changes the backward link and nothing else. */
    method SetPrevNode(p: Node?<T>)
      modifies this`prevNode
      ensures prevNode == p
    {
      prevNode := p;
    }

    method GetNextNode() returns (n: Node?<T>)
      ensures n == nextNode
    {
      n := nextNode;
    }

    /** Changes the forward link and nothing else. */
    method SetNextNode(n: Node?<T>)
      modifies this`nextNode
      ensures nextNode == n
    {
      nextNode := n;
    }

    method GetData() returns (d: T)
      ensures d == data
    {
      d := data;
    }

    /** Changes the value and nothing else. */
    method SetData(d: T)
      modifies this`data
      ensures data == d
    {
      data := d;
    }

    /** The text of a cell is the text of its value alone; `show` stands for
        the value's own `toString`. */
    method ToString(show: T -> string) returns (s: string)
      ensures s == show(data)
    {
      s := show(data);
    }
  }
}
