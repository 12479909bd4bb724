/** The LIFO work list of quadtree nodes (src/quadtree/node_list.rs). */
module NodeList {
  import opened NodeData

  class NodeList {
    var elements: seq<NodeData>

    constructor ()
      ensures elements == []
    {
      elements := [];
    }

    /** Appends one element at the back. */
    method PushBack(nd: NodeData)
      modifies this
      ensures elements == old(elements) + [nd]
      ensures Len() == old(Len()) + 1
    {
      elements := elements + [nd];
    }

    function Len(): (n: nat)
      reads this
      ensures n == |elements|
    {
      |elements|
    }

    /** Removes and returns the most recently pushed element; the list must not be empty. */
    method PopBack() returns (nd: NodeData)
      requires elements != []
      modifies this
      ensures nd == old(elements)[|old(elements)| - 1]
      ensures elements == old(elements)[..|old(elements)| - 1]
      ensures Len() == old(Len()) - 1
    {
      nd := elements[|elements| - 1];
      elements := elements[..|elements| - 1];
    }
  }

  /** `push_back(x)` then `pop_back()` returns `x` and restores the list. */
  method PushThenPop(list: NodeList, nd: NodeData) returns (popped: NodeData)
    modifies list
    ensures popped == nd
    ensures list.elements == old(list.elements)
  {
    list.PushBack(nd);
    popped := list.PopBack();
    assert list.elements == old(list.elements);
  }
}
