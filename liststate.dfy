/** The instruction list of a program (HtmlState in include/html.h) and the
    splice operations on it: html_state, html_add, html_insert_after and
    html_remove in src/html.c. */
module ListState {
  import opened Html

  /** The chain after the nodes of `list` are linked in behind position `after`. */
  function Inserted(chain: seq<Node>, after: nat, list: seq<Node>): seq<Node>
    requires after < |chain|
  {
    chain[..after + 1] + list + chain[after + 1..]
  }

  /** The chain after the node at position `i` is unlinked. */
  function Removed(chain: seq<Node>, i: nat): seq<Node>
    requires i < |chain|
  {
    chain[..i] + chain[i + 1..]
  }

  /** HtmlState. The top-level instructions linked from `root` through the
      `next` pointers form `chain`; a pointer to one of them is its position
      in `chain`, so `root` is the first position and `head` the last. */
  class State {
    var chain: seq<Node>
    var root: Option<nat>
    var head: Option<nat>

    predicate Valid()
      reads this
    {
      if chain == [] then root == None && head == None
      else root == Some(0) && head == Some(|chain| - 1)
    }

    /** html_state: no instructions, null root and head. */
    constructor()
      ensures Valid() && chain == []
      ensures root == None && head == None
    {
      chain := [];
      root := None;
      head := None;
    }

    /** html_add: link `list` behind the head, walk to its last node and
        make that the head, and make `list` the root of an empty state. The
        result is the new head; an empty `list` stands for a null pointer,
        for which nothing changes and null is returned. */
    method Add(list: seq<Node>) returns (r: Option<nat>)
      requires Valid()
      modifies this
      ensures Valid()
      ensures list == [] ==> r == None && chain == old(chain) && head == old(head)
      ensures list != [] ==> chain == old(chain) + list
      ensures list != [] ==> r == head && r == Some(|chain| - 1) && chain[|chain| - 1] == list[|list| - 1]
      ensures old(root).Some? ==> root == old(root)
      ensures old(chain) == [] && list != [] ==> root == Some(0) && chain == list
    {
      if list == [] {
        return None;
      }
      var first := |chain|;
      // link the list in behind the old head
      chain := chain + list;
      var last := first;
      while last + 1 < |chain|
        invariant first <= last < |chain|
        decreases |chain| - last
      {
        last := last + 1;
      }
      head := Some(last);
      if root == None {
        root := Some(first);
      }
      return head;
    }

    /** html_insert_after: link `list` in behind the node at `after`, so the
        former successor of `after` follows the last node of `list`; when
        `after` was the head, that last node becomes the head. The result is
        the first inserted node; an empty `list` stands for a null pointer. */
    method InsertAfter(after: nat, list: seq<Node>) returns (r: Option<nat>)
      requires Valid() && after < |chain|
      modifies this
      ensures Valid() && root == old(root)
      ensures list == [] ==> r == None && chain == old(chain)
      ensures list != [] ==> chain == Inserted(old(chain), after, list) && r == Some(after + 1)
      ensures list != [] ==> chain[after + 1] == list[0]
      ensures list != [] && after == |old(chain)| - 1 ==> head == Some(after + |list|)
    {
      if list == [] {
        return None;
      }
      chain := Inserted(chain, after, list);
      var last := after + 1;
      while last + 1 < after + 1 + |list|
        invariant after + 1 <= last < after + 1 + |list|
        decreases after + |list| - last
      {
        last := last + 1;
      }
      if head == Some(after) {
        head := Some(last);
      } else {
        // the head node keeps its identity; its position moves past the inserted nodes
        head := Some(head.value + |list|);
      }
      return Some(after + 1);
    }

    /** html_remove: unlink the node at position `i` and return it. The C
        code dereferences both neighbours, so the node has a predecessor and
        a successor; it is therefore neither the root nor the head. */
    method Remove(i: nat) returns (n: Node)
      requires Valid() && 0 < i < |chain| - 1
      modifies this
      ensures Valid() && root == old(root)
      ensures n == old(chain)[i] && chain == Removed(old(chain), i)
      ensures |chain| == |old(chain)| - 1
    {
      n := chain[i];
      chain := Removed(chain, i);
      // the head node keeps its identity; its position moves back by one
      head := Some(head.value - 1);
    }
  }

  /** Unlinking the one node just linked in restores the chain. */
  lemma RemoveUndoesInsert(chain: seq<Node>, after: nat, n: Node)
    requires after < |chain|
    ensures after + 1 < |Inserted(chain, after, [n])|
    ensures Inserted(chain, after, [n])[after + 1] == n
    ensures Removed(Inserted(chain, after, [n]), after + 1) == chain
  {
    var c := Inserted(chain, after, [n]);
    assert c[..after + 1] == chain[..after + 1];
    assert c[after + 2..] == chain[after + 1..];
    assert chain[..after + 1] + chain[after + 1..] == chain;
  }

  /** Linking in behind the head is appending: html_add and html_insert_after
      agree there. */
  lemma InsertAtHeadAppends(chain: seq<Node>, list: seq<Node>)
    requires chain != []
    ensures Inserted(chain, |chain| - 1, list) == chain + list
  {
    assert chain[..|chain|] == chain;
  }

  /** Inserting keeps every node: the chain grows by exactly the inserted ones. */
  lemma InsertKeepsNodes(chain: seq<Node>, after: nat, list: seq<Node>)
    requires after < |chain|
    ensures multiset(Inserted(chain, after, list)) == multiset(chain) + multiset(list)
  {
    assert chain == chain[..after + 1] + chain[after + 1..];
  }

  /** Removing keeps every other node, in order. */
  lemma RemoveKeepsOthers(chain: seq<Node>, i: nat)
    requires i < |chain|
    ensures multiset(Removed(chain, i)) + multiset{chain[i]} == multiset(chain)
    ensures forall j :: 0 <= j < i ==> Removed(chain, i)[j] == chain[j]
    ensures forall j :: i < j < |chain| ==> Removed(chain, i)[j - 1] == chain[j]
  {
    assert chain == chain[..i] + [chain[i]] + chain[i + 1..];
  }
}
