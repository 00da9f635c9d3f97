/** The text of a contenteditable element as its text nodes in document
    order (what the source's TreeWalker over `SHOW_TEXT` yields), the mapping
    from a linear offset to a (node, offset) position (`getNodeForOffset`),
    and the effect of deleting a range and inserting a text node there. */
module TextNodes {
  import opened Wrappers

  /** The element's text: its text nodes concatenated in document order. */
  function Flatten(nodes: seq<string>): string {
    if |nodes| == 0 then "" else nodes[0] + Flatten(nodes[1..])
  }

  lemma {:induction false} FlattenAppend(a: seq<string>, b: seq<string>)
    decreases |a|
    ensures Flatten(a + b) == Flatten(a) + Flatten(b)
  {
    if |a| > 0 {
      FlattenAppend(a[1..], b);
      assert (a + b)[0] == a[0];
      assert (a + b)[1..] == a[1..] + b;
    } else {
      assert a + b == b;
    }
  }

  /** The linear offset at which node `k` begins (the text length of the
      nodes before it); `NodeStart(nodes, |nodes|)` is the whole length. */
  function NodeStart(nodes: seq<string>, k: nat): nat
    requires k <= |nodes|
  {
    |Flatten(nodes[..k])|
  }

  /** Node `k` ends where node `k + 1` begins. */
  lemma NodeStartStep(nodes: seq<string>, k: nat)
    requires k < |nodes|
    ensures Flatten(nodes[..k + 1]) == Flatten(nodes[..k]) + nodes[k]
    ensures NodeStart(nodes, k + 1) == NodeStart(nodes, k) + |nodes[k]|
  {
    assert nodes[..k + 1] == nodes[..k] + [nodes[k]];
    FlattenAppend(nodes[..k], [nodes[k]]);
    assert Flatten([nodes[k]]) == nodes[k];
  }

  lemma NodeStartMonotone(nodes: seq<string>, i: nat, j: nat)
    requires i <= j <= |nodes|
    ensures NodeStart(nodes, i) <= NodeStart(nodes, j)
  {
    assert nodes[..j] == nodes[..i] + nodes[i..j];
    FlattenAppend(nodes[..i], nodes[i..j]);
  }

  lemma NodeStartWhole(nodes: seq<string>)
    ensures NodeStart(nodes, |nodes|) == |Flatten(nodes)|
  {
    assert nodes[..|nodes|] == nodes;
  }

  /** Dropping the first node moves every later node's start back by the
      length of that node. */
  lemma NodeStartTail(nodes: seq<string>)
    requires |nodes| > 0
    ensures forall k :: 0 < k <= |nodes| ==>
      NodeStart(nodes, k) == |nodes[0]| + NodeStart(nodes[1..], k - 1)
  {
    forall k | 0 < k <= |nodes|
      ensures NodeStart(nodes, k) == |nodes[0]| + NodeStart(nodes[1..], k - 1)
    {
      assert nodes[..k][0] == nodes[0];
      assert nodes[..k][1..] == nodes[1..][..k - 1];
    }
  }

  /** A position inside the text nodes: node `index`, character `offset`. */
  datatype Position = Position(index: nat, offset: nat)

  /** `getNodeForOffset(root, offset)`: walk the nodes, taking the first whose
      end is at or past the offset; `None` (the source's `null`) when there
      are no nodes or the offset lies past the end of the text. */
  function NodeForOffset(nodes: seq<string>, offset: nat): (r: Option<Position>)
    decreases |nodes|
    ensures r.None? <==> |nodes| == 0 || offset > |Flatten(nodes)|
    ensures r.Some? ==> r.value.index < |nodes| && r.value.offset <= |nodes[r.value.index]|
    ensures r.Some? ==> NodeStart(nodes, r.value.index) + r.value.offset == offset
    ensures r.Some? ==> forall k :: 0 < k <= r.value.index ==> NodeStart(nodes, k) < offset
  {
    if |nodes| == 0 then None
    else if offset <= |nodes[0]| then
      assert nodes[..0] == [];
      Some(Position(0, offset))
    else
      match NodeForOffset(nodes[1..], offset - |nodes[0]|)
      case None => None
      case Some(p) =>
        NodeStartTail(nodes);
        Some(Position(p.index + 1, p.offset))
  }

  /** An offset on the boundary between two nodes resolves to the end of the
      earlier node: only the first node is ever entered at offset 0. */
  lemma BoundaryResolvesToEarlierNode(nodes: seq<string>, offset: nat)
    requires NodeForOffset(nodes, offset).Some?
    ensures var p := NodeForOffset(nodes, offset).value;
      p.index > 0 ==> p.offset > 0
  {
  }

  /** Positions found for ordered offsets are ordered. */
  lemma NodeForOffsetMonotone(nodes: seq<string>, a: nat, b: nat)
    requires a <= b
    requires NodeForOffset(nodes, a).Some? && NodeForOffset(nodes, b).Some?
    ensures var p, q := NodeForOffset(nodes, a).value, NodeForOffset(nodes, b).value;
      p.index <= q.index && (p.index == q.index ==> p.offset <= q.offset)
  {
    var p, q := NodeForOffset(nodes, a).value, NodeForOffset(nodes, b).value;
    if p.index > q.index {
      NodeStartStep(nodes, q.index);
    }
  }

  /** The text splits at a position into what lies before and after it. */
  lemma FlattenSplitAt(nodes: seq<string>, i: nat, o: nat)
    requires i < |nodes| && o <= |nodes[i]|
    ensures var n := NodeStart(nodes, i) + o;
      && n <= |Flatten(nodes)|
      && Flatten(nodes)[..n] == Flatten(nodes[..i]) + nodes[i][..o]
      && Flatten(nodes)[n..] == nodes[i][o..] + Flatten(nodes[i + 1..])
  {
    assert nodes == nodes[..i + 1] + nodes[i + 1..];
    FlattenAppend(nodes[..i + 1], nodes[i + 1..]);
    NodeStartStep(nodes, i);
    SplitInMiddle(Flatten(nodes[..i]), nodes[i], Flatten(nodes[i + 1..]), o, Flatten(nodes));
  }

  /** Cutting `pre + x + post` inside `x`. */
  lemma SplitInMiddle(pre: string, x: string, post: string, o: nat, whole: string)
    requires o <= |x| && whole == pre + x + post
    ensures |pre| + o <= |whole|
    ensures whole[..|pre| + o] == pre + x[..o] && whole[|pre| + o..] == x[o..] + post
  {
    assert x == x[..o] + x[o..];
  }

  /** `FlattenSplitAt` at a position's linear offset. */
  lemma FlattenSplitAtPosition(nodes: seq<string>, p: Position)
    requires p.index < |nodes| && p.offset <= |nodes[p.index]|
    ensures var n := LinearOffset(nodes, p);
      && n <= |Flatten(nodes)|
      && Flatten(nodes)[..n] == Flatten(nodes[..p.index]) + nodes[p.index][..p.offset]
      && Flatten(nodes)[n..] == nodes[p.index][p.offset..] + Flatten(nodes[p.index + 1..])
  {
    FlattenSplitAt(nodes, p.index, p.offset);
  }

  lemma FlattenThree(x: string, y: string, z: string)
    ensures Flatten([x, y, z]) == x + y + z
  {
    assert [x, y, z][1..] == [y, z];
    assert [y, z][1..] == [z];
    assert [z][1..] == [];
    calc {
      Flatten([x, y, z]);
      x + Flatten([y, z]);
      x + (y + Flatten([z]));
      x + (y + (z + Flatten([])));
    }
  }

  /** The text of a node sequence with three nodes in the middle. */
  lemma FlattenAround(pre: seq<string>, x: string, y: string, z: string, post: seq<string>)
    ensures Flatten(pre + [x, y, z] + post) == Flatten(pre) + x + y + z + Flatten(post)
  {
    FlattenAppend(pre + [x, y, z], post);
    FlattenAppend(pre, [x, y, z]);
    FlattenThree(x, y, z);
  }

  /** `range.setStart(p); range.setEnd(q); range.deleteContents();
      range.insertNode(textNode)` on text nodes: the start node keeps its
      text before `p`, the new node follows, then the end node's text after
      `q`; the nodes in between are gone. The start node's head and the end
      node's tail are kept even when empty, as the DOM keeps empty text
      nodes after a split. */
  function SpliceNodes(nodes: seq<string>, p: Position, q: Position, text: string): (r: seq<string>)
    requires p.index <= q.index < |nodes|
    requires p.offset <= |nodes[p.index]| && q.offset <= |nodes[q.index]|
    requires p.index == q.index ==> p.offset <= q.offset
    ensures |r| == p.index + 3 + (|nodes| - q.index - 1)
    ensures r[..p.index] == nodes[..p.index] && r[p.index + 1] == text
  {
    nodes[..p.index] + [nodes[p.index][..p.offset], text, nodes[q.index][q.offset..]] + nodes[q.index + 1..]
  }

  /** The linear offset of a position: where it falls in the element's text. */
  function LinearOffset(nodes: seq<string>, p: Position): nat
    requires p.index < |nodes|
  {
    NodeStart(nodes, p.index) + p.offset
  }

  /** Splicing nodes replaces exactly the characters between the two
      positions' linear offsets. */
  lemma SpliceFlatten(nodes: seq<string>, p: Position, q: Position, text: string)
    requires p.index <= q.index < |nodes|
    requires p.offset <= |nodes[p.index]| && q.offset <= |nodes[q.index]|
    requires p.index == q.index ==> p.offset <= q.offset
    ensures LinearOffset(nodes, p) <= LinearOffset(nodes, q) <= |Flatten(nodes)|
    ensures Flatten(SpliceNodes(nodes, p, q, text))
         == Flatten(nodes)[..LinearOffset(nodes, p)] + text + Flatten(nodes)[LinearOffset(nodes, q)..]
  {
    var pre, post := nodes[..p.index], nodes[q.index + 1..];
    var head, tail := nodes[p.index][..p.offset], nodes[q.index][q.offset..];
    SpliceOrdered(nodes, p, q);
    FlattenSplitAtPosition(nodes, q);
    FlattenSplitAtPosition(nodes, p);
    ReplaceBetween(Flatten(nodes), LinearOffset(nodes, p), LinearOffset(nodes, q),
                   SpliceNodes(nodes, p, q, text), pre, head, text, tail, post);
  }

  /** Replacing the text between `a` and `b` is replacing the nodes between
      the two split points. */
  lemma ReplaceBetween(flat: string, a: nat, b: nat, r: seq<string>, pre: seq<string>,
                       head: string, text: string, tail: string, post: seq<string>)
    requires a <= b <= |flat|
    requires r == pre + [head, text, tail] + post
    requires flat[..a] == Flatten(pre) + head
    requires flat[b..] == tail + Flatten(post)
    ensures Flatten(r) == flat[..a] + text + flat[b..]
  {
    FlattenAround(pre, head, text, tail, post);
  }

  lemma SpliceOrdered(nodes: seq<string>, p: Position, q: Position)
    requires p.index <= q.index < |nodes|
    requires p.offset <= |nodes[p.index]| && q.offset <= |nodes[q.index]|
    requires p.index == q.index ==> p.offset <= q.offset
    ensures LinearOffset(nodes, p) <= LinearOffset(nodes, q)
  {
    if p.index < q.index {
      NodeStartStep(nodes, p.index);
      NodeStartMonotone(nodes, p.index + 1, q.index);
    }
  }

  /** After the splice, the inserted node starts where the first position was. */
  lemma SpliceStartsNewNode(nodes: seq<string>, p: Position, q: Position, text: string)
    requires p.index <= q.index < |nodes|
    requires p.offset <= |nodes[p.index]| && q.offset <= |nodes[q.index]|
    requires p.index == q.index ==> p.offset <= q.offset
    ensures NodeStart(SpliceNodes(nodes, p, q, text), p.index + 1) == LinearOffset(nodes, p)
  {
    var r := SpliceNodes(nodes, p, q, text);
    var head := nodes[p.index][..p.offset];
    assert r[..p.index + 1] == nodes[..p.index] + [head];
    FlattenAppend(nodes[..p.index], [head]);
    assert [head][1..] == [];
  }
}
