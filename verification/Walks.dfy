/**
 * The preorder walk that repeated calls of fdt_next_node make, once over tokens
 * (Walk) and once over trees (TreeWalk), and the lemma that they agree.
 */
module Walks {
  import opened Bytes
  import opened Tokens
  import opened Trees

  /** What fdt_next_node meets next: a BEGIN_NODE, the end of the start node, or FDT_END. */
  datatype Hop = Down(index: nat, depth: int) | Up(index: nat) | Stop(depth: int)

  /**
   * The next hop from token i at depth d.  A caller that passes no depth pointer
   * never stops at an END_NODE.
   */
  function Next(ts: seq<Token>, i: nat, d: int, tracked: bool): (h: Hop)
    ensures h.Down? ==> i <= h.index < |ts| && ts[h.index].Begin?
    ensures h.Up? ==> i < h.index <= |ts|
    ensures tracked && d >= 0 ==> (h.Down? ==> h.depth > 0) && (h.Stop? ==> h.depth >= 0)
    decreases |ts| - i
  {
    if i >= |ts| then Stop(d) else
    match ts[i]
    case Begin(_, _) => Down(i, d + 1)
    case EndNode => if tracked && d - 1 < 0 then Up(i + 1) else Next(ts, i + 1, d - 1, tracked)
    case End => Stop(d)
    case _ => Next(ts, i + 1, d, tracked)
  }

  /** The token index and the depth of every node met from token i on, until the walk goes up or stops. */
  function Walk(ts: seq<Token>, i: nat, d: int): seq<(nat, int)>
    decreases |ts| - i
  {
    var h := Next(ts, i, d, true);
    if h.Down? then [(h.index, h.depth)] + Walk(ts, h.index + 1, h.depth) else []
  }

  /** How that walk ends. */
  function WalkEnd(ts: seq<Token>, i: nat, d: int): (h: Hop)
    ensures !h.Down?
    ensures h.Up? ==> i < h.index <= |ts|
    decreases |ts| - i
  {
    var h := Next(ts, i, d, true);
    if h.Down? then WalkEnd(ts, h.index + 1, h.depth) else h
  }

  /** The same walk over a list of items whose first token has index i. */
  function TreeWalk(items: seq<Item>, i: nat, d: int): seq<(nat, int)>
    decreases items
  {
    if items == [] then [] else
    ItemWalk(items[0], i, d) + TreeWalk(items[1..], i + |ItemToks(items[0])|, d)
  }

  function ItemWalk(it: Item, i: nat, d: int): seq<(nat, int)>
    decreases it
  {
    if it.Node? then [(i, d + 1)] + TreeWalk(it.items, i + 1, d + 1) else []
  }

  predicate HasAt(ts: seq<Token>, i: nat, part: seq<Token>) {
    i + |part| <= |ts| && ts[i..i + |part|] == part
  }

  lemma HasSplit(ts: seq<Token>, i: nat, a: seq<Token>, b: seq<Token>)
    requires HasAt(ts, i, a + b)
    ensures HasAt(ts, i, a) && HasAt(ts, i + |a|, b)
  {
    SubSlice(ts, i, a + b, 0, |a|);
    SubSlice(ts, i, a + b, |a|, |a + b|);
    assert (a + b)[0..|a|] == a && (a + b)[|a|..|a + b|] == b;
  }

  /** One token of a walk. */
  lemma WalkToken(ts: seq<Token>, i: nat, d: int)
    requires i < |ts|
    ensures ts[i].Prop? || ts[i].Nop? || (ts[i].EndNode? && d > 0) ==>
      var d' := if ts[i].EndNode? then d - 1 else d;
      Walk(ts, i, d) == Walk(ts, i + 1, d') && WalkEnd(ts, i, d) == WalkEnd(ts, i + 1, d')
    ensures ts[i].Begin? ==>
      Walk(ts, i, d) == [(i, d + 1)] + Walk(ts, i + 1, d + 1) && WalkEnd(ts, i, d) == WalkEnd(ts, i + 1, d + 1)
  {
  }

  /** Walking from token i to token j at depth d meets the nodes w and comes out at depth d. */
  predicate Crosses(ts: seq<Token>, i: nat, j: nat, d: int, w: seq<(nat, int)>) {
    Walk(ts, i, d) == w + Walk(ts, j, d) && WalkEnd(ts, i, d) == WalkEnd(ts, j, d)
  }

  lemma CrossNone(ts: seq<Token>, i: nat, d: int)
    ensures Crosses(ts, i, i, d, [])
  {
    hide Walk, WalkEnd;
  }

  lemma CrossBoth(ts: seq<Token>, i: nat, j: nat, k: nat, d: int, a: seq<(nat, int)>, b: seq<(nat, int)>)
    requires Crosses(ts, i, j, d, a) && Crosses(ts, j, k, d, b)
    ensures Crosses(ts, i, k, d, a + b)
  {
    hide Walk, WalkEnd;
    Assoc(a, b, Walk(ts, k, d));
  }

  lemma CrossNode(ts: seq<Token>, i: nat, e: nat, d: int, w: seq<(nat, int)>)
    requires i < e < |ts| && ts[i].Begin? && ts[e].EndNode? && d >= 0 && Crosses(ts, i + 1, e, d + 1, w)
    ensures Crosses(ts, i, e + 1, d, [(i, d + 1)] + w)
  {
    hide Walk, WalkEnd;
    WalkToken(ts, i, d);
    WalkToken(ts, e, d + 1);
    Assoc([(i, d + 1)], w, Walk(ts, e + 1, d));
  }

  /** A walk crosses a list of items by visiting exactly its nodes, and comes out at the depth it entered. */
  lemma {:induction false} WalkItems(ts: seq<Token>, i: nat, d: int, items: seq<Item>)
    requires HasAt(ts, i, Toks(items)) && d >= 0
    ensures Crosses(ts, i, i + |Toks(items)|, d, TreeWalk(items, i, d))
    decreases items
  {
    hide Walk, WalkEnd, Crosses, HasAt, ItemToks, ItemWalk;
    if items == [] {
      CrossNone(ts, i, d);
    } else {
      var it, rest := items[0], items[1..];
      var j := i + |ItemToks(it)|;
      HasSplit(ts, i, ItemToks(it), Toks(rest));
      WalkItem(ts, i, d, it);
      WalkItems(ts, j, d, rest);
      CrossBoth(ts, i, j, j + |Toks(rest)|, d, ItemWalk(it, i, d), TreeWalk(rest, j, d));
    }
  }

  lemma {:induction false} WalkItem(ts: seq<Token>, i: nat, d: int, it: Item)
    requires HasAt(ts, i, ItemToks(it)) && d >= 0
    ensures Crosses(ts, i, i + |ItemToks(it)|, d, ItemWalk(it, i, d))
    decreases it
  {
    hide Walk, WalkEnd;
    if it.Node? {
      NodeTokens(ts, i, it);
      WalkItems(ts, i + 1, d + 1, it.items);
      CrossNode(ts, i, i + 1 + |Toks(it.items)|, d, TreeWalk(it.items, i + 1, d + 1));
    } else {
      assert ts[i] == ts[i..i + 1][0] == ItemToks(it)[0];
      WalkToken(ts, i, d);
    }
  }

  /** Where the tokens of a node lie. */
  lemma NodeTokens(ts: seq<Token>, i: nat, it: Item)
    requires it.Node? && HasAt(ts, i, ItemToks(it))
    ensures |ItemToks(it)| == |Toks(it.items)| + 2
    ensures ts[i] == Begin(it.name, it.pad) && ts[i + 1 + |Toks(it.items)|] == EndNode
    ensures HasAt(ts, i + 1, Toks(it.items))
  {
    var o, body := [Begin(it.name, it.pad)], Toks(it.items);
    HasSplit(ts, i, o + body, [EndNode]);
    HasSplit(ts, i, o, body);
    assert ts[i] == ts[i..i + 1][0] == o[0];
    var e := i + 1 + |body|;
    assert ts[e] == ts[e..e + 1][0];
  }
}
