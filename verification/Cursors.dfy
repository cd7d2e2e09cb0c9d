/**
 * Iterating over the properties and subnodes of a node (fdt_for_each_property_offset,
 * fdt_for_each_subnode): the offsets visited are those of the tree's items, in order.
 */
module Cursors {
  import opened Bytes
  import opened Tokens
  import opened Trees
  import opened Views
  import opened Walks
  import opened Scan
  import opened Lookup
  import opened Splices
  import opened Edits
  import opened NodeEdits

  /** The first item from q on that satisfies the test of the iteration, or the end of the list. */
  function NextKid(items: seq<Item>, q: nat): (r: nat)
    requires q <= |items|
    ensures q <= r <= |items| && (r < |items| ==> items[r].Node?)
    ensures forall m :: q <= m < r ==> !items[m].Node?
    decreases |items| - q
  {
    if q == |items| || items[q].Node? then q else NextKid(items, q + 1)
  }

  function NextProperty(items: seq<Item>, q: nat): (r: nat)
    requires q <= |items|
    ensures q <= r <= |items| && (r < |items| ==> !items[r].INop?)
    ensures forall m :: q <= m < r ==> items[m].INop?
    decreases |items| - q
  {
    if q == |items| || !items[q].INop? then q else NextProperty(items, q + 1)
  }

  /** The token at a position of a node's list: that of the item there, or the node's END_NODE. */
  lemma TokenAtItem(top: seq<Item>, path: seq<nat>, k: nat, q: nat)
    requires Inside(top, path, k) && q <= |Sub(top, path + [k])|
    ensures var ts, i, list := BlockToks(top), Index(top, path + [k], q), Sub(top, path + [k]);
      && i < |ts| && Off(ts, i) == OffsetOf(top, path + [k], q)
      && (q == |list| ==> ts[i].EndNode?)
      && (q < |list| ==>
            && HasAt(ts, i, ItemToks(list[q])) && ts[i] == ItemToks(list[q])[0]
            && Index(top, path + [k], q + 1) == i + |ItemToks(list[q])|)
  {
    hide EncAll, Toks, Ordered, Named, Sub, Before;
    var list := path + [k];
    var items := Sub(top, list);
    PrefixOff(top, list, q);
    Enter(top, path, k, q);
    if q < |items| {
      Located(top, list, q);
      Enter(top, path, k, q + 1);
      var ts, i := BlockToks(top), Index(top, list, q);
      assert ts[i] == ts[i..i + |ItemToks(items[q])|][0];
      assert items[..q + 1] == items[..q] + [items[q]];
      ToksConcat(items[..q], [items[q]]);
      ToksOne(items[q]);
    } else {
      NodeInBlock(top, path, k);
      Enter(top, path, k, 0);
      assert items[..q] == items;
      EntryIndex(top, path, k);
    }
  }

  lemma EntryIndex(top: seq<Item>, path: seq<nat>, k: nat)
    requires Inside(top, path, k)
    ensures Index(top, path + [k], |Sub(top, path + [k])|)
         == Index(top, path, k) + 1 + |Toks(Sub(top, path)[k].items)|
  {
    hide Toks, Sub, Before;
    var items := Sub(top, path)[k].items;
    Enter(top, path, k, |items|);
    assert items[..|items|] == items;
  }

  /** nextprop_ from an item of a node. */
  method PropertyFrom(s: seq<byte>, off: int, ghost strtab: seq<byte>, ghost top: seq<Item>, ghost path: seq<nat>,
                      ghost k: nat, ghost q: nat)
    returns (r: int)
    requires Represents(s, strtab, top) && Inside(top, path, k) && q <= |Sub(top, path + [k])|
    requires off == OffsetOf(top, path + [k], q)
    ensures var list := Sub(top, path + [k]);
      var p := NextProperty(list, q);
      r == if p < |list| && list[p].IProp? then OffsetOf(top, path + [k], p) else -ERR_NOTFOUND
  {
    hide EncAll, Toks, Ordered, Named, Sub, Before, Off, Index, OffsetOf;
    ghost var list := Sub(top, path + [k]);
    ghost var ts := BlockToks(top);
    TokenAtItem(top, path, k, q);
    ghost var j;
    r, j := NextProp(s, off, ts, Index(top, path + [k], q));
    SkipToProperty(top, path, k, q, j);
    TokenAtItem(top, path, k, NextProperty(list, q));
  }

  lemma {:induction false} SkipToProperty(top: seq<Item>, path: seq<nat>, k: nat, q: nat, j: nat)
    requires Inside(top, path, k) && q <= |Sub(top, path + [k])|
    requires var ts, i := BlockToks(top), Index(top, path + [k], q);
      i <= j < |ts| && !ts[j].Nop? && forall x :: i <= x < j ==> ts[x].Nop?
    ensures j == Index(top, path + [k], NextProperty(Sub(top, path + [k]), q))
    decreases |Sub(top, path + [k])| - q
  {
    hide EncAll, Toks, Sub, Before, Off, Index, OffsetOf, BlockToks;
    TokenAtItem(top, path, k, q);
    var list := Sub(top, path + [k]);
    if q < |list| && list[q].INop? {
      SkipToProperty(top, path, k, q + 1, j);
    }
  }

  /** Where the walk goes from an item of a node at depth 0. */
  lemma {:induction false} HopFrom(top: seq<Item>, path: seq<nat>, k: nat, q: nat)
    requires Inside(top, path, k) && q <= |Sub(top, path + [k])|
    ensures var list, r := Sub(top, path + [k]), NextKid(Sub(top, path + [k]), q);
      var h := Next(BlockToks(top), Index(top, path + [k], q), 0, true);
      if r < |list| then h == Down(Index(top, path + [k], r), 1) else h.Up?
    decreases |Sub(top, path + [k])| - q
  {
    hide EncAll, Toks, Sub, Before, Off, Index, OffsetOf, BlockToks;
    TokenAtItem(top, path, k, q);
    var list := Sub(top, path + [k]);
    if q < |list| && !list[q].Node? {
      HopFrom(top, path, k, q + 1);
    }
  }

  /** fdt_first_subnode */
  method FirstSubnode(s: seq<byte>, node: int, ghost strtab: seq<byte>, ghost top: seq<Item>, ghost path: seq<nat>,
                      ghost k: nat)
    returns (r: int)
    requires Represents(s, strtab, top) && Inside(top, path, k) && node == OffsetOf(top, path, k)
    ensures var list, p := Sub(top, path + [k]), NextKid(Sub(top, path + [k]), 0);
      r == if p < |list| then OffsetOf(top, path + [k], p) else -ERR_NOTFOUND
  {
    hide EncAll, Toks, Sub, Before, Off, OffsetOf, Next, Ordered, Named;
    ghost var ts, i, p := BlockToks(top), Index(top, path, k), NextKid(Sub(top, path + [k]), 0);
    Located(top, path, k);
    NodeInBlock(top, path, k);
    FirstIndex(top, path, k);
    HopFrom(top, path, k, 0);
    TokenAtItem(top, path, k, p);
    var depth;
    r, depth := NextNode(s, node, 0, true, ts, i);
    if r < 0 || depth != 1 {
      return -ERR_NOTFOUND;
    }
  }

  lemma FirstIndex(top: seq<Item>, path: seq<nat>, k: nat)
    requires Inside(top, path, k)
    ensures Index(top, path + [k], 0) == Index(top, path, k) + 1
  {
    hide Toks, Sub, Before;
    Enter(top, path, k, 0);
    NoToks();
    assert Sub(top, path)[k].items[..0] == [];
  }

  /** The first node of a walk that is no deeper than 1. */
  function Shallow(w: seq<(nat, int)>): seq<(nat, int)> {
    if w == [] || w[0].1 <= 1 then w else Shallow(w[1..])
  }

  lemma {:induction false} ShallowSkip(a: seq<(nat, int)>, b: seq<(nat, int)>)
    requires forall m :: 0 <= m < |a| ==> a[m].1 > 1
    ensures Shallow(a + b) == Shallow(b)
  {
    if a == [] {
      assert a + b == b;
    } else {
      ShallowSkip(a[1..], b);
      assert (a + b)[1..] == a[1..] + b;
    }
  }

  /** The walk from a subnode first visits its contents and then what follows it in the parent. */
  lemma SiblingWalk(top: seq<Item>, path: seq<nat>, k: nat, q: nat)
    requires Inside(top, path, k) && q < |Sub(top, path + [k])| && Sub(top, path + [k])[q].Node?
    ensures var ts, i, j := BlockToks(top), Index(top, path + [k], q), Index(top, path + [k], q + 1);
      && i < |ts| && ts[i].Begin? && Off(ts, i) == OffsetOf(top, path + [k], q)
      && Shallow(Walk(ts, i + 1, 1)) == Shallow(Walk(ts, j, 0))
  {
    hide EncAll, Toks, Sub, Before, Off, Index, OffsetOf, BlockToks, Walk, WalkEnd, TreeWalk, Shallow, Next;
    TokenAtItem(top, path, k, q);
    var ts, i, it := BlockToks(top), Index(top, path + [k], q), Sub(top, path + [k])[q];
    NodeTokens(ts, i, it);
    var e := i + 1 + |Toks(it.items)|;
    WalkItems(ts, i + 1, 1, it.items);
    WalkToken(ts, e, 1);
    DeepWalk(it.items, i + 1, 1);
    ShallowSkip(TreeWalk(it.items, i + 1, 1), Walk(ts, e, 1));
  }

  /** One hop of the walk, to a deeper node or to one that is shallow. */
  lemma ShallowHop(ts: seq<Token>, j: nat, depth: int)
    ensures match Next(ts, j, depth, true)
      case Down(i, e) =>
        Shallow(Walk(ts, j, depth)) == if e <= 1 then [(i, e)] + Walk(ts, i + 1, e) else Shallow(Walk(ts, i + 1, e))
      case _ => Shallow(Walk(ts, j, depth)) == []
  {
    hide Next;
    var h := Next(ts, j, depth, true);
    if h.Down? {
      var rest := Walk(ts, h.index + 1, h.depth);
      assert ([(h.index, h.depth)] + rest)[1..] == rest;
    }
  }

  /** fdt_next_subnode */
  method NextSubnode(s: seq<byte>, off: int, ghost strtab: seq<byte>, ghost top: seq<Item>, ghost path: seq<nat>,
                     ghost k: nat, ghost q: nat)
    returns (r: int)
    requires Represents(s, strtab, top) && Inside(top, path, k)
    requires q < |Sub(top, path + [k])| && Sub(top, path + [k])[q].Node? && off == OffsetOf(top, path + [k], q)
    ensures var list, p := Sub(top, path + [k]), NextKid(Sub(top, path + [k]), q + 1);
      r == if p < |list| then OffsetOf(top, path + [k], p) else -ERR_NOTFOUND
  {
    hide EncAll, Toks, Sub, Before, Off, OffsetOf, Index, Next, Ordered, Named, Walk, Shallow;
    ghost var ts, j := BlockToks(top), Index(top, path + [k], q);
    ghost var p := NextKid(Sub(top, path + [k]), q + 1);
    ShallowHop(ts, Index(top, path + [k], q + 1), 0);
    SiblingWalk(top, path, k, q);
    HopFrom(top, path, k, q + 1);
    TokenAtItem(top, path, k, p);
    ghost var goal := Shallow(Walk(ts, Index(top, path + [k], q + 1), 0));
    assert if p < |Sub(top, path + [k])| then goal != [] && goal[0] == (Index(top, path + [k], p), 1) else goal == [];
    var depth := 1;
    r := off;
    while true
      invariant 0 <= j < |ts| && ts[j].Begin? && r == Off(ts, j) && depth >= 1
      invariant Shallow(Walk(ts, j + 1, depth)) == goal
      decreases |ts| - j
    {
      ghost var h := Next(ts, j + 1, depth, true);
      ShallowHop(ts, j + 1, depth);
      r, depth := NextNode(s, r, depth, true, ts, j);
      if r < 0 || depth < 1 {
        return -ERR_NOTFOUND;
      }
      j := h.index;
      if depth <= 1 {
        assert goal[0] == (j, depth);
        return;
      }
    }
  }
}
