/** Every node of a block has a place in the tree, and an edited list is an edited tree. */
module Locations {
  import opened Bytes
  import opened Tokens
  import opened Trees
  import opened Views
  import opened Lookup
  import opened Splices
  import opened Blob
  import opened Edits
  import opened PropEdits

  /** The BEGIN_NODE tokens of a list are exactly its nodes, at any depth. */
  lemma {:induction false} LocateIn(items: seq<Item>, i: nat) returns (path: seq<nat>, k: nat)
    requires i < |Toks(items)| && Toks(items)[i].Begin?
    ensures NodeAt(items, path, k) && Index(items, path, k) == i
    decreases items
  {
    var it, rest := items[0], items[1..];
    var n := |ItemToks(it)|;
    assert items[..0] == [];
    if i < n {
      assert ItemToks(it)[i].Begin?;
      if i == 0 {
        return [], 0;
      }
      assert ItemToks(it)[i] == Toks(it.items)[i - 1];
      path, k := LocateIn(it.items, i - 1);
      path := [0] + path;
      assert path[1..] == path[1..] && ([0] + path[1..])[1..] == path[1..];
    } else {
      path, k := LocateIn(rest, i - n);
      if path == [] {
        PrefixToks(items, k);
        k := k + 1;
      } else {
        PrefixToks(items, path[0]);
        path := [path[0] + 1] + path[1..];
      }
    }
  }

  lemma Locate(top: seq<Item>, i: nat) returns (path: seq<nat>, k: nat)
    requires IsNode(top, i)
    ensures NodeAt(top, path, k) && Index(top, path, k) == i
  {
    path, k := LocateIn(top, i);
  }

  /** An offset of any token is a proper argument for the edits, whatever the token is. */
  lemma NamesAll(top: seq<Item>, i: nat) returns (path: seq<nat>, k: nat)
    requires i < |BlockToks(top)|
    ensures Names(top, path, k, i, Off(BlockToks(top), i))
  {
    hide Off, NodeAt, Index;
    if IsNode(top, i) {
      path, k := Locate(top, i);
    } else {
      path, k := [], 0;
    }
  }

  lemma {:induction false} KidCount(items: seq<Item>, s: seq<byte>, t: seq<byte>)
    ensures |KidsOf(items, s)| == |KidsOf(items, t)|
    decreases |items|
  {
    if items == [] {
    } else {
      hide View;
      KidCount(items[1..], s, t);
    }
  }

  lemma {:induction false} KidPathSame(items: seq<Item>, path: seq<nat>, s: seq<byte>, t: seq<byte>)
    requires ValidPath(items, path)
    ensures KidPath(items, path, s) == KidPath(items, path, t)
  {
    if path == [] {
    } else {
      KidCount(items[..path[0]], s, t);
      KidPathSame(items[path[0]].items, path[1..], s, t);
    }
  }

  /**
   * The edit theorem: when a list at a path becomes items with these properties and children,
   * the tree becomes the old tree with that one node updated, and nothing else in it changes.
   */
  lemma EditedTree(f: Fdt, top: seq<Item>, list: seq<nat>, items: seq<Item>, props: seq<PropVal>, kids: seq<Tree>,
                   strtab: seq<byte>)
    requires Becomes(f, top, list, items, props, kids) && strtab <= f.Strings() && Named(Toks(top), strtab)
    ensures ValidKidPath(TreeOf(top, strtab), KidPath(top, list, strtab))
    ensures Subtree(TreeOf(top, strtab), KidPath(top, list, strtab)).props == PropsOf(Sub(top, list), strtab)
    ensures Subtree(TreeOf(top, strtab), KidPath(top, list, strtab)).kids == KidsOf(Sub(top, list), strtab)
    ensures TreeOf(SetSub(top, list, items), f.Strings())
         == Update(TreeOf(top, strtab), KidPath(top, list, strtab), props, kids)
  {
    hide Toks, Named, PropsOf, KidsOf, Represents, Update, Subtree, ValidKidPath, SetSub, KidPath;
    var grown := f.Strings();
    assert grown == strtab + grown[|strtab|..];
    ViewExtend(top, strtab, grown[|strtab|..]);
    SetView(top, [], list, items, grown);
    KidPathSame(top, list, strtab, grown);
    SetView(top, [], list, items, strtab);
  }
}
