/**
 * The meaning of a concrete tree: names and values only.  NOPs and padding
 * disappear and string offsets are looked up in the strings block.
 */
module Views {
  import opened Bytes
  import opened Tokens
  import opened Trees

  datatype PropVal = PropVal(name: seq<byte>, val: seq<byte>)
  datatype Tree = Tree(name: seq<byte>, props: seq<PropVal>, kids: seq<Tree>)

  predicate HasStr(strtab: seq<byte>, o: nat) {
    o < |strtab| && Nul(strtab, o) < |strtab|
  }

  /** The NUL-terminated string at offset o. */
  function Str(strtab: seq<byte>, o: nat): seq<byte> {
    if o < |strtab| then strtab[o..Nul(strtab, o)] else []
  }

  /** Every property name of a token list is a string of the table. */
  predicate Named(ts: seq<Token>, strtab: seq<byte>) {
    forall i :: 0 <= i < |ts| && ts[i].Prop? ==> HasStr(strtab, ts[i].nameoff)
  }

  function PropsOf(items: seq<Item>, strtab: seq<byte>): seq<PropVal> {
    if items == [] then [] else ItemProps(items[0], strtab) + PropsOf(items[1..], strtab)
  }

  function ItemProps(it: Item, strtab: seq<byte>): seq<PropVal> {
    if it.IProp? then [PropVal(Str(strtab, it.nameoff), it.val)] else []
  }

  function KidsOf(items: seq<Item>, strtab: seq<byte>): seq<Tree>
    decreases items, 0
  {
    if items == [] then [] else ItemKids(items[0], strtab) + KidsOf(items[1..], strtab)
  }

  function ItemKids(it: Item, strtab: seq<byte>): seq<Tree>
    decreases it, 1
  {
    if it.Node? then [View(it, strtab)] else []
  }

  function View(it: Item, strtab: seq<byte>): Tree
    requires it.Node?
    decreases it, 0
  {
    Tree(it.name, PropsOf(it.items, strtab), KidsOf(it.items, strtab))
  }

  /** The whole blob as one tree whose children are the top-level nodes. */
  function TreeOf(top: seq<Item>, strtab: seq<byte>): Tree {
    Tree([], PropsOf(top, strtab), KidsOf(top, strtab))
  }

  lemma {:induction false} PropsConcat(a: seq<Item>, b: seq<Item>, strtab: seq<byte>)
    ensures PropsOf(a + b, strtab) == PropsOf(a, strtab) + PropsOf(b, strtab)
  {
    if a == [] {
      assert a + b == b;
    } else {
      PropsConcat(a[1..], b, strtab);
      assert (a + b)[1..] == a[1..] + b && (a + b)[0] == a[0];
      hide ItemProps;
      Assoc(ItemProps(a[0], strtab), PropsOf(a[1..], strtab), PropsOf(b, strtab));
    }
  }

  lemma {:induction false} KidsConcat(a: seq<Item>, b: seq<Item>, strtab: seq<byte>)
    ensures KidsOf(a + b, strtab) == KidsOf(a, strtab) + KidsOf(b, strtab)
  {
    if a == [] {
      assert a + b == b;
    } else {
      KidsConcat(a[1..], b, strtab);
      assert (a + b)[1..] == a[1..] + b && (a + b)[0] == a[0];
      hide ItemKids;
      Assoc(ItemKids(a[0], strtab), KidsOf(a[1..], strtab), KidsOf(b, strtab));
    }
  }

  lemma OneItem(it: Item, strtab: seq<byte>)
    ensures PropsOf([it], strtab) == ItemProps(it, strtab)
    ensures KidsOf([it], strtab) == ItemKids(it, strtab)
  {
    assert [it][1..] == [];
  }

  /** Appending to the strings block changes no name that it already holds. */
  lemma StrExtend(strtab: seq<byte>, x: seq<byte>, o: nat)
    requires HasStr(strtab, o)
    ensures HasStr(strtab + x, o) && Str(strtab + x, o) == Str(strtab, o)
  {
    NulExtend(strtab, x, o);
  }

  lemma {:induction false} NulExtend(s: seq<byte>, x: seq<byte>, o: nat)
    requires o < |s| && Nul(s, o) < |s|
    ensures Nul(s + x, o) == Nul(s, o)
    decreases |s| - o
  {
    assert (s + x)[o] == s[o];
    if s[o] == 0 {
    } else {
      NulExtend(s, x, o + 1);
    }
  }

  lemma NamedConcat(a: seq<Token>, b: seq<Token>, strtab: seq<byte>)
    ensures Named(a + b, strtab) <==> Named(a, strtab) && Named(b, strtab)
  {
    var c := a + b;
    assert forall i :: 0 <= i < |a| ==> c[i] == a[i];
    assert forall i :: 0 <= i < |b| ==> c[|a| + i] == b[i];
    if Named(a, strtab) && Named(b, strtab) {
      forall i | 0 <= i < |c| && c[i].Prop? ensures HasStr(strtab, c[i].nameoff) {
        if i >= |a| {
          assert c[i] == b[i - |a|];
        }
      }
    }
  }

  lemma {:induction false} ViewExtend(items: seq<Item>, strtab: seq<byte>, x: seq<byte>)
    requires Named(Toks(items), strtab)
    ensures Named(Toks(items), strtab + x)
    ensures PropsOf(items, strtab + x) == PropsOf(items, strtab)
    ensures KidsOf(items, strtab + x) == KidsOf(items, strtab)
    decreases items
  {
    if items == [] {
    } else {
      var it := items[0];
      NamedConcat(ItemToks(it), Toks(items[1..]), strtab);
      NamedConcat(ItemToks(it), Toks(items[1..]), strtab + x);
      ViewExtend(items[1..], strtab, x);
      match it
      case INop =>
      case IProp(o, v, p) =>
        assert ItemToks(it)[0] == Prop(o, v, p);
        StrExtend(strtab, x, o);
      case Node(n, p, sub) =>
        NodeNamed(it, strtab);
        NodeNamed(it, strtab + x);
        ViewExtend(sub, strtab, x);
        assert View(it, strtab + x) == View(it, strtab);
    }
  }

  lemma NodeNamed(it: Item, strtab: seq<byte>)
    requires it.Node?
    ensures Named(ItemToks(it), strtab) <==> Named(Toks(it.items), strtab)
  {
    NamedConcat([Begin(it.name, it.pad)], Toks(it.items), strtab);
    NamedConcat([Begin(it.name, it.pad)] + Toks(it.items), [EndNode], strtab);
  }

  // ------------------------------------------------------------- editing a view

  /** The child numbers along a path of item indices. */
  function KidPath(items: seq<Item>, path: seq<nat>, strtab: seq<byte>): seq<nat>
    requires ValidPath(items, path)
  {
    if path == [] then [] else
    [|KidsOf(items[..path[0]], strtab)|] + KidPath(items[path[0]].items, path[1..], strtab)
  }

  predicate ValidKidPath(t: Tree, path: seq<nat>) {
    path == [] || (path[0] < |t.kids| && ValidKidPath(t.kids[path[0]], path[1..]))
  }

  function Subtree(t: Tree, path: seq<nat>): Tree
    requires ValidKidPath(t, path)
  {
    if path == [] then t else Subtree(t.kids[path[0]], path[1..])
  }

  /** The tree with new properties and children for the node at path, everything else as before. */
  function Update(t: Tree, path: seq<nat>, props: seq<PropVal>, kids: seq<Tree>): Tree
    requires ValidKidPath(t, path)
  {
    if path == [] then Tree(t.name, props, kids)
    else t.(kids := t.kids[path[0] := Update(t.kids[path[0]], path[1..], props, kids)])
  }

  lemma KidAt(items: seq<Item>, k: nat, strtab: seq<byte>)
    requires k < |items| && items[k].Node?
    ensures var j := |KidsOf(items[..k], strtab)|;
      j < |KidsOf(items, strtab)| && KidsOf(items, strtab)[j] == View(items[k], strtab)
  {
    hide View;
    SplitView(items, k, strtab);
  }

  /** Replacing a property item changes one entry of the property list. */
  lemma ReplaceView(items: seq<Item>, k: nat, it: Item, strtab: seq<byte>)
    requires k < |items| && items[k].IProp? && it.IProp?
    ensures |PropsOf(items[..k], strtab)| < |PropsOf(items, strtab)|
    ensures PropsOf(items[k := it], strtab)
         == PropsOf(items, strtab)[|PropsOf(items[..k], strtab)| := PropVal(Str(strtab, it.nameoff), it.val)]
    ensures KidsOf(items[k := it], strtab) == KidsOf(items, strtab)
  {
    hide Str;
    SplitView(items, k, strtab);
    SplitView(items[k := it], k, strtab);
    assert items[k := it][..k] == items[..k] && items[k := it][k + 1..] == items[k + 1..];
  }

  /** The view of a list around item k. */
  lemma SplitView(items: seq<Item>, k: nat, strtab: seq<byte>)
    requires k < |items|
    ensures PropsOf(items, strtab)
         == PropsOf(items[..k], strtab) + ItemProps(items[k], strtab) + PropsOf(items[k + 1..], strtab)
    ensures KidsOf(items, strtab)
         == KidsOf(items[..k], strtab) + ItemKids(items[k], strtab) + KidsOf(items[k + 1..], strtab)
  {
    hide ItemProps, ItemKids;
    assert items == items[..k] + [items[k]] + items[k + 1..];
    OneItem(items[k], strtab);
    PropsConcat(items[..k] + [items[k]], items[k + 1..], strtab);
    PropsConcat(items[..k], [items[k]], strtab);
    KidsConcat(items[..k] + [items[k]], items[k + 1..], strtab);
    KidsConcat(items[..k], [items[k]], strtab);
  }

  lemma ReplaceNode(items: seq<Item>, k: nat, it: Item, strtab: seq<byte>)
    requires k < |items| && items[k].Node? && it.Node?
    ensures PropsOf(items[k := it], strtab) == PropsOf(items, strtab)
    ensures |KidsOf(items[..k], strtab)| < |KidsOf(items, strtab)|
    ensures KidsOf(items[k := it], strtab)
         == KidsOf(items, strtab)[|KidsOf(items[..k], strtab)| := View(it, strtab)]
  {
    hide View;
    SplitView(items, k, strtab);
    SplitView(items[k := it], k, strtab);
    assert items[k := it][..k] == items[..k] && items[k := it][k + 1..] == items[k + 1..];
  }

  /** New contents for one list of the concrete tree mean new contents for one node of the tree, and nothing else. */
  lemma {:induction false} SetView(top: seq<Item>, name: seq<byte>, path: seq<nat>, list: seq<Item>, strtab: seq<byte>)
    requires ValidPath(top, path)
    ensures var t := Tree(name, PropsOf(top, strtab), KidsOf(top, strtab));
      var t' := Tree(name, PropsOf(SetSub(top, path, list), strtab), KidsOf(SetSub(top, path, list), strtab));
      && ValidKidPath(t, KidPath(top, path, strtab))
      && Subtree(t, KidPath(top, path, strtab)).props == PropsOf(Sub(top, path), strtab)
      && Subtree(t, KidPath(top, path, strtab)).kids == KidsOf(Sub(top, path), strtab)
      && t' == Update(t, KidPath(top, path, strtab), PropsOf(list, strtab), KidsOf(list, strtab))
  {
    if path == [] {
    } else {
      var k := path[0];
      var n := top[k];
      SetView(n.items, n.name, path[1..], list, strtab);
      KidAt(top, k, strtab);
      ReplaceNode(top, k, n.(items := SetSub(n.items, path[1..], list)), strtab);
    }
  }
}
