/**
 * Ancestors by one scan from the root (fdt_supernode_atdepth_offset): the last node
 * seen at a depth, up to the target, is the target's ancestor at that depth.
 */
module Ancestry {
  import opened Bytes
  import opened Tokens
  import opened Trees
  import opened Views
  import opened Walks
  import opened Scan
  import opened Lookup
  import opened Splices
  import opened Edits
  import opened NodeEdits
  import opened Locations

  // ------------------------------------------------------------- addresses

  /** The address of a node: its item number in each list from the top list down. */
  predicate Addr(items: seq<Item>, f: seq<nat>) {
    f != [] && f[0] < |items| && items[f[0]].Node? && (|f| == 1 || Addr(items[f[0]].items, f[1..]))
  }

  /** The token index of the node at an address. */
  function Idx(items: seq<Item>, f: seq<nat>): nat
    requires Addr(items, f)
  {
    |Toks(items[..f[0]])| + if |f| == 1 then 0 else 1 + Idx(items[f[0]].items, f[1..])
  }

  /** The address of the ancestor d levels below the top of the address. */
  lemma {:induction false} Prefix(items: seq<Item>, f: seq<nat>, d: nat)
    requires Addr(items, f) && d < |f|
    ensures Addr(items, f[..d + 1])
  {
    if d == 0 {
    } else {
      Prefix(items[f[0]].items, f[1..], d - 1);
      assert f[..d + 1][1..] == f[1..][..d];
    }
  }

  lemma {:induction false} AddrIs(items: seq<Item>, path: seq<nat>, k: nat)
    requires NodeAt(items, path, k)
    ensures Addr(items, path + [k]) && Idx(items, path + [k]) == Index(items, path, k)
    decreases |path|
  {
    var f := path + [k];
    if path == [] {
    } else {
      assert f[1..] == path[1..] + [k];
      AddrIs(items[path[0]].items, path[1..], k);
    }
  }

  lemma {:induction false} AddrNode(items: seq<Item>, f: seq<nat>)
    requires Addr(items, f)
    ensures NodeAt(items, f[..|f| - 1], f[|f| - 1]) && Idx(items, f) == Index(items, f[..|f| - 1], f[|f| - 1])
    decreases |f|
  {
    if |f| <= 1 {
    } else {
      AddrNode(items[f[0]].items, f[1..]);
      assert f[..|f| - 1][1..] == f[1..][..|f| - 2];
    }
  }

  /** The same node seen from the list without its first item. */
  function Shift(f: seq<nat>): seq<nat>
    requires f != [] && f[0] > 0
  {
    [f[0] - 1] + f[1..]
  }

  lemma ShiftIdx(items: seq<Item>, f: seq<nat>)
    requires Addr(items, f) && f[0] > 0
    ensures Addr(items[1..], Shift(f)) && Idx(items, f) == |ItemToks(items[0])| + Idx(items[1..], Shift(f))
  {
    assert Shift(f)[1..] == f[1..];
    PrefixToks(items, f[0] - 1);
  }

  // --------------------------------------------------------------- the scan

  /** Scan visited nodes for a target: the last one at depth d up to the target, and the target's depth. */
  function ScanTo(w: seq<(nat, int)>, target: nat, d: int, acc: int): Option<(int, int)> {
    if w == [] then None else
    var acc' := if w[0].1 == d then w[0].0 else acc;
    if w[0].0 == target then Some((acc', w[0].1)) else ScanTo(w[1..], target, d, acc')
  }

  /** Nodes that are not the target and not at the depth leave no trace. */
  lemma {:induction false} ScanSkip(a: seq<(nat, int)>, w: seq<(nat, int)>, target: nat, d: int, acc: int)
    returns (last: int)
    requires forall m :: 0 <= m < |a| ==> a[m].0 != target
    ensures ScanTo(a + w, target, d, acc) == ScanTo(w, target, d, last)
    ensures (forall m :: 0 <= m < |a| ==> a[m].1 != d) ==> last == acc
  {
    if a == [] {
      assert a + w == w;
      return acc;
    }
    assert (a + w)[1..] == a[1..] + w && (a + w)[0] == a[0];
    last := ScanSkip(a[1..], w, target, d, if a[0].1 == d then a[0].0 else acc);
  }

  lemma {:induction false} ScanMiss(w: seq<(nat, int)>, target: nat, d: int, acc: int)
    requires forall m :: 0 <= m < |w| ==> w[m].0 != target
    ensures ScanTo(w, target, d, acc).None?
  {
    if w == [] {
    } else {
      ScanMiss(w[1..], target, d, if w[0].1 == d then w[0].0 else acc);
    }
  }

  /** A walk over a list stays inside its tokens. */
  lemma {:induction false} WalkRange(items: seq<Item>, i: nat, d: int)
    ensures forall m :: 0 <= m < |TreeWalk(items, i, d)| ==> i <= TreeWalk(items, i, d)[m].0 < i + |Toks(items)|
    decreases items
  {
    if items == [] {
    } else {
      var it := items[0];
      WalkRange(items[1..], i + |ItemToks(it)|, d);
      if it.Node? {
        WalkRange(it.items, i + 1, d + 1);
        assert ItemWalk(it, i, d) == [(i, d + 1)] + TreeWalk(it.items, i + 1, d + 1);
        assert |ItemToks(it)| == |Toks(it.items)| + 2;
      }
    }
  }

  /** A scan over a list passes over its first item when the target lies behind it. */
  lemma SkipItem(it: Item, i: nat, dep: int, w: seq<(nat, int)>, target: nat, d: int, acc: int) returns (last: int)
    requires target >= i + |ItemToks(it)|
    ensures ScanTo(ItemWalk(it, i, dep) + w, target, d, acc) == ScanTo(w, target, d, last)
    ensures d <= dep ==> last == acc
  {
    WalkRange([it], i, dep);
    DeepWalk([it], i, dep);
    assert TreeWalk([it], i, dep) == ItemWalk(it, i, dep) + TreeWalk([], i + |ItemToks(it)|, dep);
    assert ItemWalk(it, i, dep) + [] == ItemWalk(it, i, dep);
    ToksOne(it);
    last := ScanSkip(ItemWalk(it, i, dep), w, target, d, acc);
  }

  /** A scan enters a node by seeing the node itself. */
  lemma EnterNode(it: Item, i: nat, dep: int, w: seq<(nat, int)>, target: nat, d: int, acc: int)
    requires it.Node?
    ensures var acc' := if d == dep + 1 then i else acc;
      ScanTo(ItemWalk(it, i, dep) + w, target, d, acc) ==
      if target == i then Some((acc', dep + 1)) else ScanTo(TreeWalk(it.items, i + 1, dep + 1) + w, target, d, acc')
  {
    var inner := TreeWalk(it.items, i + 1, dep + 1);
    var all := [(i, dep + 1)] + (inner + w);
    assert ItemWalk(it, i, dep) + w == all;
    assert all[1..] == inner + w && all[0] == (i, dep + 1);
  }

  /** The ancestor of f at depth d of a walk at depth dep, or acc when that lies above the walk. */
  function Above(items: seq<Item>, i: nat, dep: int, f: seq<nat>, d: int, acc: int): int
    requires Addr(items, f) && d < dep + 1 + |f|
  {
    if d <= dep then acc else
    Prefix(items, f, d - dep - 1);
    i + Idx(items, f[..d - dep])
  }

  lemma AboveEnter(items: seq<Item>, i: nat, dep: int, f: seq<nat>, d: int, acc: int)
    requires Addr(items, f) && |f| > 1 && f[0] == 0 && d < dep + 1 + |f|
    ensures Addr(items[0].items, f[1..]) && Idx(items, f) == 1 + Idx(items[0].items, f[1..])
    ensures Above(items, i, dep, f, d, acc)
         == Above(items[0].items, i + 1, dep + 1, f[1..], d, if d == dep + 1 then i else acc)
  {
    assert items[..0] == [];
    if d > dep + 1 {
      Prefix(items, f, d - dep - 1);
      assert f[..d - dep][1..] == f[1..][..d - dep - 1];
    }
  }

  lemma AboveSkip(items: seq<Item>, i: nat, dep: int, f: seq<nat>, d: int, acc: int, last: int)
    requires Addr(items, f) && f[0] > 0 && d < dep + 1 + |f| && (d <= dep ==> last == acc)
    ensures Addr(items[1..], Shift(f)) && Idx(items, f) == |ItemToks(items[0])| + Idx(items[1..], Shift(f))
    ensures Above(items, i, dep, f, d, acc)
         == Above(items[1..], i + |ItemToks(items[0])|, dep, Shift(f), d, last)
  {
    ShiftIdx(items, f);
    if d > dep {
      Prefix(items, f, d - dep - 1);
      assert Shift(f[..d - dep]) == Shift(f)[..d - dep];
      ShiftIdx(items, f[..d - dep]);
    }
  }

  /** The ancestry lemma. */
  lemma {:induction false} ScanFinds(items: seq<Item>, i: nat, dep: int, w: seq<(nat, int)>, f: seq<nat>, d: int,
                                     acc: int)
    requires Addr(items, f) && d < dep + 1 + |f|
    ensures ScanTo(TreeWalk(items, i, dep) + w, i + Idx(items, f), d, acc)
      == Some((Above(items, i, dep, f, d, acc), dep + |f|))
    decreases items
  {
    hide ScanTo, Toks, ItemToks;
    var it, rest := items[0], items[1..];
    var tail := TreeWalk(rest, i + |ItemToks(it)|, dep) + w;
    assert TreeWalk(items, i, dep) + w == ItemWalk(it, i, dep) + tail by {
      Assoc(ItemWalk(it, i, dep), TreeWalk(rest, i + |ItemToks(it)|, dep), w);
    }
    if f[0] == 0 {
      EnterNode(it, i, dep, tail, i + Idx(items, f), d, acc);
      if |f| > 1 {
        AboveEnter(items, i, dep, f, d, acc);
        ScanFinds(it.items, i + 1, dep + 1, tail, f[1..], d, if d == dep + 1 then i else acc);
      } else {
        NoItems(items);
        assert d > dep ==> f[..d - dep] == f;
      }
    } else {
      ShiftIdx(items, f);
      var last := SkipItem(it, i, dep, tail, i + Idx(items, f), d, acc);
      AboveSkip(items, i, dep, f, d, acc, last);
      ScanFinds(rest, i + |ItemToks(it)|, dep, w, Shift(f), d, last);
    }
  }

  lemma NoItems(items: seq<Item>)
    ensures Toks(items[..0]) == []
  {
  }

  // ---------------------------------------------------- ancestors by offset

  /** One node at the top, and nothing before it. */
  predicate SingleRoot(top: seq<Item>) {
    top != [] && top[0].Node? && forall j :: 1 <= j < |top| ==> !top[j].Node?
  }

  /** The offset of the node at an address. */
  function OffAt(top: seq<Item>, f: seq<nat>): nat
    requires Addr(top, f)
  {
    AddrInBlock(top, f);
    Off(BlockToks(top), Idx(top, f))
  }

  lemma AddrInBlock(top: seq<Item>, f: seq<nat>)
    requires Addr(top, f)
    ensures IsNode(top, Idx(top, f))
  {
    AddrNode(top, f);
    NodeInBlock(top, f[..|f| - 1], f[|f| - 1]);
  }

  /** Where the root's END_NODE is behind: every offset from here on is outside the root. */
  function RootEnd(top: seq<Item>): (e: nat)
    requires top != []
    ensures e < |BlockToks(top)|
  {
    |ItemToks(top[0])|
  }

  /** f is the address of the node at an offset, or [] when there is no node. */
  ghost predicate Target(top: seq<Item>, f: seq<nat>, off: int) {
    if f == [] then forall j :: IsNode(top, j) ==> Off(BlockToks(top), j) != off
    else Addr(top, f) && off == OffAt(top, f)
  }

  lemma {:induction false} OffMono(ts: seq<Token>, i: nat, j: nat)
    requires i < j <= |ts|
    ensures Off(ts, i) < Off(ts, j)
    decreases j
  {
    hide Enc, EncAll, Off;
    OffStep(ts, j - 1);
    if i >= j - 1 {
    } else {
      OffMono(ts, i, j - 1);
    }
  }

  /** Offsets of different tokens compare like their indices. */
  lemma OffOrder(ts: seq<Token>, i: nat, j: nat)
    requires i <= |ts| && j <= |ts|
    ensures Off(ts, i) <= Off(ts, j) <==> i <= j
  {
    hide Off;
    if i < j {
      OffMono(ts, i, j);
    } else if j < i {
      OffMono(ts, j, i);
    }
  }

  /** The depth that a scan reports does not depend on the depth it looks for. */
  lemma {:induction false} ScanDepth(w: seq<(nat, int)>, target: nat, d: int, acc: int, d1: int, acc1: int)
    ensures ScanTo(w, target, d, acc).Some? <==> ScanTo(w, target, d1, acc1).Some?
    ensures ScanTo(w, target, d, acc).Some? ==> ScanTo(w, target, d, acc).value.1 == ScanTo(w, target, d1, acc1).value.1
  {
    if w != [] && w[0].0 != target {
      ScanDepth(w[1..], target, d, if w[0].1 == d then w[0].0 else acc, d1, if w[0].1 == d1 then w[0].0 else acc1);
    }
  }

  lemma {:induction false} WalkAhead(ts: seq<Token>, i: nat, d: int)
    ensures forall m :: 0 <= m < |Walk(ts, i, d)| ==> i <= Walk(ts, i, d)[m].0
    decreases |ts| - i
  {
    var h := Next(ts, i, d, true);
    if h.Down? {
      WalkAhead(ts, h.index + 1, h.depth);
    }
  }

  /** The nodes that the scan has yet to see, standing at node j. */
  function Ahead(ts: seq<Token>, j: nat, depth: int): seq<(nat, int)> {
    [(j, depth)] + Walk(ts, j + 1, depth)
  }

  /** What the whole scan finds for a target. */
  lemma WholeScan(top: seq<Item>, f: seq<nat>, d: nat)
    requires SingleRoot(top) && Addr(top, f)
    ensures WalkEnd(BlockToks(top), 1, 0) == Up(RootEnd(top))
    ensures var r := ScanTo(Ahead(BlockToks(top), 0, 0), Idx(top, f), d, -1);
      r.Some? && r.value.1 == |f| - 1 && (d < |f| ==> Addr(top, f[..d + 1]) && r.value.0 == Idx(top, f[..d + 1]))
  {
    hide Walk, WalkEnd, TreeWalk, ScanTo, BlockToks, RootEnd;
    RootWalk(top);
    var ts, root := BlockToks(top), top[0];
    OneWalk(root);
    assert TreeWalk([root], 0, -1) + [] == Ahead(ts, 0, 0);
    InRoot(top, f);
    ScanFinds([root], 0, -1, [], f, 0, -1);
    ScanDepth(Ahead(ts, 0, 0), Idx(top, f), d, -1, 0, -1);
    if d < |f| {
      ScanFinds([root], 0, -1, [], f, d, -1);
      Prefix(top, f, d);
      InRoot(top, f[..d + 1]);
    }
  }

  lemma OneWalk(root: Item)
    requires root.Node?
    ensures TreeWalk([root], 0, -1) == [(0, 0)] + TreeWalk(root.items, 1, 0)
  {
    assert [root][1..] == [];
  }

  /** With one root every address starts there. */
  lemma InRoot(top: seq<Item>, f: seq<nat>)
    requires SingleRoot(top) && Addr(top, f)
    ensures f[0] == 0 && Addr([top[0]], f) && Idx([top[0]], f) == Idx(top, f)
  {
    assert top[..0] == [top[0]][..0];
  }

  lemma RootWalk(top: seq<Item>)
    requires SingleRoot(top)
    ensures var ts := BlockToks(top);
      && Walk(ts, 1, 0) == TreeWalk(top[0].items, 1, 0) && WalkEnd(ts, 1, 0) == Up(RootEnd(top))
      && ts[0].Begin? && !ts[RootEnd(top)].Begin? && |ts| > 1
  {
    hide Walk, WalkEnd, TreeWalk;
    assert top[..0] == [];
    assert NodeAt(top, [], 0) && Index(top, [], 0) == 0;
    NodeWalk(top, [], 0);
    NodeInBlock(top, [], 0);
    AfterRoot(top, RootEnd(top));
  }

  /** No node starts behind the root. */
  lemma AfterRoot(top: seq<Item>, e: nat)
    requires SingleRoot(top) && RootEnd(top) <= e < |BlockToks(top)|
    ensures !BlockToks(top)[e].Begin?
  {
    var ts, root, rest := BlockToks(top), top[0], top[1..];
    assert ts == ItemToks(root) + Toks(rest) + [End];
    if e < |ts| - 1 {
      FlatToks(rest, e - |ItemToks(root)|);
    }
  }

  lemma {:induction false} FlatToks(items: seq<Item>, e: nat)
    requires (forall j :: 0 <= j < |items| ==> !items[j].Node?) && e < |Toks(items)|
    ensures !Toks(items)[e].Begin?
  {
    if e == 0 {
    } else {
      FlatToks(items[1..], e - 1);
    }
  }

  /** Standing at node j at this depth, with acc the last node seen at depth d (or -1). */
  ghost predicate Seen(top: seq<Item>, f: seq<nat>, d: nat, j: int, depth: int, acc: int) {
    var ts := BlockToks(top);
    && 0 <= j < |ts| && ts[j].Begin? && depth >= 0 && acc < |ts| && WalkEnd(ts, j + 1, depth) == Up(RootEnd(top))
    && (f != [] ==>
          Addr(top, f) && ScanTo(Ahead(ts, j, depth), Idx(top, f), d, acc)
            == ScanTo(Ahead(ts, 0, 0), Idx(top, f), d, -1))
  }

  lemma SeenRoot(top: seq<Item>, f: seq<nat>, d: nat)
    requires SingleRoot(top) && (f != [] ==> Addr(top, f))
    ensures Seen(top, f, d, 0, 0, -1) && Off(BlockToks(top), 0) == 0 && IsNode(top, 0)
  {
    RootWalk(top);
    OffZero(BlockToks(top));
  }

  /** The node to look at next, or the end of the root when the target is no node. */
  lemma SeenNext(top: seq<Item>, f: seq<nat>, d: nat, j: int, depth: int, acc: int)
    requires SingleRoot(top) && Seen(top, f, d, j, depth, acc) && (f != [] ==> j != Idx(top, f))
    ensures match Next(BlockToks(top), j + 1, depth, true)
      case Down(i, e) => j < i && Seen(top, f, d, i, e, if depth == d then j else acc)
      case Up(i) => f == [] && i == RootEnd(top)
      case Stop(_) => false
  {
    hide BlockToks, RootEnd, Next, Idx, Addr;
    var ts := BlockToks(top);
    var h := Next(ts, j + 1, depth, true);
    assert Ahead(ts, j, depth)[1..] == Walk(ts, j + 1, depth);
    assert h.Down? ==> Walk(ts, j + 1, depth) == Ahead(ts, h.index, h.depth);
    if f != [] {
      WholeScan(top, f, d);
      var acc' := if depth == d then j else acc;
      assert ScanTo(Ahead(ts, j, depth), Idx(top, f), d, acc) == ScanTo(Walk(ts, j + 1, depth), Idx(top, f), d, acc');
    }
  }

  /** The scan has not passed its target, and ends at it. */
  lemma SeenTarget(top: seq<Item>, f: seq<nat>, d: nat, j: int, depth: int, acc: int)
    requires SingleRoot(top) && Seen(top, f, d, j, depth, acc)
    ensures f != [] ==> j <= Idx(top, f)
    ensures f != [] && j == Idx(top, f) ==>
      && depth == |f| - 1
      && (d < |f| ==> Addr(top, f[..d + 1]) && (if depth == d then j else acc) == Idx(top, f[..d + 1]))
    ensures j < RootEnd(top)
  {
    hide Walk, WalkEnd, BlockToks, RootEnd, Next, Idx, Addr;
    var ts := BlockToks(top);
    if j >= RootEnd(top) {
      AfterRoot(top, j);
    }
    if f != [] {
      WholeScan(top, f, d);
      if j > Idx(top, f) {
        WalkAhead(ts, j + 1, depth);
        ScanMiss(Ahead(ts, j, depth), Idx(top, f), d, acc);
      }
    }
  }

  /** The node that the scan looks at, compared by offset. */
  lemma SeenOffset(top: seq<Item>, f: seq<nat>, d: nat, j: int, depth: int, acc: int, off: int)
    requires SingleRoot(top) && Seen(top, f, d, j, depth, acc) && Target(top, f, off)
    ensures Off(BlockToks(top), j) == off <==> f != [] && j == Idx(top, f)
    ensures f != [] ==> Off(BlockToks(top), j) <= off
    ensures Off(BlockToks(top), j) < Off(BlockToks(top), RootEnd(top))
  {
    hide Walk, WalkEnd, BlockToks, RootEnd, Next, Idx, Addr, Off, ScanTo;
    var ts := BlockToks(top);
    SeenTarget(top, f, d, j, depth, acc);
    OffOrder(ts, RootEnd(top), j);
    if f != [] {
      AddrInBlock(top, f);
      OffOrder(ts, j, Idx(top, f));
      OffOrder(ts, Idx(top, f), j);
    } else {
      assert IsNode(top, j);
    }
  }

  /** fdt_supernode_atdepth_offset; nodedepth keeps -1 where the source leaves it alone. */
  method SupernodeAtDepth(s: seq<byte>, nodeoffset: int, supernodedepth: int,
                          ghost strtab: seq<byte>, ghost top: seq<Item>, ghost f: seq<nat>)
    returns (r: int, nodedepth: int)
    requires Represents(s, strtab, top) && SingleRoot(top) && Target(top, f, nodeoffset)
    ensures supernodedepth < 0 ==> r == -ERR_NOTFOUND
    ensures supernodedepth >= 0 && f != [] ==> nodedepth == |f| - 1
    ensures supernodedepth >= |f| > 0 ==> r == -ERR_NOTFOUND
    ensures 0 <= supernodedepth < |f| ==>
      Addr(top, f[..supernodedepth + 1]) && r == OffAt(top, f[..supernodedepth + 1])
    ensures supernodedepth >= 0 && f == [] ==>
      var end := Off(BlockToks(top), RootEnd(top));
      r == if nodeoffset < end then -ERR_BADOFFSET else if nodeoffset == end then -ERR_NOTFOUND else -ERR_BADSTRUCTURE
  {
    hide TagAt, EncAll, Off, Ordered, Named, Toks, Idx, Seen, Addr, Next, RootEnd, Walk, ScanTo;
    nodedepth := -1;
    if supernodedepth < 0 {
      return -ERR_NOTFOUND, nodedepth;
    }
    ghost var ts, end := BlockToks(top), RootEnd(top);
    ghost var j, acc := 0, -1;
    var offset, depth, super := 0, 0, -ERR_INTERNAL;
    SeenRoot(top, f, supernodedepth);
    AfterRoot(top, end);
    while offset >= 0 && offset <= nodeoffset
      invariant 0 <= j < |ts| && (depth < 0 ==> f == [] && depth == -1)
      invariant depth >= 0 ==>
        && Seen(top, f, supernodedepth, j, depth, acc) && ts[j].Begin? && acc < |ts| && offset == Off(ts, j)
        && super == if acc < 0 then -ERR_INTERNAL else Off(ts, acc)
      invariant depth < 0 ==> offset == Off(ts, end) || (offset == -ERR_BADOFFSET && Off(ts, end) < nodeoffset)
      decreases if depth >= 0 then |ts| - j + 2 else if offset >= 0 then 1 else 0
    {
      if depth == supernodedepth {
        super := offset;
      }
      if offset == nodeoffset {
        nodedepth := depth;
        if depth >= 0 {
          SeenOffset(top, f, supernodedepth, j, depth, acc, nodeoffset);
          SeenTarget(top, f, supernodedepth, j, depth, acc);
        }
        return if supernodedepth > depth then -ERR_NOTFOUND else super, nodedepth;
      }
      ghost var i := if depth >= 0 then j else end;
      ghost var h := Next(ts, j + 1, depth, true);
      if depth >= 0 {
        SeenOffset(top, f, supernodedepth, j, depth, acc, nodeoffset);
        SeenNext(top, f, supernodedepth, j, depth, acc);
        acc := if depth == supernodedepth then j else acc;
        j := if h.Down? then h.index else j;
      }
      offset, depth := NextNode(s, offset, depth, true, ts, i);
    }
    if depth >= 0 {
      SeenOffset(top, f, supernodedepth, j, depth, acc, nodeoffset);
    }
    r := if offset == -ERR_NOTFOUND || offset >= 0 then -ERR_BADOFFSET
         else if offset == -ERR_BADOFFSET then -ERR_BADSTRUCTURE else offset;
  }

  /** fdt_node_depth */
  method NodeDepth(s: seq<byte>, nodeoffset: int, ghost strtab: seq<byte>, ghost top: seq<Item>, ghost f: seq<nat>)
    returns (r: int)
    requires Represents(s, strtab, top) && SingleRoot(top) && Target(top, f, nodeoffset)
    ensures f != [] ==> r == |f| - 1
    ensures f == [] ==> r < 0
  {
    hide Represents, SingleRoot, BlockToks;
    var err, nodedepth := SupernodeAtDepth(s, nodeoffset, 0, strtab, top, f);
    if f != [] {
      RootOffset(top, f);
    }
    r := if err != 0 then if err < 0 then err else -ERR_INTERNAL else nodedepth;
  }

  lemma RootOffset(top: seq<Item>, f: seq<nat>)
    requires SingleRoot(top) && Addr(top, f)
    ensures Addr(top, f[..1]) && OffAt(top, f[..1]) == 0
  {
    InRoot(top, f);
    NoItems(top);
    OffZero(BlockToks(top));
  }

  /** fdt_parent_offset: the node one level up, and no parent for the root. */
  method ParentOffset(s: seq<byte>, nodeoffset: int, ghost strtab: seq<byte>, ghost top: seq<Item>, ghost f: seq<nat>)
    returns (r: int)
    requires Represents(s, strtab, top) && SingleRoot(top) && Target(top, f, nodeoffset)
    ensures |f| > 1 ==> Addr(top, f[..|f| - 1]) && r == OffAt(top, f[..|f| - 1])
    ensures |f| == 1 ==> r == -ERR_NOTFOUND
    ensures f == [] ==> r < 0
  {
    hide Represents, SingleRoot, Target, BlockToks;
    r := NodeDepth(s, nodeoffset, strtab, top, f);
    if r < 0 {
      return;
    }
    var depth;
    r, depth := SupernodeAtDepth(s, nodeoffset, r - 1, strtab, top, f);
  }

  /** Every node of the block has an address. */
  lemma TargetOf(top: seq<Item>, i: nat) returns (f: seq<nat>)
    requires IsNode(top, i)
    ensures f != [] && Target(top, f, Off(BlockToks(top), i))
  {
    hide Off;
    var path, k := Locate(top, i);
    AddrIs(top, path, k);
    f := path + [k];
  }
}
