/** Paths: fdt_get_path writes one during a scan, fdt_path_offset reads one, and they are inverse to each other. */
module Paths {
  import opened Bytes
  import opened Tokens
  import opened Trees
  import opened Views
  import opened Walks
  import opened Scan
  import opened Lookup
  import opened Splices
  import opened Ancestry

  const SLASH: byte := 47

  /** The names of a node's ancestors and of the node itself. */
  function PathNames(items: seq<Item>, f: seq<nat>): (names: seq<seq<byte>>)
    requires Addr(items, f)
    ensures |names| == |f|
  {
    [items[f[0]].name] + if |f| == 1 then [] else PathNames(items[f[0]].items, f[1..])
  }

  /** The names, each followed by a slash. */
  function Join(names: seq<seq<byte>>): (j: seq<byte>)
    ensures names != [] ==> j != [] && j[|j| - 1] == SLASH
  {
    if names == [] then [] else Join(names[..|names| - 1]) + names[|names| - 1] + [SLASH]
  }

  /** The path that fdt_get_path writes: no slash at the end, except that of the root alone. */
  function PathStr(names: seq<seq<byte>>): seq<byte> {
    if |Join(names)| > 1 then Join(names)[..|Join(names)| - 1] else Join(names)
  }

  // ------------------------------------------------------- open nodes of a scan

  /** The names of the nodes that are open just before token i. */
  function Stack(ts: seq<Token>, i: nat): seq<seq<byte>>
    requires i <= |ts|
  {
    if i == 0 then [] else
    var st := Stack(ts, i - 1);
    match ts[i - 1]
    case Begin(n, _) => st + [n]
    case EndNode => if st == [] then [] else st[..|st| - 1]
    case _ => st
  }

  /** Going to the next node closes some nodes and opens that one. */
  lemma {:induction false} StackNext(ts: seq<Token>, i: nat, d: nat)
    requires i <= |ts| && |Stack(ts, i)| == d + 1
    ensures match Next(ts, i, d, true)
      case Down(h, e) => 1 <= e <= d + 1 && Stack(ts, h) == Stack(ts, i)[..e]
      case _ => true
    decreases |ts| - i
  {
    if i >= |ts| {
    } else {
      match ts[i]
      case Begin(_, _) => assert Stack(ts, i)[..d + 1] == Stack(ts, i);
      case EndNode =>
        if d > 0 {
          StackNext(ts, i + 1, d - 1);
        }
      case End =>
      case _ => StackNext(ts, i + 1, d);
    }
  }

  /** A whole list leaves the open nodes as they were. */
  lemma {:induction false} StackItems(ts: seq<Token>, i: nat, items: seq<Item>)
    requires HasAt(ts, i, Toks(items))
    ensures Stack(ts, i + |Toks(items)|) == Stack(ts, i)
    decreases items
  {
    if items == [] {
    } else {
      var it, rest := items[0], items[1..];
      HasSplit(ts, i, ItemToks(it), Toks(rest));
      StackItem(ts, i, it);
      StackItems(ts, i + |ItemToks(it)|, rest);
    }
  }

  lemma {:induction false} StackItem(ts: seq<Token>, i: nat, it: Item)
    requires HasAt(ts, i, ItemToks(it))
    ensures Stack(ts, i + |ItemToks(it)|) == Stack(ts, i)
    decreases it
  {
    if it.Node? {
      NodeTokens(ts, i, it);
      StackItems(ts, i + 1, it.items);
      assert (Stack(ts, i) + [it.name])[..|Stack(ts, i)|] == Stack(ts, i);
    } else {
      assert ts[i] == ts[i..i + 1][0] == ItemToks(it)[0];
    }
  }

  /** Item k of a list in the token list. */
  lemma ItemAt(ts: seq<Token>, i: nat, items: seq<Item>, k: nat)
    requires HasAt(ts, i, Toks(items)) && k < |items|
    ensures HasAt(ts, i, Toks(items[..k])) && HasAt(ts, i + |Toks(items[..k])|, ItemToks(items[k]))
  {
    hide Toks, ItemToks, HasAt;
    var before, it, behind := items[..k], items[k], items[k + 1..];
    assert items == before + ([it] + behind);
    ToksConcat(before, [it] + behind);
    ToksConcat([it], behind);
    ToksOne(it);
    HasSplit(ts, i, Toks(before), ItemToks(it) + Toks(behind));
    HasSplit(ts, i + |Toks(before)|, ItemToks(it), Toks(behind));
  }

  /** The open nodes at a node of the tree are its ancestors. */
  lemma {:induction false} StackAddr(ts: seq<Token>, i: nat, items: seq<Item>, f: seq<nat>)
    requires HasAt(ts, i, Toks(items)) && Addr(items, f)
    ensures var j := i + Idx(items, f);
      j < |ts| && ts[j].Begin? && Stack(ts, j) + [ts[j].name] == Stack(ts, i) + PathNames(items, f)
    decreases |f|
  {
    hide HasAt, Toks;
    var it, a := items[f[0]], i + |Toks(items[..f[0]])|;
    ItemAt(ts, i, items, f[0]);
    StackItems(ts, i, items[..f[0]]);
    NodeTokens(ts, a, it);
    Bound(ts, a, it);
    if |f| <= 1 {
    } else {
      StackAddr(ts, a + 1, it.items, f[1..]);
      Assoc(Stack(ts, i), [it.name], PathNames(it.items, f[1..]));
    }
  }

  lemma Bound(ts: seq<Token>, a: nat, it: Item)
    requires HasAt(ts, a, ItemToks(it))
    ensures a < |ts|
  {
  }

  // --------------------------------------------------------- fdt_get_path

  lemma JoinSnoc(a: seq<seq<byte>>, n: seq<byte>)
    ensures Join(a + [n]) == Join(a) + n + [SLASH]
  {
    assert (a + [n])[..|a|] == a;
  }

  lemma {:induction false} JoinMono(names: seq<seq<byte>>, k: nat, m: nat)
    requires k <= m <= |names|
    ensures |Join(names[..k])| <= |Join(names[..m])|
    decreases m
  {
    if k >= m {
    } else {
      assert names[..m] == names[..m - 1] + [names[m - 1]];
      JoinSnoc(names[..m - 1], names[m - 1]);
      JoinMono(names, k, m - 1);
    }
  }

  /** No name on the way holds a slash. */
  predicate Plain(names: seq<seq<byte>>) {
    forall m :: 0 <= m < |names| ==> SLASH !in names[m]
  }

  /** The buffer holds the first k names. */
  predicate Holding(b: seq<byte>, p: nat, k: nat, names: seq<seq<byte>>) {
    k <= |names| && p == |Join(names[..k])| <= |b| && b[..p] == Join(names[..k])
  }

  /** ... and no more of them fit. */
  predicate Filled(b: seq<byte>, p: nat, k: nat, names: seq<seq<byte>>, buflen: nat) {
    && Holding(b, p, k, names) && p <= buflen <= |b|
    && (k < |names| ==> |Join(names[..k + 1])| > buflen)
  }

  /** One turn of the loop that takes the last name off the buffer. */
  method Pop(buf: array<byte>, p: nat, ghost k: nat, ghost names: seq<seq<byte>>) returns (q: nat)
    requires 1 < k && Holding(buf[..], p, k, names) && Plain(names)
    ensures Holding(buf[..], q, k - 1, names)
  {
    ghost var a, n := Join(names[..k - 1]), names[k - 1];
    assert names[..k] == names[..k - 1] + [n];
    JoinSnoc(names[..k - 1], n);
    assert forall m :: 0 <= m < p ==> buf[m] == buf[..][..p][m] == (a + n + [SLASH])[m];
    assert buf[|a| - 1] == SLASH;
    assert forall m :: |a| <= m < p - 1 ==> buf[m] == n[m - |a|] != SLASH;
    q := p - 1;
    while buf[q - 1] != SLASH
      invariant |a| <= q < p
      decreases q
    {
      q := q - 1;
    }
    assert buf[..][..q] == a;
  }

  /** Before the last slash in the buffer there is none when only one name is left, and so nothing to stop at. */
  lemma NoSlashLeft(b: seq<byte>, p: nat, k: nat, names: seq<seq<byte>>)
    requires Holding(b, p, k, names) && Plain(names) && k <= 1
    ensures forall m :: 0 <= m < p - 1 ==> b[m] != SLASH
  {
    if k == 1 {
      var n := names[0];
      assert names[..1] == [] + [n];
      JoinSnoc([], n);
      assert forall m :: 0 <= m < p ==> b[m] == b[..p][m] == (n + [SLASH])[m];
    }
  }

  /** An input: in the block of a bare root no node has the offset 12, at which the root has ended. */
  lemma BehindRoot() returns (top: seq<Item>)
    ensures Represents(EncAll(BlockToks(top)), [], top) && SingleRoot(top) && PlainBlock(BlockToks(top))
    ensures Target(top, [], 12) && Off(BlockToks(top), RootEnd(top)) == 12
  {
    hide EncAll, Off, Enc;
    top := [Node([], [0, 0, 0], [])];
    var ts := BlockToks(top);
    assert top[1..] == [] && ts == [Begin([], [0, 0, 0]), EndNode, End];
    BareSizes(ts);
  }

  lemma BareSizes(ts: seq<Token>)
    requires ts == [Begin([], [0, 0, 0]), EndNode, End]
    ensures Off(ts, 0) == 0 && Off(ts, 2) == 12
  {
    assert ts[..0] == [];
    OffStep(ts, 0);
    OffStep(ts, 1);
  }

  /** The names at the next node, of which the buffer holds a prefix, with the node's own name added if it fits. */
  lemma Pushed(b: seq<byte>, b': seq<byte>, p: nat, names: seq<seq<byte>>, n: seq<byte>)
    requires Holding(b, p, |names|, names) && p + |n| + 1 <= |b| == |b'|
    requires b' == b[..p] + n + [SLASH] + b[p + |n| + 1..]
    ensures Holding(b', p + |n| + 1, |names| + 1, names + [n])
  {
    assert names[..|names|] == names && (names + [n])[..|names| + 1] == names + [n];
    JoinSnoc(names, n);
  }

  /** A prefix that is full stays full when the names behind it change. */
  lemma StillFilled(b: seq<byte>, p: nat, k: nat, last: seq<seq<byte>>, names: seq<seq<byte>>, buflen: nat)
    requires Filled(b, p, k, last, buflen) && k <= |names| <= |last| && last[..|names|] == names
    ensures Filled(b, p, k, names, buflen)
  {
    assert names[..k] == last[..k];
    if k < |names| {
      assert names[..k + 1] == last[..k + 1];
    }
  }

  lemma StillFull(b: seq<byte>, p: nat, k: nat, names: seq<seq<byte>>, n: seq<byte>, buflen: nat)
    requires Filled(b, p, k, names, buflen) && (k < |names| || p + |n| + 1 > buflen)
    ensures Filled(b, p, k, names + [n], buflen)
  {
    var all := names + [n];
    assert all[..k] == names[..k];
    if k < |names| {
      assert all[..k + 1] == names[..k + 1];
    } else {
      assert all[..k + 1] == all && names[..k] == names;
      JoinSnoc(names, n);
    }
  }

  /** At the target: all names are in the buffer exactly when the path and its NUL fit. */
  lemma FilledFits(b: seq<byte>, p: nat, k: nat, names: seq<seq<byte>>, buflen: nat)
    requires Filled(b, p, k, names, buflen) && names != [] && buflen >= 2
    ensures k <= |names| && (k < |names| <==> |PathStr(names)| + 1 > buflen)
    ensures k == |names| ==>
      var q := if p > 1 then p - 1 else p; q < buflen && q == |PathStr(names)| && b[..q] == PathStr(names)
  {
    assert names[..|names|] == names;
    JoinMono(names, if k < |names| then k + 1 else k, |names|);
  }

  /** Take off the names of nodes that have ended. */
  method Unwind(buf: array<byte>, buflen: nat, p0: nat, pdepth0: nat, depth: nat, ghost last: seq<seq<byte>>,
                ghost names: seq<seq<byte>>)
    returns (p: nat, pdepth: nat)
    requires Filled(buf[..], p0, pdepth0, last, buflen) && Plain(last)
    requires |names| == depth <= |last| && last[..depth] == names && (depth == 0 ==> last == [])
    ensures Filled(buf[..], p, pdepth, names, buflen)
  {
    hide Join, Plain;
    p, pdepth := p0, pdepth0;
    while pdepth > depth
      invariant depth <= pdepth0 ==> depth <= pdepth <= pdepth0
      invariant pdepth0 < depth ==> pdepth == pdepth0 && p == p0
      invariant Holding(buf[..], p, pdepth, last) && p <= buflen
    {
      JoinMono(last, pdepth - 1, pdepth);
      p := Pop(buf, p, pdepth, last);
      pdepth := pdepth - 1;
    }
    if pdepth0 < depth {
      StillFilled(buf[..], p, pdepth, last, names, buflen);
    } else {
      assert last[..pdepth] == names && names[..pdepth] == names;
    }
  }

  /** Bring the buffer to the names of the node's proper ancestors, then add its own name if there is room. */
  method Visit(buf: array<byte>, buflen: nat, p0: nat, pdepth0: nat, depth: nat, name: seq<byte>,
               ghost last: seq<seq<byte>>, ghost names: seq<seq<byte>>)
    returns (p: nat, pdepth: nat)
    requires Filled(buf[..], p0, pdepth0, last, buflen) && Plain(last)
    requires |names| == depth <= |last| && last[..depth] == names && (depth == 0 ==> last == [])
    modifies buf
    ensures Filled(buf[..], p, pdepth, names + [name], buflen)
  {
    hide Join, Plain;
    p, pdepth := Unwind(buf, buflen, p0, pdepth0, depth, last, names);
    if pdepth >= depth && p + |name| + 1 <= buflen {
      ghost var b := buf[..];
      Store(buf, p, name + [SLASH]);
      Pushed(b, buf[..], p, names, name);
      p, pdepth := p + |name| + 1, pdepth + 1;
    } else {
      StillFull(buf[..], p, pdepth, names, name, buflen);
    }
  }

  /** No node of the block has a slash in its name. */
  ghost predicate PlainBlock(ts: seq<Token>) {
    forall i :: 0 <= i < |ts| && ts[i].Begin? ==> SLASH !in ts[i].name
  }

  lemma {:induction false} PlainStack(ts: seq<Token>, i: nat)
    requires PlainBlock(ts) && i <= |ts|
    ensures Plain(Stack(ts, i))
  {
    if i == 0 {
    } else {
      PlainStack(ts, i - 1);
    }
  }

  /** The names on the way to a node, from the tree and from the tokens. */
  lemma NamesThere(top: seq<Item>, f: seq<nat>)
    requires Addr(top, f)
    ensures var ts, j := BlockToks(top), Idx(top, f);
      j < |ts| && ts[j].Begin? && Stack(ts, j) + [ts[j].name] == PathNames(top, f)
  {
    hide Toks, Idx, PathNames;
    var ts := BlockToks(top);
    assert HasAt(ts, 0, Toks(top)) by { BlockHas(top); }
    StackAddr(ts, 0, top, f);
    assert Stack(ts, 0) + PathNames(top, f) == PathNames(top, f);
  }

  lemma BlockHas(top: seq<Item>)
    ensures HasAt(BlockToks(top), 0, Toks(top))
  {
    assert BlockToks(top)[0..0 + |Toks(top)|] == Toks(top);
  }

  lemma RootStack(ts: seq<Token>)
    requires ts != []
    ensures Stack(ts, 0) == []
  {
  }

  /** The open nodes at the next node of the scan. */
  lemma StackHop(ts: seq<Token>, j: nat, depth: nat)
    requires j < |ts| && ts[j].Begin? && |Stack(ts, j)| == depth
    ensures match Next(ts, j + 1, depth, true)
      case Down(i, e) =>
        1 <= e <= depth + 1 && |Stack(ts, i)| == e && (Stack(ts, j) + [ts[j].name])[..e] == Stack(ts, i)
      case _ => true
  {
    hide Next;
    assert Stack(ts, j + 1) == Stack(ts, j) + [ts[j].name];
    StackNext(ts, j + 1, depth);
  }

  /**
   * fdt_get_path.  The path of a node is written whenever it fits, and NOSPACE is returned
   * exactly when it and its NUL do not, whatever longer names the scan has met before.  An offset at
   * or behind the end of the root escapes: the scan comes back with a depth of -1, and the loop that
   * takes names off the buffer looks for a slash before the buffer (NoSlashLeft).  The model stops there.
   */
  method GetPath(s: seq<byte>, nodeoffset: int, buf: array<byte>, buflen: nat,
                 ghost strtab: seq<byte>, ghost top: seq<Item>, ghost f: seq<nat>)
    returns (r: int, escapes: bool)
    requires Represents(s, strtab, top) && SingleRoot(top) && PlainBlock(BlockToks(top)) && buflen <= buf.Length
    requires Target(top, f, nodeoffset)
    modifies buf
    ensures escapes == (buflen >= 2 && nodeoffset >= Off(BlockToks(top), RootEnd(top))) && (escapes ==> f == [])
    ensures f != [] ==> r == if |PathStr(PathNames(top, f))| + 1 > buflen then -ERR_NOSPACE else 0
    ensures f == [] && !escapes ==> r == if buflen < 2 then -ERR_NOSPACE else -ERR_BADOFFSET
    ensures r == 0 && !escapes ==>
      && f != [] && |PathStr(PathNames(top, f))| < buflen
      && buf[..|PathStr(PathNames(top, f))| + 1] == PathStr(PathNames(top, f)) + [0]
  {
    hide TagAt, EncAll, Off, Ordered, Named, Toks, Idx, Seen, Addr, Next, RootEnd, Walk, ScanTo, PathNames, PathStr,
      Join, Filled, Stack, Plain, PlainBlock;
    escapes := false;
    if f != [] {
      NamesThere(top, f);
      PathRoom(PathNames(top, f));
    }
    if buflen < 2 {
      return -ERR_NOSPACE, escapes;
    }
    var pdepth, p, offset, depth := 0, 0, 0, 0;
    ghost var ts := BlockToks(top);
    ghost var j, acc, last := 0, -1, [];
    SeenRoot(top, f, 0);
    RootStack(ts);
    EmptyFilled(buf[..], buflen);
    while offset >= 0 && offset <= nodeoffset
      invariant 0 <= j < |ts| && p >= 0 && pdepth >= 0 && offset >= 0
      invariant depth >= 0 ==>
        && Seen(top, f, 0, j, depth, acc) && ts[j].Begin? && acc < |ts| && offset == Off(ts, j)
        && |Stack(ts, j)| == depth <= |last| && last[..depth] == Stack(ts, j) && (depth == 0 ==> last == [])
        && Filled(buf[..], p, pdepth, last, buflen) && Plain(last)
      invariant depth < 0 ==> f == [] && depth == -1 && offset == Off(ts, RootEnd(top))
      decreases if depth >= 0 then |ts| - j + 2 else if offset >= 0 then 1 else 0
    {
      if depth < 0 {
        return 0, true;
      }
      SeenOffset(top, f, 0, j, depth, acc, nodeoffset);
      NodeNameToken(s, ts, j);
      PlainStack(ts, j);
      ghost var names := Stack(ts, j) + [ts[j].name];
      p, pdepth := Visit(buf, buflen, p, pdepth, depth, NodeName(s, offset), last, Stack(ts, j));
      last := names;
      if offset == nodeoffset {
        FilledFits(buf[..], p, pdepth, names, buflen);
        if pdepth < depth + 1 {
          return -ERR_NOSPACE, escapes;
        }
        if p > 1 {
          p := p - 1;
        }
        ghost var b := buf[..];
        buf[p] := 0;
        Terminated(b, buf[..], p, PathStr(names));
        return 0, escapes;
      }
      assert Plain(names) by { PlainSnoc(ts, j); }
      ghost var h := Next(ts, j + 1, depth, true);
      SeenNext(top, f, 0, j, depth, acc);
      StackHop(ts, j, depth);
      ghost var i := j;
      acc := if depth == 0 then j else acc;
      j := if h.Down? then h.index else j;
      offset, depth := NextNode(s, offset, depth, true, ts, i);
    }
    r := if offset == -ERR_NOTFOUND || offset >= 0 then -ERR_BADOFFSET
         else if offset == -ERR_BADOFFSET then -ERR_BADSTRUCTURE else offset;
    if depth >= 0 {
      SeenOffset(top, f, 0, j, depth, acc, nodeoffset);
    }
  }

  lemma PlainSnoc(ts: seq<Token>, j: nat)
    requires PlainBlock(ts) && j < |ts| && ts[j].Begin? && Plain(Stack(ts, j))
    ensures Plain(Stack(ts, j) + [ts[j].name])
  {
    hide Stack;
  }

  lemma PathRoom(names: seq<seq<byte>>)
    requires names != []
    ensures |PathStr(names)| >= 1
  {
  }

  lemma EmptyFilled(b: seq<byte>, buflen: nat)
    requires buflen <= |b|
    ensures Filled(b, 0, 0, [], buflen) && Plain([])
  {
  }

  lemma Terminated(b: seq<byte>, b': seq<byte>, p: nat, path: seq<byte>)
    requires p < |b| && b' == b[p := 0] && p == |path| && b[..p] == path
    ensures b'[..|path| + 1] == path + [0]
  {
  }
}
