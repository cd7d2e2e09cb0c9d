/**
 * What the sequential writer builds when its calls follow a tree: a blob that
 * represents that tree, ready for the in-place edits.
 */
module Builds {
  import opened Bytes
  import opened Tokens
  import opened Trees
  import opened Views
  import opened Blob
  import opened Lookup
  import opened Splices
  import opened Parser
  import opened Checks
  import opened Writer
  import opened Sequential

  /** The calls that write a tree: begin, properties, children, end. */
  function TreeCalls(t: Tree): (c: seq<Call>)
    ensures |c| >= 2
    decreases t, 0
  {
    [BeginNode(t.name)] + PropCalls(t.props) + KidCalls(t.kids) + [EndOfNode]
  }

  function KidCalls(kids: seq<Tree>): seq<Call>
    decreases kids, 1
  {
    if kids == [] then [] else TreeCalls(kids[0]) + KidCalls(kids[1..])
  }

  function PropCalls(props: seq<PropVal>): (c: seq<Call>)
    ensures |c| == |props| && forall k :: 0 <= k < |props| ==> c[k] == Property(props[k].name, props[k].val)
  {
    seq(|props|, k requires 0 <= k < |props| => Property(props[k].name, props[k].val))
  }

  /** Tokens that record calls one for one. */
  predicate Each(ts: seq<Token>, calls: seq<Call>, strtab: seq<byte>) {
    |ts| == |calls| && forall k :: 0 <= k < |ts| ==> CallOf(ts[k], strtab) == [calls[k]]
  }

  lemma EachSplit(ts: seq<Token>, a: seq<Call>, b: seq<Call>, strtab: seq<byte>)
    requires Each(ts, a + b, strtab)
    ensures |a| <= |ts| && Each(ts[..|a|], a, strtab) && Each(ts[|a|..], b, strtab)
    ensures ts == ts[..|a|] + ts[|a|..]
  {
    hide CallOf;
    assert forall k :: 0 <= k < |b| ==> ts[|a|..][k] == ts[|a| + k] && (a + b)[|a| + k] == b[k];
    assert forall k :: 0 <= k < |a| ==> (a + b)[k] == a[k];
  }

  lemma {:induction false} BuildProps(ts: seq<Token>, props: seq<PropVal>, strtab: seq<byte>) returns (items: seq<Item>)
    requires Each(ts, PropCalls(props), strtab)
    ensures Toks(items) == ts && PropsOf(items, strtab) == props && KidsOf(items, strtab) == []
    ensures forall k :: 0 <= k < |items| ==> items[k].IProp?
  {
    if props == [] {
      items := [];
    } else {
      var c := PropCalls(props);
      assert c == [c[0]] + c[1..] && c[1..] == PropCalls(props[1..]);
      EachSplit(ts, [c[0]], c[1..], strtab);
      assert CallOf(ts[0], strtab) == [c[0]];
      var t := ts[0];
      var rest := BuildProps(ts[1..], props[1..], strtab);
      items := [IProp(t.nameoff, t.val, t.pad)] + rest;
      assert items[1..] == rest && ts[..1] == [t];
      assert [props[0]] + props[1..] == props;
    }
  }

  lemma {:induction false} BuildKids(ts: seq<Token>, kids: seq<Tree>, strtab: seq<byte>) returns (items: seq<Item>)
    requires Each(ts, KidCalls(kids), strtab)
    ensures Toks(items) == ts && KidsOf(items, strtab) == kids
    ensures forall k :: 0 <= k < |items| ==> items[k].Node? && Ordered(items[k].items)
    decreases kids, 1
  {
    if kids == [] {
      items := [];
    } else {
      hide TreeCalls, CallOf, Each, Ordered, ItemToks, View;
      EachSplit(ts, TreeCalls(kids[0]), KidCalls(kids[1..]), strtab);
      var n := |TreeCalls(kids[0])|;
      var it := BuildNode(ts[..n], kids[0], strtab);
      var rest := BuildKids(ts[n..], kids[1..], strtab);
      items := [it] + rest;
      assert items[1..] == rest;
      assert [kids[0]] + kids[1..] == kids;
    }
  }

  lemma {:induction false} BuildNode(ts: seq<Token>, t: Tree, strtab: seq<byte>) returns (it: Item)
    requires Each(ts, TreeCalls(t), strtab)
    ensures it.Node? && ItemToks(it) == ts && View(it, strtab) == t && Ordered(it.items)
    decreases t, 0
  {
    var o, p, k := [BeginNode(t.name)], PropCalls(t.props), KidCalls(t.kids);
    hide KidCalls, PropCalls, Toks, PropsOf, KidsOf;
    EachSplit(ts, o + p + k, [EndOfNode], strtab);
    var front := ts[..|ts| - 1];
    EachSplit(front, o + p, k, strtab);
    EachSplit(front[..1 + |p|], o, p, strtab);
    assert CallOf(ts[0], strtab) == [BeginNode(t.name)] && CallOf(ts[|ts| - 1], strtab) == [EndOfNode];
    var ps := BuildProps(front[..1 + |p|][1..], t.props, strtab);
    var ks := BuildKids(front[1 + |p|..], t.kids, strtab);
    it := Node(ts[0].name, ts[0].pad, ps + ks);
    ToksConcat(ps, ks);
    NodeOf(ts, it, ps, ks, front[..1 + |p|]);
    KidsHaveNoProps(ks, strtab);
    PropsConcat(ps, ks, strtab);
    KidsConcat(ps, ks, strtab);
    assert t.props + [] == t.props && [] + t.kids == t.kids;
    BuiltOrdered(ps, ks);
  }

  lemma NodeOf(ts: seq<Token>, it: Item, ps: seq<Item>, ks: seq<Item>, head: seq<Token>)
    requires it.Node? && |ts| >= 2 && ts[|ts| - 1] == EndNode && ts[0] == Begin(it.name, it.pad)
    requires ts[..|ts| - 1] == head + Toks(ks) && |head| > 0 && head[0] == ts[0] && head[1..] == Toks(ps)
    requires Toks(it.items) == Toks(ps) + Toks(ks)
    ensures ItemToks(it) == ts
  {
    hide Toks;
    assert head == [ts[0]] + head[1..];
    assert ts == ts[..|ts| - 1] + [EndNode];
    Assoc([ts[0]], Toks(ps), Toks(ks));
  }

  lemma KidsHaveNoProps(ks: seq<Item>, strtab: seq<byte>)
    requires forall k :: 0 <= k < |ks| ==> ks[k].Node?
    ensures PropsOf(ks, strtab) == []
  {
    NoProps(ks, strtab);
  }

  lemma BuiltOrdered(ps: seq<Item>, ks: seq<Item>)
    requires forall k :: 0 <= k < |ps| ==> ps[k].IProp?
    requires forall k :: 0 <= k < |ks| ==> ks[k].Node? && Ordered(ks[k].items)
    ensures Ordered(ps + ks)
  {
  }

  /** A finished blob whose calls wrote a list of trees represents those trees. */
  lemma WriterBuilds(m: seq<byte>, h: SwHeader, l: Log, kids: seq<Tree>) returns (top: seq<Item>)
    requires Holds(m, h, l) && h.complete && l.calls == KidCalls(kids)
    ensures Represents(StructIn(m, h), StringsIn(m, h), top)
    ensures TreeOf(top, StringsIn(m, h)) == Tree([], [], kids)
  {
    var strtab, n := StringsIn(m, h), |l.toks| - 1;
    var ts := l.toks[..n];
    hide EncAll, ValidToken, CallOf, KidCalls, EncReserves, ItemToks, View;
    assert l.toks == ts + [End];
    CallsEnd(ts, strtab);
    EachOne(ts, l.calls, strtab);
    top := BuildKids(ts, kids, strtab);
    BuiltOrdered([], top);
    assert [] + top == top;
    KidsHaveNoProps(top, strtab);
    NamedConcat(ts, [End], strtab);
  }

  /** As many calls as tokens: every token records one. */
  lemma {:induction false} EachOne(ts: seq<Token>, calls: seq<Call>, strtab: seq<byte>)
    requires CallsOf(ts, strtab) == calls && |ts| == |calls|
    ensures Each(ts, calls, strtab)
  {
    if ts == [] {
    } else {
      FewCalls(ts[1..], strtab);
      EachOne(ts[1..], calls[1..], strtab);
      assert forall k :: 1 <= k < |ts| ==> ts[k] == ts[1..][k - 1] && calls[k] == calls[1..][k - 1];
    }
  }

  lemma {:induction false} FewCalls(ts: seq<Token>, strtab: seq<byte>)
    ensures |CallsOf(ts, strtab)| <= |ts|
  {
    if ts == [] {
    } else {
      FewCalls(ts[1..], strtab);
    }
  }

  /** fdt_check_full on what fdt_finish left in the buffer. */
  method CheckFinished(w: Sw) returns (o: Outcome)
    requires w.Valid() && w.h.complete && w.h.totalsize < INT_MAX
    ensures o.Answer? && (o == Answer(0) <==> Balanced(w.log.calls, 0))
  {
    hide Holds, Balanced, Verdict, Plain, Proper, ListHasEnd;
    AcceptedIffBalanced(w.buf[..], w.h, w.log);
    assert Fits(w.buf[..], w.h) by { FitsIn(w.buf[..], w.h, w.log); }
    o := CheckFull(w.buf[..], Title(FDT_MAGIC, 17, 2), HeaderOf(w.h));
  }

  /** fdt_get_mem_rsv on what fdt_finish left: the reservations as they were given, terminator included. */
  method GetReserve(w: Sw, k: nat) returns (err: int, address: u64, size: u64, escapes: bool)
    requires w.Valid() && w.h.complete && w.h.totalsize < INT_MAX && k < |w.log.rsv|
    ensures !escapes && err == 0 && Reserve(address, size) == w.log.rsv[k]
  {
    hide Holds, Word64, SaysRsv;
    ReservesRead(w.buf[..], w.h, w.log, k);
    FitsSaid(HeaderOf(w.h), k);
    err, address, size, escapes := GetMemRsv(w.buf[..], HeaderOf(w.h), k);
  }
}
