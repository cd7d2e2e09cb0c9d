/** The read-only scans of the structure and strings blocks, as the loops that the library runs. */
module Scan {
  import opened Bytes
  import opened Tokens
  import opened Views
  import opened Walks

  /** s is the encoding of the tokens ts, which end in FDT_END. */
  ghost predicate Block(s: seq<byte>, ts: seq<Token>) {
    ValidTokens(ts) && s == EncAll(ts) && ts != [] && ts[|ts| - 1].End?
  }

  /** off is the offset of token i, or a negative number when i is. */
  ghost predicate Points(ts: seq<Token>, i: int, off: int) {
    if i < 0 then off < 0 else i < |ts| && off == Off(ts, i)
  }

  /** fdt_check_node_offset_ and fdt_check_prop_offset_: the next offset if a token with this tag is at off. */
  function CheckOffset(s: seq<byte>, off: int, tag: int): int {
    if off < 0 || off % 4 != 0 || TagAt(s, off).0 != tag then -ERR_BADOFFSET else TagAt(s, off).1
  }

  /** An offset that is negative, unaligned, or not at a token with the tag, is refused. */
  lemma OffsetRefused(s: seq<byte>, off: int, tag: int)
    ensures off < 0 || off % 4 != 0 ==> CheckOffset(s, off, tag) == -4
    ensures off >= 0 && TagAt(s, off).0 != tag ==> CheckOffset(s, off, tag) == -4
  {
    hide TagAt;
  }

  lemma CheckToken(s: seq<byte>, ts: seq<Token>, i: nat, tag: int)
    requires Block(s, ts) && i < |ts| && tag != FDT_END
    ensures CheckOffset(s, Off(ts, i), tag) == if Tag(ts[i]) == tag then Off(ts, i + 1) else -ERR_BADOFFSET
  {
    hide TagAt, EncAll, Off;
    TagAtToken(ts, i);
    OffAligned(ts, i);
  }

  method NextNode(s: seq<byte>, off: int, depth: int, tracked: bool, ghost ts: seq<Token>, ghost i: int)
    returns (r: int, d: int)
    requires Block(s, ts) && Points(ts, i, off) && (tracked ==> depth >= 0 || (i >= 0 && !ts[i].Begin?))
    ensures i >= 0 && !ts[i].Begin? ==> r == -ERR_BADOFFSET && d == depth
    ensures i < 0 || ts[i].Begin? ==>
      match Next(ts, if i < 0 then 0 else i + 1, depth, tracked)
      case Down(j, e) => r == Off(ts, j) && d == e
      case Up(j) => r == Off(ts, j) && d == -1
      case Stop(e) => r == -ERR_NOTFOUND && d == e
  {
    hide TagAt, EncAll, Off;
    d := depth;
    var next := 0;
    ghost var j := 0;
    assert Off(ts, 0) == 0 by {
      OffZero(ts);
    }
    if off >= 0 {
      CheckToken(s, ts, i, FDT_BEGIN_NODE);
      next := CheckOffset(s, off, FDT_BEGIN_NODE);
      if next < 0 {
        return next, d;
      }
      j := i + 1;
    }
    while true
      invariant 0 <= j < |ts| && next == Off(ts, j) && (tracked ==> d >= 0)
      invariant Next(ts, if i < 0 then 0 else i + 1, depth, tracked) == Next(ts, j, d, tracked)
      decreases |ts| - j
    {
      var cur := next;
      var tag;
      TagAtToken(ts, j);
      tag, next := NextTag(s, cur);
      if tag == FDT_BEGIN_NODE {
        return cur, d + 1;
      } else if tag == FDT_END_NODE {
        d := d - 1;
        if tracked && d < 0 {
          return next, d;
        }
      } else if tag == FDT_END {
        return if next >= 0 || (next == -ERR_TRUNCATED && !tracked) then -ERR_NOTFOUND else next, d;
      }
      j := j + 1;
    }
  }

  lemma OffZero(ts: seq<Token>)
    ensures Off(ts, 0) == 0
  {
  }

  // ------------------------------------------------------------------- names

  const AT := 64

  /** fdt_nodename_eq_: p is n, or n without its unit address when n gives none. */
  predicate NameEq(p: seq<byte>, n: seq<byte>) {
    |p| >= |n| && p[..|n|] == n && (|p| == |n| || (AT !in n && p[|n|] == AT))
  }

  /** The part of a node name in front of its first '@'. */
  function BaseName(p: seq<byte>): (b: seq<byte>)
    ensures |b| <= |p| && b == p[..|b|] && AT !in b && (|b| < |p| ==> p[|b|] == AT)
  {
    if p == [] || p[0] == AT then []
    else
      var rest := BaseName(p[1..]);
      [p[0]] + rest
  }

  /** A node answers to its whole name, and to the part in front of the unit address when it has one. */
  predicate Answers(p: seq<byte>, n: seq<byte>) {
    n == p || (AT in p && n == BaseName(p))
  }

  /** fdt_nodename_eq_ holds exactly for the names that a node answers to. */
  lemma NameEqIs(p: seq<byte>, n: seq<byte>)
    ensures NameEq(p, n) <==> Answers(p, n)
  {
    if NameEq(p, n) && |n| < |p| {
      BaseUnique(p, n);
    }
  }

  lemma {:induction false} BaseUnique(p: seq<byte>, n: seq<byte>)
    requires |n| < |p| && p[..|n|] == n && AT !in n && p[|n|] == AT
    ensures BaseName(p) == n
  {
    if n == [] {
    } else {
      assert p[0] == n[0];
      BaseUnique(p[1..], n[1..]);
    }
  }

  /** fdt_get_name of the node at off. */
  function NodeName(s: seq<byte>, off: nat): seq<byte>
    requires off + 4 <= |s|
  {
    s[off + 4..Nul(s, off + 4)]
  }

  /** The name in the encoding of a BEGIN_NODE token. */
  lemma NamePart(t: Token)
    requires t.Begin? && ValidToken(t)
    ensures 4 + |t.name| + 1 <= |Enc(t)| && Enc(t)[4..4 + |t.name| + 1] == t.name + [0] && 0 !in t.name
  {
    hide Be32, Align4;
    Parts(Be32(FDT_BEGIN_NODE), t.name, t.pad);
  }

  lemma Parts(a: seq<byte>, n: seq<byte>, p: seq<byte>)
    requires |a| == 4
    ensures (a + n + [0] + p)[4..4 + |n| + 1] == n + [0]
  {
  }

  lemma NodeNameToken(s: seq<byte>, ts: seq<Token>, i: nat)
    requires Block(s, ts) && i < |ts| && ts[i].Begin?
    ensures Off(ts, i) + 4 <= |s| && NodeName(s, Off(ts, i)) == ts[i].name
  {
    hide Enc, EncAll, Off, ValidToken, Be32;
    var n, o := ts[i].name, Off(ts, i);
    OffStep(ts, i);
    NamePart(ts[i]);
    SubSlice(s, o, Enc(ts[i]), 4, 4 + |n| + 1);
    NameAt(s, o + 4, n);
    SubSlice(s, o + 4, n + [0], 0, |n|);
    assert (n + [0])[0..|n|] == n;
  }

  datatype Find = Found(index: nat) | Missing | Broken

  /** The first node of a walk at depth 1 that answers to a name. */
  function FirstChild(ts: seq<Token>, w: seq<(nat, int)>, name: seq<byte>): (f: Find)
    ensures f.Missing? || (f.Found? && f.index < |ts| && ts[f.index].Begin?)
  {
    if w == [] then Missing
    else if w[0].1 == 1 && w[0].0 < |ts| && ts[w[0].0].Begin? && NameEq(ts[w[0].0].name, name) then Found(w[0].0)
    else FirstChild(ts, w[1..], name)
  }

  /** The node that a walk from token i on finds for fdt_subnode_offset_namelen. */
  function ChildFrom(ts: seq<Token>, i: nat, d: int, name: seq<byte>): (f: Find)
    ensures f.Missing? || (f.Found? && f.index < |ts| && ts[f.index].Begin?)
  {
    FirstChild(ts, Walk(ts, i, d), name)
  }

  /** Node v of a walk is a child, and answers to a name. */
  predicate AnswersAt(ts: seq<Token>, v: (nat, int), name: seq<byte>) {
    v.1 == 1 && v.0 < |ts| && ts[v.0].Begin? && Answers(ts[v.0].name, name)
  }

  /** The first child of a walk that answers is found, and none is found only when none answers. */
  lemma {:induction false} FirstChildIs(ts: seq<Token>, w: seq<(nat, int)>, name: seq<byte>) returns (k: nat)
    ensures match FirstChild(ts, w, name)
      case Found(j) => k < |w| && w[k].0 == j && AnswersAt(ts, w[k], name)
                       && forall i :: 0 <= i < k ==> !AnswersAt(ts, w[i], name)
      case _ => forall i :: 0 <= i < |w| ==> !AnswersAt(ts, w[i], name)
    decreases |w|
  {
    hide NameEq, Answers;
    if w == [] {
      k := 0;
    } else {
      if w[0].0 < |ts| && ts[w[0].0].Begin? {
        NameEqIs(ts[w[0].0].name, name);
      }
      if AnswersAt(ts, w[0], name) {
        k := 0;
      } else {
        k := FirstChildIs(ts, w[1..], name);
        k := k + 1;
      }
    }
  }

  /** The offset r of the first child of node i that answers to a name, or NOTFOUND when none does. */
  ghost predicate ChildAnswers(ts: seq<Token>, i: nat, name: seq<byte>, r: int) {
    var w := Walk(ts, i + 1, 0);
    if r == -ERR_NOTFOUND then forall k :: 0 <= k < |w| ==> !AnswersAt(ts, w[k], name)
    else exists k: nat :: k < |w| && AnswersAt(ts, w[k], name) && r == Off(ts, w[k].0)
                          && forall j :: 0 <= j < k ==> !AnswersAt(ts, w[j], name)
  }

  lemma ChildFound(ts: seq<Token>, i: nat, name: seq<byte>, r: int)
    requires match ChildFrom(ts, i + 1, 0, name)
      case Found(j) => r == Off(ts, j)
      case _ => r == -ERR_NOTFOUND
    ensures ChildAnswers(ts, i, name, r)
  {
    hide AnswersAt, Off, FirstChild, Walk;
    var w := Walk(ts, i + 1, 0);
    var k := FirstChildIs(ts, w, name);
    if r == -ERR_NOTFOUND {
    } else {
      assert k < |w| && AnswersAt(ts, w[k], name) && r == Off(ts, w[k].0);
    }
  }

  /** fdt_subnode_offset_namelen */
  method SubnodeOffset(s: seq<byte>, off: int, name: seq<byte>, ghost ts: seq<Token>, ghost i: int)
    returns (r: int)
    requires Block(s, ts) && Points(ts, i, off)
    ensures i < 0 ==> r == off
    ensures i >= 0 && !ts[i].Begin? ==> r == -ERR_BADOFFSET
    ensures i >= 0 && ts[i].Begin? ==>
      match ChildFrom(ts, i + 1, 0, name)
      case Found(j) => r == Off(ts, j)
      case _ => r == -ERR_NOTFOUND
    ensures i >= 0 && ts[i].Begin? ==> ChildAnswers(ts, i, name, r)
  {
    hide TagAt, EncAll, Off, Next, NameEq, ChildAnswers;
    var depth := 0;
    r := off;
    ghost var j := i;
    while r >= 0 && depth >= 0
      invariant r >= 0 && depth >= 0 ==>
        && 0 <= i <= j < |ts| && r == Off(ts, j)
        && (ts[i].Begin? ==> ts[j].Begin?) && (!ts[i].Begin? ==> j == i && depth == 0)
        && (ts[i].Begin? ==>
              ChildFrom(ts, i + 1, 0, name)
              == if depth == 1 && NameEq(ts[j].name, name) then Found(j) else ChildFrom(ts, j + 1, depth, name))
      invariant r < 0 || depth < 0 ==>
        if i < 0 then r == off && depth >= 0
        else if !ts[i].Begin? then r == -ERR_BADOFFSET && depth >= 0
        else ChildFrom(ts, i + 1, 0, name).Missing? && (depth < 0 || r == -ERR_NOTFOUND)
      decreases if r >= 0 && depth >= 0 then |ts| - j else -1
    {
      if depth == 1 {
        NodeNameToken(s, ts, j);
        if NameEq(NodeName(s, r), name) {
          if i >= 0 && ts[i].Begin? {
            ChildFound(ts, i, name, r);
          }
          return r;
        }
      }
      ghost var h := Next(ts, j + 1, depth, true);
      r, depth := NextNode(s, r, depth, true, ts, j);
      if ts[j].Begin? {
        j := if h.Down? then h.index else j;
      }
    }
    if i >= 0 && ts[i].Begin? {
      ChildFound(ts, i, name, -ERR_NOTFOUND);
    }
    if depth < 0 {
      return -ERR_NOTFOUND;
    }
  }

  /** fdt_node_end_offset_: the offset just after the END_NODE of the node at off. */
  method NodeEndOffset(s: seq<byte>, off: int, ghost ts: seq<Token>, ghost i: int) returns (r: int)
    requires Block(s, ts) && Points(ts, i, off)
    ensures i < 0 ==> r == off
    ensures i >= 0 && !ts[i].Begin? ==> r == -ERR_BADOFFSET
    ensures i >= 0 && ts[i].Begin? ==>
      match WalkEnd(ts, i + 1, 0)
      case Up(j) => r == Off(ts, j)
      case _ => r == -ERR_NOTFOUND
  {
    hide TagAt, EncAll, Off, Next;
    var depth := 0;
    r := off;
    ghost var j := i;
    while r >= 0 && depth >= 0
      invariant r >= 0 && depth >= 0 ==>
        && 0 <= i <= j < |ts| && r == Off(ts, j)
        && (ts[i].Begin? ==> ts[j].Begin?) && (!ts[i].Begin? ==> j == i && depth == 0)
        && (ts[i].Begin? ==> WalkEnd(ts, i + 1, 0) == WalkEnd(ts, j + 1, depth))
      invariant r < 0 || depth < 0 ==>
        if i < 0 then r == off && depth >= 0
        else if !ts[i].Begin? then r == -ERR_BADOFFSET && depth >= 0
        else
          match WalkEnd(ts, i + 1, 0)
          case Up(k) => r == Off(ts, k)
          case _ => r == -ERR_NOTFOUND
      decreases if r >= 0 && depth >= 0 then |ts| - j else -1
    {
      ghost var h := Next(ts, j + 1, depth, true);
      r, depth := NextNode(s, r, depth, true, ts, j);
      if ts[j].Begin? {
        j := if h.Down? then h.index else j;
      }
    }
  }

  // -------------------------------------------------------------- properties

  /** fdt_get_string on a finished blob: the string at off, unless off or its terminator lies outside the block. */
  function GetString(strtab: seq<byte>, off: int): (r: Option<seq<byte>>)
    ensures off >= 0 && HasStr(strtab, off) ==> r == Some(Str(strtab, off))
    ensures !(off >= 0 && HasStr(strtab, off)) ==> r == None
  {
    if off < 0 || off >= |strtab| then None else
    var z := Nul(strtab, off);
    if z == |strtab| then None else Some(strtab[off..z])
  }

  /** The first property with a name among the properties and NOPs from token i on. */
  function FirstProp(ts: seq<Token>, i: nat, strtab: seq<byte>, name: seq<byte>): (f: Find)
    ensures f.Found? ==> i <= f.index < |ts| && ts[f.index].Prop?
    decreases |ts| - i
  {
    if i >= |ts| then Broken else
    match ts[i]
    case Prop(o, _, _) =>
      if GetString(strtab, o) == Some(name) then Found(i) else FirstProp(ts, i + 1, strtab, name)
    case Nop => FirstProp(ts, i + 1, strtab, name)
    case End => Broken
    case _ => Missing
  }

  /** nextprop_: skip NOPs up to the next property. */
  method NextProp(s: seq<byte>, off: int, ghost ts: seq<Token>, ghost i: nat) returns (r: int, ghost j: nat)
    requires Block(s, ts) && i < |ts| && off == Off(ts, i)
    ensures i <= j < |ts| && !ts[j].Nop? && forall k :: i <= k < j ==> ts[k].Nop?
    ensures r == if ts[j].Prop? then Off(ts, j) else if ts[j].End? then -ERR_BADSTRUCTURE else -ERR_NOTFOUND
  {
    hide TagAt, EncAll, Off;
    var cur := off;
    j := i;
    while true
      invariant i <= j < |ts| && cur == Off(ts, j) && forall k :: i <= k < j ==> ts[k].Nop?
      decreases |ts| - j
    {
      TagAtToken(ts, j);
      var tag, next := NextTag(s, cur);
      if tag == FDT_END {
        return if next >= 0 then -ERR_BADSTRUCTURE else next, j;
      } else if tag == FDT_PROP {
        return cur, j;
      } else if tag != FDT_NOP {
        return -ERR_NOTFOUND, j;
      }
      cur, j := next, j + 1;
    }
  }

  lemma {:induction false} SkipNops(ts: seq<Token>, i: nat, j: nat, strtab: seq<byte>, name: seq<byte>)
    requires i <= j < |ts| && forall k :: i <= k < j ==> ts[k].Nop?
    ensures FirstProp(ts, i, strtab, name) == FirstProp(ts, j, strtab, name)
    decreases j - i
  {
    if i >= j {
    } else {
      SkipNops(ts, i + 1, j, strtab, name);
    }
  }

  /** Where an iteration over properties stops, and what it answers: token j is no NOP. */
  ghost predicate StopsAt(ts: seq<Token>, j: nat, r: int) {
    && j < |ts| && !ts[j].Nop?
    && r == if ts[j].Prop? then Off(ts, j) else if ts[j].End? then -ERR_BADSTRUCTURE else -ERR_NOTFOUND
  }

  /** fdt_first_property_offset */
  method FirstPropertyOffset(s: seq<byte>, node: int, ghost ts: seq<Token>, ghost i: int)
    returns (r: int, ghost j: nat)
    requires Block(s, ts) && Points(ts, i, node)
    ensures i < 0 || !ts[i].Begin? ==> r == -ERR_BADOFFSET
    ensures i >= 0 && ts[i].Begin? ==> i < j && StopsAt(ts, j, r) && forall k :: i < k < j ==> ts[k].Nop?
  {
    hide TagAt, EncAll, Off;
    j := 0;
    if i >= 0 {
      CheckToken(s, ts, i, FDT_BEGIN_NODE);
    }
    r := CheckOffset(s, node, FDT_BEGIN_NODE);
    if r >= 0 {
      r, j := NextProp(s, r, ts, i + 1);
    }
  }

  /** fdt_next_property_offset */
  method NextPropertyOffset(s: seq<byte>, off: int, ghost ts: seq<Token>, ghost i: nat) returns (r: int, ghost j: nat)
    requires Block(s, ts) && i < |ts| && ts[i].Prop? && off == Off(ts, i)
    ensures i < j && StopsAt(ts, j, r) && forall k :: i < k < j ==> ts[k].Nop?
  {
    hide TagAt, EncAll, Off;
    CheckToken(s, ts, i, FDT_PROP);
    r := CheckOffset(s, off, FDT_PROP);
    r, j := NextProp(s, r, ts, i + 1);
  }

  /** One step of the search for a name. */
  lemma FirstPropIs(ts: seq<Token>, j: nat, strtab: seq<byte>, name: seq<byte>)
    requires j < |ts| && !ts[j].Nop?
    ensures FirstProp(ts, j, strtab, name) ==
      match ts[j]
      case Prop(o, _, _) =>
        if GetString(strtab, o) == Some(name) then Found(j) else FirstProp(ts, j + 1, strtab, name)
      case End => Broken
      case _ => Missing
  {
    hide GetString;
  }

  /** fdt_get_property_namelen_: the offset of a node's property, or the error that *lenp receives. */
  method GetProperty(s: seq<byte>, strtab: seq<byte>, node: int, name: seq<byte>, ghost ts: seq<Token>, ghost i: int)
    returns (r: int)
    requires Block(s, ts) && Points(ts, i, node)
    ensures i < 0 || !ts[i].Begin? ==> r == -ERR_BADOFFSET
    ensures i >= 0 && ts[i].Begin? ==>
      match FirstProp(ts, i + 1, strtab, name)
      case Found(j) => r == Off(ts, j)
      case Missing => r == -ERR_NOTFOUND
      case Broken => r == -ERR_BADSTRUCTURE
  {
    hide TagAt, EncAll, Off, FirstProp, GetString, Word;
    ghost var j;
    r, j := FirstPropertyOffset(s, node, ts, i);
    if i >= 0 && ts[i].Begin? {
      SkipNops(ts, i + 1, j, strtab, name);
    }
    while r >= 0
      invariant i < 0 || !ts[i].Begin? ==> r == -ERR_BADOFFSET
      invariant i >= 0 && ts[i].Begin? ==> i < j && StopsAt(ts, j, r)
      invariant i >= 0 && ts[i].Begin? ==> FirstProp(ts, i + 1, strtab, name) == FirstProp(ts, j, strtab, name)
      decreases |ts| - j, r
    {
      PropToken(s, ts, j);
      FirstPropIs(ts, j, strtab, name);
      if GetString(strtab, Word(s, r + 8)) == Some(name) {
        return;
      }
      ghost var k := j;
      r, j := NextPropertyOffset(s, r, ts, k);
      SkipNops(ts, k + 1, j, strtab, name);
    }
    if i >= 0 && ts[i].Begin? {
      FirstPropIs(ts, j, strtab, name);
    }
  }

  /** The fields of property token i, read back from the block. */
  lemma PropToken(s: seq<byte>, ts: seq<Token>, i: nat)
    requires Block(s, ts) && i < |ts| && ts[i].Prop?
    ensures var o := Off(ts, i);
      && o + 12 + |ts[i].val| <= |s|
      && Word(s, o + 4) == |ts[i].val| && Word(s, o + 8) == ts[i].nameoff
      && s[o + 12..o + 12 + |ts[i].val|] == ts[i].val
  {
    hide EncAll, Off, Enc, Word, ValidToken;
    OffStep(ts, i);
    PropFields(s, Off(ts, i), ts[i]);
  }

  /** fdt_find_string_: the first place where the string and its NUL occur, or -1. */
  method FindString(strtab: seq<byte>, name: seq<byte>) returns (p: int)
    requires 0 !in name
    ensures p >= 0 ==> HasStr(strtab, p) && Str(strtab, p) == name
    ensures p >= 0 ==> forall q :: 0 <= q < p ==> !(HasStr(strtab, q) && Str(strtab, q) == name)
    ensures p < 0 ==> p == -1 && forall q :: 0 <= q < |strtab| ==> !(HasStr(strtab, q) && Str(strtab, q) == name)
  {
    var len := |name| + 1;
    p := 0;
    while p <= |strtab| - len
      invariant 0 <= p
      invariant forall q :: 0 <= q < p && q < |strtab| ==> !(HasStr(strtab, q) && Str(strtab, q) == name)
    {
      StrAt(strtab, p, name);
      if strtab[p..p + len] == name + [0] {
        return;
      }
      p := p + 1;
    }
    p := -1;
  }

  lemma StrAt(strtab: seq<byte>, p: nat, name: seq<byte>)
    requires 0 !in name && p + |name| + 1 <= |strtab|
    ensures strtab[p..p + |name| + 1] == name + [0] <==> HasStr(strtab, p) && Str(strtab, p) == name
  {
    if strtab[p..p + |name| + 1] == name + [0] {
      NameAt(strtab, p, name);
      SubSlice(strtab, p, name + [0], 0, |name|);
    }
  }
}
