/**
 * The structure block as a sequence of tokens (section 5.4 of the Devicetree
 * Specification).  Padding bytes belong to the token that they follow, so that
 * encoding is a function and a structure block is the concatenation of its tokens.
 */
module Tokens {
  import opened Bytes

  const FDT_BEGIN_NODE := 1
  const FDT_END_NODE := 2
  const FDT_PROP := 3
  const FDT_NOP := 4
  const FDT_END := 9

  const ERR_NOTFOUND := 1
  const ERR_EXISTS := 2
  const ERR_NOSPACE := 3
  const ERR_BADOFFSET := 4
  const ERR_TRUNCATED := 8
  const ERR_BADSTRUCTURE := 11
  const ERR_INTERNAL := 13

  datatype Token =
    | Begin(name: seq<byte>, pad: seq<byte>)
    | EndNode
    | Prop(nameoff: u32, val: seq<byte>, pad: seq<byte>)
    | Nop
    | End

  predicate ValidToken(t: Token) {
    match t
    case Begin(n, p) => 0 !in n && |p| == Align4(|n| + 1) - (|n| + 1)
    case Prop(_, v, p) => |v| <= INT_MAX && |p| == Align4(|v|) - |v|
    case _ => true
  }

  predicate ValidTokens(ts: seq<Token>) {
    forall i :: 0 <= i < |ts| ==> ValidToken(ts[i])
  }

  function Tag(t: Token): int {
    match t
    case Begin(_, _) => FDT_BEGIN_NODE
    case EndNode => FDT_END_NODE
    case Prop(_, _, _) => FDT_PROP
    case Nop => FDT_NOP
    case End => FDT_END
  }

  function Enc(t: Token): (b: seq<byte>)
    ensures |b| >= 4
  {
    match t
    case Begin(n, p) => Be32(FDT_BEGIN_NODE) + n + [0] + p
    case EndNode => Be32(FDT_END_NODE)
    case Prop(o, v, p) => Be32(FDT_PROP) + Be32(|v|) + Be32(o) + v + p
    case Nop => Be32(FDT_NOP)
    case End => Be32(FDT_END)
  }

  function EncAll(ts: seq<Token>): seq<byte> {
    if ts == [] then [] else Enc(ts[0]) + EncAll(ts[1..])
  }

  lemma {:induction false} EncAllConcat(a: seq<Token>, b: seq<Token>)
    ensures EncAll(a + b) == EncAll(a) + EncAll(b)
  {
    hide Enc;
    if a == [] {
      assert a + b == b;
    } else {
      EncAllConcat(a[1..], b);
      assert (a + b)[1..] == a[1..] + b && (a + b)[0] == a[0];
      Assoc(Enc(a[0]), EncAll(a[1..]), EncAll(b));
    }
  }

  lemma EncAllOne(t: Token)
    ensures EncAll([t]) == Enc(t)
  {
    hide Enc;
    assert [t][1..] == [];
  }

  /** Byte offset of token i. */
  function Off(ts: seq<Token>, i: nat): nat
    requires i <= |ts|
  {
    |EncAll(ts[..i])|
  }

  lemma OffStep(ts: seq<Token>, i: nat)
    requires i < |ts|
    ensures Off(ts, i + 1) == Off(ts, i) + |Enc(ts[i])| <= |EncAll(ts)|
    ensures EncAll(ts)[Off(ts, i)..Off(ts, i) + |Enc(ts[i])|] == Enc(ts[i])
  {
    hide Enc;
    var a, b := ts[..i], ts[i + 1..];
    assert ts[..i + 1] == a + [ts[i]];
    EncAllOne(ts[i]);
    EncAllConcat(a, [ts[i]]);
    EncAllConcat(ts[..i + 1], b);
    assert ts == ts[..i + 1] + b;
  }

  lemma EncAligned(t: Token)
    requires ValidToken(t)
    ensures |Enc(t)| % 4 == 0
  {
  }

  lemma {:induction false} OffAligned(ts: seq<Token>, i: nat)
    requires ValidTokens(ts) && i <= |ts|
    ensures Off(ts, i) % 4 == 0
  {
    hide Enc, ValidToken;
    if i == 0 {
    } else {
      OffAligned(ts, i - 1);
      OffStep(ts, i - 1);
      EncAligned(ts[i - 1]);
      AlignedSum(Off(ts, i - 1), |Enc(ts[i - 1])|);
    }
  }

  /** fdt_offset_ptr returns a pointer exactly for these arguments. */
  predicate Readable(s: seq<byte>, off: int, len: nat) {
    0 <= off && off + len <= |s|
  }

  /** The bytes of a property up to the end of its value; the C sum wraps at 32 bits. */
  function PropSpan(len: u32): u32 {
    if len + 12 < U32 then len + 12 else len + 12 - U32
  }

  /** The last check of fdt_next_tag and the alignment of the next offset. */
  function Finish(s: seq<byte>, off: nat, tag: int, span: nat): (int, int) {
    if Readable(s, off, span) then (tag, Align4(off + span)) else (FDT_END, -ERR_BADSTRUCTURE)
  }

  /** fdt_next_tag as a function: the tag at off and the offset of the next one. */
  function TagAt(s: seq<byte>, off: int): (int, int) {
    if !Readable(s, off, 4) then (FDT_END, -ERR_TRUNCATED) else
    var tag := Word(s, off);
    if tag == FDT_BEGIN_NODE then
      var z := Nul(s, off + 4);
      if z == |s| then (FDT_END, -ERR_BADSTRUCTURE) else Finish(s, off, tag, z + 1 - off)
    else if tag == FDT_PROP then
      if !Readable(s, off + 4, 4) then (FDT_END, -ERR_BADSTRUCTURE)
      else Finish(s, off, tag, PropSpan(Word(s, off + 4)))
    else if tag == FDT_END || tag == FDT_END_NODE || tag == FDT_NOP then
      Finish(s, off, tag, 4)
    else (FDT_END, -ERR_BADSTRUCTURE)
  }

  method NextTag(s: seq<byte>, off: int) returns (tag: int, next: int)
    ensures (tag, next) == TagAt(s, off)
  {
    if !Readable(s, off, 4) {
      return FDT_END, -ERR_TRUNCATED;
    }
    tag := Word(s, off);
    var span := 4;
    if tag == FDT_BEGIN_NODE {
      while off + span < |s| && s[off + span] != 0
        invariant 4 <= span <= |s| - off
        invariant Nul(s, off + 4) == Nul(s, off + span)
      {
        span := span + 1;
      }
      if off + span == |s| {
        return FDT_END, -ERR_BADSTRUCTURE;
      }
      span := span + 1;
    } else if tag == FDT_PROP {
      if !Readable(s, off + 4, 4) {
        return FDT_END, -ERR_BADSTRUCTURE;
      }
      span := PropSpan(Word(s, off + 4));
    } else if tag != FDT_END && tag != FDT_END_NODE && tag != FDT_NOP {
      return FDT_END, -ERR_BADSTRUCTURE;
    }
    if !Readable(s, off, span) {
      return FDT_END, -ERR_BADSTRUCTURE;
    }
    next := Align4(off + span);
  }

  lemma NameAt(s: seq<byte>, o: nat, n: seq<byte>)
    requires 0 !in n && o + |n| < |s| && s[o..o + |n| + 1] == n + [0]
    ensures Nul(s, o) == o + |n|
  {
    var e := n + [0];
    assert forall k :: 0 <= k < |e| ==> s[o + k] == s[o..o + |n| + 1][k] == e[k];
    assert s[o + |n|] == 0;
    assert forall k :: o <= k < o + |n| ==> s[k] == n[k - o] != 0;
  }

  lemma WordIn(s: seq<byte>, o: nat, e: seq<byte>, k: nat, w: u32)
    requires o + |e| <= |s| && s[o..o + |e|] == e
    requires k + 4 <= |e| && e[k..k + 4] == Be32(w)
    ensures Word(s, o + k) == w
  {
    SubSlice(s, o, e, k, k + 4);
    WordBe32(s, o + k, w);
  }

  lemma TagAtBegin(s: seq<byte>, o: nat, n: seq<byte>, p: seq<byte>)
    requires o % 4 == 0 && ValidToken(Begin(n, p))
    requires o + |Enc(Begin(n, p))| <= |s|
    requires s[o..o + |Enc(Begin(n, p))|] == Be32(FDT_BEGIN_NODE) + n + [0] + p
    ensures TagAt(s, o) == (FDT_BEGIN_NODE, o + |Enc(Begin(n, p))|)
  {
    assert |Enc(Begin(n, p))| == 4 + |n| + 1 + |p|;
    hide Word, Be32, Align4;
    var e := Be32(FDT_BEGIN_NODE) + n + [0] + p;
    WordIn(s, o, e, 0, FDT_BEGIN_NODE);
    var z := o + 4 + |n|;
    SubSlice(s, o, e, 4, 4 + |n| + 1);
    assert e[4..4 + |n| + 1] == n + [0];
    NameAt(s, o + 4, n);
    Align4Add(o + 4, |n| + 1);
  }

  lemma PropParts(a: seq<byte>, b: seq<byte>, c: seq<byte>, v: seq<byte>, p: seq<byte>)
    requires |a| == |b| == |c| == 4
    ensures var e := a + b + c + v + p;
      e[0..4] == a && e[4..8] == b && e[8..12] == c && e[12..12 + |v|] == v
  {
  }

  /** The header words and the value of a property lie where struct fdt_property puts them. */
  lemma PropFields(s: seq<byte>, o: nat, t: Token)
    requires t.Prop? && ValidToken(t)
    requires o + |Enc(t)| <= |s| && s[o..o + |Enc(t)|] == Enc(t)
    ensures o + 12 + |t.val| <= |s|
    ensures Word(s, o) == FDT_PROP && Word(s, o + 4) == |t.val| && Word(s, o + 8) == t.nameoff
    ensures s[o + 12..o + 12 + |t.val|] == t.val
  {
    var e := Enc(t);
    PropParts(Be32(FDT_PROP), Be32(|t.val|), Be32(t.nameoff), t.val, t.pad);
    assert |e| == 12 + |t.val| + |t.pad|;
    assert e[0..4] == Be32(FDT_PROP) && e[4..8] == Be32(|t.val|) && e[8..12] == Be32(t.nameoff);
    assert e[12..12 + |t.val|] == t.val;
    hide *;
    WordIn(s, o, e, 0, FDT_PROP);
    WordIn(s, o, e, 4, |t.val|);
    WordIn(s, o, e, 8, t.nameoff);
    SubSlice(s, o, e, 12, 12 + |t.val|);
  }

  lemma TagAtProp(s: seq<byte>, o: nat, t: Token)
    requires o % 4 == 0 && t.Prop? && ValidToken(t)
    requires o + |Enc(t)| <= |s| && s[o..o + |Enc(t)|] == Enc(t)
    ensures TagAt(s, o) == (FDT_PROP, o + |Enc(t)|)
  {
    PropFields(s, o, t);
    assert |Enc(t)| == 12 + Align4(|t.val|);
    hide Enc, Word, Be32, Align4;
    Align4Add(o + 12, |t.val|);
  }

  lemma TagAtWord(s: seq<byte>, o: nat, t: Token)
    requires o % 4 == 0 && o + 4 <= |s|
    requires !t.Begin? && !t.Prop? && s[o..o + 4] == Enc(t)
    ensures TagAt(s, o) == (Tag(t), o + 4)
  {
    WordBe32(s, o, Tag(t));
  }

  lemma TagAtEnc(s: seq<byte>, o: nat, t: Token)
    requires ValidToken(t) && o % 4 == 0
    requires o + |Enc(t)| <= |s| && s[o..o + |Enc(t)|] == Enc(t)
    ensures TagAt(s, o) == (Tag(t), o + |Enc(t)|)
  {
    hide TagAt, Be32;
    match t
    case Begin(n, p) => TagAtBegin(s, o, n, p);
    case Prop(f, v, p) => TagAtProp(s, o, t);
    case _ => TagAtWord(s, o, t);
  }

  /** The token lemma: on an encoded token list fdt_next_tag reads token i and lands on token i + 1. */
  lemma TagAtToken(ts: seq<Token>, i: nat)
    requires ValidTokens(ts) && i < |ts|
    ensures TagAt(EncAll(ts), Off(ts, i)) == (Tag(ts[i]), Off(ts, i + 1))
  {
    hide EncAll, Enc, Off, TagAt, Tag, ValidToken;
    OffStep(ts, i);
    OffAligned(ts, i);
    TagAtEnc(EncAll(ts), Off(ts, i), ts[i]);
  }
}
