/** The whole-blob check (fdt_check_full), on any bytes. */
module Checks {
  import opened Bytes
  import opened Tokens
  import opened Views
  import opened Blob
  import opened Parser

  /** How the loop of fdt_check_full ends: with an answer, by not advancing, or by reading behind the block. */
  datatype Outcome = Answer(err: int) | Loops | Overreads

  /** What fdt_get_string answers for a name offset: 0, or its error. */
  function NameError(strtab: seq<byte>, totalsize: nat, o: u32): (e: int)
    ensures e == 0 <==> totalsize < INT_MAX && HasStr(strtab, o)
    ensures totalsize < INT_MAX && |strtab| <= o ==> e == -ERR_BADOFFSET
    ensures e < 0 && (totalsize >= INT_MAX || o < |strtab|) ==> e == -ERR_TRUNCATED
  {
    if totalsize >= INT_MAX then -ERR_TRUNCATED
    else if o >= |strtab| then -ERR_BADOFFSET
    else if Nul(strtab, o) == |strtab| then -ERR_TRUNCATED
    else 0
  }

  /** The loop of fdt_check_full from an offset on, with depth nodes open. */
  function Verdict(s: seq<byte>, strtab: seq<byte>, totalsize: nat, off: nat, depth: nat): Outcome
    decreases |s| - off
  {
    var (tag, next) := TagAt(s, off);
    if next < 0 then Answer(next)
    else if tag == FDT_END then Answer(if depth != 0 then -ERR_BADSTRUCTURE else 0)
    else if tag == FDT_BEGIN_NODE && depth >= INT_MAX then Answer(-ERR_BADSTRUCTURE)
    else if tag == FDT_END_NODE && depth == 0 then Answer(-ERR_BADSTRUCTURE)
    else if tag == FDT_PROP && off + 12 > |s| then Overreads
    else if tag == FDT_PROP && NameError(strtab, totalsize, Word(s, off + 8)) != 0 then
      Answer(NameError(strtab, totalsize, Word(s, off + 8)))
    else if next <= off then Loops
    else Verdict(s, strtab, totalsize, next, Depth(tag, depth))
  }

  function Depth(tag: int, depth: nat): nat {
    if tag == FDT_BEGIN_NODE then depth + 1 else if tag == FDT_END_NODE && depth > 0 then depth - 1 else depth
  }

  /** What a successful fdt_next_tag says about the bytes at an offset. */
  predicate Facts(s: seq<byte>, off: nat, tag: int, next: int) {
    && off + 4 <= |s| && next % 4 == 0 && tag == Word(s, off)
    && match tag
       case 1 => Nul(s, off + 4) < |s| && next == Align4(Nul(s, off + 4) + 1) > off
       case 3 => off + 8 <= |s| && PropFacts(s, off, next)
       case _ => (tag == FDT_END || tag == FDT_END_NODE || tag == FDT_NOP) && next == off + 4
  }

  lemma TagFacts(s: seq<byte>, off: nat)
    requires off % 4 == 0 && |s| <= INT_MAX
    ensures TagAt(s, off).1 >= 0 ==> Facts(s, off, TagAt(s, off).0, TagAt(s, off).1)
    ensures TagAt(s, off).1 < 0 ==> TagAt(s, off).0 == FDT_END
  {
    hide Word, Nul, Align4;
    if Readable(s, off, 4) {
      var tag := Word(s, off);
      var span := if tag == FDT_BEGIN_NODE then Nul(s, off + 4) + 1 - off
                  else if tag == FDT_PROP && Readable(s, off + 4, 4) then PropSpan(Word(s, off + 4))
                  else 4;
      AlignIs(off + span);
      AlignIs(off + 4);
    }
  }

  lemma AlignIs(n: nat)
    ensures Align4(n) % 4 == 0 && n <= Align4(n) < n + 4
    ensures n % 4 == 0 ==> Align4(n) == n
  {
  }

  /** A property either lies in the block, or has a length word so large that the sum with its header wraps. */
  predicate PropFacts(s: seq<byte>, off: nat, next: int)
    requires off + 8 <= |s|
  {
    var len: nat := Word(s, off + 4);
    if len < U32 - 12 then len <= INT_MAX && off + 12 + len <= |s| && next == Align4(off + 12 + len)
    else off + (len - (U32 - 12)) <= |s| && next == Align4(off + (len - (U32 - 12)))
  }

  /** fdt_next_tag fails to advance exactly at a property whose length word is 2^32 - 12. */
  lemma StuckIs(s: seq<byte>, off: nat)
    requires off % 4 == 0 && |s| <= INT_MAX && TagAt(s, off).1 >= 0
    ensures TagAt(s, off).1 <= off <==> TagAt(s, off).0 == FDT_PROP && off + 8 <= |s| && Word(s, off + 4) == U32 - 12
  {
    hide TagAt, Word;
    TagFacts(s, off);
  }

  /** From an offset on, no property that the scan meets has a length word whose sum with its header wraps. */
  predicate Plain(s: seq<byte>, off: nat)
    decreases |s| - off
  {
    var (tag, next) := TagAt(s, off);
    next < 0 || tag == FDT_END
    || ((tag == FDT_PROP ==> off + 8 <= |s| && Word(s, off + 4) < U32 - 12) && next > off && Plain(s, next))
  }

  /** fdt_next_tag has read a tag from off and goes on to next, and the token lies in the block as a whole. */
  predicate Whole(s: seq<byte>, off: nat, tag: int, next: int) {
    Facts(s, off, tag, next) && next <= |s| && (tag == FDT_PROP ==> Word(s, off + 4) < U32 - 12)
  }

  /** The token at an offset from which fdt_next_tag goes on to next. */
  function TokenAt(s: seq<byte>, off: nat, tag: int, next: int): Token
    requires Whole(s, off, tag, next)
  {
    if tag == FDT_BEGIN_NODE then Begin(s[off + 4..Nul(s, off + 4)], s[Nul(s, off + 4) + 1..next])
    else if tag == FDT_END_NODE then EndNode
    else if tag == FDT_PROP then
      var end := off + 12 + Word(s, off + 4); Prop(Word(s, off + 8), s[off + 12..end], s[end..next])
    else if tag == FDT_NOP then Nop
    else End
  }

  /** The tokens from an offset up to FDT_END, when each of them lies in the block. */
  function ReadTokens(s: seq<byte>, off: nat): (r: Option<seq<Token>>)
    ensures r.Some? ==> off + 4 <= |s| && r.value != []
    decreases |s| - off
  {
    var (tag, next) := TagAt(s, off);
    if next < 0 || next <= off then None
    else if tag == FDT_END then Some([End])
    else
      var rest := ReadTokens(s, next);
      if rest.None? || !Whole(s, off, tag, next) then None
      else Some([TokenAt(s, off, tag, next)] + rest.value)
  }

  /** The bytes from an offset on begin with the encoding of a token list with one FDT_END, at its end. */
  ghost predicate Encodes(s: seq<byte>, off: nat, ts: seq<Token>) {
    && off + |EncAll(ts)| <= |s| && s[off..off + |EncAll(ts)|] == EncAll(ts)
    && ValidTokens(ts) && ts != [] && ts[|ts| - 1].End? && OneEnd(ts)
  }

  lemma TokenEncodes(s: seq<byte>, off: nat, tag: int, next: int)
    requires off % 4 == 0 && Whole(s, off, tag, next)
    ensures ValidToken(TokenAt(s, off, tag, next)) && Enc(TokenAt(s, off, tag, next)) == s[off..next]
    ensures TokenAt(s, off, tag, next).End? <==> tag == FDT_END
  {
    hide Align4, Word, Be32, Nul;
    BytesOfWord(s, off);
    if tag == FDT_BEGIN_NODE {
      BeginEncodes(s, off, Nul(s, off + 4), next);
    } else if tag == FDT_PROP {
      PropEncodes(s, off, Word(s, off + 4), next);
    }
  }

  lemma BeginEncodes(s: seq<byte>, off: nat, z: nat, next: int)
    requires off % 4 == 0 && off + 4 <= |s| && Nul(s, off + 4) == z < |s| && next == Align4(z + 1) <= |s|
    ensures off + 4 <= z < next && ValidToken(Begin(s[off + 4..z], s[z + 1..next]))
    ensures s[off..off + 4] + s[off + 4..z] + [0] + s[z + 1..next] == s[off..next]
  {
    hide Align4, Nul;
    AlignIs(z + 1);
    Align4Add(off + 4, z + 1 - (off + 4));
    NoNul(s, off + 4, z);
    Cuts(s, off, off + 4, z, z + 1, next);
  }

  lemma NoNul(s: seq<byte>, o: nat, z: nat)
    requires o <= z < |s| && Nul(s, o) == z
    ensures 0 !in s[o..z] && s[z..z + 1] == [0]
  {
    hide Nul;
  }

  /** Neighbouring slices, joined. */
  lemma Cuts(s: seq<byte>, a: nat, b: nat, c: nat, d: nat, e: nat)
    requires a <= b <= c <= d <= e <= |s|
    ensures s[a..b] + s[b..c] + s[c..d] + s[d..e] == s[a..e]
  {
  }

  lemma PropEncodes(s: seq<byte>, off: nat, len: nat, next: int)
    requires off % 4 == 0 && off + 12 + len <= |s| && len <= INT_MAX && next == Align4(off + 12 + len) <= |s|
    ensures var end := off + 12 + len; next >= end && ValidToken(Prop(Word(s, off + 8), s[off + 12..end], s[end..next]))
    ensures Be32(Word(s, off + 4)) == s[off + 4..off + 8] && Be32(Word(s, off + 8)) == s[off + 8..off + 12]
    ensures var end := off + 12 + len;
      s[off..off + 4] + s[off + 4..off + 8] + s[off + 8..off + 12] + s[off + 12..end] + s[end..next] == s[off..next]
  {
    hide Align4, Word, Be32;
    AlignIs(off + 12 + len);
    Align4Add(off + 12, len);
    BytesOfWord(s, off + 4);
    BytesOfWord(s, off + 8);
    Cuts(s, off, off + 4, off + 8, off + 12, off + 12 + len);
    assert s[off..off + 12 + len] + s[off + 12 + len..next] == s[off..next];
  }

  /** What has been read is encoded in the block. */
  lemma {:induction false} ReadEncodes(s: seq<byte>, off: nat)
    requires off % 4 == 0 && |s| <= INT_MAX && ReadTokens(s, off).Some?
    ensures Encodes(s, off, ReadTokens(s, off).value)
    decreases |s| - off
  {
    hide TagAt, PropFacts, Enc, Word, TokenAt, Nul, Align4, Encodes;
    var (tag, next) := TagAt(s, off);
    TagFacts(s, off);
    if tag == FDT_END {
      EndIs(s, off, next);
    } else {
      ReadEncodes(s, next);
      TokenEncodes(s, off, tag, next);
      FrontToken(s, off, next, TokenAt(s, off, tag, next), ReadTokens(s, next).value);
    }
  }

  lemma EndIs(s: seq<byte>, off: nat, next: int)
    requires Facts(s, off, FDT_END, next)
    ensures Encodes(s, off, [End])
  {
    BytesOfWord(s, off);
    EncAllOne(End);
  }

  lemma FrontToken(s: seq<byte>, off: nat, next: nat, t: Token, ts: seq<Token>)
    requires off <= next && Encodes(s, next, ts) && ValidToken(t) && Enc(t) == s[off..next] && !t.End?
    ensures Encodes(s, off, [t] + ts)
  {
    hide Enc, ValidToken;
    var e := EncAll(ts);
    assert ([t] + ts)[1..] == ts;
    assert s[off..next + |e|] == s[off..next] + s[next..next + |e|];
  }

  /** A token list that is encoded in the block is what is read, and every property is plain. */
  lemma {:induction false} EncodedRead(s: seq<byte>, off: nat, ts: seq<Token>)
    requires off % 4 == 0 && |s| <= INT_MAX && Encodes(s, off, ts)
    ensures ReadTokens(s, off) == Some(ts) && Plain(s, off)
    decreases |ts|
  {
    hide TagAt, Facts, EncAll, Enc, Word, TokenAt, ValidToken, Tag;
    var t, next := ts[0], off + |Enc(ts[0])|;
    RestEncoded(s, off, ts);
    TagAtEnc(s, off, t);
    TagFacts(s, off);
    TagIs(t);
    if t.End? {
      assert ts == [End];
    } else {
      EncAligned(t);
      EncodedRead(s, next, ts[1..]);
      TokenRead(s, off, t, Tag(t), next);
      assert [t] + ts[1..] == ts;
    }
  }

  lemma TagIs(t: Token)
    ensures Tag(t) == FDT_END <==> t.End?
    ensures Tag(t) == FDT_PROP <==> t.Prop?
    ensures Tag(t) == FDT_BEGIN_NODE <==> t.Begin?
    ensures Tag(t) == FDT_END_NODE <==> t.EndNode?
  {
  }

  lemma RestEncoded(s: seq<byte>, off: nat, ts: seq<Token>)
    requires Encodes(s, off, ts)
    ensures var next := off + |Enc(ts[0])|; next <= |s| && s[off..next] == Enc(ts[0])
    ensures ts[0].End? ==> |ts| == 1
    ensures !ts[0].End? ==> Encodes(s, off + |Enc(ts[0])|, ts[1..])
    ensures ValidToken(ts[0])
  {
    hide Enc, ValidToken;
    var e, n := EncAll(ts), |Enc(ts[0])|;
    assert e == Enc(ts[0]) + EncAll(ts[1..]);
    SubSlice(s, off, e, 0, n);
    SubSlice(s, off, e, n, |e|);
    assert e[..n] == Enc(ts[0]) && e[n..] == EncAll(ts[1..]);
  }

  /** A token read back from its encoding. */
  lemma TokenRead(s: seq<byte>, off: nat, t: Token, tag: int, next: nat)
    requires off <= next <= |s| && s[off..next] == Enc(t) && tag == Tag(t) && Facts(s, off, tag, next)
    requires ValidToken(t) && !t.End?
    ensures Whole(s, off, tag, next) && TokenAt(s, off, tag, next) == t
  {
    hide Word, Be32, Align4, Nul, Enc, PropFacts, ValidToken;
    if t.Begin? {
      BeginRead(s, off, t, next);
    } else if t.Prop? {
      PropRead(s, off, t, next);
    }
  }

  lemma BeginRead(s: seq<byte>, off: nat, t: Token, next: nat)
    requires off <= next <= |s| && s[off..next] == Enc(t) && t.Begin? && ValidToken(t)
    ensures off + 4 <= |s| && Nul(s, off + 4) == off + 4 + |t.name| < next
    ensures s[off + 4..off + 4 + |t.name|] == t.name && s[off + 4 + |t.name| + 1..next] == t.pad
  {
    hide Be32, Align4, Nul;
    var e, n := Enc(t), |t.name|;
    SubSlice(s, off, e, 4, 4 + n + 1);
    SubSlice(s, off, e, 4, 4 + n);
    SubSlice(s, off, e, 5 + n, |e|);
    assert e[4..4 + n + 1] == t.name + [0] && e[4..4 + n] == t.name && e[5 + n..] == t.pad;
    NameAt(s, off + 4, t.name);
  }

  lemma PropRead(s: seq<byte>, off: nat, t: Token, next: nat)
    requires off <= next <= |s| && s[off..next] == Enc(t) && t.Prop? && ValidToken(t)
    ensures off + 12 + |t.val| <= next && Word(s, off + 4) == |t.val| <= INT_MAX && Word(s, off + 8) == t.nameoff
    ensures s[off + 12..off + 12 + |t.val|] == t.val && s[off + 12 + |t.val|..next] == t.pad
  {
    hide Be32, Align4, Word;
    PropFields(s, off, t);
    SubSlice(s, off, Enc(t), 12 + |t.val|, |Enc(t)|);
    assert Enc(t)[12 + |t.val|..] == t.pad;
  }

  /** What the first token contributes to the balance of the calls. */
  lemma FrontCall(t: Token, ts: seq<Token>, strtab: seq<byte>, d: nat)
    requires !t.End?
    ensures Balanced(CallsOf([t] + ts, strtab), d) <==>
      (!t.EndNode? || d > 0) && Balanced(CallsOf(ts, strtab), Depth(Tag(t), d))
  {
    hide Str;
    var rest, c := CallsOf(ts, strtab), CallOf(t, strtab);
    assert ([t] + ts)[0] == t && ([t] + ts)[1..] == ts;
    assert (c + rest)[|c|..] == rest;
    assert c == [] ==> c + rest == rest;
  }

  lemma EndCalls(strtab: seq<byte>)
    ensures CallsOf([End], strtab) == []
  {
    assert [End][1..] == [];
  }

  /** The same for the token that is read at an offset, and for the names. */
  lemma FrontRead(s: seq<byte>, off: nat, tag: int, next: int, strtab: seq<byte>, ts: seq<Token>, d: nat,
                  totalsize: nat)
    requires Whole(s, off, tag, next) && tag != FDT_END
    ensures var us := [TokenAt(s, off, tag, next)] + ts;
      && (Balanced(CallsOf(us, strtab), d) <==>
            (tag != FDT_END_NODE || d > 0) && Balanced(CallsOf(ts, strtab), Depth(tag, d)))
      && (NamesOk(us, strtab, totalsize) <==>
            (tag == FDT_PROP ==> NameError(strtab, totalsize, Word(s, off + 8)) == 0) && NamesOk(ts, strtab, totalsize))
  {
    hide Balanced, CallsOf, Word, HasStr, Nul, Align4;
    var t := TokenAt(s, off, tag, next);
    FrontCall(t, ts, strtab, d);
    var us := [t] + ts;
    assert us[0] == t && forall i :: 0 <= i < |ts| ==> us[i + 1] == ts[i];
  }

  /**
   * On a block whose properties are plain the loop ends with an answer, and it accepts exactly when what
   * it reads is balanced with the open nodes, up to FDT_END, and every property name can be read.
   */
  lemma {:induction false} VerdictIs(s: seq<byte>, strtab: seq<byte>, totalsize: nat, off: nat, depth: nat)
    requires off % 4 == 0 && |s| <= INT_MAX && Plain(s, off) && 4 * depth <= off
    ensures var v, r := Verdict(s, strtab, totalsize, off, depth), ReadTokens(s, off);
      && v.Answer?
      && (v == Answer(0) <==>
            r.Some? && Balanced(CallsOf(r.value, strtab), depth) && NamesOk(r.value, strtab, totalsize))
    decreases |s| - off
  {
    hide TagAt, Word, HasStr, CallsOf, TokenAt, Nul, Align4, NameError;
    var (tag, next) := TagAt(s, off);
    TagFacts(s, off);
    EndCalls(strtab);
    if next >= 0 && tag != FDT_END {
      var r := ReadTokens(s, next);
      if r.Some? {
        FrontRead(s, off, tag, next, strtab, r.value, depth, totalsize);
      }
      if Depth(tag, depth) * 4 <= next {
        VerdictIs(s, strtab, totalsize, next, Depth(tag, depth));
      }
    }
  }

  /** What the loop is to accept: an encoded token list that is balanced, with names that can be read. */
  ghost predicate Proper(s: seq<byte>, strtab: seq<byte>, totalsize: nat, ts: seq<Token>) {
    Encodes(s, 0, ts) && Balanced(CallsOf(ts, strtab), 0) && NamesOk(ts, strtab, totalsize)
  }

  /** When the properties are plain the loop ends, and it accepts what it is to accept. */
  lemma PlainAccepted(s: seq<byte>, strtab: seq<byte>, totalsize: nat)
    requires |s| <= INT_MAX && Plain(s, 0)
    ensures Verdict(s, strtab, totalsize, 0, 0).Answer?
    ensures Verdict(s, strtab, totalsize, 0, 0) == Answer(0) <==> exists ts :: Proper(s, strtab, totalsize, ts)
  {
    hide Verdict, ReadTokens, Encodes, Plain, Balanced, CallsOf, NamesOk;
    VerdictIs(s, strtab, totalsize, 0, 0);
    if Verdict(s, strtab, totalsize, 0, 0) == Answer(0) {
      ReadEncodes(s, 0);
      assert Proper(s, strtab, totalsize, ReadTokens(s, 0).value);
    }
    if ts :| Proper(s, strtab, totalsize, ts) {
      EncodedRead(s, 0, ts);
    }
  }

  /** Whatever it accepts is an encoded token list exactly when the properties are plain. */
  lemma AcceptedIffPlain(s: seq<byte>, strtab: seq<byte>, totalsize: nat)
    requires |s| <= INT_MAX && Verdict(s, strtab, totalsize, 0, 0) == Answer(0)
    ensures Plain(s, 0) <==> exists ts :: Encodes(s, 0, ts)
  {
    hide Verdict, ReadTokens, Encodes, Plain, Balanced, CallsOf, NamesOk;
    if Plain(s, 0) {
      VerdictIs(s, strtab, totalsize, 0, 0);
      ReadEncodes(s, 0);
    }
    if ts :| Encodes(s, 0, ts) {
      EncodedRead(s, 0, ts);
    }
  }

  /** A property with the length word 2^32 - 12, and the loop does not end. */
  lemma LoopsExample()
    ensures Verdict(Words([FDT_PROP, U32 - 12, 0]), [0], 100, 0, 0) == Loops
  {
    var ws: seq<u32> := [FDT_PROP, U32 - 12, 0];
    ThreeWords(ws, []);
    hide Words, Word;
    assert Words(ws) + [] == Words(ws);
  }

  /** A property with the length word 2^32 - 1, a length of -1 to its readers, and the loop accepts the block. */
  lemma NegativeAccepted()
    ensures var s := Words([FDT_PROP, U32 - 1, 0]) + Words([FDT_END]);
      Verdict(s, [0], 100, 0, 0) == Answer(0) && forall ts :: !Encodes(s, 0, ts)
  {
    var ws: seq<u32>, end: seq<u32> := [FDT_PROP, U32 - 1, 0], [FDT_END];
    var s := Words(ws) + Words(end);
    ThreeWords(ws, Words(end));
    WordsAt(end, [], 0);
    assert Words(end) + [] == Words(end);
    hide Words, Word, Encodes;
    SameWord(s, 12, Words(end), 0);
    assert TagAt(s, 0) == (FDT_PROP, 12) && TagAt(s, 12) == (FDT_END, 16);
    if ts :| Encodes(s, 0, ts) {
      EncodedRead(s, 0, ts);
    }
  }

  lemma ThreeWords(ws: seq<u32>, rest: seq<byte>)
    requires |ws| == 3
    ensures var s := Words(ws) + rest; Word(s, 0) == ws[0] && Word(s, 4) == ws[1] && Word(s, 8) == ws[2]
  {
    hide Words, Word;
    WordsAt(ws, rest, 0);
    WordsAt(ws, rest, 1);
    WordsAt(ws, rest, 2);
  }

  // -------------------------------------------------------------- the methods

  /** The loop of fdt_check_full. */
  method CheckStruct(s: seq<byte>, strtab: seq<byte>, totalsize: nat) returns (o: Outcome)
    requires |s| <= INT_MAX
    ensures o == Verdict(s, strtab, totalsize, 0, 0)
  {
    hide HasStr, Nul, Word, Align4;
    var off, next, depth := 0, 0, 0;
    while true
      invariant 0 <= next && Verdict(s, strtab, totalsize, next, depth) == Verdict(s, strtab, totalsize, 0, 0)
      decreases |s| - next
    {
      off := next;
      var tag;
      tag, next := NextTag(s, off);
      if next < 0 {
        return Answer(next);
      }
      if tag == FDT_END {
        return Answer(if depth != 0 then -ERR_BADSTRUCTURE else 0);
      } else if tag == FDT_BEGIN_NODE {
        depth := depth + 1;
        if depth > INT_MAX {
          return Answer(-ERR_BADSTRUCTURE);
        }
      } else if tag == FDT_END_NODE {
        if depth == 0 {
          return Answer(-ERR_BADSTRUCTURE);
        }
        depth := depth - 1;
      } else if tag == FDT_PROP {
        if off + 12 > |s| {
          return Overreads;
        }
        var err := NameError(strtab, totalsize, Word(s, off + 8));
        if err != 0 {
          return Answer(err);
        }
      }
      if next <= off {
        return Loops;
      }
    }
  }

  function BlockIn(m: seq<byte>, h: Header): (s: seq<byte>)
    requires CheckHeader(h) == 0 && h.totalsize <= |m|
    ensures |s| == h.sizeStruct <= INT_MAX
  {
    m[h.offStruct..h.offStruct + h.sizeStruct]
  }

  function NamesIn(m: seq<byte>, h: Header): seq<byte>
    requires CheckHeader(h) == 0 && h.totalsize <= |m|
  {
    m[h.offStrings..h.offStrings + h.sizeStrings]
  }

  /** The reservation list has an end inside the blob. */
  ghost predicate ListHasEnd(m: seq<byte>, h: Header)
    requires h.totalsize <= |m|
  {
    exists k: nat :: RsvFits(h, k) && NoSize(m, h, k)
  }

  /** The fields of the header that locate no block, as far as fdt_check_header looks at them. */
  datatype Title = Title(magic: u32, version: u32, lastComp: u32)

  function TitleError(t: Title): int {
    if t.magic != FDT_MAGIC then -ERR_BADMAGIC
    else if t.version < 2 || t.lastComp > 17 || t.version < t.lastComp then -ERR_BADVERSION
    else 0
  }

  /** What fdt_check_header answers for version 17 or later. */
  function HeaderError(t: Title, h: Header): int {
    if TitleError(t) != 0 then TitleError(t) else CheckHeader(h)
  }

  /** An area of a blob that lies between its header of 40 bytes and its end. */
  predicate Lies(h: Header, off: nat, size: nat) {
    40 <= off && off + size <= h.totalsize
  }

  /**
   * fdt_check_header passes exactly the headers with the magic number, of versions that can be read, and of blobs
   * that hold their blocks; it tells these three apart.
   */
  lemma HeaderErrorIs(t: Title, h: Header)
    ensures var magic := t.magic == 0xD00D_FEED;
      var version := 2 <= t.version && t.lastComp <= 17 && t.lastComp <= t.version;
      var sizes := h.totalsize <= 0x7FFF_FFFF && Lies(h, h.offRsv, 0) && Lies(h, h.offStruct, h.sizeStruct)
                   && Lies(h, h.offStrings, h.sizeStrings);
      HeaderError(t, h) == if !magic then -9 else if !version then -10 else if !sizes then -8 else 0
  {
  }

  /** fdt_check_full: the header, reservations, then the loop. */
  method CheckFull(m: seq<byte>, t: Title, h: Header) returns (o: Outcome)
    requires TitleError(t) == 0 ==> t.version >= 17
    ensures |m| < 28 ==> o == Answer(-ERR_TRUNCATED)
    ensures |m| >= 28 && HeaderError(t, h) != 0 ==> o == Answer(HeaderError(t, h))
    ensures |m| >= 28 && HeaderError(t, h) == 0 && h.totalsize > |m| ==> o == Answer(-ERR_TRUNCATED)
    ensures |m| >= 28 && HeaderError(t, h) == 0 && h.totalsize <= |m| ==>
      o == if ListHasEnd(m, h) then Verdict(BlockIn(m, h), NamesIn(m, h), h.totalsize, 0, 0) else Answer(-ERR_TRUNCATED)
    ensures |m| >= 28 && HeaderError(t, h) == 0 && h.totalsize <= |m| && Plain(BlockIn(m, h), 0) ==>
      (o == Answer(0) <==> ListHasEnd(m, h) && exists ts :: Proper(BlockIn(m, h), NamesIn(m, h), h.totalsize, ts))
  {
    hide Verdict, Proper, Plain, NoSize;
    if |m| < 28 {
      return Answer(-ERR_TRUNCATED);
    }
    var err := HeaderError(t, h);
    if err != 0 {
      return Answer(err);
    }
    if |m| < h.totalsize {
      return Answer(-ERR_TRUNCATED);
    }
    var escapes;
    err, escapes := NumMemRsv(m, h);
    if err < 0 {
      return Answer(err);
    }
    if Plain(BlockIn(m, h), 0) {
      PlainAccepted(BlockIn(m, h), NamesIn(m, h), h.totalsize);
    }
    o := CheckStruct(BlockIn(m, h), NamesIn(m, h), h.totalsize);
  }
}
