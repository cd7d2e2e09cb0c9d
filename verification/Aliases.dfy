/**
 * Paths that begin with an alias (fdt_path_offset): the property of that name of the node /aliases is a path, and
 * may begin with an alias itself.
 */
module Aliases {
  import opened Bytes
  import opened Tokens
  import opened Trees
  import opened Views
  import opened Scan
  import opened Lookup
  import opened Splices
  import opened Ancestry
  import opened Paths
  import opened PathLookup

  const ERR_BADPATH := 5

  /** A blob: its structure and strings blocks, and its tree. */
  datatype Dtb = Dtb(s: seq<byte>, strtab: seq<byte>, top: seq<Item>)

  ghost predicate Good(b: Dtb) {
    Represents(b.s, b.strtab, b.top) && SingleRoot(b.top)
  }

  predicate Absolute(path: seq<byte>) {
    path != [] && path[0] == SLASH
  }

  /** "/aliases" */
  const ALIASES: seq<byte> := [47, 97, 108, 105, 97, 115, 101, 115]

  // ---------------------------------------------------------- a single alias

  /** Going down from a node leads to a node. */
  lemma ResolvesTo(top: seq<Item>, g: seq<nat>, comps: seq<seq<byte>>)
    requires Addr(top, g) && ValidPath(top, g)
    ensures match Resolve(top, g, comps)
      case Some(f) => Addr(top, f) && ValidPath(top, f)
      case None => true
  {
    hide Addr, Descend;
    var rest := Descend(Sub(top, g), comps);
    if comps == [] {
      ResolveEnd(top, g);
    } else if rest.Some? {
      assert ItemsOf(top, g) == Sub(top, g);
      DescendAddr(Sub(top, g), comps);
      AddrPath(top, g, rest.value);
      var items := ItemsOf(top, g + rest.value);
    }
  }

  /** The node /aliases. */
  ghost function AliasNode(b: Dtb): (f: Option<seq<nat>>)
    requires Good(b)
    ensures f.Some? ==> Addr(b.top, f.value) && ValidPath(b.top, f.value)
  {
    hide Components, Resolve;
    RootAddr(b.top);
    ResolvesTo(b.top, [0], Components(ALIASES, 0));
    Resolve(b.top, [0], Components(ALIASES, 0))
  }

  /** The place of the value of an alias in the structure block. */
  ghost function AliasAt(b: Dtb, name: seq<byte>): (p: Option<nat>)
    requires Good(b)
  {
    match AliasNode(b)
    case None => None
    case Some(f) =>
      match FirstProp(BlockToks(b.top), Idx(b.top, f) + 1, b.strtab, name)
      case Found(j) => Some(Off(BlockToks(b.top), j) + 12)
      case _ => None
  }

  /** The path that an alias stands for: the bytes from its value to the next NUL. */
  ghost function Alias(b: Dtb, name: seq<byte>): Option<seq<byte>>
    requires Good(b)
  {
    var p := AliasAt(b, name);
    if p.None? then None else Some(Str(b.s, p.value))
  }

  /** There is a NUL, in the token behind the property if not before. */
  lemma AliasEnds(b: Dtb, name: seq<byte>)
    requires Good(b) && AliasAt(b, name).Some?
    ensures HasStr(b.s, AliasAt(b, name).value)
  {
    hide EncAll, Off, Enc, Word, ValidToken, FirstProp, Idx, AliasNode, Resolve;
    var ts := BlockToks(b.top);
    var j := FirstProp(ts, Idx(b.top, AliasNode(b).value) + 1, b.strtab, name).index;
    PropToken(b.s, ts, j);
    assert ts[|ts| - 1].End?;
    NextByte(b.s, ts, j);
  }

  lemma AliasRead(b: Dtb, name: seq<byte>)
    requires Good(b)
    ensures match AliasAt(b, name)
      case Some(p) => Alias(b, name).Some? && GetString(b.s, p) == Alias(b, name)
      case None => Alias(b, name).None?
  {
    hide Good, AliasAt;
    if AliasAt(b, name).Some? {
      AliasEnds(b, name);
    }
  }

  /** The token behind a property begins with a zero byte. */
  lemma NextByte(s: seq<byte>, ts: seq<Token>, j: nat)
    requires Block(s, ts) && j + 1 < |ts| && ts[j].Prop?
    ensures Off(ts, j) + 12 + |ts[j].val| <= Off(ts, j + 1) < |s| && s[Off(ts, j + 1)] == 0
  {
    hide EncAll, Off;
    OffStep(ts, j);
    OffStep(ts, j + 1);
    var e := Enc(ts[j + 1]);
    assert s[Off(ts, j + 1)..Off(ts, j + 1) + |e|][0] == e[0] == 0;
  }

  // ---------------------------------------------------------------- chains

  /** The first component of a path. */
  function First(path: seq<byte>): seq<byte> {
    path[..NextSlash(path, 0)]
  }

  /** The path that n steps lead to, each from a path that begins with an alias to that which the alias stands for. */
  ghost function Steps(b: Dtb, path: seq<byte>, n: nat): Option<seq<byte>>
    requires Good(b)
    decreases n
  {
    hide Good, Alias, First, Absolute;
    if n == 0 then Some(path)
    else if Absolute(path) || Alias(b, First(path)).None? then None
    else Steps(b, Alias(b, First(path)).value, n - 1)
  }

  /** The chain of aliases has no end. */
  ghost predicate Endless(b: Dtb, path: seq<byte>)
    requires Good(b)
  {
    forall n: nat :: Steps(b, path, n).Some?
  }

  lemma {:induction false} StepsAdd(b: Dtb, path: seq<byte>, m: nat, n: nat)
    requires Good(b)
    ensures Steps(b, path, m + n) ==
      if Steps(b, path, m).None? then None else Steps(b, Steps(b, path, m).value, n)
    decreases m
  {
    hide Alias, Good, Absolute;
    if m == 0 {
      assert Steps(b, path, m) == Some(path);
    } else if !Absolute(path) && Alias(b, First(path)).Some? {
      StepsAdd(b, Alias(b, First(path)).value, m - 1, n);
    }
  }

  /** A path that comes back to itself goes on for ever. */
  lemma {:induction false} Periodic(b: Dtb, path: seq<byte>, d: nat, n: nat)
    requires Good(b) && d > 0 && Steps(b, path, d) == Some(path)
    ensures Steps(b, path, n).Some?
    decreases n
  {
    hide Steps, Good;
    if n <= d {
      StepsAdd(b, path, n, d - n);
    } else {
      StepsAdd(b, path, d, n - d);
      Periodic(b, path, d, n - d);
    }
  }

  /** The last step of a chain takes the value of a property. */
  lemma {:induction false} StepFrom(b: Dtb, path: seq<byte>, n: nat) returns (at: nat)
    requires Good(b) && Steps(b, path, n + 1).Some?
    ensures at < |b.s| && Steps(b, path, n + 1) == Some(Str(b.s, at))
  {
    hide Steps, Good;
    StepsAdd(b, path, n, 1);
    var p := Steps(b, path, n).value;
    at := OneStep(b, p);
  }

  lemma OneStep(b: Dtb, path: seq<byte>) returns (at: nat)
    requires Good(b) && Steps(b, path, 1).Some?
    ensures at < |b.s| && Steps(b, path, 1) == Some(Str(b.s, at))
  {
    hide Good, AliasAt, First;
    var next := Alias(b, First(path)).value;
    assert Steps(b, path, 1) == Steps(b, next, 0) == Some(next);
    at := AliasAt(b, First(path)).value;
    AliasEnds(b, First(path));
  }

  /** Among more than n numbers below n two are the same. */
  lemma {:induction false} Pigeons(f: seq<nat>, n: nat) returns (i: nat, j: nat)
    requires |f| > n && forall k :: 0 <= k < |f| ==> f[k] < n
    ensures i < j < |f| && f[i] == f[j]
    decreases n
  {
    var last := |f| - 1;
    assert f[last] < n;
    if k: nat :| k < last && f[k] == f[last] {
      i, j := k, last;
    } else {
      var g: seq<nat> := seq(last, k requires 0 <= k < last => if f[k] > f[last] then f[k] - 1 else f[k]);
      i, j := Pigeons(g, n - 1);
    }
  }

  /** Where each of the first n steps of a chain takes its path from. */
  lemma {:induction false} Sources(b: Dtb, path: seq<byte>, n: nat) returns (f: seq<nat>)
    requires Good(b) && Steps(b, path, n).Some?
    ensures |f| == n
    ensures forall k :: 0 <= k < n ==> f[k] < |b.s| && Steps(b, path, k + 1) == Some(Str(b.s, f[k]))
  {
    hide Steps, Good;
    if n == 0 {
      f := [];
    } else {
      StepsAdd(b, path, n - 1, 1);
      f := Sources(b, path, n - 1);
      var at := StepFrom(b, path, n - 1);
      f := f + [at];
    }
  }

  /** A chain has no end exactly when it is longer than the structure block. */
  lemma EndlessIff(b: Dtb, path: seq<byte>)
    requires Good(b)
    ensures Endless(b, path) <==> Steps(b, path, |b.s| + 1).Some?
  {
    hide Steps, Good;
    if Steps(b, path, |b.s| + 1).Some? {
      var f := Sources(b, path, |b.s| + 1);
      var i, j := Pigeons(f, |b.s|);
      var p := Steps(b, path, i + 1).value;
      StepsAdd(b, path, i + 1, j - i);
      forall n: nat ensures Steps(b, path, n).Some? {
        if n <= i + 1 {
          StepsAdd(b, path, n, i + 1 - n);
        } else {
          StepsAdd(b, path, i + 1, n - (i + 1));
          Periodic(b, p, j - i, n - (i + 1));
        }
      }
    }
  }

  /** An alias that stands for itself. */
  lemma SelfAlias(b: Dtb, path: seq<byte>)
    requires Good(b) && !Absolute(path) && Alias(b, First(path)) == Some(path)
    ensures Endless(b, path)
  {
    hide Good, Alias;
    assert Steps(b, path, 1) == Steps(b, path, 0);
    forall n: nat ensures Steps(b, path, n).Some? {
      Periodic(b, path, 1, n);
    }
  }

  // ------------------------------------------------------------- the meaning

  /** What a path means: a node, or an error. */
  datatype Goal = At(f: seq<nat>) | Fails(err: int)

  ghost predicate ValidGoal(top: seq<Item>, goal: Goal) {
    if goal.At? then Addr(top, goal.f) && ValidPath(top, goal.f) else goal.err < 0
  }

  /** Going on from a goal along the components from p on. */
  ghost function Onward(top: seq<Item>, goal: Goal, path: seq<byte>, p: nat): (r: Goal)
    requires p <= |path| && ValidGoal(top, goal)
    ensures ValidGoal(top, r)
  {
    hide Components, Resolve, Addr, ValidPath;
    if goal.Fails? then goal else
    ResolvesTo(top, goal.f, Components(path, p));
    var f := Resolve(top, goal.f, Components(path, p));
    if f.None? then Fails(-ERR_NOTFOUND) else At(f.value)
  }

  lemma RootGoal(b: Dtb)
    requires Good(b)
    ensures ValidGoal(b.top, At([0]))
  {
    hide Addr, ValidPath;
    RootAddr(b.top);
  }

  /** The meaning of a path, unless its chain is longer than n steps. */
  ghost function Meaning(b: Dtb, path: seq<byte>, n: nat): (r: Option<Goal>)
    requires Good(b)
    ensures r.Some? ==> ValidGoal(b.top, r.value)
    decreases n
  {
    hide Good, Alias, Onward, Absolute, First, Addr, ValidPath;
    if n == 0 then None
    else if Absolute(path) then
      RootGoal(b);
      Some(Onward(b.top, At([0]), path, 0))
    else
      match Alias(b, First(path))
      case None => Some(Fails(-ERR_BADPATH))
      case Some(next) =>
        var goal := Meaning(b, next, n - 1);
        if goal.None? then None else Some(Onward(b.top, goal.value, path, NextSlash(path, 0)))
  }

  lemma {:induction false} MeaningEnds(b: Dtb, path: seq<byte>, n: nat)
    requires Good(b)
    ensures Meaning(b, path, n).Some? <==> Steps(b, path, n).None?
    decreases n
  {
    hide Good, Alias, Onward, Absolute, First, ValidGoal;
    if n > 0 && !Absolute(path) && Alias(b, First(path)).Some? {
      MeaningEnds(b, Alias(b, First(path)).value, n - 1);
    }
  }

  /** The number of steps allowed for does not matter. */
  lemma {:induction false} MeaningAny(b: Dtb, path: seq<byte>, m: nat, n: nat)
    requires Good(b) && Meaning(b, path, m).Some? && Meaning(b, path, n).Some?
    ensures Meaning(b, path, m) == Meaning(b, path, n)
    decreases m
  {
    hide Good, Alias, Onward, Absolute, First, ValidGoal;
    if !Absolute(path) && Alias(b, First(path)).Some? {
      MeaningAny(b, Alias(b, First(path)).value, m - 1, n - 1);
    }
  }

  ghost predicate Reaches(top: seq<Item>, goal: Goal, offset: int) {
    if goal.At? then Addr(top, goal.f) && offset == OffAt(top, goal.f) else offset == goal.err
  }

  // ------------------------------------------------------------ substitution

  lemma {:induction false} SkipShift(a: seq<byte>, t: seq<byte>, k: nat)
    requires k <= |t|
    ensures SkipSlashes(a + t, |a| + k) == |a| + SkipSlashes(t, k)
    decreases |t| - k
  {
    if k < |t| && t[k] == SLASH {
      SkipShift(a, t, k + 1);
    } else {
      assert SkipSlashes(t, k) == k;
    }
  }

  lemma {:induction false} NextShift(a: seq<byte>, t: seq<byte>, k: nat)
    requires k <= |t|
    ensures NextSlash(a + t, |a| + k) == |a| + NextSlash(t, k)
    decreases |t| - k
  {
    if k < |t| && t[k] != SLASH {
      NextShift(a, t, k + 1);
    } else {
      assert NextSlash(t, k) == k;
    }
  }

  /** The components behind a prefix. */
  lemma {:induction false} ComponentsShift(a: seq<byte>, t: seq<byte>, k: nat)
    requires k <= |t|
    ensures Components(a + t, |a| + k) == Components(t, k)
    decreases |t| - k
  {
    hide SkipSlashes, NextSlash, Components;
    var p := SkipSlashes(t, k);
    SkipShift(a, t, k);
    ComponentsAt(t, k);
    ComponentsAt(a + t, |a| + k);
    if p < |t| {
      var q := NextSlash(t, p);
      NextShift(a, t, p);
      BackPart(a, t, p, q);
      NotSlash(t, p);
      ComponentsShift(a, t, q);
    }
  }

  lemma {:induction false} SkipFront(a: seq<byte>, t: seq<byte>, i: nat)
    requires i <= |a|
    ensures SkipSlashes(a + t, i) == if SkipSlashes(a, i) < |a| then SkipSlashes(a, i) else SkipSlashes(a + t, |a|)
    decreases |a| - i
  {
    if i < |a| && a[i] == SLASH {
      SkipFront(a, t, i + 1);
    } else {
      assert SkipSlashes(a, i) == i;
    }
  }

  lemma {:induction false} NextFront(a: seq<byte>, t: seq<byte>, i: nat)
    requires i <= |a| && (t == [] || t[0] == SLASH)
    ensures NextSlash(a + t, i) == NextSlash(a, i)
    decreases |a| - i
  {
    if i < |a| && a[i] != SLASH {
      NextFront(a, t, i + 1);
    } else {
      assert NextSlash(a, i) == i;
    }
  }

  /** The components of a path put in front of one that begins with a slash. */
  lemma {:induction false} ComponentsJoin(a: seq<byte>, t: seq<byte>, i: nat)
    requires i <= |a| && (t == [] || t[0] == SLASH)
    ensures Components(a + t, i) == Components(a, i) + Components(t, 0)
    decreases |a| - i
  {
    hide SkipSlashes, NextSlash, Components;
    var p, path := SkipSlashes(a, i), a + t;
    SkipFront(a, t, i);
    ComponentsAt(a, i);
    ComponentsAt(path, i);
    if p < |a| {
      var q := NextSlash(a, p);
      NextFront(a, t, p);
      NotSlash(a, p);
      FrontPart(a, t, p, q);
      ComponentsJoin(a, t, q);
      Assoc([a[p..q]], Components(a, q), Components(t, 0));
    } else {
      ComponentsShift(a, t, 0);
      ComponentsAt(path, |a|);
      NoFront(Components(t, 0));
    }
  }

  lemma BackPart(a: seq<byte>, t: seq<byte>, p: nat, q: nat)
    requires p <= q <= |t|
    ensures (a + t)[|a| + p..|a| + q] == t[p..q]
  {
  }

  lemma FrontPart(a: seq<byte>, t: seq<byte>, p: nat, q: nat)
    requires p <= q <= |a|
    ensures (a + t)[p..q] == a[p..q]
  {
  }

  lemma NoFront(x: seq<seq<byte>>)
    ensures [] + x == x
  {
  }

  lemma NotSlash(path: seq<byte>, p: nat)
    requires p < |path| && path[p] != SLASH
    ensures NextSlash(path, p) > p
  {
  }

  /** Going down in two stages. */
  lemma {:induction false} ResolveJoin(top: seq<Item>, g: seq<nat>, x: seq<seq<byte>>, y: seq<seq<byte>>)
    requires Addr(top, g) && ValidPath(top, g)
    ensures match Resolve(top, g, x)
      case None => Resolve(top, g, x + y) == None
      case Some(f) => ValidPath(top, f) && Resolve(top, g, x + y) == Resolve(top, f, y)
    decreases |x|
  {
    hide Addr, ValidPath, Resolve, Sub;
    if x == [] {
      ResolveEnd(top, g);
      assert [] + y == y;
    } else {
      assert (x + y)[0] == x[0] && (x + y)[1..] == x[1..] + y;
      ResolveStep(top, g, x);
      ResolveStep(top, g, x + y);
      var f := KidIndex(Sub(top, g), x[0]);
      if f.Found? {
        ResolveJoin(top, g + [f.index], x[1..], y);
      }
    }
  }

  /** An absolute path means the node that its components lead to. */
  lemma AbsoluteMeans(b: Dtb, path: seq<byte>, n: nat)
    requires Good(b) && Absolute(path) && n > 0
    ensures ValidPath(b.top, [0])
    ensures Meaning(b, path, n) ==
      match Resolve(b.top, [0], Components(path, 0))
      case Some(f) => Some(At(f))
      case None => Some(Fails(-ERR_NOTFOUND))
  {
    hide Good, Resolve, Components, Absolute;
    RootGoal(b);
  }

  /** An alias for an absolute path means that path in its place. */
  lemma AliasMeans(b: Dtb, path: seq<byte>, n: nat)
    requires Good(b) && !Absolute(path) && n > 1
    requires Alias(b, First(path)).Some? && Absolute(Alias(b, First(path)).value)
    ensures Meaning(b, path, n) == Meaning(b, Alias(b, First(path)).value + path[NextSlash(path, 0)..], n)
  {
    hide Good, Resolve, Components, Alias, Addr, ValidPath, SkipSlashes, NextSlash;
    var p, q := Alias(b, First(path)).value, NextSlash(path, 0);
    var t := path[q..];
    AbsoluteMeans(b, p, n - 1);
    AbsoluteMeans(b, p + t, n);
    ComponentsJoin(p, t, 0);
    assert path == path[..q] + t && |path[..q]| == q;
    ComponentsShift(path[..q], t, 0);
    RootGoal(b);
    ResolveJoin(b.top, [0], Components(p, 0), Components(t, 0));
  }

  // ------------------------------------------------------------- the methods

  lemma GoodIs(b: Dtb)
    requires Good(b)
    ensures Represents(b.s, b.strtab, b.top) && SingleRoot(b.top)
  {
  }

  /** fdt_get_alias_namelen: the place of the path, or a negative number for NULL. */
  method GetAlias(s: seq<byte>, strtab: seq<byte>, name: seq<byte>, ghost top: seq<Item>) returns (p: int)
    requires Good(Dtb(s, strtab, top))
    ensures match AliasAt(Dtb(s, strtab, top), name)
      case Some(at) => p == at
      case None => p < 0
  {
    hide Resolve, Components, Addr, ValidPath, FirstProp, Off, EncAll;
    ghost var b := Dtb(s, strtab, top);
    var offset := AbsoluteOffset(s, ALIASES, strtab, top);
    ghost var f := AliasNode(b);
    if offset < 0 {
      return -1;
    }
    AddrInBlock(top, f.value);
    p := GetProperty(s, strtab, offset, name, BlockToks(top), Idx(top, f.value));
    if p >= 0 {
      p := p + 12;
    }
  }

  /**
   * fdt_path_offset.  The source recurses for the path that an alias stands for; the model stops when that is
   * deeper than there are bytes in the block, and then it never ends.
   */
  method PathOffset(s: seq<byte>, path: seq<byte>, strtab: seq<byte>, ghost top: seq<Item>)
    returns (offset: int, endless: bool)
    requires Good(Dtb(s, strtab, top))
    ensures endless <==> Endless(Dtb(s, strtab, top), path)
    ensures !endless ==>
      var goal := Meaning(Dtb(s, strtab, top), path, |s| + 1);
      goal.Some? && Reaches(top, goal.value, offset)
  {
    hide Steps, Good, Meaning, Reaches;
    EndlessIff(Dtb(s, strtab, top), path);
    MeaningEnds(Dtb(s, strtab, top), path, |s| + 1);
    offset, endless := OffsetWithin(s, path, strtab, top, |s| + 1);
  }

  method OffsetWithin(s: seq<byte>, path: seq<byte>, strtab: seq<byte>, ghost top: seq<Item>, n: nat)
    returns (offset: int, endless: bool)
    requires Good(Dtb(s, strtab, top))
    ensures endless <==> Meaning(Dtb(s, strtab, top), path, n).None?
    ensures !endless ==> Reaches(top, Meaning(Dtb(s, strtab, top), path, n).value, offset)
    decreases n
  {
    hide Addr, ValidPath, Resolve, Components, AliasAt, OffAt, Good, Alias, GetString, Represents, SingleRoot;
    ghost var b := Dtb(s, strtab, top);
    GoodIs(b);
    AliasRead(b, First(path));
    if n == 0 {
      return 0, true;
    }
    if Absolute(path) {
      offset := AbsoluteOffset(s, path, strtab, top);
      return offset, false;
    }
    var q := NextSlash(path, 0);
    var p := GetAlias(s, strtab, path[..q], top);
    if p < 0 {
      return -ERR_BADPATH, false;
    }
    offset, endless := OffsetWithin(s, GetString(s, p).value, strtab, top, n - 1);
    if !endless {
      ghost var goal := Meaning(b, Alias(b, First(path)).value, n - 1).value;
      offset := Follow(s, path, q, offset, strtab, top, if goal.At? then goal.f else []);
    }
  }

  // ------------------------------------------------------------- an endless one

  /** The name and path "a", and a node /aliases with that alias for itself. */
  const LETTER: seq<byte> := [97]
  const SELF: Item := Node([97, 108, 105, 97, 115, 101, 115], [], [IProp(0, [97, 0], [0, 0])])

  /** The tokens of a root with that node. */
  const SELF_TOKENS: seq<Token> :=
    [Begin([], [0, 0, 0]), Begin(SELF.name, []), Prop(0, [97, 0], [0, 0]), EndNode, EndNode, End]

  lemma SelfTokens(top: seq<Item>)
    requires top == [Node([], [0, 0, 0], [SELF])]
    ensures BlockToks(top) == SELF_TOKENS && SingleRoot(top) && Ordered(top)
  {
    assert top[1..] == [] && [SELF][1..] == [] && SELF.items[1..] == [];
    ToksOne(SELF.items[0]);
    ToksOne(SELF);
    ToksOne(top[0]);
  }

  lemma SelfValid(top: seq<Item>)
    requires BlockToks(top) == SELF_TOKENS
    ensures ValidTokens(SELF_TOKENS) && Named(Toks(top), [97, 0])
  {
    hide Toks;
    SelfString([97, 0], 0);
    assert forall i :: 0 <= i < |Toks(top)| ==> Toks(top)[i] == SELF_TOKENS[i];
  }

  /** It resolves to itself, and the recursion never ends. */
  lemma EndlessAlias() returns (b: Dtb)
    ensures Good(b) && Endless(b, LETTER)
  {
    hide EncAll, Toks, Ordered, Named, ValidTokens, AliasNode, AliasAt, Endless, First, Str, Off;
    var top := [Node([], [0, 0, 0], [SELF])];
    SelfTokens(top);
    SelfValid(top);
    b := Dtb(EncAll(BlockToks(top)), [97, 0], top);
    SelfNode(b);
    SelfAt(b);
    LetterFirst();
    SelfAlias(b, LETTER);
  }

  lemma LetterFirst()
    ensures First(LETTER) == LETTER
  {
    assert NextSlash(LETTER, 0) == NextSlash(LETTER, 1) == 1;
  }

  lemma SelfAt(b: Dtb)
    requires Good(b) && b.top == [Node([], [0, 0, 0], [SELF])] && b.strtab == [97, 0] && AliasNode(b) == Some([0, 0])
    requires Addr(b.top, [0, 0]) && Idx(b.top, [0, 0]) == 1
    ensures Alias(b, LETTER) == Some(LETTER)
  {
    hide EncAll, Off, Toks, Ordered, Named, FirstProp, Idx, AliasNode, Str, Addr, BlockToks, Word;
    var ts := BlockToks(b.top);
    SelfTokens(b.top);
    SelfProp(ts);
    PropToken(b.s, ts, 2);
    SelfString(b.s, Off(ts, 2) + 12);
  }

  lemma SelfProp(ts: seq<Token>)
    requires |ts| > 2 && ts[2] == Prop(0, [97, 0], [0, 0])
    ensures FirstProp(ts, 2, [97, 0], LETTER) == Found(2)
  {
    SelfString([97, 0], 0);
  }

  lemma SelfString(s: seq<byte>, at: nat)
    requires at + 2 <= |s| && s[at..at + 2] == [97, 0]
    ensures HasStr(s, at) && Str(s, at) == LETTER
  {
    assert s[at] == s[at..at + 2][0] && s[at + 1] == s[at..at + 2][1];
    assert Nul(s, at) == Nul(s, at + 1) == at + 1;
  }

  lemma SelfNode(b: Dtb)
    requires Good(b) && b.top == [Node([], [0, 0, 0], [SELF])]
    ensures AliasNode(b) == Some([0, 0]) && Addr(b.top, [0, 0]) && Idx(b.top, [0, 0]) == 1
  {
    hide Components, Good, Descend, Slashed;
    var f: seq<nat> := [0, 0];
    assert f[1..] == [0] && [0][1..] == [];
    SelfSlashed();
    ComponentsOf([], [SELF.name]);
    assert [] + ALIASES == ALIASES;
    assert Sub(b.top, [0]) == [SELF];
    SelfDown();
    assert [0] + [0] == f;
    assert b.top[..0] == [] && [SELF][..0] == [];
  }

  lemma SelfSlashed()
    ensures Slashed([SELF.name]) == ALIASES
  {
    assert [SELF.name][1..] == [];
  }

  lemma SelfDown()
    ensures Descend([SELF], [SELF.name]) == Some([0])
  {
    assert IsKid(SELF, SELF.name) && KidIndex([SELF], SELF.name) == Found(0);
    assert [SELF.name][1..] == [] && Descend(SELF.items, []) == Some([]);
    assert [0] + [] == [0];
  }
}
