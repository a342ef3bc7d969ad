/**
 The protocol between the Midnight Commander and its background children
 (src/background.c): how calls and replies are laid out on the pipes, and how the reader
 finds out what comes next. A write puts one block on the pipe, a read takes one off.
 */
module Protocol {
  import opened Options

  type Byte = b: int | 0 <= b < 256

  type Bytes = seq<Byte>

  // ---------------------------------------------------------------- numbers as bytes

  function Pow256(k: nat): (p: nat)
    ensures p > 0
  {
    if k == 0 then 1 else 256 * Pow256(k - 1)
  }

  /** The k low bytes of a number, the lowest first. */
  function ToBytes(n: nat, k: nat): (b: Bytes)
    ensures |b| == k
  {
    if k == 0 then [] else [n % 256] + ToBytes(n / 256, k - 1)
  }

  function FromBytes(b: Bytes): nat
  {
    if b == [] then 0 else b[0] + 256 * FromBytes(b[1..])
  }

  lemma {:induction false} BytesRoundTrip(n: nat, k: nat)
    requires n < Pow256(k)
    ensures FromBytes(ToBytes(n, k)) == n
  {
    if k > 0 {
      BytesRoundTrip(n / 256, k - 1);
    }
  }

  const INT_SIZE: nat := 4
  const POINTER_SIZE: nat := 8
  const INT_RANGE := 0x1_0000_0000
  const POINTER_RANGE := 0x1_0000_0000_0000_0000

  predicate IsInt(n: int)
  {
    -0x8000_0000 <= n < 0x8000_0000
  }

  /** An int in two's complement. */
  function IntBytes(n: int): (b: Bytes)
    requires IsInt(n)
    ensures |b| == INT_SIZE
  {
    ToBytes(if n < 0 then n + INT_RANGE else n, INT_SIZE)
  }

  function BytesInt(b: Bytes): int
  {
    var n := FromBytes(b);
    if n >= INT_RANGE / 2 then n - INT_RANGE else n
  }

  lemma Pow256Four()
    ensures Pow256(INT_SIZE) == INT_RANGE && Pow256(POINTER_SIZE) == POINTER_RANGE
  {
    assert Pow256(1) == 256;
    assert Pow256(2) == 256 * Pow256(1);
    assert Pow256(3) == 256 * Pow256(2);
    assert Pow256(4) == 256 * Pow256(3);
    assert Pow256(5) == 256 * Pow256(4);
    assert Pow256(6) == 256 * Pow256(5);
    assert Pow256(7) == 256 * Pow256(6);
    assert Pow256(8) == 256 * Pow256(7);
  }

  lemma IntRoundTrip(n: int)
    requires IsInt(n)
    ensures BytesInt(IntBytes(n)) == n
  {
    Pow256Four();
    BytesRoundTrip(if n < 0 then n + INT_RANGE else n, INT_SIZE);
  }

  function PointerBytes(p: nat): (b: Bytes)
    requires p < POINTER_RANGE
    ensures |b| == POINTER_SIZE
  {
    ToBytes(p, POINTER_SIZE)
  }

  lemma PointerRoundTrip(p: nat)
    requires p < POINTER_RANGE
    ensures FromBytes(PointerBytes(p)) == p
  {
    Pow256Four();
    BytesRoundTrip(p, POINTER_SIZE);
  }

  // ---------------------------------------------------------------- calls and replies

  /** enum ReturnType */
  datatype ReturnType = ReturnString | ReturnInteger

  function TypeCode(t: ReturnType): int
  {
    if t.ReturnString? then 0 else 1
  }

  const MAXCALLARGS: nat := 4

  /** sizeof (file_op_context_t): the context travels as the bytes of the structure. */
  const CTX_SIZE: Size

  type Size = n: nat | n > 0 witness 1

  datatype Request = Request(routine: nat, kind: ReturnType, ctx: Option<Bytes>, args: seq<Bytes>)

  /** A call that a child can write: sizes that fit, a context only for integer calls. */
  predicate WellSized(r: Request)
  {
    && r.routine < POINTER_RANGE
    && (r.ctx.Some? ==> |r.ctx.value| == CTX_SIZE && r.kind.ReturnInteger?)
    && |r.args| < INT_RANGE / 2
    && forall i :: 0 <= i < |r.args| ==> |r.args[i]| < INT_RANGE / 2
  }

  /** A call that the parent can serve: at most four arguments. */
  predicate ValidRequest(r: Request)
  {
    WellSized(r) && |r.args| <= MAXCALLARGS
  }

  function Flat(bs: seq<Bytes>): Bytes
  {
    if bs == [] then [] else bs[0] + Flat(bs[1..])
  }

  function HeaderBlocks(r: Request): seq<Bytes>
    requires WellSized(r)
  {
    [PointerBytes(r.routine), IntBytes(|r.args|), IntBytes(TypeCode(r.kind)), IntBytes(if r.ctx.Some? then 1 else 0)]
    + if r.ctx.Some? then [r.ctx.value] else []
  }

  /** Writing a block without bytes puts nothing on the pipe. */
  function Block(b: Bytes): seq<Bytes>
  {
    if b == [] then [] else [b]
  }

  function ArgBlocks(args: seq<Bytes>): seq<Bytes>
    requires forall i :: 0 <= i < |args| ==> |args[i]| < INT_RANGE / 2
  {
    if args == [] then [] else [IntBytes(|args[0]|)] + Block(args[0]) + ArgBlocks(args[1..])
  }

  /** What the child writes, block by block. */
  function RequestBlocks(r: Request): seq<Bytes>
    requires ValidRequest(r)
  {
    HeaderBlocks(r) + ArgBlocks(r.args)
  }

  /** The answer of the routine: an int with the context as the routine leaves it, or a text. */
  datatype Reply = Number(value: int, ctx: Option<Bytes>) | Text(text: Bytes)

  predicate ValidReply(r: Request, p: Reply)
  {
    match p
    case Number(v, ctx) =>
      r.kind.ReturnInteger? && IsInt(v) && ctx.Some? == r.ctx.Some? && (ctx.Some? ==> |ctx.value| == CTX_SIZE)
    case Text(t) => r.kind.ReturnString? && |t| < INT_RANGE / 2
  }

  /** What the parent writes: a NULL text and an empty one are both a zero length. */
  function ReplyBlocks(p: Reply): seq<Bytes>
    requires match p case Number(v, _) => IsInt(v) case Text(t) => |t| < INT_RANGE / 2
  {
    match p
    case Number(v, ctx) => [IntBytes(v)] + if ctx.Some? then [ctx.value] else []
    case Text(t) => [IntBytes(|t|)] + Block(t)
  }

  lemma ToBytesZero(k: nat)
    requires k <= 6
    ensures ToBytes(0, k) == [0, 0, 0, 0, 0, 0][..k]
  {
    if k > 0 {
      ToBytesZero(k - 1);
    }
  }

  lemma SmallInt(n: nat)
    requires n < 256
    ensures IntBytes(n) == [n, 0, 0, 0]
  {
    ToBytesZero(3);
  }

  /** The first numbers of a call: a pointer and three ints. */
  lemma HeaderOnTheWire(isInt: bool)
    ensures var r := Request(0x0102, if isInt then ReturnInteger else ReturnString, None, [[], []]);
            HeaderBlocks(r) ==
            [[2, 1, 0, 0, 0, 0, 0, 0], [2, 0, 0, 0], [if isInt then 1 else 0, 0, 0, 0], [0, 0, 0, 0]]
  {
    ToBytesZero(6);
    assert ToBytes(1, 7) == [1] + ToBytes(0, 6);
    assert ToBytes(0x0102, 8) == [2] + ToBytes(1, 7);
    assert PointerBytes(0x0102) == [2, 1, 0, 0, 0, 0, 0, 0];
    SmallInt(2);
    SmallInt(if isInt then 1 else 0);
    SmallInt(0);
  }

  /** Every argument follows its size, also one without bytes. */
  lemma ArgumentsOnTheWire(a: Byte, b: Byte)
    ensures Flat(ArgBlocks([[a, b], []])) == [2, 0, 0, 0, a, b, 0, 0, 0, 0]
  {
    SmallInt(2);
    SmallInt(0);
    hide IntBytes;
    var args: seq<Bytes>, none: seq<Bytes> := [[a, b], []], [];
    assert args[1..] == [[]] && args[1..][1..] == none;
    assert ArgBlocks(args[1..]) == [[0, 0, 0, 0]] + none + none;
    assert ArgBlocks(args) == [[2, 0, 0, 0]] + [[a, b]] + [[0, 0, 0, 0]];
    var bs: seq<Bytes> := [[2, 0, 0, 0], [a, b], [0, 0, 0, 0]];
    assert ArgBlocks(args) == bs;
    assert bs[1..] == [[a, b], [0, 0, 0, 0]] && bs[1..][1..] == [[0, 0, 0, 0]] && bs[1..][1..][1..] == [];
    assert Flat(bs[1..][1..]) == [0, 0, 0, 0];
    assert Flat(bs[1..]) == [a, b, 0, 0, 0, 0];
  }

  /** A reply is a number in two's complement, or a text behind its length. */
  lemma ReplyOnTheWire(a: Byte)
    ensures ReplyBlocks(Number(-2, None)) == [[254, 255, 255, 255]]
    ensures ReplyBlocks(Text([a])) == [[1, 0, 0, 0], [a]] && ReplyBlocks(Text([])) == [[0, 0, 0, 0]]
  {
    SmallInt(1);
    SmallInt(0);
    assert ToBytes(0xFF, 1) == [255] + ToBytes(0, 0);
    assert ToBytes(0xFFFF, 2) == [255] + ToBytes(0xFF, 1);
    assert ToBytes(0xFF_FFFF, 3) == [255] + ToBytes(0xFFFF, 2);
    assert ToBytes(0xFFFF_FFFE, 4) == [254] + ToBytes(0xFF_FFFF, 3);
    assert IntBytes(-2) == [254, 255, 255, 255];
  }

  // ---------------------------------------------------------------- reading

  /** What a reader knows after some bytes: how many it reads next, or the whole message. */
  datatype Progress<T> = Need(n: nat) | Complete(message: T) | Malformed

  function ParseArgs(b: Bytes, count: nat): Progress<seq<Bytes>>
    decreases count
  {
    if count == 0 then Complete([])
    else if |b| < INT_SIZE then Need(INT_SIZE)
    else
      var size := BytesInt(b[..INT_SIZE]);
      if size < 0 then Malformed
      else if |b| < INT_SIZE + size then Need(size)
      else
        match ParseArgs(b[INT_SIZE + size..], count - 1)
        case Need(n) => Need(n)
        case Malformed => Malformed
        case Complete(args) => Complete([b[INT_SIZE..INT_SIZE + size]] + args)
  }

  const HEADER_SIZE: nat := 20

  /** background_attention: the routine, the number of arguments, the return type, whether a
      context comes, the context, and every argument after its size. */
  function ParseRequest(b: Bytes): Progress<Request>
  {
    if |b| < 8 then Need(POINTER_SIZE)
    else if |b| < HEADER_SIZE then Need(INT_SIZE)
    else
      var routine, argc := FromBytes(b[..8]), BytesInt(b[8..12]);
      var code, haveCtx := BytesInt(b[12..16]), BytesInt(b[16..20]) != 0;
      if argc < 0 || argc > MAXCALLARGS || (code != 0 && code != 1) then Malformed
      else if haveCtx && |b| < HEADER_SIZE + CTX_SIZE then Need(CTX_SIZE)
      else
        var from := if haveCtx then HEADER_SIZE + CTX_SIZE else HEADER_SIZE;
        match ParseArgs(b[from..], argc)
        case Need(n) => Need(n)
        case Malformed => Malformed
        case Complete(args) =>
          var kind := if code == 1 then ReturnInteger else ReturnString;
          Complete(Request(routine, kind, if haveCtx then Some(b[HEADER_SIZE..from]) else None, args))
  }

  /** What the child gets back: an empty text arrives as NULL, that is as an empty text. */
  function ParseReply(r: Request, b: Bytes): Progress<Reply>
  {
    if |b| < INT_SIZE then Need(INT_SIZE)
    else
      var i := BytesInt(b[..INT_SIZE]);
      if r.kind.ReturnInteger? then
        if r.ctx.None? then Complete(Number(i, None))
        else if |b| < INT_SIZE + CTX_SIZE then Need(CTX_SIZE)
        else Complete(Number(i, Some(b[INT_SIZE..INT_SIZE + CTX_SIZE])))
      else if i < 0 then Malformed
      else if |b| < INT_SIZE + i then Need(i)
      else Complete(Text(b[INT_SIZE..INT_SIZE + i]))
  }

  // ---------------------------------------------------------------- lemmas about blocks

  lemma {:induction false} FlatConcat(xs: seq<Bytes>, ys: seq<Bytes>)
    ensures Flat(xs + ys) == Flat(xs) + Flat(ys)
    decreases |xs|
  {
    if xs == [] {
      assert xs + ys == ys;
    } else {
      assert (xs + ys)[1..] == xs[1..] + ys;
      FlatConcat(xs[1..], ys);
    }
  }

  lemma FlatOne(b: Bytes)
    ensures Flat([b]) == b && Flat(Block(b)) == b
  {
    assert [b][1..] == [];
  }

  /** After the first k blocks of a message the reader asks for exactly the next one; after all of
      them it has the message. */
  ghost predicate Asks<T>(p: Progress<T>, blocks: seq<Bytes>, k: nat, message: T)
    requires k <= |blocks|
  {
    if k == |blocks| then p == Complete(message) else p == Need(|blocks[k]|) && blocks[k] != []
  }

  predicate SmallArgs(args: seq<Bytes>)
  {
    forall i :: 0 <= i < |args| ==> |args[i]| < INT_RANGE / 2
  }

  lemma ParseArgsCons(a: Bytes, more: Bytes, count: nat)
    requires |a| < INT_RANGE / 2 && count > 0
    ensures ParseArgs(IntBytes(|a|) + a + more, count) ==
            match ParseArgs(more, count - 1)
            case Need(n) => Need(n)
            case Malformed => Malformed
            case Complete(args) => Complete([a] + args)
  {
    hide IntBytes, BytesInt;
    IntRoundTrip(|a|);
    var b := IntBytes(|a|) + a + more;
    assert b[..INT_SIZE] == IntBytes(|a|);
    assert b[INT_SIZE..INT_SIZE + |a|] == a;
    assert b[INT_SIZE + |a|..] == more;
  }

  lemma ParseArgsStart(n: nat, count: nat)
    requires n < INT_RANGE / 2
    ensures ParseArgs([], 0) == Complete([]) && (count > 0 ==> ParseArgs([], count) == Need(INT_SIZE))
    ensures count > 0 && n > 0 ==> ParseArgs(IntBytes(n), count) == Need(n)
  {
    hide IntBytes, BytesInt;
    IntRoundTrip(n);
    assert IntBytes(n)[..INT_SIZE] == IntBytes(n);
  }

  lemma ArgsFirst(a: Bytes, rest: seq<Bytes>)
    requires |a| < INT_RANGE / 2 && SmallArgs(rest) && SmallArgs([a] + rest)
    ensures ArgBlocks([a] + rest) == [IntBytes(|a|)] + Block(a) + ArgBlocks(rest)
  {
    hide IntBytes, Block;
    assert ([a] + rest)[1..] == rest;
  }

  lemma {:induction false} ArgsAsk(args: seq<Bytes>, k: nat)
    requires SmallArgs(args) && k <= |ArgBlocks(args)|
    ensures Asks(ParseArgs(Flat(ArgBlocks(args)[..k]), |args|), ArgBlocks(args), k, args)
    decreases |args|
  {
    hide IntBytes, Flat, ParseArgs, ArgBlocks;
    FlatNothing();
    ParseArgsStart(0, |args|);
    if args == [] {
      assert ArgBlocks([]) == [] by { NoArgs(); }
    } else {
      var a, rest := args[0], args[1..];
      assert args == [a] + rest;
      var size, blocks, tail := IntBytes(|a|), ArgBlocks(args), ArgBlocks(rest);
      ArgsFirst(a, rest);
      FlatOne(size);
      FlatOne(a);
      var front := [size] + Block(a);
      assert blocks == front + tail;
      if k == 0 {
        assert blocks[..k] == [];
      } else if k < |front| {
        assert blocks[..k] == [size];
        ParseArgsStart(|a|, |args|);
      } else {
        var j := k - |front|;
        assert blocks[..k] == front + tail[..j];
        FlatConcat(front, tail[..j]);
        FlatConcat([size], Block(a));
        ParseArgsCons(a, Flat(tail[..j]), |args|);
        ArgsAsk(rest, j);
      }
    }
  }

  lemma NoArgs()
    ensures ArgBlocks([]) == []
  {
  }

  lemma FlatNothing()
    ensures Flat([]) == []
  {
  }

  /** The four numbers of a header, as bytes. */
  function HeaderBytes(r: Request): (b: Bytes)
    requires WellSized(r)
    ensures |b| == HEADER_SIZE
  {
    PointerBytes(r.routine) + IntBytes(|r.args|) + IntBytes(TypeCode(r.kind)) + IntBytes(if r.ctx.Some? then 1 else 0)
  }

  lemma HeaderFields(r: Request, more: Bytes)
    requires WellSized(r)
    ensures var b := HeaderBytes(r) + more;
            FromBytes(b[..8]) == r.routine && BytesInt(b[8..12]) == |r.args|
            && BytesInt(b[12..16]) == TypeCode(r.kind) && BytesInt(b[16..20]) == (if r.ctx.Some? then 1 else 0)
  {
    hide IntBytes, PointerBytes, FromBytes, BytesInt;
    var p, n, t, h := PointerBytes(r.routine), IntBytes(|r.args|), IntBytes(TypeCode(r.kind)),
                      IntBytes(if r.ctx.Some? then 1 else 0);
    var b := HeaderBytes(r) + more;
    PointerRoundTrip(r.routine);
    IntRoundTrip(|r.args|);
    IntRoundTrip(TypeCode(r.kind));
    IntRoundTrip(if r.ctx.Some? then 1 else 0);
    assert b[..8] == p && b[8..12] == n && b[12..16] == t && b[16..20] == h;
  }

  /** What the parser makes of a complete header. */
  lemma ParseAfterHeader(r: Request, more: Bytes)
    requires ValidRequest(r)
    ensures ParseRequest(HeaderBytes(r) + more) ==
            if r.ctx.Some? && |more| < CTX_SIZE then Need(CTX_SIZE)
            else
              var c := if r.ctx.Some? then CTX_SIZE else 0;
              match ParseArgs(more[c..], |r.args|)
              case Need(n) => Need(n)
              case Malformed => Malformed
              case Complete(args) =>
                Complete(Request(r.routine, r.kind, if r.ctx.Some? then Some(more[..c]) else None, args))
  {
    hide ParseArgs, FromBytes, BytesInt, HeaderBytes;
    HeaderFields(r, more);
    var b := HeaderBytes(r) + more;
    var c := if r.ctx.Some? then CTX_SIZE else 0;
    if |more| >= c {
      assert b[HEADER_SIZE + c..] == more[c..];
      assert b[HEADER_SIZE..HEADER_SIZE + c] == more[..c];
    }
  }

  lemma FlatPairs(x: Bytes, y: Bytes, z: Bytes, w: Bytes)
    ensures Flat([x]) == x && Flat([x, y]) == x + y && Flat([x, y, z]) == x + y + z
    ensures Flat([x, y, z, w]) == x + y + z + w
  {
    FlatOne(w);
    FlatOne(z);
    FlatOne(y);
    FlatOne(x);
    FlatConcat([x], [y]);
    FlatConcat([x, y], [z]);
    FlatConcat([x, y, z], [w]);
    assert [x] + [y] == [x, y] && [x, y] + [z] == [x, y, z] && [x, y, z] + [w] == [x, y, z, w];
  }

  lemma HeaderAsks(r: Request, k: nat)
    requires ValidRequest(r) && k < 4
    ensures |RequestBlocks(r)| >= 4
    ensures Asks(ParseRequest(Flat(RequestBlocks(r)[..k])), RequestBlocks(r), k, r)
  {
    hide IntBytes, PointerBytes, FromBytes, BytesInt, ArgBlocks;
    var blocks := RequestBlocks(r);
    var p, n, t, h := PointerBytes(r.routine), IntBytes(|r.args|), IntBytes(TypeCode(r.kind)),
                      IntBytes(if r.ctx.Some? then 1 else 0);
    FlatPairs(p, n, t, h);
    assert k == 0 ==> blocks[..k] == [];
    assert k == 1 ==> blocks[..k] == [p];
    assert k == 2 ==> blocks[..k] == [p, n];
    assert k == 3 ==> blocks[..k] == [p, n, t];
  }

  function CtxBytes(r: Request): Bytes
  {
    if r.ctx.Some? then r.ctx.value else []
  }

  lemma HeaderFlat(r: Request)
    requires WellSized(r)
    ensures |HeaderBlocks(r)| == 4 + |Block(CtxBytes(r))|
    ensures Flat(HeaderBlocks(r)[..4]) == HeaderBytes(r)
    ensures HeaderBlocks(r)[4..] == Block(CtxBytes(r))
  {
    hide IntBytes, PointerBytes, Flat;
    var header := HeaderBlocks(r);
    FlatPairs(header[0], header[1], header[2], header[3]);
    assert header[..4] == [header[0], header[1], header[2], header[3]];
  }

  /** The bytes of the first k blocks, when they contain the header. */
  lemma FlatFromHeader(r: Request, k: nat)
    requires ValidRequest(r) && 4 <= k <= |RequestBlocks(r)|
    ensures var j := k - |HeaderBlocks(r)|;
            Flat(RequestBlocks(r)[..k])
            == HeaderBytes(r) + if j < 0 then [] else CtxBytes(r) + Flat(ArgBlocks(r.args)[..j])
  {
    hide IntBytes, PointerBytes, ArgBlocks, HeaderBytes, HeaderBlocks, Flat;
    var blocks, header := RequestBlocks(r), HeaderBlocks(r);
    HeaderFlat(r);
    if k < |header| {
      assert blocks[..k] == header[..4];
    } else {
      var args := ArgBlocks(r.args)[..k - |header|];
      assert header == header[..4] + header[4..];
      assert blocks[..k] == header[..4] + (header[4..] + args);
      FlatConcat(header[..4], header[4..] + args);
      FlatConcat(header[4..], args);
      FlatOne(CtxBytes(r));
    }
  }

  /** Behind the header the reader asks for the context, if one comes. */
  lemma ContextAsks(r: Request)
    requires ValidRequest(r) && r.ctx.Some?
    ensures |HeaderBlocks(r)| == 5 && RequestBlocks(r)[4] == r.ctx.value
    ensures ParseRequest(Flat(RequestBlocks(r)[..4])) == Need(CTX_SIZE)
  {
    hide ParseArgs, ParseRequest, ArgBlocks, HeaderBytes, HeaderBlocks, Flat;
    HeaderFlat(r);
    FlatFromHeader(r, 4);
    ParseAfterHeader(r, []);
    assert RequestBlocks(r)[4] == HeaderBlocks(r)[4..][0];
  }

  /** And then for the arguments. */
  lemma ArgumentsAsk(r: Request, k: nat)
    requires ValidRequest(r) && |HeaderBlocks(r)| <= k <= |RequestBlocks(r)|
    ensures Asks(ParseRequest(Flat(RequestBlocks(r)[..k])), RequestBlocks(r), k, r)
  {
    hide ParseArgs, ParseRequest, ArgBlocks, HeaderBytes, HeaderBlocks, Flat;
    HeaderFlat(r);
    FlatFromHeader(r, k);
    var j, ctx := k - |HeaderBlocks(r)|, CtxBytes(r);
    var args := ArgBlocks(r.args)[..j];
    ArgsAsk(r.args, j);
    var more := ctx + Flat(args);
    ParseAfterHeader(r, more);
    assert more[|ctx|..] == Flat(args) && more[..|ctx|] == ctx;
    assert k < |RequestBlocks(r)| ==> RequestBlocks(r)[k] == ArgBlocks(r.args)[j];
  }

  /** The parent's reader, fed block by block, never asks for anything but the next block, and ends
      with exactly the request that was sent. */
  lemma RequestAsks(r: Request, k: nat)
    requires ValidRequest(r) && k <= |RequestBlocks(r)|
    ensures Asks(ParseRequest(Flat(RequestBlocks(r)[..k])), RequestBlocks(r), k, r)
  {
    hide ParseRequest, ArgBlocks, HeaderBlocks, Flat;
    HeaderFlat(r);
    if k < 4 {
      HeaderAsks(r, k);
    } else if k < |HeaderBlocks(r)| {
      ContextAsks(r);
    } else {
      ArgumentsAsk(r, k);
    }
  }

  /** The same for the child that reads the reply. */
  lemma ReplyAsks(r: Request, p: Reply, k: nat)
    requires ValidRequest(r) && ValidReply(r, p) && k <= |ReplyBlocks(p)|
    ensures Asks(ParseReply(r, Flat(ReplyBlocks(p)[..k])), ReplyBlocks(p), k, p)
  {
    hide IntBytes, BytesInt;
    var blocks := ReplyBlocks(p);
    var first := if p.Number? then p.value else |p.text|;
    var second := if p.Text? then p.text else if p.ctx.Some? then p.ctx.value else [];
    IntRoundTrip(first);
    FlatPairs(IntBytes(first), second, [], []);
    if k == 0 {
      assert blocks[..k] == [];
    } else {
      assert blocks[..k] == if k == 1 then [IntBytes(first)] else [IntBytes(first), second];
      var b := Flat(blocks[..k]);
      assert b[..INT_SIZE] == IntBytes(first);
      assert k == 2 ==> b[INT_SIZE..INT_SIZE + |second|] == second;
      assert k == 1 ==> b[INT_SIZE..] == [];
    }
  }
}
