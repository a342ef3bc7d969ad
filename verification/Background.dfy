/**
 src/background.c: the linked task list, the child's half of a call, and the parent's handler
 that reads a request off a pipe, calls the routine and writes the reply.
 */
module Background {
  import opened Options
  import opened Protocol
  import opened RpcRuns

  // ---------------------------------------------------------------- the task list

  class TaskNode {
    const pid: int
    const fd: int
    const toChild: int
    var next: TaskNode?

    constructor (pid: int, fd: int, toChild: int, next: TaskNode?)
      ensures this.pid == pid && this.fd == fd && this.toChild == toChild && this.next == next
    {
      this.pid, this.fd, this.toChild, this.next := pid, fd, toChild, next;
    }
  }

  ghost function Entry(n: TaskNode): Task
  {
    Task(n.pid, n.fd, n.toChild)
  }

  ghost function Entries(ns: seq<TaskNode>): (ts: seq<Task>)
    ensures |ts| == |ns| && forall i :: 0 <= i < |ns| ==> ts[i] == Entry(ns[i])
  {
    if ns == [] then [] else [Entry(ns[0])] + Entries(ns[1..])
  }

  /** The descriptor of a process in the list, or -1. */
  function FdOf(tasks: seq<Task>, pid: int): int
  {
    if tasks == [] then -1 else if tasks[0].pid == pid then tasks[0].fd else FdOf(tasks[1..], pid)
  }

  class TaskList {
    var head: TaskNode?
    ghost var nodes: seq<TaskNode>  // the nodes from head on

    /** The node at a place of the list; null past its end. */
    ghost function At(k: nat): TaskNode?
      reads this
    {
      if k < |nodes| then nodes[k] else null
    }

    ghost predicate Valid()
      reads this, nodes
    {
      && head == At(0)
      && (forall i :: 0 <= i < |nodes| ==> nodes[i].next == At(i + 1))
      && (forall i, j :: 0 <= i < j < |nodes| ==> nodes[i] != nodes[j])
    }

    ghost function Tasks(): seq<Task>
      reads this
    {
      Entries(nodes)
    }

    constructor ()
      ensures Valid() && Tasks() == []
    {
      head, nodes := null, [];
    }

    /** register_task_running */
    method Register(pid: int, fd: int, toChild: int)
      requires Valid()
      modifies this
      ensures Valid() && Tasks() == [Task(pid, fd, toChild)] + old(Tasks())
      ensures forall n :: n in nodes && n !in old(nodes) ==> fresh(n)
    {
      var n := new TaskNode(pid, fd, toChild, head);
      head := n;
      nodes := [n] + nodes;
      assert nodes[1..] == old(nodes);
      forall i | 0 <= i < |nodes| ensures nodes[i].next == At(i + 1) {
        if i > 0 {
          assert nodes[i] == old(nodes)[i - 1];
          assert old(nodes)[i - 1].next == old(At(i));
        }
      }
    }

    /** Take the i-th node, p, out of the list; prev is the one before it. */
    method Unlink(prev: TaskNode?, p: TaskNode, ghost i: nat)
      requires Valid() && i < |nodes| && p == nodes[i] && prev == (if i == 0 then null else nodes[i - 1])
      modifies this, nodes
      ensures Valid() && nodes == old(nodes[..i] + nodes[i + 1..])
    {
      if prev != null {
        prev.next := p.next;
      } else {
        head := p.next;
      }
      ghost var was := nodes;
      nodes := was[..i] + was[i + 1..];
      CutOut(was, i);
      CutDistinct(was, i);
      forall j | 0 <= j < |nodes| ensures nodes[j].next == At(j + 1) {
        var k := if j < i then j else j + 1;
        assert nodes[j] == was[k] && old(was[k].next) == old(At(k + 1));
        assert k != i - 1 ==> was[k].next == old(was[k].next);
      }
    }

    /** destroy_task: the descriptor of the task, or -1. */
    method Destroy(pid: int) returns (fd: int)
      requires Valid()
      modifies this, nodes
      ensures Valid() && Tasks() == Destroyed(old(Tasks()), pid)
      ensures fd == FdOf(old(Tasks()), pid)
    {
      hide Destroyed, Entries;
      var p, prev: TaskNode? := head, null;
      ghost var i := 0;
      while p != null
        invariant Valid() && head == old(head) && nodes == old(nodes)
        invariant 0 <= i <= |nodes| && p == At(i)
        invariant prev == (if i == 0 then null else nodes[i - 1])
        invariant forall j :: 0 <= j < i ==> nodes[j].pid != pid
        decreases |nodes| - i
      {
        if p.pid == pid {
          DestroyedAt(Tasks(), pid, i);
          EntriesCut(nodes, i);
          Unlink(prev, p, i);
          return p.fd;
        }
        prev := p;
        p := p.next;
        i := i + 1;
      }
      DestroyedNone(nodes, pid);
      fd := -1;
    }

    /** Find child task info by descriptor. */
    method Find(fd: int) returns (toChild: int)
      requires Valid()
      ensures match FindTask(Tasks(), fd) case None => toChild == -1 case Some(t) => toChild == t
    {
      var p := head;
      ghost var i := 0;
      assert nodes[0..] == nodes;
      while p != null
        invariant 0 <= i <= |nodes| && p == At(i)
        invariant FindTask(Entries(nodes[i..]), fd) == FindTask(Tasks(), fd)
        decreases |nodes| - i
      {
        assert Entries(nodes[i..]) == [Entry(nodes[i])] + Entries(nodes[i + 1..]) by {
          assert nodes[i..][1..] == nodes[i + 1..];
        }
        assert Entries(nodes[i..])[1..] == Entries(nodes[i + 1..]);
        if p.fd == fd {
          return p.toChild;
        }
        p := p.next;
        i := i + 1;
      }
      assert nodes[i..] == [];
      toChild := -1;
    }
  }

  /** The first task of a process is taken out of the list. */
  lemma {:induction false} DestroyedAt(ts: seq<Task>, pid: int, i: nat)
    requires i < |ts| && ts[i].pid == pid && forall j :: 0 <= j < i ==> ts[j].pid != pid
    ensures Destroyed(ts, pid) == ts[..i] + ts[i + 1..] && FdOf(ts, pid) == ts[i].fd
    decreases i
  {
    if i > 0 {
      assert ts[0].pid != pid;
      var more := ts[1..];
      assert forall j :: 0 <= j < i ==> more[j] == ts[j + 1];
      DestroyedAt(more, pid, i - 1);
      assert ts[..i] == [ts[0]] + more[..i - 1] && ts[i + 1..] == more[i..];
    }
  }

  lemma EntriesCut(ns: seq<TaskNode>, i: nat)
    requires i < |ns|
    ensures Entries(ns[..i] + ns[i + 1..]) == Entries(ns)[..i] + Entries(ns)[i + 1..]
  {
    hide Entries, Entry;
    var rest, ts := ns[..i] + ns[i + 1..], Entries(ns);
    var us := ts[..i] + ts[i + 1..];
    CutOut(ns, i);
    CutOut(ts, i);
    assert |Entries(rest)| == |us| && forall k :: 0 <= k < |rest| ==> Entries(rest)[k] == us[k];
  }

  /** A sequence without its i-th element, index by index. */
  lemma CutOut<T>(s: seq<T>, i: nat)
    requires i < |s|
    ensures var rest := s[..i] + s[i + 1..];
            |rest| == |s| - 1 && forall k :: 0 <= k < |rest| ==> rest[k] == s[if k < i then k else k + 1]
  {
  }

  lemma CutDistinct<T>(s: seq<T>, i: nat)
    requires i < |s| && forall j, k :: 0 <= j < k < |s| ==> s[j] != s[k]
    ensures var rest := s[..i] + s[i + 1..]; forall j, k :: 0 <= j < k < |rest| ==> rest[j] != rest[k]
  {
    CutOut(s, i);
  }

  lemma {:induction false} DestroyedNone(ns: seq<TaskNode>, pid: int)
    requires forall j :: 0 <= j < |ns| ==> ns[j].pid != pid
    ensures Destroyed(Entries(ns), pid) == Entries(ns) && FdOf(Entries(ns), pid) == -1
    decreases |ns|
  {
    if ns != [] {
      assert ns[0].pid != pid;
      assert Entries(ns)[1..] == Entries(ns[1..]);
      DestroyedNone(ns[1..], pid);
    }
  }

  // ---------------------------------------------------------------- pipes

  class Pipe {
    var q: Bytes

    constructor ()
      ensures q == []
    {
      q := [];
    }

    method Write(b: Bytes)
      modifies this
      ensures q == old(q) + b
    {
      q := q + b;
    }

    /** At most n bytes; fewer only if there are no more. */
    method Read(n: nat) returns (b: Bytes)
      modifies this
      ensures |old(q)| >= n ==> b == old(q)[..n] && q == old(q)[n..]
      ensures |old(q)| < n ==> b == old(q) && q == []
    {
      if |q| >= n {
        b, q := q[..n], q[n..];
      } else {
        b, q := q, [];
      }
    }

    /** The block that a writer has put first. */
    method ReadBlock(n: nat, ghost block: Bytes, ghost rest: Bytes) returns (b: Bytes)
      modifies this
      ensures |block| == n && old(q) == block + rest ==> b == block && q == rest
      ensures |b| <= n && (|old(q)| >= n ==> |b| == n)
    {
      b := Read(n);
      if |block| == n && old(q) == block + rest {
        assert old(q)[..n] == block && old(q)[n..] == rest;
      }
    }
  }

  // ---------------------------------------------------------------- the child's half

  /** parent_call_header */
  method ParentCallHeader(parent: Pipe, r: Request)
    requires WellSized(r)
    modifies parent
    ensures parent.q == old(parent.q) + Flat(HeaderBlocks(r))
  {
    hide IntBytes, PointerBytes;
    ghost var q0 := parent.q;
    var haveCtx := if r.ctx.Some? then 1 else 0;
    parent.Write(PointerBytes(r.routine));
    parent.Write(IntBytes(|r.args|));
    parent.Write(IntBytes(TypeCode(r.kind)));
    parent.Write(IntBytes(haveCtx));
    HeaderFlat(r);
    assert parent.q == q0 + HeaderBytes(r);
    if haveCtx != 0 {
      parent.Write(r.ctx.value);
    }
    FlatOne(CtxBytes(r));
    var header := HeaderBlocks(r);
    assert header == header[..4] + header[4..];
    FlatConcat(header[..4], header[4..]);
    assert CtxBytes(r) == [] ==> parent.q + CtxBytes(r) == parent.q;
    assert parent.q == q0 + (HeaderBytes(r) + CtxBytes(r));
  }

  /** The first half of parent_va_call and parent_va_call_string: the request is written. */
  method SendCall(parent: Pipe, r: Request)
    requires ValidRequest(r)
    modifies parent
    ensures parent.q == old(parent.q) + Flat(RequestBlocks(r))
  {
    hide IntBytes, HeaderBlocks, Flat;
    ghost var q0 := parent.q;
    ParentCallHeader(parent, r);
    ghost var head := Flat(HeaderBlocks(r));
    assert r.args[0..] == r.args;
    for i := 0 to |r.args|
      invariant parent.q + Flat(ArgBlocks(r.args[i..])) == q0 + (head + Flat(ArgBlocks(r.args)))
    {
      var a := r.args[i];
      ghost var rest := Flat(ArgBlocks(r.args[i + 1..]));
      ghost var was := parent.q;
      FlatArgs(r.args[i..]);
      assert r.args[i..][1..] == r.args[i + 1..];
      parent.Write(IntBytes(|a|));
      parent.Write(a);
      assert parent.q + rest == was + (IntBytes(|a|) + a + rest);
    }
    assert r.args[|r.args|..] == [];
    FlatNothing();
    FlatConcat(HeaderBlocks(r), ArgBlocks(r.args));
    assert parent.q + [] == parent.q;
  }

  lemma FlatArgs(args: seq<Bytes>)
    requires args != [] && SmallArgs(args)
    ensures Flat(ArgBlocks(args)) == IntBytes(|args[0]|) + args[0] + Flat(ArgBlocks(args[1..]))
  {
    hide IntBytes, Flat;
    var size, a, tail := IntBytes(|args[0]|), args[0], ArgBlocks(args[1..]);
    FlatOne(size);
    FlatOne(a);
    FlatConcat([size] + Block(a), tail);
    FlatConcat([size], Block(a));
  }

  /** The second half of parent_va_call: the result, and the context if one was sent. */
  method ReceiveInt(fromParent: Pipe, r: Request, ghost p: Reply, ghost rest: Bytes)
    returns (i: int, ctx: Option<Bytes>)
    requires ValidRequest(r) && r.kind.ReturnInteger?
    modifies fromParent
    ensures ValidReply(r, p) && old(fromParent.q) == Flat(ReplyBlocks(p)) + rest ==>
              Number(i, ctx) == p && fromParent.q == rest
  {
    hide IntBytes, BytesInt, Flat;
    ghost var good := ValidReply(r, p) && old(fromParent.q) == Flat(ReplyBlocks(p)) + rest;
    ghost var number, tail: Bytes, ctxBytes: Bytes := [], [], [];
    if good {
      number := IntBytes(p.value);
      ctxBytes := if p.ctx.Some? then p.ctx.value else [];
      tail := ctxBytes + rest;
      FlatReply(p);
      IntRoundTrip(p.value);
      assert old(fromParent.q) == number + tail;
    }
    var b := fromParent.ReadBlock(INT_SIZE, number, tail);
    i := BytesInt(b);
    ctx := None;
    if r.ctx.Some? {
      var c := fromParent.ReadBlock(CTX_SIZE, ctxBytes, rest);
      ctx := Some(c);
    } else {
      assert good ==> tail == rest;
    }
  }

  lemma FlatReply(p: Reply)
    requires match p case Number(v, _) => IsInt(v) case Text(t) => |t| < INT_RANGE / 2
    ensures Flat(ReplyBlocks(p)) ==
            match p
            case Number(v, ctx) => IntBytes(v) + if ctx.Some? then ctx.value else []
            case Text(t) => IntBytes(|t|) + t
  {
    hide IntBytes, Flat;
    match p {
      case Number(v, ctx) =>
        FlatOne(IntBytes(v));
        if ctx.Some? {
          FlatOne(ctx.value);
          FlatConcat([IntBytes(v)], [ctx.value]);
        } else {
          assert ReplyBlocks(p) == [IntBytes(v)];
          assert IntBytes(v) + [] == IntBytes(v);
        }
      case Text(t) =>
        FlatOne(IntBytes(|t|));
        FlatOne(t);
        FlatConcat([IntBytes(|t|)], Block(t));
    }
  }

  /** The second half of parent_va_call_string: NULL for an empty text. */
  method ReceiveString(fromParent: Pipe, r: Request, ghost p: Reply, ghost rest: Bytes)
    returns (str: Option<Bytes>)
    requires ValidRequest(r) && r.kind.ReturnString?
    modifies fromParent
    ensures ValidReply(r, p) && old(fromParent.q) == Flat(ReplyBlocks(p)) + rest ==>
              fromParent.q == rest && str == if p.text == [] then None else Some(p.text)
  {
    hide IntBytes, BytesInt, Flat;
    ghost var good := ValidReply(r, p) && old(fromParent.q) == Flat(ReplyBlocks(p)) + rest;
    ghost var number, text: Bytes, tail: Bytes := [], [], [];
    if good {
      number, text := IntBytes(|p.text|), p.text;
      tail := text + rest;
      FlatReply(p);
      IntRoundTrip(|text|);
      assert old(fromParent.q) == number + tail;
    }
    var b := fromParent.ReadBlock(INT_SIZE, number, tail);
    if |b| != INT_SIZE {
      return None;
    }
    var i := BytesInt(b);
    if i <= 0 {
      assert good ==> tail == rest;
      return None;
    }
    var s := fromParent.ReadBlock(i, text, rest);
    if |s| != i {
      return None;
    }
    str := Some(s);
  }

  // ---------------------------------------------------------------- the parent's half

  /** What became of a request. Overrun stands for an argument stored behind the array for four. */
  datatype Attention = Closed | ReadingFailed | Overrun | UnknownChild | Answered(request: Request)

  datatype ArgsEnd = AllRead | ReadFailed | NoRoom

  /** The routines that can be called, as a function of the decoded request. */
  type Server = Request -> Reply

  ghost predicate ValidServer(call: Server)
  {
    forall r :: ValidRequest(r) ==> ValidReply(r, call(r))
  }

  /** Reading the four numbers of the header. */
  method ReadHeader(up: Pipe, ghost r: Request, ghost rest: Bytes)
    returns (status: Attention, routine: nat, argc: int, code: int, haveCtx: bool)
    modifies up
    ensures status.Closed? || status.ReadingFailed? || status.Answered?
    ensures WellSized(r) && old(up.q) == HeaderBytes(r) + rest ==>
              status.Answered? && up.q == rest && routine == r.routine && argc == |r.args|
              && code == TypeCode(r.kind) && haveCtx == r.ctx.Some?
  {
    hide IntBytes, PointerBytes, BytesInt, FromBytes;
    routine, argc, code, haveCtx := 0, 0, 0, false;
    ghost var good := WellSized(r) && old(up.q) == HeaderBytes(r) + rest;
    ghost var p, n, t, h: Bytes := [], [], [], [];
    if good {
      p, n, t := PointerBytes(r.routine), IntBytes(|r.args|), IntBytes(TypeCode(r.kind));
      h := IntBytes(if r.ctx.Some? then 1 else 0);
      PointerRoundTrip(r.routine);
      IntRoundTrip(|r.args|);
      IntRoundTrip(TypeCode(r.kind));
      IntRoundTrip(if r.ctx.Some? then 1 else 0);
      assert old(up.q) == p + (n + (t + (h + rest)));
    }
    var b := up.ReadBlock(POINTER_SIZE, p, n + (t + (h + rest)));
    if |b| < POINTER_SIZE {
      return Closed, 0, 0, 0, false;
    }
    routine := FromBytes(b);
    var b1 := up.ReadBlock(INT_SIZE, n, t + (h + rest));
    var b2 := up.ReadBlock(INT_SIZE, t, h + rest);
    var b3 := up.ReadBlock(INT_SIZE, h, rest);
    if |b1| != INT_SIZE || |b2| != INT_SIZE || |b3| != INT_SIZE {
      return ReadingFailed, 0, 0, 0, false;
    }
    argc, code, haveCtx := BytesInt(b1), BytesInt(b2), BytesInt(b3) != 0;
    status := Answered(Request(0, ReturnString, None, []));
  }

  /** What is left on the pipe when the size of argument k has been read. */
  ghost function AfterSize(args: seq<Bytes>, k: nat, rest: Bytes): Bytes
    requires k < |args| && SmallArgs(args)
  {
    args[k] + (Flat(ArgBlocks(args[k + 1..])) + rest)
  }

  /** Reading one argument. */
  method ReadArg(up: Pipe, room: bool, ghost a: Bytes, ghost tail: Bytes) returns (end: ArgsEnd, d: Bytes)
    modifies up
    ensures |a| < INT_RANGE / 2 && old(up.q) == IntBytes(|a|) + (a + tail) ==>
              if room then end.AllRead? && d == a && up.q == tail else end.NoRoom? && up.q == a + tail
    ensures (end.NoRoom? ==> !room) && (end.AllRead? ==> room)
  {
    hide IntBytes, BytesInt;
    if |a| < INT_RANGE / 2 {
      IntRoundTrip(|a|);
    }
    d := [];
    var b := up.ReadBlock(INT_SIZE, if |a| < INT_RANGE / 2 then IntBytes(|a|) else [], a + tail);
    if |b| != INT_SIZE {
      return ReadFailed, d;
    }
    if !room {
      return NoRoom, d;
    }
    var n := BytesInt(b);
    if n < 0 {
      return ReadFailed, d;
    }
    d := up.ReadBlock(n, a, tail);
    end := if |d| != n then ReadFailed else AllRead;
  }

  /** Reading the arguments, each after its size, into an array for four. */
  method ReadArgs(up: Pipe, argc: int, ghost args: seq<Bytes>, ghost rest: Bytes)
    returns (end: ArgsEnd, data: seq<Bytes>)
    modifies up
    ensures SmallArgs(args) && argc == |args| && old(up.q) == Flat(ArgBlocks(args)) + rest ==>
              if |args| <= MAXCALLARGS then end == AllRead && data == args && up.q == rest
              else end == NoRoom && data == args[..MAXCALLARGS] && up.q == AfterSize(args, MAXCALLARGS, rest)
    ensures |data| <= MAXCALLARGS && (end.NoRoom? ==> argc > MAXCALLARGS)
    ensures end.AllRead? ==> argc <= MAXCALLARGS
  {
    hide IntBytes, BytesInt, Flat, ArgBlocks;
    ghost var good := SmallArgs(args) && argc == |args| && old(up.q) == Flat(ArgBlocks(args)) + rest;
    data, end := [], AllRead;
    var i := 0;
    assert good ==> args[0..] == args;
    while i < argc
      invariant 0 <= i <= MAXCALLARGS && |data| == i && (i <= argc || i == 0)
      invariant good ==> i <= |args| && data == args[..i] && up.q == Flat(ArgBlocks(args[i..])) + rest
    {
      ghost var a, tail: Bytes := [], [];
      if good {
        a, tail := args[i], Flat(ArgBlocks(args[i + 1..])) + rest;
        ArgAt(args, i, rest);
      }
      var one, d := ReadArg(up, i < MAXCALLARGS, a, tail);
      if !one.AllRead? {
        return one, data;
      }
      data := data + [d];
      i := i + 1;
    }
    if good {
      NoArgsLeft(args, rest);
    }
  }

  lemma ArgAt(args: seq<Bytes>, i: nat, rest: Bytes)
    requires SmallArgs(args) && i < |args|
    ensures Flat(ArgBlocks(args[i..])) + rest
            == IntBytes(|args[i]|) + (args[i] + (Flat(ArgBlocks(args[i + 1..])) + rest))
    ensures args[..i + 1] == args[..i] + [args[i]]
  {
    hide IntBytes, Flat, ArgBlocks;
    FlatArgs(args[i..]);
    assert args[i..][1..] == args[i + 1..];
  }

  lemma NoArgsLeft(args: seq<Bytes>, rest: Bytes)
    ensures Flat(ArgBlocks(args[|args|..])) + rest == rest && args[..|args|] == args
  {
    NoArgs();
    FlatNothing();
    assert args[|args|..] == [];
  }

  /** background_attention: the request r on the pipe is read off it, whatever follows stays, and the
      reply is written to the pipe that the task list has for this descriptor. A request with more
      arguments than the array has room for is only warned of: the fifth one is stored behind it. */
  method BackgroundAttention(fd: int, up: Pipe, tasks: TaskList, pipes: map<int, Pipe>, call: Server,
                             ghost r: Request, ghost rest: Bytes) returns (status: Attention, warned: bool)
    requires tasks.Valid() && ValidServer(call)
    requires forall k :: k in pipes ==> pipes[k] != up
    requires FindTask(tasks.Tasks(), fd).Some? ==> FindTask(tasks.Tasks(), fd).value in pipes
    requires -1 !in pipes
    modifies up, pipes.Values
    ensures status.Overrun? ==> warned
    ensures WellSized(r) && old(up.q) == RequestBytes(r) + rest ==>
              warned == (|r.args| > MAXCALLARGS) == status.Overrun?
    ensures WellSized(r) && |r.args| > MAXCALLARGS && old(up.q) == RequestBytes(r) + rest ==>
              up.q == AfterSize(r.args, MAXCALLARGS, rest) && forall k :: k in pipes ==> pipes[k].q == old(pipes[k].q)
    ensures ValidRequest(r) && old(up.q) == Flat(RequestBlocks(r)) + rest ==>
              up.q == rest &&
              match FindTask(tasks.Tasks(), fd)
              case None => status == UnknownChild && forall k :: k in pipes ==> pipes[k].q == old(pipes[k].q)
              case Some(to) =>
                status == Answered(r)
                && pipes[to].q == old(pipes[to].q) + Flat(ReplyBlocks(call(r)))
                && forall k :: k in pipes && pipes[k] != pipes[to] ==> pipes[k].q == old(pipes[k].q)
  {
    hide Flat, HeaderBytes, IntBytes, BytesInt, ArgBlocks, FindTask, RequestBytes, AfterSize;
    ghost var good := WellSized(r) && old(up.q) == RequestBytes(r) + rest;
    ghost var args: Bytes, ctxBytes: Bytes := [], [];
    if ValidRequest(r) {
      RequestFlat(r);
    }
    if good {
      args, ctxBytes := Flat(ArgBlocks(r.args)), CtxBytes(r);
      RequestBytesAre(r, rest);
    }
    var state, routine, argc, code, haveCtx := ReadHeader(up, r, ctxBytes + (args + rest));
    warned := false;
    if !state.Answered? {
      return state, warned;
    }
    warned := argc > MAXCALLARGS;
    var ctx: Option<Bytes> := None;
    if haveCtx {
      var c := up.ReadBlock(CTX_SIZE, ctxBytes, args + rest);
      if |c| != CTX_SIZE {
        return ReadingFailed, warned;
      }
      ctx := Some(c);
    } else {
      assert good ==> ctxBytes + (args + rest) == args + rest;
    }
    var end, data := ReadArgs(up, argc, if good then r.args else [], rest);
    if end.NoRoom? {
      return Overrun, warned;
    }
    if end.ReadFailed? {
      return ReadingFailed, warned;
    }
    var toChild := tasks.Find(fd);
    if toChild == -1 {
      return UnknownChild, warned;
    }
    var request := Request(routine, if code == 1 then ReturnInteger else ReturnString, ctx, data);
    assert good ==> request == r;
    status := Answered(request);
    if ValidRequest(request) && (code == 0 || code == 1) {
      WriteReply(pipes[toChild], call(request));
    }
  }

  /** All bytes of a request, also of one with too many arguments. */
  ghost function RequestBytes(r: Request): Bytes
    requires WellSized(r)
  {
    HeaderBytes(r) + (CtxBytes(r) + Flat(ArgBlocks(r.args)))
  }

  lemma RequestBytesAre(r: Request, rest: Bytes)
    requires WellSized(r)
    ensures RequestBytes(r) + rest == HeaderBytes(r) + (CtxBytes(r) + (Flat(ArgBlocks(r.args)) + rest))
  {
    hide Flat, HeaderBytes, ArgBlocks;
  }

  lemma RequestFlat(r: Request)
    requires ValidRequest(r)
    ensures Flat(RequestBlocks(r)) == RequestBytes(r)
  {
    hide Flat, HeaderBytes, IntBytes, ArgBlocks;
    FlatFromHeader(r, |RequestBlocks(r)|);
    assert RequestBlocks(r)[..|RequestBlocks(r)|] == RequestBlocks(r);
    var n := |RequestBlocks(r)| - |HeaderBlocks(r)|;
    assert ArgBlocks(r.args)[..n] == ArgBlocks(r.args);
  }

  /** The result and the context, or the length of the text and the text. */
  method WriteReply(toChild: Pipe, p: Reply)
    requires match p case Number(v, _) => IsInt(v) case Text(t) => |t| < INT_RANGE / 2
    modifies toChild
    ensures toChild.q == old(toChild.q) + Flat(ReplyBlocks(p))
  {
    hide Flat, IntBytes;
    FlatReply(p);
    match p {
      case Number(v, ctx) =>
        toChild.Write(IntBytes(v));
        if ctx.Some? {
          toChild.Write(ctx.value);
        }
      case Text(t) =>
        toChild.Write(IntBytes(|t|));
        if |t| != 0 {
          toChild.Write(t);
        }
    }
  }
}
