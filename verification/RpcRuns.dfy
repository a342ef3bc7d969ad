/**
 The parent and its background children as a machine of interleaved steps
 (src/background.c). A step writes or reads one block of a pipe, looks up a task, or starts
 or ends a call or a child. The fields marked as history only record what has happened.
 */
module RpcRuns {
  import opened Options
  import opened Protocol

  /** Where a child is in its program. */
  datatype ChildPc =
    | Ready
    | Sending(req: Request, unsent: seq<Bytes>)
    | Receiving(req: Request, got: Bytes)

  datatype Child = Child(
    fd: int,              // the parent's end of the pipe from the child
    toChild: int,         // the parent's end of the pipe to the child
    up: Bytes,            // what is on the pipe from the child
    down: Bytes,          // what is on the pipe to the child
    pc: ChildPc,
    // history: blocks the child has written, blocks the parent has read, the answer given,
    // blocks of it the parent has written, blocks of it the child has read
    written: nat, taken: nat, given: Option<Reply>, replied: nat, received: nat,
    // history: the calls the parent has served on this child's pipe, and those the child finished
    served: seq<(Request, Reply)>, finished: seq<(Request, Reply)>
  )

  /** An entry of the task list. */
  datatype Task = Task(pid: int, fd: int, toChild: int)

  datatype ParentPc =
    | Listening
    | Reading(fd: int, buffer: Bytes)
    | Replying(toChild: int, unwritten: seq<Bytes>)

  datatype State = State(children: map<int, Child>, tasks: seq<Task>, parent: ParentPc)

  datatype Step =
    | Begin(pid: int, req: Request)
    | WriteBlock(pid: int)
    | Attend(pid: int)
    | ReadBlock(pid: int)
    | Serve(pid: int, reply: Reply)
    | ReplyBlock(pid: int)
    | ReadReply(pid: int)
    | Finish(pid: int)
    | Fork(pid: int, fd: int, toChild: int)
    | Die(pid: int)

  // ---------------------------------------------------------------- the task list

  /** The first entry with a descriptor. */
  function FindTask(tasks: seq<Task>, fd: int): Option<int>
  {
    if tasks == [] then None
    else if tasks[0].fd == fd then Some(tasks[0].toChild)
    else FindTask(tasks[1..], fd)
  }

  /** The list without the first entry of a process. */
  function Destroyed(tasks: seq<Task>, pid: int): seq<Task>
  {
    if tasks == [] then []
    else if tasks[0].pid == pid then tasks[1..]
    else [tasks[0]] + Destroyed(tasks[1..], pid)
  }

  // ---------------------------------------------------------------- steps

  predicate Enabled(s: State, e: Step)
  {
    if e.Fork? then
      && e.pid !in s.children
      && forall p :: p in s.children ==> s.children[p].fd != e.fd && s.children[p].toChild != e.toChild
    else
      e.pid in s.children &&
      var c := s.children[e.pid];
      match e
      case Begin(_, req) => c.pc.Ready? && ValidRequest(req)
      case WriteBlock(_) => c.pc.Sending? && c.pc.unsent != []
      case Attend(_) => s.parent.Listening? && c.up != []
      case ReadBlock(_) =>
        s.parent.Reading? && s.parent.fd == c.fd
        && var p := ParseRequest(s.parent.buffer); p.Need? && p.n <= |c.up|
      case Serve(_, reply) =>
        s.parent.Reading? && s.parent.fd == c.fd
        && var p := ParseRequest(s.parent.buffer);
           p.Complete? && ValidRequest(p.message) && ValidReply(p.message, reply)
      case ReplyBlock(_) => s.parent.Replying? && s.parent.toChild == c.toChild && s.parent.unwritten != []
      case ReadReply(_) => c.pc.Receiving? && var p := ParseReply(c.pc.req, c.pc.got); p.Need? && p.n <= |c.down|
      case Finish(_) => c.pc.Receiving? && ParseReply(c.pc.req, c.pc.got).Complete?
      case Die(_) => c.pc.Ready? && s.parent.Listening?
      case Fork(_, _, _) => false
  }

  function Update(s: State, pid: int, c: Child): State
  {
    s.(children := s.children[pid := c])
  }

  function Next(s: State, e: Step): State
    requires Enabled(s, e)
  {
    match e
    case Fork(pid, fd, toChild) =>
      // register_task_running puts the new task first
      var c := Child(fd, toChild, [], [], Ready, 0, 0, None, 0, 0, [], []);
      State(s.children[pid := c], [Task(pid, fd, toChild)] + s.tasks, s.parent)
    case Die(pid) =>
      // the parent reads the end of the file and unregisters the task
      State(map p | p in s.children && p != pid :: s.children[p], Destroyed(s.tasks, pid), s.parent)
    case Begin(pid, req) =>
      var c := s.children[pid];
      Update(s, pid, c.(pc := Sending(req, RequestBlocks(req)), written := 0, taken := 0, given := None,
                        replied := 0, received := 0))
    case WriteBlock(pid) =>
      var c := s.children[pid];
      var rest := c.pc.unsent[1..];
      Update(s, pid, c.(up := c.up + c.pc.unsent[0], written := c.written + 1,
                        pc := if rest == [] then Receiving(c.pc.req, []) else Sending(c.pc.req, rest)))
    case Attend(pid) =>
      s.(parent := Reading(s.children[pid].fd, []))
    case ReadBlock(pid) =>
      var c := s.children[pid];
      var n := ParseRequest(s.parent.buffer).n;
      Update(s.(parent := Reading(s.parent.fd, s.parent.buffer + c.up[..n])), pid,
             c.(up := c.up[n..], taken := c.taken + 1))
    case Serve(pid, reply) =>
      // the task is looked up by the descriptor; without one, an error message and no reply
      (match FindTask(s.tasks, s.parent.fd)
       case None => s.(parent := Listening)
       case Some(toChild) =>
         var c := s.children[pid];
         var req := ParseRequest(s.parent.buffer).message;
         Update(s.(parent := Replying(toChild, ReplyBlocks(reply))), pid,
                c.(given := Some(reply), served := c.served + [(req, reply)])))
    case ReplyBlock(pid) =>
      var c := s.children[pid];
      var rest := s.parent.unwritten[1..];
      Update(s.(parent := if rest == [] then Listening else Replying(s.parent.toChild, rest)), pid,
             c.(down := c.down + s.parent.unwritten[0], replied := c.replied + 1))
    case ReadReply(pid) =>
      var c := s.children[pid];
      var n := ParseReply(c.pc.req, c.pc.got).n;
      Update(s, pid, c.(down := c.down[n..], pc := Receiving(c.pc.req, c.pc.got + c.down[..n]),
                        received := c.received + 1))
    case Finish(pid) =>
      var c := s.children[pid];
      var reply := ParseReply(c.pc.req, c.pc.got).message;
      Update(s, pid, c.(pc := Ready, finished := c.finished + [(c.pc.req, reply)]))
  }

  /** The steps of a run, each enabled when it is taken. */
  predicate IsRun(s: State, steps: seq<Step>)
    decreases |steps|
  {
    steps == [] || (Enabled(s, steps[0]) && IsRun(Next(s, steps[0]), steps[1..]))
  }

  function After(s: State, steps: seq<Step>): State
    requires IsRun(s, steps)
    decreases |steps|
  {
    if steps == [] then s else After(Next(s, steps[0]), steps[1..])
  }

  const INITIAL := State(map[], [], Listening)

  // ---------------------------------------------------------------- the invariant

  /** The parent is reading from this child. */
  predicate ReadingFrom(s: State, c: Child)
  {
    s.parent.Reading? && s.parent.fd == c.fd
  }

  predicate ReplyingTo(s: State, c: Child)
  {
    s.parent.Replying? && s.parent.toChild == c.toChild
  }

  /** What the parent has in its buffer of this child's request. */
  function Buffered(s: State, c: Child): Bytes
  {
    if ReadingFrom(s, c) then s.parent.buffer else []
  }

  /** The request on its way: the blocks up to taken are in the parent's buffer, those up to written
      on the pipe. */
  ghost predicate OnItsWay(s: State, c: Child, req: Request)
  {
    ValidRequest(req) &&
    var blocks := RequestBlocks(req);
    && c.taken <= c.written <= |blocks|
    && (c.taken > 0 ==> ReadingFrom(s, c))
    && Buffered(s, c) == Flat(blocks[..c.taken])
    && c.up == Flat(blocks[c.taken..c.written])
    && c.down == [] && !ReplyingTo(s, c) && c.given == None && c.replied == c.received == 0
    && c.served == c.finished
  }

  /** The reply on its way: the blocks up to received are read, those up to replied on the pipe. */
  ghost predicate OnItsWayBack(s: State, c: Child, req: Request, got: Bytes)
  {
    c.given.Some? && ValidRequest(req) && ValidReply(req, c.given.value) &&
    var blocks := ReplyBlocks(c.given.value);
    && c.received <= c.replied <= |blocks|
    && got == Flat(blocks[..c.received])
    && c.down == Flat(blocks[c.received..c.replied])
    && (if ReplyingTo(s, c) then c.replied < |blocks| && s.parent.unwritten == blocks[c.replied..]
        else c.replied == |blocks|)
    && c.up == [] && !ReadingFrom(s, c)
    && c.served == c.finished + [(req, c.given.value)]
  }

  ghost predicate ChildInv(s: State, c: Child)
  {
    match c.pc
    case Ready =>
      c.up == [] && c.down == [] && !ReadingFrom(s, c) && !ReplyingTo(s, c) && c.served == c.finished
    case Sending(req, unsent) =>
      OnItsWay(s, c, req) && unsent == RequestBlocks(req)[c.written..] && unsent != []
    case Receiving(req, got) =>
      if c.given.None? then OnItsWay(s, c, req) && got == [] && c.written == |RequestBlocks(req)|
      else OnItsWayBack(s, c, req, got)
  }

  ghost predicate Distinct(s: State)
  {
    forall p, q :: p in s.children && q in s.children && p != q ==>
      s.children[p].fd != s.children[q].fd && s.children[p].toChild != s.children[q].toChild
  }

  /** The task list has exactly one entry for every child. */
  ghost predicate Registered(s: State)
  {
    && (forall i :: 0 <= i < |s.tasks| ==>
          var t := s.tasks[i];
          t.pid in s.children && t.fd == s.children[t.pid].fd && t.toChild == s.children[t.pid].toChild)
    && (forall i, j :: 0 <= i < j < |s.tasks| ==> s.tasks[i].pid != s.tasks[j].pid)
    && (forall p :: p in s.children ==> Task(p, s.children[p].fd, s.children[p].toChild) in s.tasks)
  }

  /** The parent is busy with a child that exists. */
  ghost predicate Busy(s: State)
  {
    && (s.parent.Reading? ==> exists p :: p in s.children && s.children[p].fd == s.parent.fd)
    && (s.parent.Replying? ==> exists p :: p in s.children && s.children[p].toChild == s.parent.toChild)
  }

  ghost predicate Inv(s: State)
  {
    && Distinct(s)
    && Registered(s)
    && Busy(s)
    && forall p :: p in s.children ==> ChildInv(s, s.children[p])
  }

  // ---------------------------------------------------------------- every step keeps it

  /** What a child's invariant depends on besides the child. */
  ghost predicate SameView(s: State, t: State, c: Child)
  {
    && ReadingFrom(s, c) == ReadingFrom(t, c) && Buffered(s, c) == Buffered(t, c)
    && ReplyingTo(s, c) == ReplyingTo(t, c)
    && (ReplyingTo(s, c) ==> s.parent.unwritten == t.parent.unwritten)
  }

  lemma Unaffected(s: State, t: State, c: Child)
    requires ChildInv(s, c) && SameView(s, t, c)
    ensures ChildInv(t, c)
  {
    hide Flat, RequestBlocks, ReplyBlocks, ValidRequest, ValidReply;
  }

  lemma FlatSplit(blocks: seq<Bytes>, i: nat, j: nat)
    requires i < j <= |blocks|
    ensures Flat(blocks[i..j]) == blocks[i] + Flat(blocks[i + 1..j])
    ensures Flat(blocks[i..j]) == Flat(blocks[i..j - 1]) + blocks[j - 1]
  {
    assert blocks[i..j][1..] == blocks[i + 1..j];
    assert blocks[i..j] == blocks[i..j - 1] + [blocks[j - 1]];
    FlatConcat(blocks[i..j - 1], [blocks[j - 1]]);
    FlatOne(blocks[j - 1]);
  }

  lemma FlatFront(blocks: seq<Bytes>, i: nat)
    requires i < |blocks|
    ensures Flat(blocks[..i + 1]) == Flat(blocks[..i]) + blocks[i]
    ensures Flat(blocks[..0]) == []
  {
    FlatSplit(blocks, 0, i + 1);
    assert blocks[0..i + 1] == blocks[..i + 1] && blocks[0..i] == blocks[..i];
  }

  lemma FlatNone(blocks: seq<Bytes>, i: nat)
    requires i <= |blocks|
    ensures Flat(blocks[i..i]) == [] && Flat(blocks[..0]) == []
  {
  }

  /** The number of bytes asked for is the length of the block that comes next on the pipe. */
  lemma NextBlock(blocks: seq<Bytes>, i: nat, j: nat, up: Bytes, n: nat)
    requires i <= j <= |blocks| && up == Flat(blocks[i..j]) && 0 < n <= |up|
    requires i < |blocks| ==> n == |blocks[i]|
    ensures i < j && up[..n] == blocks[i] && up[n..] == Flat(blocks[i + 1..j])
  {
    if i == j {
      FlatNone(blocks, i);
      assert false;
    } else {
      FlatSplit(blocks, i, j);
    }
  }

  lemma BeginKeeps(s: State, pid: int, req: Request)
    requires Inv(s) && Enabled(s, Begin(pid, req))
    ensures ChildInv(Next(s, Begin(pid, req)), Next(s, Begin(pid, req)).children[pid])
  {
    hide Flat, RequestBlocks, ValidRequest;
    var blocks := RequestBlocks(req);
    FlatNone(blocks, 0);
    assert blocks[0..] == blocks;
    SomeBlocks(req);
  }

  lemma SomeBlocks(req: Request)
    requires ValidRequest(req)
    ensures RequestBlocks(req) != []
  {
  }

  lemma WriteKeeps(s: State, pid: int)
    requires Inv(s) && Enabled(s, WriteBlock(pid))
    ensures ChildInv(Next(s, WriteBlock(pid)), Next(s, WriteBlock(pid)).children[pid])
  {
    hide Flat, RequestBlocks, ValidRequest;
    var c := s.children[pid];
    var blocks := RequestBlocks(c.pc.req);
    assert ChildInv(s, c);
    FlatSplit(blocks, c.taken, c.written + 1);
    assert blocks[c.written..][1..] == blocks[c.written + 1..];
  }

  lemma AttendKeeps(s: State, pid: int)
    requires Inv(s) && Enabled(s, Attend(pid))
    ensures ChildInv(Next(s, Attend(pid)), s.children[pid])
  {
    hide Flat, RequestBlocks, ValidRequest, ReplyBlocks;
    var c := s.children[pid];
    assert ChildInv(s, c);
    assert OnItsWay(s, c, c.pc.req);
    FlatNone(RequestBlocks(c.pc.req), 0);
  }

  lemma ReadBlockKeeps(s: State, pid: int)
    requires Inv(s) && Enabled(s, ReadBlock(pid))
    ensures ChildInv(Next(s, ReadBlock(pid)), Next(s, ReadBlock(pid)).children[pid])
  {
    hide Flat, RequestBlocks, ValidRequest, ReplyBlocks, ParseRequest;
    var c := s.children[pid];
    assert ChildInv(s, c);
    assert OnItsWay(s, c, c.pc.req);
    var blocks := RequestBlocks(c.pc.req);
    RequestAsks(c.pc.req, c.taken);
    NextBlock(blocks, c.taken, c.written, c.up, ParseRequest(s.parent.buffer).n);
    FlatFront(blocks, c.taken);
  }

  /** The parent decodes exactly the request that was sent, and the reply goes to the child that
      asked. */
  lemma ServeIsRight(s: State, pid: int, reply: Reply)
    requires Inv(s) && Enabled(s, Serve(pid, reply))
    ensures var c := s.children[pid];
            c.pc.Receiving? && ParseRequest(s.parent.buffer) == Complete(c.pc.req)
            && FindTask(s.tasks, s.parent.fd) == Some(c.toChild)
            && OnItsWay(s, c, c.pc.req) && c.taken == c.written == |RequestBlocks(c.pc.req)| && c.pc.got == []
            && c.given.None?
  {
    hide Flat, RequestBlocks, ValidRequest, ReplyBlocks, ParseRequest, FindTask;
    var c := s.children[pid];
    assert ChildInv(s, c);
    assert OnItsWay(s, c, c.pc.req);
    RequestAsks(c.pc.req, c.taken);
    TaskOf(s, pid);
  }

  lemma TaskOf(s: State, pid: int)
    requires Distinct(s) && Registered(s) && pid in s.children
    ensures FindTask(s.tasks, s.children[pid].fd) == Some(s.children[pid].toChild)
  {
    var t := Task(pid, s.children[pid].fd, s.children[pid].toChild);
    var i :| 0 <= i < |s.tasks| && s.tasks[i] == t;
    forall j | 0 <= j < |s.tasks| && j != i ensures s.tasks[j].fd != t.fd {
      assert s.tasks[j].pid != t.pid;
    }
    FindAt(s.tasks, i);
  }

  lemma {:induction false} FindAt(tasks: seq<Task>, i: nat)
    requires i < |tasks| && forall j :: 0 <= j < |tasks| && j != i ==> tasks[j].fd != tasks[i].fd
    ensures FindTask(tasks, tasks[i].fd) == Some(tasks[i].toChild)
    decreases |tasks|
  {
    if i > 0 {
      assert tasks[0].fd != tasks[i].fd;
      FindAt(tasks[1..], i - 1);
    }
  }

  lemma ServeKeeps(s: State, pid: int, reply: Reply)
    requires Inv(s) && Enabled(s, Serve(pid, reply))
    ensures ChildInv(Next(s, Serve(pid, reply)), Next(s, Serve(pid, reply)).children[pid])
    ensures Next(s, Serve(pid, reply)).parent == Replying(s.children[pid].toChild, ReplyBlocks(reply))
  {
    ServeIsRight(s, pid, reply);
    hide Flat, RequestBlocks, ReplyBlocks, ParseRequest, FindTask;
    var c := s.children[pid];
    FlatNone(ReplyBlocks(reply), 0);
    FlatNone(RequestBlocks(c.pc.req), c.taken);
    SomeReply(reply);
    assert ReplyBlocks(reply)[0..] == ReplyBlocks(reply);
  }

  lemma SomeReply(p: Reply)
    requires match p case Number(v, _) => IsInt(v) case Text(t) => |t| < INT_RANGE / 2
    ensures ReplyBlocks(p) != []
  {
  }

  lemma ReplyBlockKeeps(s: State, pid: int)
    requires Inv(s) && Enabled(s, ReplyBlock(pid))
    ensures ChildInv(Next(s, ReplyBlock(pid)), Next(s, ReplyBlock(pid)).children[pid])
  {
    hide Flat, RequestBlocks, ReplyBlocks, ParseReply, ValidRequest;
    var c := s.children[pid];
    assert ChildInv(s, c);
    assert OnItsWayBack(s, c, c.pc.req, c.pc.got);
    var blocks := ReplyBlocks(c.given.value);
    FlatSplit(blocks, c.received, c.replied + 1);
    assert blocks[c.replied..][1..] == blocks[c.replied + 1..];
  }

  /** A child that still waits for bytes or has all of them knows only what the parent sent. */
  lemma WaitsForReply(s: State, pid: int)
    requires Inv(s) && pid in s.children && s.children[pid].pc.Receiving?
    requires var c := s.children[pid];
             ParseReply(c.pc.req, c.pc.got).Complete? || c.down != []
    ensures var c := s.children[pid]; OnItsWayBack(s, c, c.pc.req, c.pc.got)
  {
    hide Flat, RequestBlocks, ReplyBlocks, ValidRequest, ValidReply;
    var c := s.children[pid];
    assert ChildInv(s, c);
  }

  lemma ReadReplyKeeps(s: State, pid: int)
    requires Inv(s) && Enabled(s, ReadReply(pid))
    ensures ChildInv(Next(s, ReadReply(pid)), Next(s, ReadReply(pid)).children[pid])
  {
    var c := s.children[pid];
    NeedsBytes(c.pc.req, c.pc.got);
    hide Flat, RequestBlocks, ReplyBlocks, ParseReply, ValidRequest, ValidReply;
    assert ChildInv(s, c);
    if c.given.Some? {
      var blocks := ReplyBlocks(c.given.value);
      ReplyAsks(c.pc.req, c.given.value, c.received);
      NextBlock(blocks, c.received, c.replied, c.down, ParseReply(c.pc.req, c.pc.got).n);
      FlatFront(blocks, c.received);
    }
  }

  lemma NeedsBytes(r: Request, got: Bytes)
    requires ParseReply(r, got).Need?
    ensures got == [] ==> ParseReply(r, got).n > 0
  {
  }

  /** The child gets exactly the answer the parent gave to its call, and its pipes are empty. */
  lemma FinishIsRight(s: State, pid: int)
    requires Inv(s) && Enabled(s, Finish(pid))
    ensures var c := s.children[pid];
            c.given.Some? && ParseReply(c.pc.req, c.pc.got) == Complete(c.given.value)
            && c.up == [] && c.down == [] && !ReadingFrom(s, c) && !ReplyingTo(s, c)
            && c.served == c.finished + [(c.pc.req, c.given.value)]
  {
    WaitsForReply(s, pid);
    hide Flat, RequestBlocks, ReplyBlocks, ParseReply, ValidRequest, ValidReply;
    var c := s.children[pid];
    var blocks := ReplyBlocks(c.given.value);
    ReplyAsks(c.pc.req, c.given.value, c.received);
    assert c.received == |blocks|;
    FlatNone(blocks, c.received);
  }

  /** Every child keeps its invariant, whatever step is taken. */
  lemma ChildrenKeep(s: State, e: Step, q: int)
    requires Inv(s) && Enabled(s, e) && q in Next(s, e).children
    ensures ChildInv(Next(s, e), Next(s, e).children[q])
  {
    var t := Next(s, e);
    if q == e.pid {
      match e {
        case Begin(pid, req) => BeginKeeps(s, pid, req);
        case WriteBlock(pid) => WriteKeeps(s, pid);
        case Attend(pid) => AttendKeeps(s, pid);
        case ReadBlock(pid) => ReadBlockKeeps(s, pid);
        case Serve(pid, reply) => ServeKeeps(s, pid, reply);
        case ReplyBlock(pid) => ReplyBlockKeeps(s, pid);
        case ReadReply(pid) => ReadReplyKeeps(s, pid);
        case Finish(pid) => FinishIsRight(s, pid);
        case Fork(pid, fd, toChild) => ForkKeeps(s, pid, fd, toChild);
        case Die(pid) =>
      }
    } else {
      if e.Serve? {
        ServeKeeps(s, e.pid, e.reply);
      }
      OthersKeep(s, e, q);
    }
  }

  lemma ForkKeeps(s: State, pid: int, fd: int, toChild: int)
    requires Inv(s) && Enabled(s, Fork(pid, fd, toChild))
    ensures ChildInv(Next(s, Fork(pid, fd, toChild)), Next(s, Fork(pid, fd, toChild)).children[pid])
  {
    var t := Next(s, Fork(pid, fd, toChild));
    assert !ReadingFrom(t, t.children[pid]) && !ReplyingTo(t, t.children[pid]);
  }

  lemma OthersKeep(s: State, e: Step, q: int)
    requires Inv(s) && Enabled(s, e) && q in Next(s, e).children && q != e.pid
    requires e.Serve? ==> Next(s, e).parent == Replying(s.children[e.pid].toChild, ReplyBlocks(e.reply))
    ensures ChildInv(Next(s, e), Next(s, e).children[q])
  {
    hide Flat, RequestBlocks, ReplyBlocks, ParseReply, ParseRequest, ValidRequest, ValidReply, FindTask;
    hide OnItsWay, OnItsWayBack, Registered, Busy, Destroyed;
    var t := Next(s, e);
    assert q in s.children && t.children[q] == s.children[q];
    assert ChildInv(s, s.children[q]);
    if e.pid in s.children {
      assert s.children[q].fd != s.children[e.pid].fd && s.children[q].toChild != s.children[e.pid].toChild;
    }
    hide ChildInv;
    assert SameView(s, t, s.children[q]);
    Unaffected(s, t, s.children[q]);
  }

  // ---------------------------------------------------------------- the task list keeps up

  lemma {:induction false} DestroyedIs(tasks: seq<Task>, pid: int)
    requires forall i, j :: 0 <= i < j < |tasks| ==> tasks[i].pid != tasks[j].pid
    ensures forall t :: t in Destroyed(tasks, pid) <==> t in tasks && t.pid != pid
    ensures forall i, j :: 0 <= i < j < |Destroyed(tasks, pid)| ==>
              Destroyed(tasks, pid)[i].pid != Destroyed(tasks, pid)[j].pid
    decreases |tasks|
  {
    if tasks != [] {
      var rest := tasks[1..];
      assert forall i :: 0 <= i < |rest| ==> rest[i] == tasks[i + 1];
      DestroyedIs(rest, pid);
      assert forall t :: t in rest ==> t.pid != tasks[0].pid;
    }
  }

  lemma StructureKeeps(s: State, e: Step)
    requires Inv(s) && Enabled(s, e)
    ensures Distinct(Next(s, e)) && Registered(Next(s, e))
  {
    hide Flat, RequestBlocks, ReplyBlocks, ParseReply, ParseRequest, ValidRequest, ValidReply, FindTask, ChildInv;
    hide Busy, Distinct, Registered, Destroyed;
    var t := Next(s, e);
    match e {
      case Die(pid) =>
        DieRegistered(s, pid);
      case Fork(pid, fd, toChild) =>
        ForkRegistered(s, pid, fd, toChild);
      case _ =>
        forall p | p in s.children
          ensures p in t.children
          ensures t.children[p].fd == s.children[p].fd && t.children[p].toChild == s.children[p].toChild
        {
          assert p == e.pid || t.children[p] == s.children[p];
        }
        SameStructure(s, t);
    }
  }

  lemma SameStructure(s: State, t: State)
    requires Distinct(s) && Registered(s) && t.tasks == s.tasks && t.children.Keys == s.children.Keys
    requires forall p :: p in s.children ==>
               t.children[p].fd == s.children[p].fd && t.children[p].toChild == s.children[p].toChild
    ensures Distinct(t) && Registered(t)
  {
  }

  lemma ForkDistinct(s: State, pid: int, fd: int, toChild: int)
    requires Distinct(s) && Enabled(s, Fork(pid, fd, toChild))
    ensures Distinct(Next(s, Fork(pid, fd, toChild)))
  {
  }

  lemma ForkRegistered(s: State, pid: int, fd: int, toChild: int)
    requires Inv(s) && Enabled(s, Fork(pid, fd, toChild))
    ensures Distinct(Next(s, Fork(pid, fd, toChild))) && Registered(Next(s, Fork(pid, fd, toChild)))
  {
    ForkDistinct(s, pid, fd, toChild);
    hide ChildInv, Distinct, Busy;
    var t := Next(s, Fork(pid, fd, toChild));
    assert t.tasks[0] == Task(pid, fd, toChild);
    assert forall i :: 0 < i < |t.tasks| ==> t.tasks[i] == s.tasks[i - 1];
    forall p | p in t.children ensures Task(p, t.children[p].fd, t.children[p].toChild) in t.tasks {
      if p != pid {
        assert Task(p, s.children[p].fd, s.children[p].toChild) in s.tasks;
      }
    }
  }

  lemma DieRegistered(s: State, pid: int)
    requires Inv(s) && Enabled(s, Die(pid))
    ensures Distinct(Next(s, Die(pid))) && Registered(Next(s, Die(pid)))
  {
    hide ChildInv;
    var t := Next(s, Die(pid));
    DestroyedIs(s.tasks, pid);
    forall i | 0 <= i < |t.tasks|
      ensures var k := t.tasks[i];
              k.pid in t.children && k.fd == t.children[k.pid].fd && k.toChild == t.children[k.pid].toChild
    {
      assert t.tasks[i] in s.tasks;
    }
    forall p | p in t.children ensures Task(p, t.children[p].fd, t.children[p].toChild) in t.tasks {
      assert Task(p, s.children[p].fd, s.children[p].toChild) in s.tasks;
    }
  }

  lemma BusyKeeps(s: State, e: Step)
    requires Inv(s) && Enabled(s, e)
    ensures Busy(Next(s, e))
  {
    if e.Serve? {
      ServeKeeps(s, e.pid, e.reply);
    }
    hide Flat, RequestBlocks, ReplyBlocks, ParseReply, ParseRequest, ValidRequest, ValidReply, FindTask, ChildInv;
    var t := Next(s, e);
    if t.parent.Reading? {
      var p := if e.Attend? then e.pid else var p :| p in s.children && s.children[p].fd == s.parent.fd; p;
      assert p in t.children && t.children[p].fd == t.parent.fd;
    }
    if t.parent.Replying? {
      var p := if e.Serve? then e.pid else var p :| p in s.children && s.children[p].toChild == s.parent.toChild; p;
      assert p in t.children && t.children[p].toChild == t.parent.toChild;
    }
  }

  // ---------------------------------------------------------------- whole runs

  lemma StepKeeps(s: State, e: Step)
    requires Inv(s) && Enabled(s, e)
    ensures Inv(Next(s, e))
  {
    hide Next, Enabled, ChildInv;
    StructureKeeps(s, e);
    BusyKeeps(s, e);
    forall p | p in Next(s, e).children ensures ChildInv(Next(s, e), Next(s, e).children[p]) {
      ChildrenKeep(s, e, p);
    }
  }

  lemma InitialInv()
    ensures Inv(INITIAL)
  {
  }

  lemma {:induction false} RunKeeps(s: State, steps: seq<Step>)
    requires Inv(s) && IsRun(s, steps)
    ensures Inv(After(s, steps))
    decreases |steps|
  {
    hide Next, Enabled, Inv;
    if steps != [] {
      StepKeeps(s, steps[0]);
      RunKeeps(Next(s, steps[0]), steps[1..]);
    }
  }

  /** After any run from the start: the parent has served for every child exactly the calls that the
      child has finished, in order and with the answers the child got, plus at most the one it is
      waiting for; and a child without a call in progress has two empty pipes. */
  lemma RunsAreRight(steps: seq<Step>, pid: int)
    requires IsRun(INITIAL, steps) && pid in After(INITIAL, steps).children
    ensures var c := After(INITIAL, steps).children[pid];
            && (c.served == c.finished
                || (c.pc.Receiving? && exists p :: c.served == c.finished + [(c.pc.req, p)]))
            && (c.pc.Ready? ==> c.served == c.finished && c.up == [] && c.down == [])
  {
    hide Next, Enabled, IsRun, After, RequestBlocks, ReplyBlocks, Flat, ValidRequest, ValidReply;
    RunKeeps(INITIAL, steps);
    var c := After(INITIAL, steps).children[pid];
    assert ChildInv(After(INITIAL, steps), c);
  }

  /** At every moment of every run at which the parent calls a routine, the request it has decoded is
      the one the child sent, and the task list leads back to that child. */
  lemma RunsServeRight(steps: seq<Step>, pid: int, reply: Reply)
    requires IsRun(INITIAL, steps) && Enabled(After(INITIAL, steps), Serve(pid, reply))
    ensures var s := After(INITIAL, steps);
            var c := s.children[pid];
            c.pc.Receiving? && ParseRequest(s.parent.buffer) == Complete(c.pc.req)
            && FindTask(s.tasks, s.parent.fd) == Some(c.toChild)
  {
    hide Next, IsRun, After, ParseRequest, FindTask;
    RunKeeps(INITIAL, steps);
    ServeIsRight(After(INITIAL, steps), pid, reply);
  }

  // ---------------------------------------------------------------- no call gets stuck

  /** A step that carries a call in progress on. */
  predicate Advances(s: State, e: Step)
  {
    !e.Begin? && !e.Fork? && !e.Die? && Enabled(s, e)
  }

  lemma ReadingAdvances(s: State, pid: int) returns (e: Step)
    requires Inv(s) && pid in s.children && ReadingFrom(s, s.children[pid])
    ensures Advances(s, e)
  {
    hide Flat, RequestBlocks, ParseRequest, FindTask;
    var c := s.children[pid];
    assert ChildInv(s, c);
    assert OnItsWay(s, c, c.pc.req);
    var req := c.pc.req;
    var blocks := RequestBlocks(req);
    RequestAsks(req, c.taken);
    if c.taken < c.written {
      FlatSplit(blocks, c.taken, c.written);
      e := ReadBlock(pid);
    } else if c.taken < |blocks| {
      e := WriteBlock(pid);
    } else {
      e := Serve(pid, if req.kind.ReturnInteger? then Number(0, req.ctx) else Text([]));
    }
  }

  lemma WritingAdvances(s: State, pid: int) returns (e: Step)
    requires Inv(s) && pid in s.children && s.children[pid].pc.Sending?
    ensures Advances(s, e) && e == WriteBlock(pid)
  {
    hide Flat, RequestBlocks, ValidRequest;
    assert ChildInv(s, s.children[pid]);
    e := WriteBlock(pid);
  }

  lemma WaitingAdvances(s: State, pid: int) returns (e: Step)
    requires Inv(s) && pid in s.children && s.parent.Listening?
    requires s.children[pid].pc.Receiving? && s.children[pid].given.None?
    ensures Advances(s, e) && e == Attend(pid)
  {
    hide Flat, RequestBlocks, ValidRequest;
    var c := s.children[pid];
    assert ChildInv(s, c);
    var blocks := RequestBlocks(c.pc.req);
    SomeBlocks(c.pc.req);
    RequestAsks(c.pc.req, 0);
    FlatSplit(blocks, 0, |blocks|);
    e := Attend(pid);
  }

  lemma AnsweredAdvances(s: State, pid: int) returns (e: Step)
    requires Inv(s) && pid in s.children && s.parent.Listening?
    requires s.children[pid].pc.Receiving? && s.children[pid].given.Some?
    ensures Advances(s, e)
  {
    hide Flat, RequestBlocks, ReplyBlocks, ParseReply, ValidRequest;
    var c := s.children[pid];
    assert ChildInv(s, c);
    var req := c.pc.req;
    var blocks := ReplyBlocks(c.given.value);
    ReplyAsks(req, c.given.value, c.received);
    if c.received < |blocks| {
      FlatSplit(blocks, c.received, c.replied);
      e := ReadReply(pid);
    } else {
      e := Finish(pid);
    }
  }

  lemma ListeningAdvances(s: State, pid: int) returns (e: Step)
    requires Inv(s) && pid in s.children && !s.children[pid].pc.Ready? && s.parent.Listening?
    ensures Advances(s, e)
  {
    hide Inv, Advances;
    var c := s.children[pid];
    if c.pc.Sending? {
      e := WritingAdvances(s, pid);
    } else if c.given.None? {
      e := WaitingAdvances(s, pid);
    } else {
      e := AnsweredAdvances(s, pid);
    }
  }

  lemma ReplyingAdvances(s: State, pid: int)
    requires Inv(s) && pid in s.children && ReplyingTo(s, s.children[pid])
    ensures Advances(s, ReplyBlock(pid))
  {
    hide Flat, RequestBlocks, ReplyBlocks;
    var c := s.children[pid];
    assert ChildInv(s, c);
  }

  /** As long as a call is in progress some process can go on. */
  lemma SomeAdvance(s: State, pid: int) returns (e: Step)
    requires Inv(s) && pid in s.children && !s.children[pid].pc.Ready?
    ensures Advances(s, e)
  {
    hide Advances, ChildInv, Distinct, Registered;
    if s.parent.Listening? {
      e := ListeningAdvances(s, pid);
    } else if s.parent.Reading? {
      var p :| p in s.children && s.children[p].fd == s.parent.fd;
      e := ReadingAdvances(s, p);
    } else {
      var p :| p in s.children && s.children[p].toChild == s.parent.toChild;
      ReplyingAdvances(s, p);
      e := ReplyBlock(p);
    }
  }

  /** Whatever the interleaving so far, as long as a call is in progress some process can go on. */
  lemma NoDeadlock(steps: seq<Step>, pid: int)
    requires IsRun(INITIAL, steps)
    requires pid in After(INITIAL, steps).children && !After(INITIAL, steps).children[pid].pc.Ready?
    ensures exists e :: Advances(After(INITIAL, steps), e)
  {
    hide Advances, IsRun, After;
    RunKeeps(INITIAL, steps);
    var e := SomeAdvance(After(INITIAL, steps), pid);
    assert Advances(After(INITIAL, steps), e);
  }

  // ---------------------------------------------------------------- every call ends

  /** The most steps that a child's call can still take: blocks to be written and read on both pipes,
      the attention of the parent, the service and the end. A reply has at most two blocks. */
  ghost function Work(s: State, c: Child): nat
    requires ChildInv(s, c)
  {
    match c.pc
    case Ready => 0
    case Sending(req, _) => RequestWork(s, c, |RequestBlocks(req)|)
    case Receiving(req, _) =>
      if c.given.None? then RequestWork(s, c, |RequestBlocks(req)|)
      else
        var n := |ReplyBlocks(c.given.value)|;
        (n - c.replied) + (n - c.received) + 1
  }

  ghost function RequestWork(s: State, c: Child, n: nat): nat
    requires c.taken <= c.written <= n
  {
    (n - c.written) + (n - c.taken) + (if ReadingFrom(s, c) then 0 else 1) + 6
  }

  /** The work of all registered children. */
  ghost function Total(s: State, tasks: seq<Task>): nat
    requires forall i :: 0 <= i < |tasks| ==> tasks[i].pid in s.children
    requires forall p :: p in s.children ==> ChildInv(s, s.children[p])
  {
    if tasks == [] then 0 else Work(s, s.children[tasks[0].pid]) + Total(s, tasks[1..])
  }

  lemma ReplyIsShort(p: Reply)
    requires match p case Number(v, _) => IsInt(v) case Text(t) => |t| < INT_RANGE / 2
    ensures 1 <= |ReplyBlocks(p)| <= 2
  {
  }

  lemma WriteLowers(s: State, pid: int)
    requires Inv(s) && Enabled(s, WriteBlock(pid)) && Inv(Next(s, WriteBlock(pid)))
    ensures Work(Next(s, WriteBlock(pid)), Next(s, WriteBlock(pid)).children[pid]) < Work(s, s.children[pid])
  {
    hide Flat, RequestBlocks, ReplyBlocks, ValidRequest, ValidReply, Registered, Busy, Distinct;
    var t := Next(s, WriteBlock(pid));
    assert ChildInv(s, s.children[pid]) && ChildInv(t, t.children[pid]);
  }

  lemma AttendLowers(s: State, pid: int)
    requires Inv(s) && Enabled(s, Attend(pid)) && Inv(Next(s, Attend(pid)))
    ensures Work(Next(s, Attend(pid)), Next(s, Attend(pid)).children[pid]) < Work(s, s.children[pid])
  {
    hide Flat, RequestBlocks, ReplyBlocks, ValidRequest, ValidReply, Registered, Busy, Distinct;
    var t := Next(s, Attend(pid));
    assert ChildInv(s, s.children[pid]) && ChildInv(t, t.children[pid]);
  }

  lemma ReadBlockLowers(s: State, pid: int)
    requires Inv(s) && Enabled(s, ReadBlock(pid)) && Inv(Next(s, ReadBlock(pid)))
    ensures Work(Next(s, ReadBlock(pid)), Next(s, ReadBlock(pid)).children[pid]) < Work(s, s.children[pid])
  {
    hide Flat, RequestBlocks, ReplyBlocks, ValidRequest, ValidReply, ParseRequest, Registered, Busy, Distinct;
    var t := Next(s, ReadBlock(pid));
    assert ChildInv(s, s.children[pid]) && ChildInv(t, t.children[pid]);
  }

  lemma ServeLowers(s: State, pid: int, reply: Reply)
    requires Inv(s) && Enabled(s, Serve(pid, reply)) && Inv(Next(s, Serve(pid, reply)))
    ensures Work(Next(s, Serve(pid, reply)), Next(s, Serve(pid, reply)).children[pid]) < Work(s, s.children[pid])
  {
    ServeIsRight(s, pid, reply);
    hide Flat, RequestBlocks, ReplyBlocks, ValidRequest, ParseRequest, FindTask, Registered, Busy, Distinct;
    var t := Next(s, Serve(pid, reply));
    assert ChildInv(s, s.children[pid]) && ChildInv(t, t.children[pid]);
    ReplyIsShort(reply);
  }

  lemma ReplyBlockLowers(s: State, pid: int)
    requires Inv(s) && Enabled(s, ReplyBlock(pid)) && Inv(Next(s, ReplyBlock(pid)))
    ensures Work(Next(s, ReplyBlock(pid)), Next(s, ReplyBlock(pid)).children[pid]) < Work(s, s.children[pid])
  {
    hide Flat, RequestBlocks, ReplyBlocks, ValidRequest, ValidReply, Registered, Busy, Distinct;
    var t := Next(s, ReplyBlock(pid));
    assert ChildInv(s, s.children[pid]) && ChildInv(t, t.children[pid]);
  }

  lemma ReadReplyLowers(s: State, pid: int)
    requires Inv(s) && Enabled(s, ReadReply(pid)) && Inv(Next(s, ReadReply(pid)))
    ensures Work(Next(s, ReadReply(pid)), Next(s, ReadReply(pid)).children[pid]) < Work(s, s.children[pid])
  {
    NeedsBytes(s.children[pid].pc.req, s.children[pid].pc.got);
    hide Flat, RequestBlocks, ReplyBlocks, ValidRequest, ValidReply, ParseReply, Registered, Busy, Distinct;
    var t := Next(s, ReadReply(pid));
    assert ChildInv(s, s.children[pid]) && ChildInv(t, t.children[pid]);
  }

  lemma FinishLowers(s: State, pid: int)
    requires Inv(s) && Enabled(s, Finish(pid)) && Inv(Next(s, Finish(pid)))
    ensures Work(Next(s, Finish(pid)), Next(s, Finish(pid)).children[pid]) < Work(s, s.children[pid])
  {
    hide Flat, RequestBlocks, ReplyBlocks, ValidRequest, ValidReply, ParseReply, Registered, Busy, Distinct;
    var t := Next(s, Finish(pid));
    assert ChildInv(s, s.children[pid]) && ChildInv(t, t.children[pid]);
  }

  lemma OwnWorkLowers(s: State, e: Step)
    requires Inv(s) && Advances(s, e) && Inv(Next(s, e))
    ensures e.pid in Next(s, e).children
    ensures Work(Next(s, e), Next(s, e).children[e.pid]) < Work(s, s.children[e.pid])
  {
    hide Work, ChildInv, Distinct, Registered, Busy, ParseRequest, ParseReply;
    match e {
      case WriteBlock(pid) => WriteLowers(s, pid);
      case Attend(pid) => AttendLowers(s, pid);
      case ReadBlock(pid) => ReadBlockLowers(s, pid);
      case Serve(pid, reply) => ServeLowers(s, pid, reply);
      case ReplyBlock(pid) => ReplyBlockLowers(s, pid);
      case ReadReply(pid) => ReadReplyLowers(s, pid);
      case Finish(pid) => FinishLowers(s, pid);
      case _ =>
    }
  }

  /** The step of one child leaves the work of every other one. */
  lemma OtherWorkStays(s: State, e: Step, q: int)
    requires Inv(s) && Advances(s, e) && Inv(Next(s, e)) && q in s.children && q != e.pid
    ensures q in Next(s, e).children && Work(Next(s, e), Next(s, e).children[q]) == Work(s, s.children[q])
  {
    hide Flat, RequestBlocks, ReplyBlocks, ParseReply, ParseRequest, ValidRequest, ValidReply, FindTask;
    hide OnItsWay, OnItsWayBack, Registered, Busy;
    var t := Next(s, e);
    assert t.children[q] == s.children[q];
    assert s.children[q].fd != s.children[e.pid].fd && s.children[q].toChild != s.children[e.pid].toChild;
    assert ReadingFrom(t, s.children[q]) == ReadingFrom(s, s.children[q]);
  }

  lemma {:induction false} TotalLowers(s: State, t: State, tasks: seq<Task>, k: nat)
    requires forall i :: 0 <= i < |tasks| ==> tasks[i].pid in s.children && tasks[i].pid in t.children
    requires forall p :: p in s.children ==> ChildInv(s, s.children[p])
    requires forall p :: p in t.children ==> ChildInv(t, t.children[p])
    requires forall i :: 0 <= i < |tasks| && i != k ==>
               Work(t, t.children[tasks[i].pid]) == Work(s, s.children[tasks[i].pid])
    requires k < |tasks| ==> Work(t, t.children[tasks[k].pid]) < Work(s, s.children[tasks[k].pid])
    ensures if k < |tasks| then Total(t, tasks) < Total(s, tasks) else Total(t, tasks) == Total(s, tasks)
    decreases |tasks|
  {
    hide Work, ChildInv;
    if tasks != [] {
      var more := tasks[1..];
      assert forall i :: 0 <= i < |more| ==> more[i] == tasks[i + 1];
      TotalLowers(s, t, more, if k == 0 then |more| else k - 1);
    }
  }

  lemma OwnTask(s: State, pid: int) returns (k: nat)
    requires Registered(s) && pid in s.children
    ensures k < |s.tasks| && s.tasks[k].pid == pid
    ensures forall i :: 0 <= i < |s.tasks| && i != k ==> s.tasks[i].pid != pid && s.tasks[i].pid in s.children
  {
    k :| 0 <= k < |s.tasks| && s.tasks[k] == Task(pid, s.children[pid].fd, s.children[pid].toChild);
  }

  lemma AdvanceFrame(s: State, e: Step)
    requires Advances(s, e)
    ensures e.pid in s.children && Next(s, e).tasks == s.tasks && Next(s, e).children.Keys == s.children.Keys
  {
    hide ParseRequest, ParseReply, FindTask, ReplyBlocks, ValidRequest, ValidReply;
  }

  /** Every step that carries a call on leaves less work. */
  lemma StepLowers(s: State, e: Step)
    requires Inv(s) && Advances(s, e)
    ensures Inv(Next(s, e)) && Next(s, e).tasks == s.tasks
    ensures Total(Next(s, e), Next(s, e).tasks) < Total(s, s.tasks)
  {
    StepKeeps(s, e);
    AdvanceFrame(s, e);
    hide Work, ChildInv, Distinct, Busy, Registered, Next, Advances, Enabled;
    var t := Next(s, e);
    var k := OwnTask(s, e.pid);
    OwnWorkLowers(s, e);
    forall i | 0 <= i < |s.tasks| && i != k
      ensures s.tasks[i].pid in t.children
              && Work(t, t.children[s.tasks[i].pid]) == Work(s, s.children[s.tasks[i].pid])
    {
      OtherWorkStays(s, e, s.tasks[i].pid);
    }
    TotalLowers(s, t, s.tasks, k);
  }

  /** All steps carry calls on. */
  predicate AllAdvance(s: State, steps: seq<Step>)
    decreases |steps|
  {
    steps == [] || (Advances(s, steps[0]) && AllAdvance(Next(s, steps[0]), steps[1..]))
  }

  /** Without new calls there are no more steps than there is work. */
  lemma {:induction false} WorkBounds(s: State, steps: seq<Step>)
    requires Inv(s) && AllAdvance(s, steps)
    ensures IsRun(s, steps) && Inv(After(s, steps))
    ensures Total(After(s, steps), After(s, steps).tasks) + |steps| <= Total(s, s.tasks)
    decreases |steps|
  {
    hide Next, Enabled, ChildInv, Distinct, Busy, Total;
    if steps != [] {
      StepLowers(s, steps[0]);
      WorkBounds(Next(s, steps[0]), steps[1..]);
    }
  }

  /** All calls are finished. */
  predicate AllReady(s: State)
  {
    forall p :: p in s.children ==> s.children[p].pc.Ready?
  }

  /** After any run, every call in progress ends within a number of steps that is known beforehand,
      whichever of the processes goes on when, if no new call begins: there are no longer runs, and a run
      that cannot go on has finished all calls. */
  lemma EveryCallEnds(steps: seq<Step>, more: seq<Step>)
    requires IsRun(INITIAL, steps) && AllAdvance(After(INITIAL, steps), more)
    ensures var s := After(INITIAL, steps);
            && Inv(s) && |more| <= Total(s, s.tasks) && IsRun(s, more)
            && ((forall e :: !Advances(After(s, more), e)) <==> AllReady(After(s, more)))
  {
    InitialInv();
    hide IsRun, After, AllAdvance, Total, Inv, Advances;
    RunKeeps(INITIAL, steps);
    var s := After(INITIAL, steps);
    WorkBounds(s, more);
    var t := After(s, more);
    if AllReady(t) {
      forall e ensures !Advances(t, e) {
        ReadyRests(t, e);
      }
    } else {
      var p :| p in t.children && !t.children[p].pc.Ready?;
      var e := SomeAdvance(t, p);
    }
  }

  lemma ReadyRests(s: State, e: Step)
    requires Inv(s) && AllReady(s)
    ensures !Advances(s, e)
  {
    hide ParseRequest, ParseReply, Registered, Distinct;
    assert e.pid in s.children ==> ChildInv(s, s.children[e.pid]);
  }

  // ---------------------------------------------------------------- every call is answered

  /** A child can be started with a process number and descriptors that are not in use, it can call when it is
      ready, and it can end when it is ready and the parent listens. */
  lemma Lifecycle(s: State, pid: int, fd: int, toChild: int, req: Request)
    ensures Enabled(s, Fork(pid, fd, toChild)) <==>
            pid !in s.children
            && forall p :: p in s.children ==> s.children[p].fd != fd && s.children[p].toChild != toChild
    ensures Enabled(s, Fork(pid, fd, toChild)) ==>
              var t := Next(s, Fork(pid, fd, toChild));
              t.children.Keys == s.children.Keys + {pid} && t.children[pid].pc.Ready? && t.children[pid].finished == []
    ensures ValidRequest(req) ==>
              (Enabled(s, Begin(pid, req)) <==> pid in s.children && s.children[pid].pc.Ready?)
    ensures Enabled(s, Die(pid)) <==> pid in s.children && s.children[pid].pc.Ready? && s.parent.Listening?
  {
  }

  /** The call of req that began after f is in progress, or has been answered. */
  ghost predicate Called(s: State, pid: int, req: Request, f: seq<(Request, Reply)>)
  {
    pid in s.children &&
    var c := s.children[pid];
    match c.pc
    case Ready => exists r :: ValidReply(req, r) && c.finished == f + [(req, r)]
    case Sending(q, _) => q == req && c.finished == f
    case Receiving(q, _) => q == req && c.finished == f
  }

  lemma AdvanceKeepsCall(s: State, e: Step, pid: int, req: Request, f: seq<(Request, Reply)>)
    requires Inv(s) && Advances(s, e) && Called(s, pid, req, f)
    ensures Called(Next(s, e), pid, req, f)
  {
    hide Flat, RequestBlocks, ReplyBlocks, ParseRequest, ParseReply, ValidRequest, ValidReply, FindTask, Inv;
    if e == Finish(pid) {
      FinishIsRight(s, pid);
      FinishIsValid(s, pid);
      var c := s.children[pid];
      assert Next(s, e).children[pid].finished == f + [(req, c.given.value)];
    }
  }

  lemma FinishIsValid(s: State, pid: int)
    requires Inv(s) && Enabled(s, Finish(pid)) && s.children[pid].given.Some?
    ensures ValidReply(s.children[pid].pc.req, s.children[pid].given.value)
  {
    hide Flat, RequestBlocks, ReplyBlocks, ParseReply, ValidRequest, ValidReply, Registered, Distinct, Busy;
    assert ChildInv(s, s.children[pid]);
  }

  /** Some run finishes all calls. */
  lemma {:induction false} RunOut(s: State, pid: int, req: Request, f: seq<(Request, Reply)>) returns (more: seq<Step>)
    requires Inv(s) && Called(s, pid, req, f)
    ensures AllAdvance(s, more) && IsRun(s, more) && AllReady(After(s, more)) && Called(After(s, more), pid, req, f)
    decreases Total(s, s.tasks)
  {
    hide Inv, Called, Next, Enabled, Total;
    if AllReady(s) {
      more := [];
    } else {
      var p :| p in s.children && !s.children[p].pc.Ready?;
      var e := SomeAdvance(s, p);
      StepLowers(s, e);
      AdvanceKeepsCall(s, e, pid, req, f);
      var rest := RunOut(Next(s, e), pid, req, f);
      more := [e] + rest;
      assert more[1..] == rest && Enabled(s, e);
    }
  }

  /** After any run, a child that is ready can call, and there is a way to go on in which it gets an answer. */
  lemma CallIsAnswered(steps: seq<Step>, pid: int, req: Request) returns (more: seq<Step>)
    requires IsRun(INITIAL, steps) && ValidRequest(req)
    requires pid in After(INITIAL, steps).children && After(INITIAL, steps).children[pid].pc.Ready?
    ensures var s := After(INITIAL, steps);
            && IsRun(s, [Begin(pid, req)] + more) && AllReady(After(s, [Begin(pid, req)] + more))
            && pid in After(s, [Begin(pid, req)] + more).children
            && exists r :: ValidReply(req, r)
                 && After(s, [Begin(pid, req)] + more).children[pid].finished == s.children[pid].finished + [(req, r)]
  {
    InitialInv();
    hide Inv, Advances;
    RunKeeps(INITIAL, steps);
    var s := After(INITIAL, steps);
    StepKeeps(s, Begin(pid, req));
    var t := Next(s, Begin(pid, req));
    more := RunOut(t, pid, req, s.children[pid].finished);
    assert ([Begin(pid, req)] + more)[1..] == more;
  }
}
