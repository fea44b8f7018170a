/** The body of a CGI response: the bytes read past its head, then the standard output of the process,
    then its exit status. */
module BackendBody {
  import opened Bytes

  /** A task handed to the runtime, and with it the child process. */
  datatype Task = Wait | Kill

  /** What one poll of the pipe answers. */
  datatype PipeAnswer = PipePending | Bytes(data: bytes) | PipeFailed

  /** What one poll of the receiver answers. */
  datatype ExitAnswer = ExitPending | Exited(success: bool) | WaitFailed | Cancelled

  /** One poll: the room in the caller's buffer, and what pipe and receiver will answer if asked. */
  datatype Poll = Poll(room: nat, pipe: PipeAnswer, exit: ExitAnswer)

  /** What a poll returns. `Pending(true)` has woken the caller itself. */
  datatype Polled = Pending(woken: bool) | Filled(data: bytes) | Failed

  /** `prefix[position..]` and `stdout` are still to come; `success` is how the process ends. */
  datatype State = State(
    prefix: bytes, position: nat, stdout: bytes, success: bool, child: bool, exit: bool, tasks: seq<Task>)
  {
    predicate Valid() {
      position <= |prefix|
    }
  }

  /** The pipe delivers the output in order, nothing only at its end or into a full buffer, and the
      receiver reports the status of the process. */
  predicate Fair(s: State, p: Poll) {
    && (p.pipe.Bytes? ==>
      && |p.pipe.data| <= p.room && p.pipe.data <= s.stdout
      && (p.pipe.data == [] ==> p.room == 0 || s.stdout == []))
    && (p.exit.Exited? ==> p.exit.success == s.success)
  }

  function Waiting(s: State): State {
    if !s.exit && s.child then s.(child := false, exit := true, tasks := s.tasks + [Wait]) else s
  }

  function Min(a: nat, b: nat): nat {
    if a <= b then a else b
  }

  /** The state behind a poll, and what it returns. */
  function Step(s: State, p: Poll): (r: (State, Polled))
    requires s.Valid()
    ensures r.0.Valid()
  {
    if s.position < |s.prefix| then
      var n := Min(p.room, |s.prefix| - s.position);
      (s.(position := s.position + n), Filled(s.prefix[s.position..s.position + n]))
    else if s.exit then
      match p.exit
      case ExitPending => (s, Pending(false))
      case Exited(success) => (s, if success then Filled([]) else Failed)
      case WaitFailed => (s, Failed)
      case Cancelled => (s, Failed)
    else
      match p.pipe
      case PipePending => (s, Pending(false))
      case PipeFailed => (s, Failed)
      case Bytes(data) =>
        if data == [] then (Waiting(s), Pending(true))
        else (s.(stdout := if data <= s.stdout then s.stdout[|data|..] else []), Filled(data))
  }

  function Dropped(s: State): State {
    if s.child then s.(child := false, tasks := s.tasks + [Kill]) else s
  }

  class Body {
    const prefix: bytes
    const success: bool
    var position: nat
    var stdout: bytes
    var child: bool
    var exit: bool
    var tasks: seq<Task>

    ghost predicate Valid()
      reads this
    {
      position <= |prefix|
    }

    ghost function Abstract(): (s: State)
      reads this
    {
      State(prefix, position, stdout, success, child, exit, tasks)
    }

    constructor (prefix: bytes, stdout: bytes, success: bool)
      ensures Valid() && Abstract() == Started(prefix, stdout, success)
    {
      this.prefix, this.stdout, this.success := prefix, stdout, success;
      position, child, exit, tasks := 0, true, false, [];
    }

    method BeginWait()
      modifies this
      ensures Abstract() == Waiting(old(Abstract()))
    {
      if !exit && child {
        child := false;
        tasks := tasks + [Wait];
        exit := true;
      }
    }

    /** `drop` */
    method Drop()
      modifies this
      ensures Abstract() == Dropped(old(Abstract()))
    {
      if child {
        child := false;
        tasks := tasks + [Kill];
      }
    }

    method PollRead(p: Poll) returns (r: Polled)
      requires Valid() && Fair(Abstract(), p)
      modifies this
      ensures Valid()
      ensures (Abstract(), r) == Step(old(Abstract()), p)
    {
      if position < |prefix| {
        var n := Min(p.room, |prefix| - position);
        r := Filled(prefix[position..position + n]);
        position := position + n;
        return;
      }
      if exit {
        match p.exit {
          case ExitPending =>
            return Pending(false);
          case Exited(success) =>
            return if success then Filled([]) else Failed;
          case WaitFailed =>
            return Failed;
          case Cancelled =>
            return Failed;
        }
      }
      match p.pipe {
        case PipePending =>
          return Pending(false);
        case PipeFailed =>
          return Failed;
        case Bytes(data) =>
          if data == [] {
            BeginWait();
            return Pending(true);
          }
          stdout := stdout[|data|..];
          return Filled(data);
      }
    }
  }

  /* One poll. */

  /** The poll is past the prefix, and the pipe or, once waiting has begun, the receiver answers it. */
  predicate Asks(s: State, ofPipe: bool) {
    s.position == |s.prefix| && s.exit == !ofPipe
  }

  /** When a poll fails, when it is pending, and when it has woken its caller: exactly for the empty read that
      starts the wait. */
  lemma PollAnswers(s: State, p: Poll)
    requires s.Valid()
    ensures var r := Step(s, p).1;
      && (r == Failed <==>
            || (Asks(s, true) && p.pipe == PipeFailed)
            || (Asks(s, false) && p.exit in {Exited(false), WaitFailed, Cancelled}))
      && (r.Pending? <==>
            || (Asks(s, true) && p.pipe in {PipePending, Bytes([])})
            || (Asks(s, false) && p.exit == ExitPending))
      && (r == Pending(true) <==> Asks(s, true) && p.pipe == Bytes([]))
  {
  }

  /** What a poll hands over: of the prefix as much as there is and fits, then what the pipe read, and
      nothing at the end. */
  lemma PollFills(s: State, p: Poll)
    requires s.Valid() && Step(s, p).1.Filled?
    ensures var data := Step(s, p).1.data;
      && (s.position < |s.prefix| ==>
            && data <= s.prefix[s.position..] && |data| <= p.room
            && (|data| == p.room || data == s.prefix[s.position..]))
      && (Asks(s, true) ==> p.pipe == Bytes(data) && data != [])
      && (Asks(s, false) ==> p.exit == Exited(true) && data == [])
  {
  }

  /** A poll starts the wait exactly when it wakes its caller while the body holds the child, and takes
      bytes only by handing them over. */
  lemma PollMoves(s: State, p: Poll)
    requires s.Valid() && Fair(s, p)
    ensures var (s', r) := Step(s, p);
      && (s' != s ==> r.Filled? || r == Pending(true))
      && (s'.exit <==> s.exit || (r == Pending(true) && s.child))
      && (r == Pending(true) ==>
            s' == if s.child then s.(child := false, exit := true, tasks := s.tasks + [Wait]) else s)
      && (r.Filled? ==> s' == s.(position := s'.position, stdout := s'.stdout))
  {
  }

  function Started(prefix: bytes, stdout: bytes, success: bool): (s: State)
    ensures s.Valid()
  {
    State(prefix, 0, stdout, success, true, false, [])
  }

  /* Whole runs. */

  /** The state after a run of polls and every byte they delivered. */
  function Run(s: State, polls: seq<Poll>): (r: (State, bytes))
    requires s.Valid()
    ensures r.0.Valid()
    decreases |polls|
  {
    if polls == [] then (s, [])
    else
      var (s', r) := Step(s, polls[0]);
      var (end, rest) := Run(s', polls[1..]);
      (end, Data(r) + rest)
  }

  predicate FairRun(s: State, polls: seq<Poll>)
    requires s.Valid()
    decreases |polls|
  {
    polls == [] || (Fair(s, polls[0]) && FairRun(Step(s, polls[0]).0, polls[1..]))
  }

  /** What is still to come. */
  function Left(s: State): bytes
    requires s.Valid()
  {
    s.prefix[s.position..] + s.stdout
  }

  /** One poll hands over what it takes. */
  lemma StepConserves(s: State, p: Poll)
    requires s.Valid() && Fair(s, p)
    ensures var (s', r) := Step(s, p);
      && s'.success == s.success && s'.prefix == s.prefix
      && Data(r) + Left(s') == Left(s)
  {
    if s.position < |s.prefix| {
      var n := Min(p.room, |s.prefix| - s.position);
      TakenFromPrefix(s.prefix, s.position, n, s.stdout);
    } else if s.exit || !p.pipe.Bytes? || p.pipe.data == [] {
      StepTakesNothing(s, p);
    } else {
      TakenFromPipe(s.prefix[s.position..], s.stdout, p.pipe.data);
    }
  }

  lemma StepTakesNothing(s: State, p: Poll)
    requires s.Valid() && s.position == |s.prefix| && (s.exit || !p.pipe.Bytes? || p.pipe.data == [])
    ensures var (s', r) := Step(s, p);
      s'.success == s.success && s'.prefix == s.prefix && Data(r) + Left(s') == Left(s)
  {
    assert Left(Step(s, p).0) == Left(s) && Data(Step(s, p).1) == [];
    hide Step, Left;
    assert [] + Left(s) == Left(s);
  }

  function Data(r: Polled): bytes {
    if r.Filled? then r.data else []
  }

  lemma TakenFromPrefix(prefix: bytes, position: nat, n: nat, stdout: bytes)
    requires position + n <= |prefix|
    ensures prefix[position..position + n] + (prefix[position + n..] + stdout) == prefix[position..] + stdout
  {
  }

  lemma TakenFromPipe(none: bytes, stdout: bytes, data: bytes)
    requires none == [] && data <= stdout
    ensures data + (none + stdout[|data|..]) == none + stdout
  {
  }

  /** For every run: what was delivered and what is left are the prefix and the output, in order. */
  lemma {:induction false} RunConserves(s: State, polls: seq<Poll>)
    requires s.Valid() && FairRun(s, polls)
    ensures var (end, delivered) := Run(s, polls);
      end.success == s.success && delivered + Left(end) == Left(s)
    decreases |polls|
  {
    hide Fair, Left, Step, Data;
    if polls == [] {
      assert [] + Left(s) == Left(s);
    } else {
      var (s', r) := Step(s, polls[0]);
      StepConserves(s, polls[0]);
      RunConserves(s', polls[1..]);
      var (end, rest) := Run(s', polls[1..]);
      assert Data(r) + rest + Left(end) == Data(r) + (rest + Left(end));
    }
  }

  /** Exactly one of the body, the wait task and the kill task holds the child, and a receiver is there
      just when the child has gone to the wait task. */
  predicate OneOwner(s: State) {
    && (s.child <==> s.tasks == [])
    && (s.exit <==> s.tasks == [Wait])
    && (s.tasks == [] || s.tasks == [Wait] || s.tasks == [Kill])
  }

  /** Waiting starts only once the pipe is drained. */
  predicate Drained(s: State) {
    s.exit ==> s.position == |s.prefix| && s.stdout == []
  }

  predicate ReadsNothing(s: State, p: Poll) {
    p.room == 0 && p.pipe == Bytes([]) && s.position == |s.prefix| && s.child && s.stdout != []
  }

  /** A poll keeps the order of things unless it has no room, and the pipe answers it, while output is
      still to come: the empty read is then taken for the end. */
  lemma StepKeepsDrained(s: State, p: Poll)
    requires s.Valid() && Fair(s, p) && OneOwner(s) && s.tasks != [Kill] && Drained(s)
    ensures OneOwner(Step(s, p).0) && Step(s, p).0.tasks != [Kill]
    ensures Drained(Step(s, p).0) <==> !ReadsNothing(s, p)
  {
  }

  predicate NeverReadsNothing(s: State, polls: seq<Poll>)
    requires s.Valid()
    decreases |polls|
  {
    polls == [] || (!ReadsNothing(s, polls[0]) && NeverReadsNothing(Step(s, polls[0]).0, polls[1..]))
  }

  /** Once the child is waited for, polls change nothing. */
  lemma {:induction false} RunStays(s: State, polls: seq<Poll>)
    requires s.Valid() && s.exit && s.position == |s.prefix|
    ensures Run(s, polls).0 == s
    decreases |polls|
  {
    if polls == [] {
    } else {
      assert Step(s, polls[0]).0 == s;
      RunStays(s, polls[1..]);
    }
  }

  /** Over a run, waiting starts too early exactly when some poll reads nothing. */
  lemma {:induction false} RunKeepsDrained(s: State, polls: seq<Poll>)
    requires s.Valid() && FairRun(s, polls) && OneOwner(s) && s.tasks != [Kill] && Drained(s)
    ensures var end := Run(s, polls).0;
      && OneOwner(end) && end.tasks != [Kill]
      && (Drained(end) <==> NeverReadsNothing(s, polls))
    decreases |polls|
  {
    if polls == [] {
    } else {
      var s' := Step(s, polls[0]).0;
      StepKeepsDrained(s, polls[0]);
      StepConserves(s, polls[0]);
      if ReadsNothing(s, polls[0]) {
        assert s' == Waiting(s);
        RunStays(s', polls[1..]);
      } else {
        hide Fair, Step, OneOwner, Drained, ReadsNothing;
        RunKeepsDrained(s', polls[1..]);
      }
    }
  }

  predicate AllRoomy(polls: seq<Poll>) {
    forall i | 0 <= i < |polls| :: polls[i].room > 0
  }

  lemma {:induction false} RoomyReads(s: State, polls: seq<Poll>)
    requires s.Valid() && AllRoomy(polls)
    ensures NeverReadsNothing(s, polls)
    decreases |polls|
  {
    if polls == [] {
    } else {
      hide Step;
      RoomyReads(Step(s, polls[0]).0, polls[1..]);
    }
  }

  /** A poll into an empty buffer aside, nothing is delivered as the end of the body but a successful exit. */
  lemma EndMeansExit(s: State, p: Poll)
    requires s.Valid() && Fair(s, p) && p.room > 0 && Step(s, p).1 == Filled([])
    ensures s.exit && s.success && s.position == |s.prefix|
  {
  }

  /** The body of a response, over every run of polls. A clean end means that the process succeeded, and
      that every byte of the prefix and of the output was delivered, in order, exactly when no poll read
      nothing; polls with room in the buffer never do. */
  lemma CleanEnd(prefix: bytes, stdout: bytes, success: bool, polls: seq<Poll>, last: Poll)
    requires var s := Started(prefix, stdout, success);
      FairRun(s, polls) && Fair(Run(s, polls).0, last)
    requires last.room > 0 && Step(Run(Started(prefix, stdout, success), polls).0, last).1 == Filled([])
    ensures success
    ensures var s := Started(prefix, stdout, success);
      && (Run(s, polls).1 == prefix + stdout <==> NeverReadsNothing(s, polls))
      && (AllRoomy(polls) ==> Run(s, polls).1 == prefix + stdout)
  {
    var s := Started(prefix, stdout, success);
    var (end, delivered) := Run(s, polls);
    StartHolds(prefix, stdout, success);
    RunConserves(s, polls);
    RunKeepsDrained(s, polls);
    EndMeansExit(end, last);
    if AllRoomy(polls) {
      RoomyReads(s, polls);
    }
    hide Run, FairRun, NeverReadsNothing, AllRoomy, Fair, Step, OneOwner, Started;
    assert Left(end) == end.stdout;
  }

  /** A poll with room in its buffer that both the pipe and the receiver would answer. */
  predicate Answered(p: Poll) {
    p.room > 0 && p.pipe.Bytes? && p.exit.Exited?
  }

  /** Such a poll hands over a byte, or starts the wait, or finds it started. */
  lemma AnsweredMoves(s: State, p: Poll)
    requires s.Valid() && Fair(s, p) && OneOwner(s) && s.tasks != [Kill] && Answered(p)
    ensures var s' := Step(s, p).0;
      && (s.exit ==> s'.exit)
      && (!s.exit && Left(s) != [] ==> |Left(s')| < |Left(s)|)
      && (!s.exit && Left(s) == [] ==> s'.exit)
  {
    StepConserves(s, p);
    if s.exit || Left(s) == [] {
    } else if s.position < |s.prefix| {
      assert Data(Step(s, p).1) != [];
    } else {
      assert Data(Step(s, p).1) == p.pipe.data;
    }
  }

  /** One poll more than there are bytes left is enough to have the child waited for. */
  lemma {:induction false} AnsweredWait(s: State, polls: seq<Poll>)
    requires s.Valid() && FairRun(s, polls) && OneOwner(s) && s.tasks != [Kill] && Drained(s)
    requires forall i | 0 <= i < |polls| :: Answered(polls[i])
    requires s.exit || |polls| > |Left(s)|
    ensures Run(s, polls).0.exit
    decreases |polls|
  {
    if polls == [] {
    } else {
      AnsweredMoves(s, polls[0]);
      StepKeepsDrained(s, polls[0]);
      hide Fair, Step, OneOwner, Drained, Left;
      AnsweredWait(Step(s, polls[0]).0, polls[1..]);
    }
  }

  /** Every body is read to its end: after as many answered polls as there are bytes, and one more, all of
      them are delivered, and the next answered poll is the clean end exactly when the process succeeded,
      and an error otherwise. */
  lemma Completes(prefix: bytes, stdout: bytes, success: bool, polls: seq<Poll>, last: Poll)
    requires var s := Started(prefix, stdout, success);
      FairRun(s, polls) && Fair(Run(s, polls).0, last)
    requires |polls| > |prefix| + |stdout|
    requires (forall i | 0 <= i < |polls| :: Answered(polls[i])) && Answered(last)
    ensures var (end, delivered) := Run(Started(prefix, stdout, success), polls);
      && delivered == prefix + stdout
      && Step(end, last).1 == if success then Filled([]) else Failed
  {
    var s := Started(prefix, stdout, success);
    StartHolds(prefix, stdout, success);
    AnsweredWait(s, polls);
    RunConserves(s, polls);
    RunKeepsDrained(s, polls);
    RoomyReads(s, polls);
    hide Run, FairRun, NeverReadsNothing, OneOwner, Started;
  }

  lemma StartHolds(prefix: bytes, stdout: bytes, success: bool)
    ensures var s := Started(prefix, stdout, success);
      OneOwner(s) && s.tasks != [Kill] && Drained(s) && s.success == success && Left(s) == prefix + stdout
  {
  }

  /** Wherever a run stops, what it delivered opens the prefix and the output; the child has one owner,
      and once the body is dropped that owner is one task. */
  lemma RunThenDrop(prefix: bytes, stdout: bytes, success: bool, polls: seq<Poll>)
    requires FairRun(Started(prefix, stdout, success), polls)
    ensures var (end, delivered) := Run(Started(prefix, stdout, success), polls);
      && delivered <= prefix + stdout
      && OneOwner(end)
      && (Dropped(end).tasks == [Wait] || Dropped(end).tasks == [Kill]) && OneOwner(Dropped(end))
      && (Dropped(end).tasks == [Kill] <==> end.child)
  {
    var s := Started(prefix, stdout, success);
    StartHolds(prefix, stdout, success);
    RunConserves(s, polls);
    RunKeepsDrained(s, polls);
    hide Run, FairRun, NeverReadsNothing, Left, Started, Drained;
  }
}
