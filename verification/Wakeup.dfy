/** The wakeup protocol between the stack thread, which runs handle_wakeup, and one thread
    that reads from the socket, as interleaved atomic steps on the shared fields. */
module Wakeup {

  /** Where the stack thread is: between the arrival of data and the end of unlock_sem. */
  datatype StackPc =
    | Idle
    | Arrived      // data is in the socket, the callback starts
    | Wrote        // the character is in the pipe, fd_write_count not yet raised
    | Counted      // about to look at the semaphore
    | MustPost     // saw the semaphore at zero

  /** Where the reader is inside fd_pico_socket_read(len). */
  datatype ReaderPc =
    | Outside
    | Waiting(len: nat)              // at waiton_sem
    | Testing(len: nat)              // at the loop test
    | PipeRead(len: nat)             // saw fd_write_count > 0
    | Subtracting(len: nat, n: nat)  // took n characters out of the pipe
    | SocketRead(len: nat)           // pipe drained
    | Unlocking(len: nat)            // read as much as asked for
    | ReaderPost(len: nat)           // saw the semaphore at zero

  datatype State = State(
    unread: nat,       // bytes the socket holds
    pipe: nat,         // characters the pipe holds
    count: int,        // fd_write_count
    sem: nat,          // value of read_sem
    stack: StackPc,
    reader: ReaderPc)

  /** A freshly created fd_elem. */
  const CREATED: State := State(0, 0, 0, 0, Idle, Outside)

  datatype Step =
    | Arrive(bytes: nat)
    | StackStep
    | Call(len: nat)
    | ReaderStep

  const CHUNK: nat := 10

  function Min(a: nat, b: nat): nat { if a < b then a else b }

  /** A step that can happen now; sem_wait and the pipe read block. */
  predicate Enabled(s: State, step: Step) {
    match step
    case Arrive(bytes) => s.stack == Idle && bytes > 0
    case StackStep => s.stack != Idle
    case Call(_) => s.reader == Outside
    case ReaderStep =>
      match s.reader
      case Outside => false
      case Waiting(_) => s.sem > 0
      case PipeRead(_) => s.pipe > 0
      case _ => true
  }

  function Next(s: State, step: Step): State
    requires Enabled(s, step)
  {
    match step
    case Arrive(bytes) => s.(unread := s.unread + bytes, stack := Arrived)
    case StackStep => (
      match s.stack
      case Arrived => s.(pipe := s.pipe + 1, stack := Wrote)
      case Wrote => s.(count := s.count + 1, stack := Counted)
      case Counted => s.(stack := if s.sem > 0 then Idle else MustPost)
      case MustPost => s.(sem := s.sem + 1, stack := Idle)
    )
    case Call(len) => s.(reader := Waiting(len))
    case ReaderStep => (
      match s.reader
      case Waiting(len) => s.(sem := s.sem - 1, reader := Testing(len))
      case Testing(len) => s.(reader := if s.count > 0 then PipeRead(len) else SocketRead(len))
      case PipeRead(len) =>
        var n := Min(CHUNK, s.pipe);
        s.(pipe := s.pipe - n, reader := Subtracting(len, n))
      case Subtracting(len, n) => s.(count := s.count - n, reader := Testing(len))
      case SocketRead(len) =>
        var n := Min(len, s.unread);
        s.(unread := s.unread - n, reader := if n == len then Unlocking(len) else Outside)
      case Unlocking(len) => s.(reader := if s.sem > 0 then Outside else ReaderPost(len))
      case ReaderPost(_) => s.(sem := s.sem + 1, reader := Outside)
    )
  }

  /** Every step of the run is possible when its turn comes. */
  ghost predicate Possible(s: State, steps: seq<Step>)
    decreases |steps|
  {
    steps == [] || (Enabled(s, steps[0]) && Possible(Next(s, steps[0]), steps[1..]))
  }

  function Run(s: State, steps: seq<Step>): State
    requires Possible(s, steps)
    decreases |steps|
  {
    if steps == [] then s else Run(Next(s, steps[0]), steps[1..])
  }

  // ---------- what every step keeps ----------

  function InFlight(s: State): nat { if s.stack == Wrote then 1 else 0 }

  function Taken(s: State): nat { if s.reader.Subtracting? then s.reader.n else 0 }

  function StackPosting(s: State): nat { if s.stack == MustPost then 1 else 0 }

  function ReaderPosting(s: State): nat { if s.reader.ReaderPost? then 1 else 0 }

  /** The reader holds a token it has not used up yet, or will hand one back. */
  predicate ReaderActive(s: State) {
    !s.reader.Outside? && !s.reader.Waiting?
  }

  ghost predicate Inv(s: State) {
    // fd_write_count is the pipe contents, up to the write and the read in progress
    && s.count + InFlight(s) == s.pipe + Taken(s)
    // the drain loop never reads an empty pipe
    && (s.reader.PipeRead? ==> s.pipe > 0)
    // unread bytes are announced: by the semaphore, by the callback still running, or to a
    // reader past its wait
    && (s.unread > 0 ==> s.sem > 0 || s.stack != Idle || ReaderActive(s))
    // at most one token more than needed
    && s.sem + StackPosting(s) + ReaderPosting(s) <= 2
  }

  lemma StepKeeps(s: State, step: Step)
    requires Inv(s) && Enabled(s, step)
    ensures Inv(Next(s, step))
  {}

  lemma {:induction false} RunKeeps(s: State, steps: seq<Step>)
    requires Inv(s) && Possible(s, steps)
    ensures Inv(Run(s, steps))
    decreases |steps|
  {
    if steps != [] {
      StepKeeps(s, steps[0]);
      RunKeeps(Next(s, steps[0]), steps[1..]);
    }
  }

  /** No lost wakeup, over every interleaving: a reader that waits while data is there and
      the stack thread is not in the callback is let through; the pipe read never blocks;
      and the semaphore never exceeds two. */
  lemma NoLostWakeup(steps: seq<Step>)
    requires Possible(CREATED, steps)
    ensures var s := Run(CREATED, steps);
            && (s.unread > 0 && s.stack == Idle && s.reader.Waiting? ==> Enabled(s, ReaderStep))
            && (s.reader.PipeRead? ==> Enabled(s, ReaderStep))
            && s.sem <= 2
            && (s.stack == Idle && !s.reader.Subtracting? ==> s.count == s.pipe)
  {
    RunKeeps(CREATED, steps);
  }

  // ---------- a read always comes back ----------

  function StackRank(pc: StackPc): nat {
    match pc
    case Idle => 0
    case MustPost => 1
    case Counted => 2
    case Wrote => 3
    case Arrived => 4
  }

  function ReaderRank(pc: ReaderPc): nat {
    match pc
    case Outside => 0
    case ReaderPost(_) => 1
    case Unlocking(_) => 2
    case SocketRead(_) => 3
    case PipeRead(_) => 4
    case Testing(_) => 5
    case Subtracting(_, _) => 8
    case Waiting(_) => 9
  }

  /** Goes down with every step except a new arrival or a new call. */
  function Measure(s: State): nat {
    20 * StackRank(s.stack) + 10 * s.pipe + ReaderRank(s.reader)
  }

  lemma MeasureDecreases(s: State, step: Step)
    requires Inv(s) && Enabled(s, step) && (step == StackStep || step == ReaderStep)
    ensures Measure(Next(s, step)) < Measure(s)
  {}

  predicate Inside(s: State) { !s.reader.Outside? }

  /** Whenever data is there, a started read can go on or the stack thread can. */
  lemma NeverStuck(s: State)
    requires Inv(s) && Inside(s) && (s.unread > 0 || ReaderActive(s))
    ensures Enabled(s, StackStep) || Enabled(s, ReaderStep)
  {}

  /** The steps of a run that are neither arrivals nor calls. */
  predicate Quiet(steps: seq<Step>) {
    forall step <- steps :: step == StackStep || step == ReaderStep
  }

  lemma {:induction false} QuietRunsEnd(s: State, steps: seq<Step>)
    requires Inv(s) && Possible(s, steps) && Quiet(steps)
    ensures |steps| + Measure(Run(s, steps)) <= Measure(s)
    decreases |steps|
  {
    if steps != [] {
      assert steps[0] in steps;
      MeasureDecreases(s, steps[0]);
      StepKeeps(s, steps[0]);
      assert forall step <- steps[1..] :: step in steps;
      QuietRunsEnd(Next(s, steps[0]), steps[1..]);
    }
  }

  /** However the two threads are scheduled, a read that finds data has returned when neither
      can go on, and that is so after at most Measure(s) steps. */
  lemma ReadReturns(s: State, steps: seq<Step>)
    requires Inv(s) && Possible(s, steps) && Quiet(steps)
    ensures |steps| <= Measure(s)
    ensures var t := Run(s, steps);
            !Enabled(t, StackStep) && !Enabled(t, ReaderStep) ==>
              t.reader.Outside? || (t.reader.Waiting? && t.unread == 0 && t.sem == 0)
  {
    QuietRunsEnd(s, steps);
    RunKeeps(s, steps);
  }

  // ---------- a token too many ----------

  predicate AtRest(s: State) { s.stack == Idle && s.reader.Outside? }

  /** The reader has passed its wait and has not read from the socket yet. */
  predicate BeforeRead(s: State) {
    s.reader.Testing? || s.reader.PipeRead? || s.reader.Subtracting? || s.reader.SocketRead?
  }

  predicate Reading(s: State, len: nat) { BeforeRead(s) && s.reader.len == len }

  /** What the read in progress will leave unread if nothing more arrives. */
  function Remaining(s: State): nat {
    if BeforeRead(s) then s.unread - Min(s.reader.len, s.unread) else s.unread
  }

  /** A token is there, or the callback or the reader will see to it that one is. */
  predicate TokenComing(s: State) {
    || s.sem > 0
    || s.stack != Idle
    || s.reader.Unlocking? || s.reader.ReaderPost?
    || (BeforeRead(s) && s.reader.len <= s.unread)
  }

  lemma TokenStep(s: State, step: Step)
    requires !s.reader.Waiting? && Enabled(s, step) && (step == StackStep || step == ReaderStep)
    ensures var t := Next(s, step);
            !t.reader.Waiting? && Remaining(t) == Remaining(s) && (TokenComing(t) <==> TokenComing(s))
  {}

  lemma {:induction false} TokenRun(s: State, steps: seq<Step>)
    requires !s.reader.Waiting? && Possible(s, steps) && Quiet(steps)
    ensures var t := Run(s, steps);
            !t.reader.Waiting? && Remaining(t) == Remaining(s) && (TokenComing(t) <==> TokenComing(s))
    decreases |steps|
  {
    hide TokenComing;
    hide Remaining;
    if steps != [] {
      assert steps[0] in steps;
      TokenStep(s, steps[0]);
      assert forall step <- steps[1..] :: step in steps;
      TokenRun(Next(s, steps[0]), steps[1..]);
    }
  }

  /** From the moment a read has passed its wait, with no further arrival and under every
      schedule, both threads come to rest with a token and nothing to read if and only if the
      read asks for all there is and either asks for exactly that, or a second token was
      there, or the callback had not ended. */
  lemma ReadLeavesTokenIff(s: State, len: nat, steps: seq<Step>)
    requires Reading(s, len) && Possible(s, steps) && Quiet(steps) && AtRest(Run(s, steps))
    ensures var t := Run(s, steps);
            t.sem > 0 && t.unread == 0 <==>
            len >= s.unread && (len == s.unread || s.sem > 0 || s.stack != Idle)
  {
    TokenRun(s, steps);
  }

  /** A read that starts at rest: by its length, the bytes and the tokens there. */
  lemma QuietReadLeavesTokenIff(s: State, len: nat, steps: seq<Step>)
    requires AtRest(s) && s.sem > 0
    requires var called := Next(s, Call(len));
             Possible(Next(called, ReaderStep), steps) && Quiet(steps) && AtRest(Run(Next(called, ReaderStep), steps))
    ensures var t := Run(Next(Next(s, Call(len)), ReaderStep), steps);
            t.sem > 0 && t.unread == 0 <==> len == s.unread || (len > s.unread && s.sem > 1)
  {
    ReadLeavesTokenIff(Next(Next(s, Call(len)), ReaderStep), len, steps);
  }

  lemma {:induction false} PossibleConcat(s: State, a: seq<Step>, b: seq<Step>)
    requires Possible(s, a) && Possible(Run(s, a), b)
    ensures Possible(s, a + b) && Run(s, a + b) == Run(Run(s, a), b)
    decreases |a|
  {
    if a == [] {
      assert a + b == b;
    } else {
      assert (a + b)[1..] == a[1..] + b;
      PossibleConcat(Next(s, a[0]), a[1..], b);
    }
  }

  lemma OneStep(s: State, step: Step)
    requires Enabled(s, step)
    ensures Possible(s, [step]) && Run(s, [step]) == Next(s, step)
  {
    assert Possible(Next(s, step), [step][1..]);
  }

  lemma Then(steps: seq<Step>, step: Step)
    requires Possible(CREATED, steps) && Enabled(Run(CREATED, steps), step)
    ensures Possible(CREATED, steps + [step]) && Run(CREATED, steps + [step]) == Next(Run(CREATED, steps), step)
  {
    OneStep(Run(CREATED, steps), step);
    PossibleConcat(CREATED, steps, [step]);
  }

  /** One byte arrives and one byte is read; the reader, having got all it asked for, posts
      once more. The semaphore then lets the next read through although nothing is there. */
  lemma ExactReadLeavesToken() returns (steps: seq<Step>)
    ensures Possible(CREATED, steps)
    ensures Run(CREATED, steps) == State(0, 0, 0, 1, Idle, Outside)
    ensures Enabled(Next(Run(CREATED, steps), Call(1)), ReaderStep)
  {
    hide Run;
    hide Possible;
    steps := Announced();
    Then(steps, Call(1));
    steps := steps + [Call(1)];
    var k := 0;
    while k < 7
      invariant 0 <= k <= 7 && Possible(CREATED, steps)
      invariant Run(CREATED, steps) == ExactRead(k)
    {
      Then(steps, ReaderStep);
      steps := steps + [ReaderStep];
      k := k + 1;
    }
    Then(steps, ReaderStep);
    steps := steps + [ReaderStep];
  }

  /** The states of that read after its call, reader steps only. */
  function ExactRead(k: nat): State {
    match k
    case 0 => State(1, 1, 1, 1, Idle, Waiting(1))
    case 1 => State(1, 1, 1, 0, Idle, Testing(1))
    case 2 => State(1, 1, 1, 0, Idle, PipeRead(1))
    case 3 => State(1, 0, 1, 0, Idle, Subtracting(1, 1))
    case 4 => State(1, 0, 0, 0, Idle, Testing(1))
    case 5 => State(1, 0, 0, 0, Idle, SocketRead(1))
    case 6 => State(0, 0, 0, 0, Idle, Unlocking(1))
    case _ => State(0, 0, 0, 0, Idle, ReaderPost(1))
  }

  /** Two arrivals are taken by one read that asks for more, while the callback of the second
      is about to look at the semaphore: it finds no token and posts one. */
  lemma ShortReadLeavesToken() returns (steps: seq<Step>)
    ensures Possible(CREATED, steps)
    ensures Run(CREATED, steps) == State(0, 0, 0, 1, Idle, Outside)
  {
    hide Run;
    hide Possible;
    steps := Announced();
    steps := Extend(steps, [Arrive(1), StackStep, StackStep, Call(10)],
                    [State(2, 1, 1, 1, Arrived, Outside), State(2, 2, 1, 1, Wrote, Outside),
                     State(2, 2, 2, 1, Counted, Outside), State(2, 2, 2, 1, Counted, Waiting(10))]);
    steps := Extend(steps, [ReaderStep, ReaderStep, ReaderStep, ReaderStep],
                    [State(2, 2, 2, 0, Counted, Testing(10)), State(2, 2, 2, 0, Counted, PipeRead(10)),
                     State(2, 0, 2, 0, Counted, Subtracting(10, 2)), State(2, 0, 0, 0, Counted, Testing(10))]);
    steps := Extend(steps, [ReaderStep, ReaderStep, StackStep, StackStep],
                    [State(2, 0, 0, 0, Counted, SocketRead(10)), State(0, 0, 0, 0, Counted, Outside),
                     State(0, 0, 0, 0, MustPost, Outside), State(0, 0, 0, 1, Idle, Outside)]);
  }

  /** Four more steps through the given states. */
  lemma Extend(steps: seq<Step>, more: seq<Step>, states: seq<State>) returns (all: seq<Step>)
    requires Possible(CREATED, steps) && |more| == |states| == 4
    requires Enabled(Run(CREATED, steps), more[0]) && Next(Run(CREATED, steps), more[0]) == states[0]
    requires forall k :: 0 < k < 4 ==> Enabled(states[k - 1], more[k]) && Next(states[k - 1], more[k]) == states[k]
    ensures Possible(CREATED, all) && Run(CREATED, all) == states[3]
  {
    hide Run;
    hide Possible;
    hide Next;
    hide Enabled;
    Then(steps, more[0]);
    all := steps + [more[0]];
    var k := 1;
    while k < 4
      invariant 1 <= k <= 4 && Possible(CREATED, all) && Run(CREATED, all) == states[k - 1]
    {
      Then(all, more[k]);
      all := all + [more[k]];
      k := k + 1;
    }
  }

  lemma Announced() returns (steps: seq<Step>)
    ensures Possible(CREATED, steps)
    ensures Run(CREATED, steps) == State(1, 1, 1, 1, Idle, Outside)
  {
    var states := [State(1, 0, 0, 0, Arrived, Outside), State(1, 1, 0, 0, Wrote, Outside),
                   State(1, 1, 1, 0, Counted, Outside), State(1, 1, 1, 0, MustPost, Outside),
                   State(1, 1, 1, 1, Idle, Outside)];
    OneStep(CREATED, Arrive(1));
    steps := [Arrive(1)];
    hide Run;
    hide Possible;
    var k := 0;
    while k < 4
      invariant 0 <= k <= 4 && Possible(CREATED, steps) && Run(CREATED, steps) == states[k]
    {
      Then(steps, StackStep);
      steps := steps + [StackStep];
      k := k + 1;
    }
  }
}
