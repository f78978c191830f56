/**
  The kernel-call queue as interleaved steps of its threads: the owner that submits and cancels
  call objects, workers that drain the submission queue, and the reader of the completion queue.

  Each step is one shared-memory action of the source. `place`, `ticket` and the `book` are history:
  they record where an object is and what became of every accepted call, and no step reads them
  except the owner's rule, which the source leaves to its user.
 */
module KernelCalls {

  type Kid = nat
  type Wid = nat
  type Ticket = nat

  /** The union in a call object: the arguments of a call, or what it returned. */
  datatype Payload = Args(arg: int) | Done(result: int, error: int)

  /** Where an object is: with its owner, or in exactly one queue or thread. */
  datatype Place = AtRest | InSQ | InWorker(w: Wid) | InCQ | InReader

  /** A call object: fields `op`, `state` and the union, then its history. */
  datatype Call = Call(op: nat, state: nat, payload: Payload, place: Place, ticket: Ticket)

  const ZEROED := Call(0, 0, Args(0), AtRest, 0)

  /** What became of an accepted call. */
  datatype Entry = Entry(kc: Kid, op: nat, arg: int, runs: nat, handled: nat,
                         cancelled: bool, finished: bool, result: int, error: int)

  /** A worker between its actions in `ffkcallq_process_sq`. */
  datatype Worker =
    | Idle              // about to fetch
    | Got(kc: Kid)      // fetched; `op` not yet read
    | Running(kc: Kid)  // in the system call
    | Ran(kc: Kid)      // result and error stored
    | Marked(kc: Kid)   // state set to 2
    | Refused(kc: Kid)  // `op` was not valid
    | Posting           // added to the empty completion queue; about to post

  /** The reader between its actions; it drains the queue after each consumed post. */
  datatype Reader = Waiting | Draining | Fetched(kc: Kid) | Cleared(kc: Kid)

  datatype State = State(calls: map<Kid, Call>, sq: seq<Kid>, cq: seq<Kid>, workers: seq<Worker>,
                         reader: Reader, posts: nat, book: seq<Entry>, sqCap: nat, cqCap: nat)

  function At(s: State, kc: Kid): Call {
    if kc in s.calls then s.calls[kc] else ZEROED
  }

  function Init(workers: nat, sqCap: nat, cqCap: nat): State {
    State(map[], [], [], seq(workers, _ => Idle), Waiting, 0, [], sqCap, cqCap)
  }

  // ---- An asynchronous call by the owner ----

  datatype Answer = Busy | Finished(result: int, error: int) | Garbage | Again | InProgress

  /** What `fffile_open_async` and the like answer; `Garbage` is a result read from the argument bytes. */
  function AnswerTo(s: State, kc: Kid): Answer {
    var c := At(s, kc);
    if c.state != 0 then Busy
    else if c.op != 0 then
      match c.payload
      case Done(result, error) => Finished(result, error)
      case Args(_) => Garbage
    else if |s.sq| == s.sqCap then Again
    else InProgress
  }

  function Put(s: State, kc: Kid, c: Call): State {
    s.(calls := s.calls[kc := c])
  }

  function AsyncCall(s: State, kc: Kid, op: nat, arg: int): State {
    var c := At(s, kc);
    match AnswerTo(s, kc)
    case Busy => s
    case Finished(_, _) => Put(s, kc, c.(op := 0))
    case Garbage => Put(s, kc, c.(op := 0))
    case Again => Put(s, kc, c.(op := 0, payload := Args(arg)))
    case InProgress =>
      Put(s, kc, c.(op := op, payload := Args(arg), place := InSQ, ticket := |s.book|))
        .(sq := s.sq + [kc], book := s.book + [Entry(kc, op, arg, 0, 0, false, false, 0, 0)])
  }

  // ---- The steps ----

  datatype Step =
    | Call_(kc: Kid, op: nat, arg: int)
    | Cancel(kc: Kid)
    | Fetch(w: Wid) | ReadOp(w: Wid) | Return(w: Wid, result: int, error: int)
    | Mark(w: Wid) | Publish(w: Wid) | Post(w: Wid) | Refuse(w: Wid)
    | Wake(consumed: nat) | Take | Clear | Check | Sleep

  predicate Holds(w: Worker, kc: Kid) {
    !w.Idle? && !w.Posting? && w.kc == kc
  }

  function Held(workers: seq<Worker>): nat {
    if workers == [] then 0
    else (if workers[0].Idle? || workers[0].Posting? then 0 else 1) + Held(workers[1..])
  }

  /** Calls in a queue or a thread. */
  function InFlight(s: State): nat {
    |s.sq| + Held(s.workers) + |s.cq| + (if s.reader.Fetched? || s.reader.Cleared? then 1 else 0)
  }

  /**
    The owner's rule: an object is not used again while it is in a queue or a thread, operations are
    the ones the worker knows, and no more calls are in flight than the completion queue can hold.
   */
  predicate Polite(s: State, kc: Kid, op: nat) {
    At(s, kc).place == AtRest && 1 <= op <= 7 && InFlight(s) < s.cqCap
  }

  predicate Enabled(s: State, step: Step) {
    match step
    case Call_(kc, op, _) => Polite(s, kc, op)
    case Cancel(_) => true
    case Fetch(w) => w < |s.workers| && s.workers[w].Idle? && s.sq != []
    case ReadOp(w) => w < |s.workers| && s.workers[w].Got?
    case Return(w, _, _) => w < |s.workers| && s.workers[w].Running?
    case Mark(w) => w < |s.workers| && s.workers[w].Ran?
    case Publish(w) => w < |s.workers| && s.workers[w].Marked?
    case Post(w) => w < |s.workers| && s.workers[w].Posting?
    case Refuse(w) => w < |s.workers| && s.workers[w].Refused?
    case Wake(consumed) => s.reader.Waiting? && 1 <= consumed <= s.posts
    case Take => s.reader.Draining? && s.cq != []
    case Clear => s.reader.Fetched?
    case Check => s.reader.Cleared?
    case Sleep => s.reader.Draining? && s.cq == []
  }

  function SetWorker(s: State, w: Wid, pc: Worker): State
    requires w < |s.workers|
  {
    s.(workers := s.workers[w := pc])
  }

  function Note(s: State, t: Ticket, e: Entry): State {
    if t < |s.book| then s.(book := s.book[t := e]) else s
  }

  function EntryOf(s: State, kc: Kid): Entry {
    var t := At(s, kc).ticket;
    if t < |s.book| then s.book[t] else Entry(kc, 0, 0, 0, 0, false, false, 0, 0)
  }

  /** A record of what happens to the current call of an object. */
  function NoteCall(s: State, kc: Kid, e: Entry): State {
    Note(s, At(s, kc).ticket, e)
  }

  /** `ffkcall_cancel`: the history notes it only while the call is on its way. */
  function CancelCall(s: State, kc: Kid): State {
    var c := At(s, kc);
    var s' := Put(s, kc, c.(op := 0));
    if c.place == AtRest then s' else NoteCall(s', kc, EntryOf(s, kc).(cancelled := true))
  }

  function Next(s: State, step: Step): State
    requires Enabled(s, step)
  {
    match step
    case Call_(kc, op, arg) => AsyncCall(s, kc, op, arg)
    case Cancel(kc) => CancelCall(s, kc)
    case Fetch(w) =>
      var kc := s.sq[0];
      SetWorker(Put(s, kc, At(s, kc).(place := InWorker(w))), w, Got(kc)).(sq := s.sq[1..])
    case ReadOp(w) =>
      var kc := s.workers[w].kc;
      if 1 <= At(s, kc).op <= 7 then
        SetWorker(NoteCall(s, kc, EntryOf(s, kc).(runs := EntryOf(s, kc).runs + 1)), w, Running(kc))
      else SetWorker(s, w, Refused(kc))
    case Return(w, result, error) =>
      var kc := s.workers[w].kc;
      SetWorker(NoteCall(Put(s, kc, At(s, kc).(payload := Done(result, error))), kc,
                         EntryOf(s, kc).(result := result, error := error)), w, Ran(kc))
    case Mark(w) =>
      var kc := s.workers[w].kc;
      SetWorker(Put(s, kc, At(s, kc).(state := 2)), w, Marked(kc))
    case Publish(w) =>
      var kc := s.workers[w].kc;
      if |s.cq| >= s.cqCap then SetWorker(s, w, Idle) // the call is lost
      else
        SetWorker(Put(s, kc, At(s, kc).(place := InCQ)), w, if s.cq == [] then Posting else Idle)
          .(cq := s.cq + [kc])
    case Post(w) => SetWorker(s, w, Idle).(posts := s.posts + 1)
    case Refuse(w) =>
      var kc := s.workers[w].kc;
      SetWorker(NoteCall(Put(s, kc, At(s, kc).(state := 0, place := AtRest)), kc,
                         EntryOf(s, kc).(finished := true)), w, Idle)
    case Wake(consumed) => s.(reader := Draining, posts := s.posts - consumed)
    case Take =>
      var kc := s.cq[0];
      Put(s, kc, At(s, kc).(place := InReader)).(cq := s.cq[1..], reader := Fetched(kc))
    case Clear =>
      var kc := s.reader.kc;
      Put(s, kc, At(s, kc).(state := 0)).(reader := Cleared(kc))
    case Check =>
      var kc := s.reader.kc;
      var e := EntryOf(s, kc);
      var handled := if At(s, kc).op != 0 then e.handled + 1 else e.handled;
      NoteCall(Put(s, kc, At(s, kc).(place := AtRest)), kc, e.(finished := true, handled := handled))
        .(reader := Draining)
    case Sleep => s.(reader := Waiting)
  }

  /** Any sequence of steps is a run: one that is not enabled where it stands does nothing. */
  function Run(s: State, steps: seq<Step>): State
    decreases |steps|
  {
    if steps == [] then s
    else
      var before, step := Run(s, steps[..|steps| - 1]), steps[|steps| - 1];
      if Enabled(before, step) then Next(before, step) else before
  }

  // ---- The invariant ----

  ghost predicate Distinct(q: seq<Kid>) {
    forall i, j :: 0 <= i < j < |q| ==> q[i] != q[j]
  }

  /** The current call of an object that is on its way. */
  predicate Underway(s: State, kc: Kid) {
    var c := At(s, kc);
    && c.place != AtRest && c.ticket < |s.book|
    && var e := s.book[c.ticket];
       e.kc == kc && !e.finished && e.handled == 0 && 1 <= e.op <= 7 && c.op == (if e.cancelled then 0 else e.op)
  }

  predicate NotRun(s: State, kc: Kid) {
    EntryOf(s, kc).runs == 0 && At(s, kc).state == 0 && At(s, kc).payload == Args(EntryOf(s, kc).arg)
  }

  predicate HasResult(s: State, kc: Kid, state: nat) {
    var e := EntryOf(s, kc);
    e.runs == 1 && At(s, kc).state == state && At(s, kc).payload == Done(e.result, e.error)
  }

  /** A finished call that was not cancelled and whose result has not been collected. */
  predicate Collectable(s: State, kc: Kid) {
    var c := At(s, kc);
    && c.ticket < |s.book|
    && var e := s.book[c.ticket];
       && e.kc == kc && e.finished && !e.cancelled && e.runs == 1 && e.handled == 1 && e.op == c.op
       && c.payload == Done(e.result, e.error)
  }

  ghost predicate CallOk(s: State, kc: Kid) {
    var c := At(s, kc);
    match c.place
    case AtRest => c.state == 0 && (c.op != 0 ==> Collectable(s, kc))
    case InSQ => Underway(s, kc) && kc in s.sq && NotRun(s, kc)
    case InWorker(w) => Underway(s, kc) && w < |s.workers| && Holds(s.workers[w], kc)
    case InCQ => Underway(s, kc) && kc in s.cq && HasResult(s, kc, 2)
    case InReader => Underway(s, kc) && (s.reader == Fetched(kc) || s.reader == Cleared(kc))
  }

  predicate WorkerOk(s: State, w: Wid)
    requires w < |s.workers|
  {
    var pc := s.workers[w];
    match pc
    case Idle => true
    case Posting => true
    case Got(kc) => At(s, kc).place == InWorker(w) && NotRun(s, kc)
    case Running(kc) =>
      && At(s, kc).place == InWorker(w) && EntryOf(s, kc).runs == 1 && At(s, kc).state == 0
      && At(s, kc).payload == Args(EntryOf(s, kc).arg)
    case Ran(kc) => At(s, kc).place == InWorker(w) && HasResult(s, kc, 0)
    case Marked(kc) => At(s, kc).place == InWorker(w) && HasResult(s, kc, 2)
    case Refused(kc) => At(s, kc).place == InWorker(w) && NotRun(s, kc) && EntryOf(s, kc).cancelled
  }

  predicate ReaderOk(s: State) {
    match s.reader
    case Fetched(kc) => At(s, kc).place == InReader && HasResult(s, kc, 2)
    case Cleared(kc) => At(s, kc).place == InReader && HasResult(s, kc, 0)
    case _ => true
  }

  ghost predicate QueuesOk(s: State) {
    && Distinct(s.sq) && Distinct(s.cq)
    && (forall kc :: kc in s.sq ==> At(s, kc).place == InSQ)
    && (forall kc :: kc in s.cq ==> At(s, kc).place == InCQ)
  }

  /** What the record of every accepted call says, from the moment it is accepted. */
  predicate EntryOk(s: State, t: Ticket)
    requires t < |s.book|
  {
    var e := s.book[t];
    && t <= At(s, e.kc).ticket
    && e.runs <= 1 && e.handled <= e.runs
    && (e.cancelled ==> e.handled == 0)
    && (e.finished && !e.cancelled ==> e.runs == 1 && e.handled == 1)
    && (!e.finished ==> At(s, e.kc).ticket == t && At(s, e.kc).place != AtRest)
  }

  /** The wake-up rule: a waiting reader with something to read has a post, or will get one. */
  ghost predicate Awakened(s: State) {
    s.reader.Waiting? && s.cq != [] ==> s.posts > 0 || exists w :: 0 <= w < |s.workers| && s.workers[w].Posting?
  }

  ghost predicate Inv(s: State) {
    && (forall kc :: CallOk(s, kc))
    && (forall w :: 0 <= w < |s.workers| ==> WorkerOk(s, w))
    && (forall t :: 0 <= t < |s.book| ==> EntryOk(s, t))
    && ReaderOk(s) && QueuesOk(s)
    && InFlight(s) <= s.cqCap
    && Awakened(s)
  }
}
