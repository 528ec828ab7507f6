/** The parallel nonce verifier and the import loop that waits for its results, as interleaved steps. */
module NoncePipeline {

  /** The items to verify: how many, which of them verify, and how many workers there are. */
  datatype Job = Job(items: nat, workers: nat, verify: nat -> bool) {
    /** At most one worker per item, and at least one if there is anything to do. */
    ghost predicate Valid() {
      workers <= items && (0 < items ==> 0 < workers)
    }
  }

  /** `tasks` and `results` are the channel buffers, `held` the items workers are verifying, `received` what the
      import loop has taken, `position` the block it has come to and `validated` the blocks it let through. */
  datatype State = State(fed: nat, tasks: seq<nat>, closed: bool, held: multiset<nat>, results: seq<nat>, aborted: bool,
                         received: seq<nat>, position: nat, validated: seq<nat>, done: bool)

  const INITIAL := State(0, [], false, multiset{}, [], false, [], 0, [], false)

  datatype Action =
    | Feed              // the feeder puts the next index into the task channel
    | FeedEnd           // the feeder has fed all items, or sees the abort, and closes the channel
    | Take              // a worker takes an index
    | Emit(index: nat)  // a worker delivers a result
    | Receive           // the import loop takes a result while its block is unverified
    | Pass(ok: bool)    // the import loop validates its block, and goes on or returns
    | Return            // the import loop returns: interrupted or at the end

  ghost predicate Waits(job: Job, s: State) {
    !s.done && s.position < job.items && s.position !in s.received
  }

  ghost predicate Enabled(job: Job, s: State, a: Action) {
    match a
    case Feed => !s.closed && s.fed < job.items && |s.tasks| < job.workers
    case FeedEnd => !s.closed && (s.fed == job.items || s.aborted)
    case Take => s.tasks != [] && |s.held| < job.workers
    case Emit(i) => i in s.held && |s.results| < job.items
    case Receive => Waits(job, s) && s.results != []
    case Pass(_) => !s.done && s.position < job.items && s.position in s.received
    case Return => !s.done
  }

  /** The state after an action.  An invalid result ends the import at once. */
  ghost function Next(job: Job, s: State, a: Action): State
    requires Enabled(job, s, a)
  {
    match a
    case Feed => s.(fed := s.fed + 1, tasks := s.tasks + [s.fed])
    case FeedEnd => s.(closed := true)
    case Take => s.(tasks := s.tasks[1..], held := s.held + multiset{s.tasks[0]})
    case Emit(i) => s.(held := s.held - multiset{i}, results := s.results + [i])
    case Receive =>
      var r := s.(results := s.results[1..], received := s.received + [s.results[0]]);
      if job.verify(s.results[0]) then r else r.(done := true, aborted := true)
    case Pass(ok) =>
      var r := s.(validated := s.validated + [s.position]);
      if ok then r.(position := s.position + 1) else r.(done := true, aborted := true)
    case Return => s.(done := true, aborted := true)
  }

  /** At how many places in the pipeline an index is. */
  ghost function Places(s: State, i: nat): nat {
    Times(s.tasks, i) + s.held[i] + Times(s.results, i) + Times(s.received, i)
  }

  ghost function Times(q: seq<nat>, i: nat): nat {
    multiset(q)[i]
  }

  ghost function Upto(n: nat): multiset<nat> {
    if n == 0 then multiset{} else Upto(n - 1) + multiset{n - 1}
  }

  lemma {:induction false} UptoHolds(n: nat)
    ensures |Upto(n)| == n && forall i: nat :: Upto(n)[i] == if i < n then 1 else 0
  {
    if 0 < n {
      UptoHolds(n - 1);
    }
  }

  /** If every index fed is at one place, the buffers together hold as many as were fed. */
  lemma Counted(s: State)
    requires forall i: nat :: Places(s, i) == if i < s.fed then 1 else 0
    ensures |s.tasks| + |s.held| + |s.results| + |s.received| == s.fed
  {
    var all := multiset(s.tasks) + s.held + multiset(s.results) + multiset(s.received);
    UptoHolds(s.fed);
    forall i: nat ensures all[i] == Upto(s.fed)[i] {
      assert all[i] == Places(s, i);
    }
    assert all == Upto(s.fed);
  }

  /** Every index fed is at exactly one place, the buffers hold what they may, and every block let through has
      a valid result that was received. */
  ghost predicate Inv(job: Job, s: State) {
    && (forall i: nat :: Places(s, i) == if i < s.fed then 1 else 0) && s.fed <= job.items
    && |s.tasks| <= job.workers && |s.held| <= job.workers
    && (s.aborted ==> s.done) && (s.closed ==> s.fed == job.items || s.aborted)
    && (!s.done ==> forall i <- s.received :: job.verify(i))
    && (forall i <- s.validated :: job.verify(i) && i in s.received)
    && (forall k | 0 <= k < |s.validated| :: s.validated[k] == k)
    && s.position <= job.items && (!s.done ==> |s.validated| == s.position)
  }

  lemma Front(q: seq<nat>, i: nat)
    requires q != []
    ensures Times(q, i) == Times(q[1..], i) + if q[0] == i then 1 else 0
  {
    assert q == [q[0]] + q[1..];
  }

  lemma Back(q: seq<nat>, x: nat, i: nat)
    ensures Times(q + [x], i) == Times(q, i) + if x == i then 1 else 0
  {
  }

  /** An action only moves indices about; the feeder alone adds one, its own. */
  lemma ActionMoves(job: Job, s: State, a: Action, i: nat)
    requires Enabled(job, s, a)
    ensures Places(Next(job, s, a), i) == Places(s, i) + if a.Feed? && i == s.fed then 1 else 0
  {
    hide Times;
    match a
    case Feed => Back(s.tasks, s.fed, i);
    case Take => Front(s.tasks, i);
    case Emit(r) => Back(s.results, r, i);
    case Receive =>
      Front(s.results, i);
      Back(s.received, s.results[0], i);
    case _ =>
  }

  lemma ActionKeeps(job: Job, s: State, a: Action)
    requires Inv(job, s) && Enabled(job, s, a)
    ensures Inv(job, Next(job, s, a))
  {
    hide Places;
    forall i: nat ensures Places(Next(job, s, a), i) == Places(s, i) + if a.Feed? && i == s.fed then 1 else 0 {
      ActionMoves(job, s, a, i);
    }
  }

  /** A run of the pipeline. */
  ghost predicate Run(job: Job, acts: seq<Action>, ss: seq<State>) {
    && |ss| == |acts| + 1 && ss[0] == INITIAL
    && forall k | 0 <= k < |acts| :: Enabled(job, ss[k], acts[k]) && ss[k + 1] == Next(job, ss[k], acts[k])
  }

  lemma {:induction false} RunKeeps(job: Job, acts: seq<Action>, ss: seq<State>, k: nat)
    requires Run(job, acts, ss) && k < |ss|
    ensures Inv(job, ss[k])
  {
    if 0 < k {
      RunKeeps(job, acts, ss, k - 1);
      ActionKeeps(job, ss[k - 1], acts[k - 1]);
    }
  }

  /** In every interleaving no index is verified twice, no worker holding a result can block, at most as many
      results are received as there are blocks, and blocks are let through in order and after a valid result. */
  lemma PipelineSafe(job: Job, acts: seq<Action>, ss: seq<State>, k: nat)
    requires Run(job, acts, ss) && k < |ss|
    ensures var s := ss[k];
            && (forall i :: (multiset(s.results) + multiset(s.received))[i] <= 1)
            && (forall i <- s.held :: Enabled(job, s, Emit(i)))
            && |s.received| <= job.items
            && (forall i <- s.validated :: job.verify(i) && i in s.received)
            && (forall k | 0 <= k < |s.validated| :: s.validated[k] == k)
  {
    var s := ss[k];
    RunKeeps(job, acts, ss, k);
    Counted(s);
    forall i ensures (multiset(s.results) + multiset(s.received))[i] <= 1 {
      assert (multiset(s.results) + multiset(s.received))[i] <= Places(s, i);
    }
  }

  ghost predicate PipelineAction(a: Action) {
    a.Feed? || a.Take? || a.Emit? || a.Receive?
  }

  /** Steps left before the pipeline runs dry. */
  ghost function Work(job: Job, s: State): int {
    4 * (job.items - s.fed) + 3 * |s.tasks| + 2 * |s.held| + |s.results|
  }

  lemma ActionWorks(job: Job, s: State, a: Action)
    requires Enabled(job, s, a)
    ensures Work(job, Next(job, s, a)) == Work(job, s) - if PipelineAction(a) then 1 else 0
  {
  }

  ghost function Moves(acts: seq<Action>): nat {
    if acts == [] then 0 else Moves(acts[..|acts| - 1]) + if PipelineAction(acts[|acts| - 1]) then 1 else 0
  }

  /** However the goroutines are interleaved, they make at most four moves for each item. */
  lemma {:induction false} MovesBounded(job: Job, acts: seq<Action>, ss: seq<State>, k: nat)
    requires Run(job, acts, ss) && k < |ss|
    ensures Moves(acts[..k]) + Work(job, ss[k]) == 4 * job.items && 0 <= Work(job, ss[k])
  {
    RunKeeps(job, acts, ss, k);
    if 0 < k {
      MovesBounded(job, acts, ss, k - 1);
      ActionWorks(job, ss[k - 1], acts[k - 1]);
      assert acts[..k][..k - 1] == acts[..k - 1];
    }
  }

  /** While the import loop waits for a block, the feeder, a worker or the loop itself can move.  As moves are
      bounded, the wait ends. */
  lemma NoDeadlock(job: Job, acts: seq<Action>, ss: seq<State>, k: nat)
    requires job.Valid() && Run(job, acts, ss) && k < |ss| && Waits(job, ss[k])
    ensures exists a :: PipelineAction(a) && Enabled(job, ss[k], a)
  {
    var s := ss[k];
    RunKeeps(job, acts, ss, k);
    Counted(s);
    var a;
    if s.results != [] {
      a := Receive;
    } else if s.held != multiset{} {
      var i :| i in s.held;
      a := Emit(i);
    } else if s.tasks != [] {
      a := Take;
    } else {
      assert Places(s, s.position) == 0;
      a := Feed;
    }
    assert PipelineAction(a) && Enabled(job, s, a);
  }
}
