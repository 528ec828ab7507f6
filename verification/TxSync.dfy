/** The loop that sends waiting transactions to new peers, one pack to one peer at a time. */
module TxSync {
  import opened ChainTypes

  const PACK_SIZE := 100 * 1024

  type Peer = nat

  /** A goroutine that sends a pack: it has not looked at the shared pack yet, or is sending what it found there. */
  datatype Routine = Spawned | Sending(p: Peer, txs: seq<Tx>)

  /** The loop's variables, where `packPeer` and `pack` are the one pack all goroutines share; the goroutines that have
      not reported; the buffered channel `done`; and what has happened: the transactions requested per peer, those
      delivered, and the peers that had a send fail or a request replaced before it was used up. */
  datatype State = State(pending: map<Peer, seq<Tx>>, sending: bool, packPeer: Peer, pack: seq<Tx>,
                         routines: seq<Routine>, done: seq<bool>,
                         requested: map<Peer, seq<Tx>>, delivered: map<Peer, seq<Tx>>, tainted: set<Peer>)

  const INITIAL := State(map[], false, 0, [], [], [], map[], map[], {})
  const DONE_CAPACITY := 1

  datatype Event =
    | Request(p: Peer, txs: seq<Tx>)
    | Look(i: nat)                   // a goroutine evaluates the arguments of its call
    | Report(i: nat, ok: bool)       // a goroutine puts its result into the channel
    | Sent(next: Peer)               // the loop takes a result; `next` is its random choice among the waiting peers

  function At(m: map<Peer, seq<Tx>>, p: Peer): seq<Tx> {
    if p in m then m[p] else []
  }

  ghost function SizeOf(size: Tx -> nat, txs: seq<Tx>): nat {
    if txs == [] then 0 else SizeOf(size, txs[..|txs| - 1]) + size(txs[|txs| - 1])
  }

  /** `k` is where a pack ends: at the target size, overshooting by at most one transaction, or at the end. */
  ghost predicate PackEnds(size: Tx -> nat, txs: seq<Tx>, k: nat) {
    && k <= |txs| && (k < |txs| ==> SizeOf(size, txs[..k]) >= PACK_SIZE)
    && forall i | 0 <= i < k :: SizeOf(size, txs[..i]) < PACK_SIZE
  }

  lemma PackEndsOnce(size: Tx -> nat, txs: seq<Tx>, k: nat, j: nat)
    requires PackEnds(size, txs, k) && PackEnds(size, txs, j)
    ensures k == j
  {
  }

  method FillPack(size: Tx -> nat, txs: seq<Tx>) returns (k: nat)
    ensures PackEnds(size, txs, k)
    ensures txs != [] ==> 0 < k
  {
    var total: nat := 0;
    k := 0;
    while k < |txs| && total < PACK_SIZE
      invariant k <= |txs| && total == SizeOf(size, txs[..k])
      invariant forall i | 0 <= i < k :: SizeOf(size, txs[..i]) < PACK_SIZE
    {
      assert txs[..k + 1][..k] == txs[..k];
      total := total + size(txs[k]);
      k := k + 1;
    }
  }

  /** Starts sending the first `k` transactions waiting for `p`: overwrites the pack and spawns a goroutine. */
  function Send(s: State, p: Peer, k: nat): State
    requires p in s.pending && k <= |s.pending[p]|
  {
    var rest := s.pending[p][k..];
    s.(pending := if rest == [] then s.pending - {p} else s.pending[p := rest],
       sending := true, packPeer := p, pack := s.pending[p][..k], routines := s.routines + [Spawned])
  }

  /** A request arrives; it takes the place of one still waiting. */
  function Requested(s: State, p: Peer, txs: seq<Tx>): State {
    s.(pending := s.pending[p := txs], requested := s.requested[p := At(s.requested, p) + txs],
       tainted := if p in s.pending then s.tainted + {p} else s.tainted)
  }

  function Looked(s: State, i: nat): State
    requires i < |s.routines|
  {
    s.(routines := s.routines[i := Sending(s.packPeer, s.pack)])
  }

  /** A goroutine is finished: what it sent is delivered, or its peer has failed. */
  function Reported(s: State, i: nat, ok: bool): State
    requires i < |s.routines| && s.routines[i].Sending?
  {
    var r := s.routines[i];
    var s' := s.(routines := s.routines[..i] + s.routines[i + 1..], done := s.done + [ok]);
    if ok then s'.(delivered := s.delivered[r.p := At(s.delivered, r.p) + r.txs]) else s'.(tainted := s.tainted + {r.p})
  }

  /** The loop takes a result; a failing peer is no longer served. */
  function Finished(s: State): State
    requires s.done != []
  {
    var s' := s.(sending := false, done := s.done[1..]);
    if s.done[0] then s' else s'.(pending := s.pending - {s.packPeer})
  }

  /** One step of the loop or of a goroutine. */
  ghost predicate Step(size: Tx -> nat, s: State, e: Event, s': State) {
    match e
    case Request(p, txs) =>
      && txs != []
      && var r := Requested(s, p, txs);
         if s.sending then s' == r else exists k :: PackEnds(size, txs, k) && s' == Send(r, p, k)
    case Look(i) => i < |s.routines| && s.routines[i].Spawned? && s' == Looked(s, i)
    case Report(i, ok) =>
      i < |s.routines| && s.routines[i].Sending? && |s.done| < DONE_CAPACITY && s' == Reported(s, i, ok)
    case Sent(next) =>
      && s.done != []
      && var r := Finished(s);
         if r.pending == map[] then s' == r
         else next in r.pending && exists k :: PackEnds(size, r.pending[next], k) && s' == Send(r, next, k)
  }

  /** What is on its way to `p`. */
  function InFlight(s: State, p: Peer): seq<Tx> {
    if s.routines != [] && s.packPeer == p then s.pack else []
  }

  /** What was delivered, what is in flight and what waits make up what was requested, in order. */
  ghost predicate Balanced(s: State, p: Peer) {
    At(s.delivered, p) + InFlight(s, p) + At(s.pending, p) == At(s.requested, p)
  }

  /** At most one goroutine is at work or has reported, exactly if the loop thinks so, and the pack it was started with
      is still the shared one. */
  ghost predicate OneSend(s: State) {
    && |s.routines| + |s.done| == (if s.sending then 1 else 0)
    && (forall r <- s.routines :: r.Sending? ==> r == Sending(s.packPeer, s.pack))
    && (s.done != [] && !s.done[0] ==> s.packPeer in s.tainted)
  }

  /** One send at a time, nobody waits while nothing is sent, no request or pack is empty, and every peer without a
      mishap is served exactly what was requested for it. */
  ghost predicate Inv(s: State) {
    && OneSend(s)
    && (!s.sending ==> s.pending == map[])
    && (s.sending ==> s.pack != [])
    && (forall p <- s.pending :: s.pending[p] != [])
    && (forall p :: p !in s.tainted ==> Balanced(s, p))
  }

  /** A peer whose send failed loses what waits for it and is not served next; the others keep what they wait for. */
  lemma FailedPeerDropped(size: Tx -> nat, s: State, next: Peer, s': State)
    requires Inv(s) && Step(size, s, Sent(next), s') && !s.done[0]
    ensures s.packPeer !in s'.pending && (s'.sending ==> s'.packPeer != s.packPeer)
    ensures forall p <- s.pending | p != s.packPeer :: p != next ==> p in s'.pending && s'.pending[p] == s.pending[p]
  {
  }

  /** After a send that succeeded everybody waits on, the next one being served. */
  lemma ServedPeerKept(size: Tx -> nat, s: State, next: Peer, s': State)
    requires Inv(s) && Step(size, s, Sent(next), s') && s.done[0]
    ensures s'.sending == (s.pending != map[])
    ensures forall p <- s.pending | p != next :: p in s'.pending && s'.pending[p] == s.pending[p]
    ensures s.pending != map[] ==> s'.packPeer == next && s'.pack + At(s'.pending, next) == s.pending[next]
  {
    hide Balanced;
  }

  lemma SendBalanced(s: State, p: Peer, k: nat, q: Peer)
    requires p in s.pending && s.routines == [] && k <= |s.pending[p]| && Balanced(s, q)
    ensures Balanced(Send(s, p, k), q)
  {
    var txs := s.pending[p];
    assert txs == txs[..k] + txs[k..];
    assert At(s.delivered, q) + [] == At(s.delivered, q);
    assert q == p ==> At(s.delivered, p) + txs[..k] + txs[k..] == At(s.delivered, p) + txs;
  }

  lemma SendKeeps(size: Tx -> nat, s: State, p: Peer, k: nat)
    requires p in s.pending && s.routines == [] && s.done == [] && PackEnds(size, s.pending[p], k)
    requires forall q <- s.pending :: s.pending[q] != []
    requires forall q :: q !in s.tainted ==> Balanced(s, q)
    ensures Inv(Send(s, p, k))
  {
    hide Balanced;
    assert SizeOf(size, s.pending[p][..0]) == 0;
    forall q | q !in s.tainted ensures Balanced(Send(s, p, k), q) {
      SendBalanced(s, p, k, q);
    }
  }

  lemma RequestedBalanced(s: State, p: Peer, txs: seq<Tx>, q: Peer)
    requires Balanced(s, q) && (q == p ==> p !in s.pending)
    ensures Balanced(Requested(s, p, txs), q)
  {
  }

  lemma ReportedBalanced(s: State, i: nat, ok: bool, q: Peer)
    requires OneSend(s) && i < |s.routines| && s.routines[i].Sending? && Balanced(s, q) && (!ok ==> q != s.packPeer)
    ensures Balanced(Reported(s, i, ok), q)
  {
    assert i == 0 && s.routines[0] in s.routines;
    assert At(s.delivered, q) + s.pack + [] == At(s.delivered, q) + s.pack;
  }

  lemma FinishedBalanced(s: State, q: Peer)
    requires OneSend(s) && s.done != [] && q !in s.tainted && Balanced(s, q)
    ensures Balanced(Finished(s), q)
  {
  }

  lemma RequestKeeps(size: Tx -> nat, s: State, p: Peer, txs: seq<Tx>, s': State)
    requires Inv(s) && Step(size, s, Request(p, txs), s')
    ensures Inv(s')
  {
    hide Balanced;
    var r := Requested(s, p, txs);
    forall q | q !in r.tainted ensures Balanced(r, q) {
      RequestedBalanced(s, p, txs, q);
    }
    if !s.sending {
      var k :| PackEnds(size, txs, k) && s' == Send(r, p, k);
      SendKeeps(size, r, p, k);
    }
  }

  lemma SentKeeps(size: Tx -> nat, s: State, next: Peer, s': State)
    requires Inv(s) && Step(size, s, Sent(next), s')
    ensures Inv(s')
  {
    hide Balanced;
    var r := Finished(s);
    forall q | q !in r.tainted ensures Balanced(r, q) {
      FinishedBalanced(s, q);
    }
    if r.pending != map[] {
      var k :| PackEnds(size, r.pending[next], k) && s' == Send(r, next, k);
      SendKeeps(size, r, next, k);
    }
  }

  lemma RoutineKeeps(size: Tx -> nat, s: State, e: Event, s': State)
    requires Inv(s) && Step(size, s, e, s') && (e.Look? || e.Report?)
    ensures Inv(s')
  {
    hide Balanced;
    forall q | q !in s'.tainted ensures Balanced(s', q) {
      if e.Report? {
        assert s.routines[e.i] in s.routines;
        ReportedBalanced(s, e.i, e.ok, q);
      } else {
        LookedBalanced(s, e.i, q);
      }
    }
    assert e.Look? ==> e.i == 0;
  }

  lemma LookedBalanced(s: State, i: nat, q: Peer)
    requires i < |s.routines| && Balanced(s, q)
    ensures Balanced(Looked(s, i), q)
  {
  }

  lemma StepKeeps(size: Tx -> nat, s: State, e: Event, s': State)
    requires Inv(s) && Step(size, s, e, s')
    ensures Inv(s')
  {
    hide Inv, Step;
    match e
    case Request(p, txs) => RequestKeeps(size, s, p, txs, s');
    case Sent(next) => SentKeeps(size, s, next, s');
    case _ => RoutineKeeps(size, s, e, s');
  }

  /** A run of the loop: every state follows from the one before. */
  ghost predicate Run(size: Tx -> nat, es: seq<Event>, ss: seq<State>) {
    && |ss| == |es| + 1 && ss[0] == INITIAL
    && forall i | 0 <= i < |es| :: Step(size, ss[i], es[i], ss[i + 1])
  }

  /** In every state of every run the loop's guarantees hold. */
  lemma {:induction false} RunKeeps(size: Tx -> nat, es: seq<Event>, ss: seq<State>, i: nat)
    requires Run(size, es, ss) && i < |ss|
    ensures Inv(ss[i])
  {
    if 0 < i {
      RunKeeps(size, es, ss, i - 1);
      StepKeeps(size, ss[i - 1], es[i - 1], ss[i]);
    }
  }

  /** In every state of every run at most one goroutine exists, it sends the pack it was started for, its report never
      has to wait for room, and while a send is under way somebody can move. */
  lemma SendsNeverCollide(size: Tx -> nat, es: seq<Event>, ss: seq<State>, i: nat)
    requires Run(size, es, ss) && i < |ss|
    ensures var s := ss[i];
            && |s.routines| <= 1 && (forall r <- s.routines :: r.Sending? ==> r == Sending(s.packPeer, s.pack))
            && (s.routines != [] ==> |s.done| < DONE_CAPACITY)
            && (s.sending <==> s.routines != [] || s.done != [])
  {
    RunKeeps(size, es, ss, i);
  }

  class TxSyncLoop {
    var pending: map<Peer, seq<Tx>>
    var sending: bool
    var packPeer: Peer
    var pack: seq<Tx>
    var done: seq<bool>
    ghost var routines: seq<Routine>
    ghost var requested: map<Peer, seq<Tx>>
    ghost var delivered: map<Peer, seq<Tx>>
    ghost var tainted: set<Peer>

    ghost function Abs(): State
      reads this
    {
      State(pending, sending, packPeer, pack, routines, done, requested, delivered, tainted)
    }

    constructor ()
      ensures Abs() == INITIAL && Inv(Abs())
    {
      pending, sending, packPeer, pack, done := map[], false, 0, [], [];
      routines, requested, delivered, tainted := [], map[], map[], {};
    }

    /** Fills the pack, takes its transactions off the peer's list and starts a goroutine. */
    method SendTo(size: Tx -> nat, p: Peer)
      requires p in pending
      modifies this
      ensures exists k :: PackEnds(size, old(pending)[p], k) && Abs() == Send(old(Abs()), p, k)
    {
      var k := FillPack(size, pending[p]);
      packPeer, pack := p, pending[p][..k];
      var rest := pending[p][k..];
      pending := if rest == [] then pending - {p} else pending[p := rest];
      sending := true;
      routines := routines + [Spawned];
    }

    method OnRequest(size: Tx -> nat, p: Peer, txs: seq<Tx>)
      requires Inv(Abs()) && txs != []
      modifies this
      ensures Step(size, old(Abs()), Request(p, txs), Abs()) && Inv(Abs())
    {
      if p in pending {
        tainted := tainted + {p};
      }
      pending := pending[p := txs];
      requested := requested[p := At(requested, p) + txs];
      assert Abs() == Requested(old(Abs()), p, txs);
      if !sending {
        SendTo(size, p);
      }
      StepKeeps(size, old(Abs()), Request(p, txs), Abs());
    }

    method OnSent(size: Tx -> nat) returns (next: Peer)
      requires Inv(Abs()) && done != []
      modifies this
      ensures Step(size, old(Abs()), Sent(next), Abs()) && Inv(Abs())
    {
      var ok := done[0];
      done := done[1..];
      sending := false;
      if !ok {
        pending := pending - {packPeer};
      }
      assert Abs() == Finished(old(Abs()));
      next := 0;
      if pending != map[] {
        next :| next in pending;
        SendTo(size, next);
      }
      StepKeeps(size, old(Abs()), Sent(next), Abs());
    }
  }
}
