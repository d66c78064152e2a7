/**
  The parallel lanes that send the outstanding chunks of a session: one shared cursor, retries of
  transient failures, in every interleaving and against every behaviour of the gateway.
  */
module UploadLanes {
  import opened ByteStrings
  import opened ChunkGrid

  datatype Failure = Terminal | RetriesExhausted

  /** A worker between two awaits; `attempt` counts the failed PUTs of the chunk in hand. */
  datatype Lane =
    | Ready
    | Sending(index: nat, attempt: nat)
    | Done
    | Failed(index: nat, attempts: nat, failure: Failure)

  /** The gateway's answer to one PUT; a transient failure may still have stored the chunk. */
  datatype PutReply = Accepted | Transient(stored: bool) | Refused

  datatype Event = Claim(lane: nat) | Reply(lane: nat, reply: PutReply)

  /** What stays fixed during one pass over the outstanding indices. */
  datatype Job = Job(grid: Grid, missing: seq<nat>, maxRetries: nat)

  datatype State = State(cursor: nat, lanes: seq<Lane>, stored: map<nat, Bytes>, sent: nat, claims: seq<nat>)

  predicate ValidJob(j: Job) {
    ValidGrid(j.grid) && forall k :: 0 <= k < |j.missing| ==> j.missing[k] < j.grid.count
  }

  function LaneCount(parallelism: nat, outstanding: nat): nat {
    var wanted := if outstanding == 0 then 1 else outstanding;
    var lanes := if parallelism < wanted then parallelism else wanted;
    if lanes < 1 then 1 else lanes
  }

  function Start(j: Job, parallelism: nat, stored: map<nat, Bytes>, sent: nat): State {
    State(0, seq(LaneCount(parallelism, |j.missing|), _ => Ready), stored, sent, [])
  }

  /** The most lanes that neither exceed the wanted parallelism nor the outstanding chunks, and at least one. */
  lemma LanesAre(j: Job, parallelism: nat, stored: map<nat, Bytes>, sent: nat, m: nat)
    requires m <= parallelism && m <= |j.missing|
    ensures var n := |Start(j, parallelism, stored, sent).lanes|;
            && n >= 1
            && n >= m
            && (n > 1 ==> n <= parallelism && n <= |j.missing|)
  {
  }

  // ----- one step ------------------------------------------------------------------

  predicate Enabled(s: State, e: Event) {
    && e.lane < |s.lanes|
    && match e
       case Claim(l) => s.lanes[l].Ready?
       case Reply(l, _) => s.lanes[l].Sending?
  }

  /** Under the lock: the next index goes to this lane, or the lane returns. */
  function ClaimNext(j: Job, s: State, l: nat): State
    requires l < |s.lanes|
  {
    if s.cursor >= |j.missing| then s.(lanes := s.lanes[l := Done])
    else
      var index := j.missing[s.cursor];
      s.(cursor := s.cursor + 1, lanes := s.lanes[l := Sending(index, 0)], claims := s.claims + [index])
  }

  function Store(j: Job, s: State, index: nat): State
    requires ValidJob(j) && index < j.grid.count
  {
    s.(stored := s.stored[index := ChunkData(j.grid, index)])
  }

  /** After one PUT: progress on acceptance, another attempt or a failure otherwise. */
  function Answered(j: Job, s: State, l: nat, reply: PutReply): State
    requires ValidJob(j) && l < |s.lanes| && s.lanes[l].Sending? && s.lanes[l].index < j.grid.count
  {
    var index, attempt := s.lanes[l].index, s.lanes[l].attempt;
    match reply
    case Accepted => Store(j, s, index).(lanes := s.lanes[l := Ready], sent := s.sent + |ChunkData(j.grid, index)|)
    case Refused => s.(lanes := s.lanes[l := Failed(index, attempt + 1, Terminal)])
    case Transient(stored) =>
      var t := if stored then Store(j, s, index) else s;
      if attempt < j.maxRetries then t.(lanes := s.lanes[l := Sending(index, attempt + 1)])
      else t.(lanes := s.lanes[l := Failed(index, attempt + 1, RetriesExhausted)])
  }

  /** Each of the first `n` answers is a transient failure. */
  predicate AllTransient(answer: nat -> PutReply, n: nat) {
    forall b: nat :: b < n ==> answer(b).Transient?
  }

  /** The answer that decides, after transient ones only, and what it means for the lane. */
  predicate RetryOutcome(index: nat, maxRetries: nat, answer: nat -> PutReply, lane: Lane, puts: nat) {
    && 1 <= puts <= maxRetries + 1
    && AllTransient(answer, puts - 1)
    && (answer(puts - 1).Transient? ==> puts == maxRetries + 1)
    && lane == match answer(puts - 1)
               case Accepted => Ready
               case Refused => Failed(index, puts, Terminal)
               case Transient(_) => Failed(index, puts, RetriesExhausted)
  }

  /** The retry loop of one claimed chunk: the first answer that is not transient decides. */
  method PutChunkWithRetry(index: nat, maxRetries: nat, answer: nat -> PutReply) returns (lane: Lane, puts: nat)
    ensures RetryOutcome(index, maxRetries, answer, lane, puts)
  {
    var attempt := 0;
    while true
      invariant attempt <= maxRetries && AllTransient(answer, attempt)
      decreases maxRetries - attempt
    {
      var reply := answer(attempt);
      match reply {
        case Accepted => return Ready, attempt + 1;
        case Refused => return Failed(index, attempt + 1, Terminal), attempt + 1;
        case Transient(_) =>
          if attempt == maxRetries {
            return Failed(index, attempt + 1, RetriesExhausted), attempt + 1;
          }
      }
      attempt := attempt + 1;
    }
  }

  function Step(j: Job, s: State, e: Event): State
    requires ValidJob(j) && LanesInRange(j, s)
  {
    if !Enabled(s, e) then s
    else match e
      case Claim(l) => ClaimNext(j, s, l)
      case Reply(l, reply) => Answered(j, s, l, reply)
  }

  // ----- the retry loop and the steps ----------------------------------------------

  /** The lane's state after its first `n` answers, step by step. */
  function Answers(j: Job, s: State, l: nat, answer: nat -> PutReply, n: nat): State
    requires ValidJob(j) && LanesInRange(j, s)
    ensures LanesInRange(j, Answers(j, s, l, answer, n)) && |Answers(j, s, l, answer, n).lanes| == |s.lanes|
  {
    if n == 0 then s
    else
      var t := Answers(j, s, l, answer, n - 1);
      StepInRange(j, t, Reply(l, answer(n - 1)));
      Step(j, t, Reply(l, answer(n - 1)))
  }

  lemma StepInRange(j: Job, s: State, e: Event)
    requires ValidJob(j) && LanesInRange(j, s)
    ensures LanesInRange(j, Step(j, s, e)) && |Step(j, s, e).lanes| == |s.lanes|
  {
    hide ChunkData;
  }

  /** After `n` transient answers the lane sends for the time numbered `n`. */
  lemma {:induction false} StillSending(j: Job, s: State, l: nat, index: nat, answer: nat -> PutReply, n: nat)
    requires ValidJob(j) && LanesInRange(j, s) && l < |s.lanes| && s.lanes[l] == Sending(index, 0)
    requires n <= j.maxRetries && AllTransient(answer, n)
    ensures Answers(j, s, l, answer, n).lanes[l] == Sending(index, n)
  {
    hide ChunkData;
    if n > 0 {
      StillSending(j, s, l, index, answer, n - 1);
    }
  }

  /** The lane that the retry loop leaves is the one that the steps reach under the same answers. */
  lemma RetryLoopIsSteps(j: Job, s: State, l: nat, index: nat, answer: nat -> PutReply, lane: Lane, puts: nat)
    requires ValidJob(j) && LanesInRange(j, s) && l < |s.lanes| && s.lanes[l] == Sending(index, 0)
    requires RetryOutcome(index, j.maxRetries, answer, lane, puts)
    ensures Answers(j, s, l, answer, puts).lanes[l] == lane
  {
    hide ChunkData;
    StillSending(j, s, l, index, answer, puts - 1);
  }

  // ----- what every step keeps -----------------------------------------------------

  predicate InHand(x: Lane, index: nat) {
    (x.Sending? || x.Failed?) && x.index == index
  }

  predicate LanesInRange(j: Job, s: State) {
    forall l :: 0 <= l < |s.lanes| ==> LaneOk(j, s.lanes[l])
  }

  predicate LaneOk(j: Job, x: Lane) {
    match x
    case Ready => true
    case Done => true
    case Sending(index, attempt) => index < j.grid.count && attempt <= j.maxRetries
    case Failed(index, attempts, failure) =>
      && index < j.grid.count
      && 1 <= attempts <= j.maxRetries + 1
      && (failure == RetriesExhausted ==> attempts == j.maxRetries + 1)
  }

  function WeightOf(j: Job, x: Lane): nat
    requires ValidJob(j) && LaneOk(j, x)
  {
    if x.Sending? || x.Failed? then |ChunkData(j.grid, x.index)| else 0
  }

  /** The bytes of the chunks that are claimed but not accepted. */
  function Pending(j: Job, lanes: seq<Lane>): nat
    requires ValidJob(j) && forall l :: 0 <= l < |lanes| ==> LaneOk(j, lanes[l])
  {
    if lanes == [] then 0 else WeightOf(j, lanes[0]) + Pending(j, lanes[1..])
  }

  lemma {:induction false} PendingUpdate(j: Job, lanes: seq<Lane>, l: nat, x: Lane)
    requires ValidJob(j) && (forall k :: 0 <= k < |lanes| ==> LaneOk(j, lanes[k])) && l < |lanes| && LaneOk(j, x)
    ensures Pending(j, lanes[l := x]) + WeightOf(j, lanes[l]) == Pending(j, lanes) + WeightOf(j, x)
  {
    if l == 0 {
      assert lanes[0 := x][1..] == lanes[1..];
    } else {
      PendingUpdate(j, lanes[1..], l - 1, x);
      assert lanes[l := x][1..] == lanes[1..][l - 1 := x];
    }
  }

  /** Every claimed index is stored at the gateway or still in a lane's hand. */
  predicate Tracked(j: Job, s: State) {
    forall k :: 0 <= k < |s.claims| ==>
      s.claims[k] in s.stored || exists l :: 0 <= l < |s.lanes| && InHand(s.lanes[l], s.claims[k])
  }

  /** `base` bytes were accepted before this pass began. */
  predicate Inv(j: Job, s: State, base: nat)
    requires ValidJob(j)
  {
    && s.cursor <= |j.missing|
    && s.claims == j.missing[..s.cursor]
    && LanesInRange(j, s)
    && Holds(j.grid, s.stored)
    && s.sent + Pending(j, s.lanes) == base + SizeOf(j.grid, s.claims)
    && Tracked(j, s)
    && (forall l :: 0 <= l < |s.lanes| && s.lanes[l].Done? ==> s.cursor == |j.missing|)
  }

  lemma {:induction false} NothingPending(j: Job, lanes: seq<Lane>)
    requires ValidJob(j) && forall l :: 0 <= l < |lanes| ==> lanes[l].Ready? || lanes[l].Done?
    ensures Pending(j, lanes) == 0
  {
    if lanes != [] {
      NothingPending(j, lanes[1..]);
    }
  }

  lemma StartInv(j: Job, parallelism: nat, stored: map<nat, Bytes>, sent: nat)
    requires ValidJob(j) && Holds(j.grid, stored)
    ensures Inv(j, Start(j, parallelism, stored, sent), sent)
  {
    var s := Start(j, parallelism, stored, sent);
    NothingPending(j, s.lanes);
  }

  lemma StaysInHand(before: seq<Lane>, after: seq<Lane>, l: nat, index: nat)
    requires l < |before| && |after| == |before| && (forall m :: 0 <= m < |before| && m != l ==> after[m] == before[m])
    requires InHand(before[l], index) ==> InHand(after[l], index)
    ensures (exists m :: 0 <= m < |before| && InHand(before[m], index)) ==> exists m :: 0 <= m < |after| && InHand(after[m], index)
  {
    if m :| 0 <= m < |before| && InHand(before[m], index) {
      assert InHand(after[m], index);
    }
  }

  lemma ClaimKeepsTracked(j: Job, s: State, l: nat)
    requires Tracked(j, s) && l < |s.lanes| && s.lanes[l].Ready?
    ensures Tracked(j, ClaimNext(j, s, l))
  {
    var t := ClaimNext(j, s, l);
    forall k | 0 <= k < |t.claims|
      ensures t.claims[k] in t.stored || exists m :: 0 <= m < |t.lanes| && InHand(t.lanes[m], t.claims[k])
    {
      if k < |s.claims| {
        StaysInHand(s.lanes, t.lanes, l, s.claims[k]);
      } else {
        assert InHand(t.lanes[l], t.claims[k]);
      }
    }
  }

  lemma ClaimKeepsInv(j: Job, s: State, l: nat, base: nat)
    requires ValidJob(j) && Inv(j, s, base) && l < |s.lanes| && s.lanes[l].Ready?
    ensures Inv(j, ClaimNext(j, s, l), base)
  {
    hide ChunkData, Tracked;
    PendingUpdate(j, s.lanes, l, ClaimNext(j, s, l).lanes[l]);
    if s.cursor < |j.missing| {
      SizeOfSnoc(j.grid, s.claims, j.missing[s.cursor]);
    }
    ClaimKeepsTracked(j, s, l);
  }

  lemma ReplyKeepsTracked(j: Job, s: State, l: nat, reply: PutReply)
    requires ValidJob(j) && Tracked(j, s) && l < |s.lanes| && s.lanes[l].Sending? && s.lanes[l].index < j.grid.count
    ensures Tracked(j, Answered(j, s, l, reply))
  {
    hide ChunkData;
    var t := Answered(j, s, l, reply);
    forall k | 0 <= k < |t.claims|
      ensures t.claims[k] in t.stored || exists m :: 0 <= m < |t.lanes| && InHand(t.lanes[m], t.claims[k])
    {
      if reply.Accepted? && s.lanes[l].index == t.claims[k] {
        assert t.claims[k] in t.stored;
      } else {
        StaysInHand(s.lanes, t.lanes, l, s.claims[k]);
      }
    }
  }

  lemma ReplyKeepsInv(j: Job, s: State, l: nat, reply: PutReply, base: nat)
    requires ValidJob(j) && Inv(j, s, base) && l < |s.lanes| && s.lanes[l].Sending?
    ensures Inv(j, Answered(j, s, l, reply), base)
  {
    hide ChunkData, Tracked;
    assert LaneOk(j, s.lanes[l]);
    PendingUpdate(j, s.lanes, l, Answered(j, s, l, reply).lanes[l]);
    ReplyKeepsTracked(j, s, l, reply);
  }

  lemma StepKeepsInv(j: Job, s: State, e: Event, base: nat)
    requires ValidJob(j) && Inv(j, s, base)
    ensures Inv(j, Step(j, s, e), base) && Step(j, s, e).sent >= s.sent && |Step(j, s, e).lanes| == |s.lanes|
    ensures forall i :: i in s.stored ==> i in Step(j, s, e).stored
  {
    if Enabled(s, e) {
      match e
      case Claim(l) => ClaimKeepsInv(j, s, l, base);
      case Reply(l, reply) => ReplyKeepsInv(j, s, l, reply, base);
    }
  }

  // ----- whole passes --------------------------------------------------------------

  /** The state after these events, in this order; an event whose lane is not waiting for it does nothing. */
  function Pass(j: Job, s: State, base: nat, events: seq<Event>): (t: State)
    requires ValidJob(j) && Inv(j, s, base)
    ensures Inv(j, t, base) && t.sent >= s.sent && |t.lanes| == |s.lanes|
    ensures forall i :: i in s.stored ==> i in t.stored
  {
    if events == [] then s
    else
      var init := Pass(j, s, base, events[..|events| - 1]);
      StepKeepsInv(j, init, events[|events| - 1], base);
      Step(j, init, events[|events| - 1])
  }

  predicate AllDone(s: State) {
    |s.lanes| > 0 && forall l :: 0 <= l < |s.lanes| ==> s.lanes[l].Done?
  }

  /**
    When every lane has returned, in whatever interleaving: the outstanding indices were claimed in
    order, each once; all of them are stored; and exactly their bytes were reported.
    */
  lemma FinishedPass(j: Job, s: State, base: nat)
    requires ValidJob(j) && Inv(j, s, base) && AllDone(s)
    ensures s.claims == j.missing
    ensures forall k :: 0 <= k < |j.missing| ==> j.missing[k] in s.stored
    ensures s.sent == base + SizeOf(j.grid, j.missing)
  {
    assert s.lanes[0].Done?;
    assert j.missing[..|j.missing|] == j.missing;
    NothingPending(j, s.lanes);
    forall k | 0 <= k < |j.missing| ensures j.missing[k] in s.stored {
      assert s.claims[k] == j.missing[k];
      assert forall l :: 0 <= l < |s.lanes| ==> !InHand(s.lanes[l], s.claims[k]);
    }
  }

  // ----- every pass ends -----------------------------------------------------------

  function LaneBudget(j: Job, x: Lane): nat {
    match x
    case Ready => 1
    case Sending(_, attempt) => if attempt <= j.maxRetries then j.maxRetries + 2 - attempt else 0
    case Done => 0
    case Failed(_, _, _) => 0
  }

  function LanesBudget(j: Job, lanes: seq<Lane>): nat {
    if lanes == [] then 0 else LaneBudget(j, lanes[0]) + LanesBudget(j, lanes[1..])
  }

  lemma {:induction false} BudgetUpdate(j: Job, lanes: seq<Lane>, l: nat, x: Lane)
    requires l < |lanes|
    ensures LanesBudget(j, lanes[l := x]) + LaneBudget(j, lanes[l]) == LanesBudget(j, lanes) + LaneBudget(j, x)
  {
    if l == 0 {
      assert lanes[0 := x][1..] == lanes[1..];
    } else {
      BudgetUpdate(j, lanes[1..], l - 1, x);
      assert lanes[l := x][1..] == lanes[1..][l - 1 := x];
    }
  }

  /** An upper bound on the steps still to come. */
  function Budget(j: Job, s: State): nat
    requires s.cursor <= |j.missing|
  {
    (|j.missing| - s.cursor) * (j.maxRetries + 2) + LanesBudget(j, s.lanes)
  }

  lemma BudgetShrinks(n: nat, m: nat)
    requires n > 0
    ensures n * m == (n - 1) * m + m
  {
  }

  /** Every step uses up some of the budget, so no interleaving goes on for ever. */
  lemma StepUsesBudget(j: Job, s: State, e: Event, base: nat)
    requires ValidJob(j) && Inv(j, s, base) && Enabled(s, e)
    ensures Step(j, s, e).cursor <= |j.missing| && Budget(j, Step(j, s, e)) < Budget(j, s)
  {
    assert LaneOk(j, s.lanes[e.lane]);
    var t := Step(j, s, e);
    BudgetUpdate(j, s.lanes, e.lane, t.lanes[e.lane]);
    if e.Claim? && s.cursor < |j.missing| {
      BudgetShrinks(|j.missing| - s.cursor, j.maxRetries + 2);
    }
  }

  /** A pass that can go no further has every lane returned or failed. */
  lemma StuckMeansOver(s: State)
    requires forall e :: !Enabled(s, e)
    ensures forall l :: 0 <= l < |s.lanes| ==> s.lanes[l].Done? || s.lanes[l].Failed?
  {
    forall l | 0 <= l < |s.lanes| ensures s.lanes[l].Done? || s.lanes[l].Failed? {
      assert !Enabled(s, Claim(l)) && !Enabled(s, Reply(l, Refused));
    }
  }
}
