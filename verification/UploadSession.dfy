/**
  One upload session: the first pass over the outstanding chunks, then completion, with the chunks
  that the gateway still misses sent again after an incomplete-upload answer.
  */
module UploadSession {
  import opened Wrappers
  import opened ByteStrings
  import opened ChunkGrid
  import L = UploadLanes

  const COMPLETE_RETRIES: nat := 2

  datatype Config = Config(grid: Grid, parallelism: nat, maxRetries: nat)

  /** The session's status: its explicit list of missing chunks, when it gives one, and those received. */
  datatype Status = Status(missing: Option<seq<nat>>, received: set<nat>, chunkCount: nat)

  /** The explicit list is authoritative; without it, the gap left by the received chunks. */
  function ServerMissing(s: Status): seq<nat> {
    if s.missing.Some? then s.missing.value else MissingIndices(s.received, s.chunkCount)
  }

  /**
    The gateway's answer to one completion request. An incomplete upload may have lost stored chunks;
    the status fetched next is None when that request fails.
    */
  datatype CompleteReply =
    | Completed
    | AcceptedAsync(committed: bool)
    | Incomplete(dropped: set<nat>, status: Option<Status>)
    | OtherError

  datatype Event = LaneEvent(e: L.Event) | CompleteEvent(reply: CompleteReply)

  /** `next` is the completion attempt that follows the pass. */
  datatype Phase = Uploading(missing: seq<nat>, pass: L.State, next: nat) | Completing(attempt: nat) | Finished | Aborted

  /**
    `expected` adds up the bytes of every pass begun; `base` those reported before the current one;
    `trusted` says that every list sent so far left no chunk out.
    */
  datatype Session = Session(phase: Phase, stored: map<nat, Bytes>, sent: nat, base: nat, expected: nat, completes: nat, resends: nat,
                             trusted: bool)

  function JobOf(c: Config, missing: seq<nat>): L.Job {
    L.Job(c.grid, missing, c.maxRetries)
  }

  predicate InGrid(c: Config, missing: seq<nat>) {
    forall k :: 0 <= k < |missing| ==> missing[k] < c.grid.count
  }

  predicate Covered(c: Config, stored: map<nat, Bytes>, missing: seq<nat>) {
    forall i: nat :: i < c.grid.count ==> i in stored || i in missing
  }

  /** The explicit list names every chunk that is not stored; without one, only stored chunks count as received. */
  predicate Honest(c: Config, stored: map<nat, Bytes>, s: Status) {
    && s.chunkCount == c.grid.count
    && match s.missing
       case Some(list) => forall i: nat :: i < c.grid.count && i !in stored ==> i in list
       case None => s.received <= stored.Keys
  }

  /** An honest status may repeat indices, disorder them or name stored ones, but leaves none out. */
  lemma HonestCovers(c: Config, stored: map<nat, Bytes>, s: Status)
    requires Honest(c, stored, s)
    ensures Covered(c, stored, ServerMissing(s))
  {
  }

  /** A pass over `missing`, or straight to completion when nothing is missing. */
  function BeginPass(c: Config, s: Session, stored: map<nat, Bytes>, missing: seq<nat>, next: nat): Session
    requires ValidGrid(c.grid) && InGrid(c, missing)
  {
    if missing == [] then s.(phase := Completing(next), stored := stored)
    else s.(phase := Uploading(missing, L.Start(JobOf(c, missing), c.parallelism, stored, s.sent), next),
            stored := stored,
            base := s.sent,
            expected := s.expected + SizeOf(c.grid, missing))
  }

  function Begin(c: Config, stored: map<nat, Bytes>, missing: seq<nat>): Session
    requires ValidGrid(c.grid) && InGrid(c, missing)
  {
    BeginPass(c, Session(Aborted, stored, 0, 0, 0, 0, 0, Covered(c, stored, missing)), stored, missing, 0)
  }

  /** The bytes reported so far. */
  function Progress(s: Session): nat {
    if s.phase.Uploading? then s.phase.pass.sent else s.sent
  }

  // ----- one step ------------------------------------------------------------------

  predicate AnyFailed(p: L.State) {
    exists l :: 0 <= l < |p.lanes| && p.lanes[l].Failed?
  }

  /** All lanes returned: on to completion. One raised: the session fails with its error. */
  function AfterLane(s: Session, pass: L.State): Session
    requires s.phase.Uploading?
  {
    if AnyFailed(pass) then s.(phase := Aborted, stored := pass.stored, sent := pass.sent)
    else if L.AllDone(pass) then s.(phase := Completing(s.phase.next), stored := pass.stored, sent := pass.sent)
    else s.(phase := s.phase.(pass := pass))
  }

  /** The statuses that a pass can be sent by: their indices are those of the grid. */
  predicate StatusInGrid(c: Config, reply: CompleteReply) {
    reply.Incomplete? && reply.status.Some? ==> InGrid(c, ServerMissing(reply.status.value))
  }

  /** An incomplete upload is retried while attempts remain, after sending what the status calls missing. */
  function AfterComplete(c: Config, s: Session, reply: CompleteReply): Session
    requires ValidGrid(c.grid) && s.phase.Completing? && StatusInGrid(c, reply)
  {
    var attempt := s.phase.attempt;
    var t := s.(completes := s.completes + 1);
    match reply
    case Completed => t.(phase := Finished)
    case AcceptedAsync(committed) => t.(phase := if committed then Finished else Aborted)
    case OtherError => t.(phase := Aborted)
    case Incomplete(dropped, status) =>
      if attempt >= COMPLETE_RETRIES || status.None? then t.(phase := Aborted)
      else Resend(c, t, s.stored - dropped, status.value, attempt + 1)
  }

  function Resend(c: Config, s: Session, stored: map<nat, Bytes>, status: Status, next: nat): Session
    requires ValidGrid(c.grid) && InGrid(c, ServerMissing(status))
  {
    var missing := ServerMissing(status);
    BeginPass(c,
              s.(resends := if missing == [] then s.resends else s.resends + 1, trusted := s.trusted && Honest(c, stored, status)),
              stored, missing, next)
  }

  // ----- what every step keeps -----------------------------------------------------

  predicate Inv(c: Config, s: Session)
    requires ValidGrid(c.grid)
  {
    && s.resends <= COMPLETE_RETRIES
    && s.completes <= COMPLETE_RETRIES + 1
    && match s.phase
       case Uploading(missing, pass, next) =>
         && InGrid(c, missing)
         && L.Inv(JobOf(c, missing), pass, s.base)
         && |pass.lanes| > 0
         && (s.trusted ==> Covered(c, pass.stored, missing))
         && s.expected == s.base + SizeOf(c.grid, missing)
         && s.completes == next <= COMPLETE_RETRIES
         && s.resends <= next
       case Completing(attempt) =>
         && Holds(c.grid, s.stored)
         && (s.trusted ==> Covered(c, s.stored, []))
         && s.sent == s.expected
         && s.completes == attempt <= COMPLETE_RETRIES
         && s.resends <= attempt
       case Finished => Holds(c.grid, s.stored) && (s.trusted ==> Covered(c, s.stored, [])) && s.sent == s.expected
       case Aborted => true
  }

  function Step(c: Config, s: Session, e: Event): Session
    requires ValidGrid(c.grid) && Inv(c, s)
  {
    match e
    case LaneEvent(le) =>
      if s.phase.Uploading? then AfterLane(s, L.Step(JobOf(c, s.phase.missing), s.phase.pass, le)) else s
    case CompleteEvent(reply) =>
      if s.phase.Completing? && StatusInGrid(c, reply) then AfterComplete(c, s, reply) else s
  }

  lemma BeginPassKeepsInv(c: Config, s: Session, stored: map<nat, Bytes>, missing: seq<nat>, next: nat)
    requires ValidGrid(c.grid) && InGrid(c, missing) && Holds(c.grid, stored) && (s.trusted ==> Covered(c, stored, missing))
    requires s.completes == next <= COMPLETE_RETRIES && s.resends <= next && s.sent == s.expected
    ensures Inv(c, BeginPass(c, s, stored, missing, next)) && Progress(BeginPass(c, s, stored, missing, next)) == s.sent
  {
    if missing != [] {
      L.StartInv(JobOf(c, missing), c.parallelism, stored, s.sent);
    }
  }

  lemma LaneEventKeepsInv(c: Config, s: Session, le: L.Event)
    requires ValidGrid(c.grid) && Inv(c, s) && s.phase.Uploading?
    ensures Inv(c, Step(c, s, LaneEvent(le))) && Progress(Step(c, s, LaneEvent(le))) >= Progress(s)
  {
    hide L.ClaimNext, L.Answered, L.Tracked, L.LanesInRange, SizeOf, ChunkData;
    var j, pass := JobOf(c, s.phase.missing), s.phase.pass;
    L.StepKeepsInv(j, pass, le, s.base);
    var after := L.Step(j, pass, le);
    if L.AllDone(after) {
      L.FinishedPass(j, after, s.base);
      assert s.trusted ==> Covered(c, after.stored, []);
    }
  }

  lemma ResendKeepsInv(c: Config, s: Session, stored: map<nat, Bytes>, status: Status, next: nat)
    requires ValidGrid(c.grid) && InGrid(c, ServerMissing(status)) && Holds(c.grid, stored)
    requires s.completes == next <= COMPLETE_RETRIES && s.resends < next && s.sent == s.expected
    ensures Inv(c, Resend(c, s, stored, status, next)) && Progress(Resend(c, s, stored, status, next)) == s.sent
  {
    hide Inv, BeginPass, Progress, Honest, ServerMissing, Holds;
    var missing := ServerMissing(status);
    var t := s.(resends := if missing == [] then s.resends else s.resends + 1, trusted := s.trusted && Honest(c, stored, status));
    if t.trusted {
      HonestCovers(c, stored, status);
    }
    BeginPassKeepsInv(c, t, stored, missing, next);
  }

  lemma CompleteEventKeepsInv(c: Config, s: Session, reply: CompleteReply)
    requires ValidGrid(c.grid) && Inv(c, s) && s.phase.Completing? && StatusInGrid(c, reply)
    ensures Inv(c, AfterComplete(c, s, reply)) && Progress(AfterComplete(c, s, reply)) >= Progress(s)
  {
    hide Resend, BeginPass, Covered, ServerMissing, ChunkData;
    if reply.Incomplete? && s.phase.attempt < COMPLETE_RETRIES && reply.status.Some? {
      var stored := s.stored - reply.dropped;
      assert Holds(c.grid, stored);
      ResendKeepsInv(c, s.(completes := s.completes + 1), stored, reply.status.value, s.phase.attempt + 1);
    }
  }

  /** Every step keeps the invariant and never lowers the reported byte count. */
  lemma StepKeepsInv(c: Config, s: Session, e: Event)
    requires ValidGrid(c.grid) && Inv(c, s)
    ensures Inv(c, Step(c, s, e)) && Progress(Step(c, s, e)) >= Progress(s)
  {
    match e
    case LaneEvent(le) =>
      if s.phase.Uploading? {
        LaneEventKeepsInv(c, s, le);
      }
    case CompleteEvent(reply) =>
      if s.phase.Completing? && StatusInGrid(c, reply) {
        CompleteEventKeepsInv(c, s, reply);
      }
  }

  // ----- whole runs ----------------------------------------------------------------

  /** The session after these events. */
  function Run(c: Config, s: Session, events: seq<Event>): (t: Session)
    requires ValidGrid(c.grid) && Inv(c, s)
    ensures Inv(c, t) && Progress(t) >= Progress(s)
  {
    if events == [] then s
    else
      var before := Run(c, s, events[..|events| - 1]);
      StepKeepsInv(c, before, events[|events| - 1]);
      Step(c, before, events[|events| - 1])
  }

  lemma BeginInv(c: Config, stored: map<nat, Bytes>, missing: seq<nat>)
    requires ValidGrid(c.grid) && InGrid(c, missing) && Holds(c.grid, stored)
    ensures Inv(c, Begin(c, stored, missing)) && Progress(Begin(c, stored, missing)) == 0
    ensures Begin(c, stored, missing).expected == SizeOf(c.grid, missing)
  {
    BeginPassKeepsInv(c, Session(Aborted, stored, 0, 0, 0, 0, 0, Covered(c, stored, missing)), stored, missing, 0);
  }

  /** Whatever lists the gateway gives, at most three completions and two resends occur, and the reported bytes never decrease. */
  lemma RunBounds(c: Config, stored: map<nat, Bytes>, missing: seq<nat>, events: seq<Event>, n: nat)
    requires ValidGrid(c.grid) && InGrid(c, missing) && Holds(c.grid, stored)
    requires n <= |events|
    ensures Inv(c, Begin(c, stored, missing))
    ensures var s := Begin(c, stored, missing);
            && Run(c, s, events).completes <= 3
            && Run(c, s, events).resends <= 2
            && Progress(Run(c, s, events[..n])) <= Progress(Run(c, s, events))
    decreases |events| - n
  {
    BeginInv(c, stored, missing);
    var s := Begin(c, stored, missing);
    if n < |events| {
      RunBounds(c, stored, missing, events, n + 1);
      assert events[..n + 1][..n] == events[..n];
      StepKeepsInv(c, Run(c, s, events[..n]), events[n]);
    } else {
      assert events[..n] == events;
    }
  }

  /** Whenever completion is asked for after honest lists, the gateway holds the first `total` bytes of the source. */
  lemma CompletesOnlyWhenWhole(c: Config, s: Session)
    requires ValidGrid(c.grid) && Inv(c, s) && s.trusted && (s.phase.Completing? || s.phase.Finished?)
    ensures forall i: nat :: i < c.grid.count ==> i in s.stored
    ensures Assembled(s.stored, c.grid.count) == c.grid.source[..c.grid.total]
  {
    AllChunksAreSource(c.grid, s.stored);
  }

  /** The status fetched after an incomplete answer is honest about what is stored then. */
  predicate HonestEvent(c: Config, s: Session, e: Event) {
    (s.phase.Completing? && e.CompleteEvent? && e.reply.Incomplete? && e.reply.status.Some?) ==>
      Honest(c, s.stored - e.reply.dropped, e.reply.status.value)
  }

  predicate HonestRun(c: Config, s: Session, events: seq<Event>)
    requires ValidGrid(c.grid) && Inv(c, s)
  {
    events == [] || (
      var init := events[..|events| - 1];
      HonestRun(c, s, init) && HonestEvent(c, Run(c, s, init), events[|events| - 1]))
  }

  lemma HonestStepTrusted(c: Config, s: Session, e: Event)
    requires ValidGrid(c.grid) && Inv(c, s) && s.trusted && HonestEvent(c, s, e)
    ensures Step(c, s, e).trusted
  {
    hide Inv, Honest, ServerMissing, L.Step;
  }

  /**
    From any state of the gateway, with lists that may repeat, disorder or over-report but leave nothing
    out: in every run, whenever completion is asked for, the chunks make up the source.
    */
  lemma {:induction false} HonestRunIsWhole(c: Config, stored: map<nat, Bytes>, missing: seq<nat>, events: seq<Event>)
    requires ValidGrid(c.grid) && InGrid(c, missing) && Holds(c.grid, stored) && Covered(c, stored, missing)
    ensures Inv(c, Begin(c, stored, missing))
    ensures HonestRun(c, Begin(c, stored, missing), events) ==>
              var t := Run(c, Begin(c, stored, missing), events);
              t.trusted && (t.phase.Completing? || t.phase.Finished? ==> Assembled(t.stored, c.grid.count) == c.grid.source[..c.grid.total])
    decreases |events|
  {
    hide Inv, Assembled, Holds, Step;
    BeginInv(c, stored, missing);
    var s := Begin(c, stored, missing);
    if HonestRun(c, s, events) {
      if events != [] {
        var init := events[..|events| - 1];
        HonestRunIsWhole(c, stored, missing, init);
        HonestStepTrusted(c, Run(c, s, init), events[|events| - 1]);
      }
      var t := Run(c, s, events);
      if t.phase.Completing? || t.phase.Finished? {
        CompletesOnlyWhenWhole(c, t);
      }
    }
  }

  /** Without resends the expected bytes are those of the first pass. */
  lemma StepExpected(c: Config, s: Session, e: Event)
    requires ValidGrid(c.grid) && Inv(c, s)
    ensures Step(c, s, e).resends >= s.resends
    ensures Step(c, s, e).resends == s.resends ==> Step(c, s, e).expected == s.expected
  {
  }

  lemma {:induction false} RunExpected(c: Config, s: Session, events: seq<Event>)
    requires ValidGrid(c.grid) && Inv(c, s)
    ensures Run(c, s, events).resends >= s.resends
    ensures Run(c, s, events).resends == s.resends ==> Run(c, s, events).expected == s.expected
    decreases |events|
  {
    if events != [] {
      var init := events[..|events| - 1];
      RunExpected(c, s, init);
      StepExpected(c, Run(c, s, init), events[|events| - 1]);
    }
  }

  /** A fresh upload that finishes without a resend has reported exactly `total` bytes. */
  lemma FreshUploadReportsTotal(c: Config, events: seq<Event>)
    requires ValidGrid(c.grid)
    ensures InGrid(c, MissingIndices({}, c.grid.count)) && Inv(c, Begin(c, map[], MissingIndices({}, c.grid.count)))
    ensures var t := Run(c, Begin(c, map[], MissingIndices({}, c.grid.count)), events);
            t.phase.Finished? && t.resends == 0 ==> t.sent == c.grid.total
  {
    var missing := MissingIndices({}, c.grid.count);
    BeginInv(c, map[], missing);
    RunExpected(c, Begin(c, map[], missing), events);
    SizeOfAll(c.grid);
  }

  // ----- an accepting gateway ------------------------------------------------------

  /** Lanes claim, every chunk is accepted, and completion is confirmed. */
  predicate KindEvent(e: Event) {
    match e
    case LaneEvent(le) => le.Claim? || le.reply.Accepted?
    case CompleteEvent(reply) => reply.Completed?
  }

  /** Also helpful: one of the first two completions answered as incomplete, with a status to resend by. */
  predicate Helpful(c: Config, s: Session, e: Event) {
    KindEvent(e) || (
      && s.phase.Completing?
      && s.phase.attempt < 2
      && e.CompleteEvent?
      && e.reply.Incomplete?
      && e.reply.status.Some?
      && StatusInGrid(c, e.reply))
  }

  predicate HelpfulRun(c: Config, s: Session, events: seq<Event>)
    requires ValidGrid(c.grid) && Inv(c, s)
  {
    events == [] || (
      var init := events[..|events| - 1];
      HelpfulRun(c, s, init) && Helpful(c, Run(c, s, init), events[|events| - 1]))
  }

  /** Finished, or still with something to do and nothing failed. */
  predicate OnTrack(s: Session) {
    match s.phase
    case Uploading(_, pass, _) => !AnyFailed(pass) && !L.AllDone(pass)
    case Completing(_) => true
    case Finished => true
    case Aborted => false
  }

  lemma BeginOnTrack(c: Config, stored: map<nat, Bytes>, missing: seq<nat>)
    requires ValidGrid(c.grid) && InGrid(c, missing)
    ensures OnTrack(Begin(c, stored, missing))
  {
    BeginPassOnTrack(c, Session(Aborted, stored, 0, 0, 0, 0, 0, Covered(c, stored, missing)), stored, missing, 0);
  }

  lemma KindLaneFailsNothing(j: L.Job, pass: L.State, le: L.Event)
    requires L.ValidJob(j) && L.LanesInRange(j, pass) && !AnyFailed(pass) && (le.Claim? || le.reply.Accepted?)
    ensures !AnyFailed(L.Step(j, pass, le))
  {
    hide ChunkData;
    var after := L.Step(j, pass, le);
    forall l | 0 <= l < |after.lanes| ensures !after.lanes[l].Failed? {
      assert !pass.lanes[l].Failed?;
    }
  }

  lemma BeginPassOnTrack(c: Config, s: Session, stored: map<nat, Bytes>, missing: seq<nat>, next: nat)
    requires ValidGrid(c.grid) && InGrid(c, missing)
    ensures OnTrack(BeginPass(c, s, stored, missing, next))
  {
    if missing != [] {
      var pass := L.Start(JobOf(c, missing), c.parallelism, stored, s.sent);
      assert pass.lanes[0].Ready?;
    }
  }

  lemma ResendOnTrack(c: Config, s: Session, stored: map<nat, Bytes>, status: Status, next: nat)
    requires ValidGrid(c.grid) && InGrid(c, ServerMissing(status))
    ensures OnTrack(Resend(c, s, stored, status, next))
  {
    hide BeginPass, OnTrack, Honest;
    var missing := ServerMissing(status);
    BeginPassOnTrack(c, s.(resends := if missing == [] then s.resends else s.resends + 1, trusted := s.trusted && Honest(c, stored, status)),
                     stored, missing, next);
  }

  lemma HelpfulStepOnTrack(c: Config, s: Session, e: Event)
    requires ValidGrid(c.grid) && Inv(c, s) && OnTrack(s) && Helpful(c, s, e)
    ensures OnTrack(Step(c, s, e))
  {
    if KindEvent(e) {
      KindStepOnTrack(c, s, e);
    } else {
      hide Resend, OnTrack, Inv;
      var status := e.reply.status.value;
      ResendOnTrack(c, s.(completes := s.completes + 1), s.stored - e.reply.dropped, status, s.phase.attempt + 1);
    }
  }

  lemma KindStepOnTrack(c: Config, s: Session, e: Event)
    requires ValidGrid(c.grid) && Inv(c, s) && OnTrack(s) && KindEvent(e)
    ensures OnTrack(Step(c, s, e))
  {
    hide L.Step, L.Inv, SizeOf;
    if s.phase.Uploading? && e.LaneEvent? {
      InvLanes(c, s);
      KindLaneFailsNothing(JobOf(c, s.phase.missing), s.phase.pass, e.e);
    }
  }

  lemma InvLanes(c: Config, s: Session)
    requires ValidGrid(c.grid) && Inv(c, s) && s.phase.Uploading?
    ensures L.ValidJob(JobOf(c, s.phase.missing)) && L.LanesInRange(JobOf(c, s.phase.missing), s.phase.pass)
  {
  }

  lemma {:induction false} HelpfulRunOnTrack(c: Config, s: Session, events: seq<Event>)
    requires ValidGrid(c.grid) && Inv(c, s) && OnTrack(s) && HelpfulRun(c, s, events)
    ensures OnTrack(Run(c, s, events))
    decreases |events|
  {
    hide Inv, OnTrack, Step, Helpful;
    if events != [] {
      var init := events[..|events| - 1];
      HelpfulRunOnTrack(c, s, init);
      HelpfulStepOnTrack(c, Run(c, s, init), events[|events| - 1]);
    }
  }

  /** A lane that has neither returned nor failed can go on. */
  lemma NextLaneEvent(pass: L.State) returns (le: L.Event)
    requires !AnyFailed(pass) && !L.AllDone(pass) && |pass.lanes| > 0
    ensures L.Enabled(pass, le) && (le.Claim? || le.reply.Accepted?)
  {
    var l :| 0 <= l < |pass.lanes| && !pass.lanes[l].Done?;
    assert !pass.lanes[l].Failed?;
    le := if pass.lanes[l].Ready? then L.Claim(l) else L.Reply(l, L.Accepted);
  }

  function StepsLeft(c: Config, s: Session): nat
    requires ValidGrid(c.grid) && Inv(c, s)
  {
    match s.phase
    case Uploading(missing, pass, _) => 2 + L.Budget(JobOf(c, missing), pass)
    case Completing(_) => 1
    case Finished => 0
    case Aborted => 0
  }

  /** Until the session is finished, some accepting event brings it nearer. */
  lemma NextKindEvent(c: Config, s: Session) returns (e: Event)
    requires ValidGrid(c.grid) && Inv(c, s) && OnTrack(s) && !s.phase.Finished?
    ensures KindEvent(e) && Inv(c, Step(c, s, e)) && StepsLeft(c, Step(c, s, e)) < StepsLeft(c, s)
  {
    hide L.Step, L.Inv, L.Budget, SizeOf;
    if s.phase.Uploading? {
      var le := NextLaneEvent(s.phase.pass);
      e := LaneEvent(le);
      StepKeepsInv(c, s, e);
      L.StepUsesBudget(JobOf(c, s.phase.missing), s.phase.pass, le, s.base);
    } else {
      e := CompleteEvent(Completed);
      StepKeepsInv(c, s, e);
    }
  }

  lemma RunSnoc(c: Config, s: Session, events: seq<Event>, e: Event)
    requires ValidGrid(c.grid) && Inv(c, s)
    ensures Run(c, s, events + [e]) == Step(c, Run(c, s, events), e)
    ensures HelpfulRun(c, s, events) && Helpful(c, Run(c, s, events), e) ==> HelpfulRun(c, s, events + [e])
  {
    assert (events + [e])[..|events|] == events;
  }

  lemma {:induction false} OnTrackFinishes(c: Config, s: Session, events: seq<Event>) returns (all: seq<Event>)
    requires ValidGrid(c.grid) && Inv(c, s) && OnTrack(s) && HelpfulRun(c, s, events)
    ensures events <= all && HelpfulRun(c, s, all) && Run(c, s, all).phase.Finished?
    decreases StepsLeft(c, Run(c, s, events))
  {
    hide Inv, OnTrack, Step, StepsLeft, KindEvent, StatusInGrid;
    var t := Run(c, s, events);
    if t.phase.Finished? {
      all := events;
    } else {
      HelpfulRunOnTrack(c, s, events);
      var e := NextKindEvent(c, t);
      RunSnoc(c, s, events, e);
      all := OnTrackFinishes(c, s, events + [e]);
    }
  }

  /**
    Against a gateway that accepts every chunk and confirms completion, at the latest the third time, no
    interleaving of the lanes gets stuck: whatever happened so far, the upload can still go on to finish.
    */
  lemma AcceptedUploadFinishes(c: Config, stored: map<nat, Bytes>, missing: seq<nat>, events: seq<Event>)
    requires ValidGrid(c.grid) && InGrid(c, missing) && Holds(c.grid, stored)
    ensures Inv(c, Begin(c, stored, missing))
    ensures var s := Begin(c, stored, missing);
            HelpfulRun(c, s, events) ==> exists all :: events <= all && HelpfulRun(c, s, all) && Run(c, s, all).phase.Finished?
  {
    BeginInv(c, stored, missing);
    BeginOnTrack(c, stored, missing);
    var s := Begin(c, stored, missing);
    if HelpfulRun(c, s, events) {
      var all := OnTrackFinishes(c, s, events);
    }
  }

  /** Only a confirmed completion, at once or in the background, finishes a session. */
  lemma FinishesIff(c: Config, s: Session, e: Event)
    requires ValidGrid(c.grid) && Inv(c, s) && !s.phase.Finished?
    ensures Step(c, s, e).phase.Finished?
            <==> s.phase.Completing? && (e == CompleteEvent(Completed) || e == CompleteEvent(AcceptedAsync(true)))
  {
    hide Inv, L.Step, Honest;
  }
}
