/** What the planner guarantees: order, timing, justified drops, and a full account of every datagram. */
module PlannerGuarantees {
  import opened Arithmetic
  import opened Collections
  import opened MachineInts
  import opened MediaLayout
  import opened Planner
  import opened PlannerOrder

  // ----- the sort key

  lemma {:induction false} LexTotal(a: seq<nat>, b: seq<nat>)
    requires |a| == |b|
    ensures LexLe(a, b) || LexLe(b, a)
  {
    if a != [] {
      LexTotal(a[1..], b[1..]);
    }
  }

  lemma {:induction false} LexTransitive(a: seq<nat>, b: seq<nat>, c: seq<nat>)
    requires LexLe(a, b) && LexLe(b, c)
    ensures LexLe(a, c)
  {
    if a != [] && a[0] == b[0] == c[0] {
      LexTransitive(a[1..], b[1..], c[1..]);
    }
  }

  lemma KeyOrderIsTotal(ready: u64)
    ensures TotalPreorder(KeyOrder(ready))
  {
    hide GroupKey, LexLe;
    forall x, y ensures KeyOrder(ready)(x, y) || KeyOrder(ready)(y, x) {
      KeyLength(x, ready);
      KeyLength(y, ready);
      LexTotal(GroupKey(x, ready), GroupKey(y, ready));
    }
    forall x, y, z | KeyOrder(ready)(x, y) && KeyOrder(ready)(y, z) ensures KeyOrder(ready)(x, z) {
      LexTransitive(GroupKey(x, ready), GroupKey(y, ready), GroupKey(z, ready));
    }
  }

  lemma KeyLength(g: Group, ready: u64)
    ensures |GroupKey(g, ready)| == 6
  {
  }

  // ----- the queue is sorted

  ghost predicate VisitsSorted(visits: seq<Visit>, ready: u64) {
    forall i, j | 0 <= i < j < |visits| :: LexLe(GroupKey(visits[i].group, ready), GroupKey(visits[j].group, ready))
  }

  ghost predicate KeysSorted(candidates: seq<Candidate>, ready: u64) {
    forall i, j | 0 <= i < j < |candidates| :: LexLe(CandidateKey(candidates[i], ready), CandidateKey(candidates[j], ready))
  }

  lemma {:induction false} VisitsComeFrom(groups: seq<Group>)
    ensures forall v | v in VisitsOf(groups) :: v.group in groups
  {
    if groups != [] {
      VisitsComeFrom(groups[..|groups| - 1]);
    }
  }

  lemma {:induction false} SortedVisits(groups: seq<Group>, ready: u64)
    requires SortedBy(KeyOrder(ready), groups)
    ensures VisitsSorted(VisitsOf(groups), ready)
  {
    hide GroupKey, LexLe;
    if groups != [] {
      var n := |groups| - 1;
      SortedVisits(groups[..n], ready);
      VisitsComeFrom(groups[..n]);
      var before, visits := VisitsOf(groups[..n]), VisitsOf(groups);
      forall i, j | 0 <= i < j < |visits|
        ensures LexLe(GroupKey(visits[i].group, ready), GroupKey(visits[j].group, ready))
      {
        if i < |before| <= j {
          assert visits[i] in before;
          var k :| 0 <= k < n && groups[k] == visits[i].group;
          assert KeyOrder(ready)(groups[k], groups[n]);
        } else if |before| <= i {
          SelfLe(GroupKey(groups[n], ready));
        }
      }
    }
  }

  lemma {:induction false} SelfLe(a: seq<nat>)
    ensures LexLe(a, a)
  {
    if a != [] {
      SelfLe(a[1..]);
    }
  }

  lemma VisitKeys(v: Visit, ready: u64)
    ensures forall c | c in VisitCandidates(v) :: CandidateKey(c, ready) == GroupKey(v.group, ready)
  {
    EntriesFromAre(v.block, v.group.role, v.block.Range(v.group.role).0);
  }

  /** The key of candidate `i` is the key of some visit's group. */
  lemma {:induction false} FlattenKeys(visits: seq<Visit>, ready: u64)
    ensures forall c | c in Flatten(visits) ::
              exists k :: 0 <= k < |visits| && CandidateKey(c, ready) == GroupKey(visits[k].group, ready)
  {
    hide GroupKey, CandidateKey, VisitCandidates;
    if visits != [] {
      var n := |visits| - 1;
      FlattenKeys(visits[..n], ready);
      VisitKeys(visits[n], ready);
      forall c | c in Flatten(visits)
        ensures exists k :: 0 <= k < |visits| && CandidateKey(c, ready) == GroupKey(visits[k].group, ready)
      {
        if c in Flatten(visits[..n]) {
          var k :| 0 <= k < n && CandidateKey(c, ready) == GroupKey(visits[..n][k].group, ready);
          assert visits[k] == visits[..n][k];
        } else {
          assert c in VisitCandidates(visits[n]);
        }
      }
    }
  }

  lemma {:induction false} SortedFlatten(visits: seq<Visit>, ready: u64)
    requires VisitsSorted(visits, ready)
    ensures KeysSorted(Flatten(visits), ready)
  {
    hide GroupKey, CandidateKey, VisitCandidates, LexLe;
    if visits != [] {
      var n := |visits| - 1;
      SortedFlatten(visits[..n], ready);
      FlattenKeys(visits[..n], ready);
      VisitKeys(visits[n], ready);
      var before, all := Flatten(visits[..n]), Flatten(visits);
      forall i, j | 0 <= i < j < |all| ensures LexLe(CandidateKey(all[i], ready), CandidateKey(all[j], ready)) {
        if i < |before| <= j {
          assert all[i] in before && all[j] in VisitCandidates(visits[n]);
          var k :| 0 <= k < n && CandidateKey(all[i], ready) == GroupKey(visits[..n][k].group, ready);
          assert visits[k] == visits[..n][k];
        } else if |before| <= i {
          assert all[i] in VisitCandidates(visits[n]) && all[j] in VisitCandidates(visits[n]);
          SelfLe(GroupKey(visits[n].group, ready));
        }
      }
    }
  }

  /** When the datagrams already queued have left, in microseconds. */
  function ReadyAt(state: QueueState): nat {
    Min(state.nowUs + state.queueDelayUs, U64_MAX)
  }

  /** Candidates come up in order: class, importance, deadline, stream, frame, source before repair. */
  lemma AdmittedInOrder(frames: seq<FrameSchedule>, policy: Policy, state: QueueState, i: nat, j: nat)
    requires i < j < |Admitted(frames, policy, state)|
    ensures InOrder(Admitted(frames, policy, state)[i], Admitted(frames, policy, state)[j], ReadyAt(state))
  {
    hide Admitted, CandidateKey, LexLe, InOrder;
    AdmittedSorted(frames, policy, state);
    var admitted := Admitted(frames, policy, state);
    KeyIsOrder(admitted[i], admitted[j], ReadyAt(state));
  }

  lemma AdmittedSorted(frames: seq<FrameSchedule>, policy: Policy, state: QueueState)
    ensures KeysSorted(Admitted(frames, policy, state), ContextOf(policy, state).ready)
  {
    hide StableSort, GroupsOf, VisitsOf, Flatten, KeyOrder, CandidateKey, GroupKey, LexLe;
    var ready := ContextOf(policy, state).ready;
    KeyOrderIsTotal(ready);
    SortSorts(KeyOrder(ready), GroupsOf(Prefix(frames, HARD_MAX_FRAMES)));
    var visits := VisitsOf(SortedGroups(frames, ready));
    SortedVisits(SortedGroups(frames, ready), ready);
    assert VisitsSorted(Prefix(visits, HARD_MAX_BLOCK_VISITS), ready);
    SortedFlatten(Prefix(visits, HARD_MAX_BLOCK_VISITS), ready);
  }

  // ----- verdicts by position

  /** How many are scheduled when candidate `i` comes up. */
  function Count(ctx: Context, candidates: seq<Candidate>, i: nat): nat
    requires i <= |candidates|
  {
    |PlanAfter(ctx, candidates[..i]).scheduled|
  }

  function VerdictAt(ctx: Context, candidates: seq<Candidate>, i: nat): Verdict
    requires i < |candidates|
  {
    Judge(ctx, Count(ctx, candidates, i), candidates[i])
  }

  lemma CountStep(ctx: Context, candidates: seq<Candidate>, i: nat)
    requires i < |candidates|
    ensures Count(ctx, candidates, i + 1)
            == Count(ctx, candidates, i) + if VerdictAt(ctx, candidates, i).Schedule? then 1 else 0
  {
    hide Judge;
    PlanNext(ctx, candidates, i);
  }

  lemma {:induction false} CountGrows(ctx: Context, candidates: seq<Candidate>, i: nat, j: nat)
    requires i <= j <= |candidates|
    ensures Count(ctx, candidates, i) <= Count(ctx, candidates, j)
    decreases j - i
  {
    hide Count, VerdictAt;
    if i < j {
      CountGrows(ctx, candidates, i, j - 1);
      CountStep(ctx, candidates, j - 1);
    }
  }

  lemma {:induction false} CountWithinCapacity(ctx: Context, candidates: seq<Candidate>, i: nat)
    requires i <= |candidates|
    ensures Count(ctx, candidates, i) <= ctx.capacity
  {
    hide Count;
    if i > 0 {
      CountWithinCapacity(ctx, candidates, i - 1);
      CountStep(ctx, candidates, i - 1);
    } else {
      NothingCounted(ctx, candidates);
    }
  }

  lemma NothingCounted(ctx: Context, candidates: seq<Candidate>)
    ensures Count(ctx, candidates, 0) == 0
  {
  }

  /** Entry `k` of the schedule is candidate `i`. */
  ghost predicate ScheduledAt(ctx: Context, candidates: seq<Candidate>, k: nat, i: nat) {
    && i < |candidates| && k < |PlanAfter(ctx, candidates).scheduled|
    && VerdictAt(ctx, candidates, i).Schedule? && Count(ctx, candidates, i) == k
    && PlanAfter(ctx, candidates).scheduled[k] == Scheduled(candidates[i], SendAfter(ctx, k))
  }

  lemma {:induction false} ScheduledPosition(ctx: Context, candidates: seq<Candidate>, k: nat) returns (i: nat)
    requires k < |PlanAfter(ctx, candidates).scheduled|
    ensures ScheduledAt(ctx, candidates, k, i)
    decreases |candidates|
  {
    hide SendAfter, Judge;
    var n := |candidates| - 1;
    var before := candidates[..n];
    assert candidates[..n + 1] == candidates;
    PlanNext(ctx, candidates, n);
    if k < |PlanAfter(ctx, before).scheduled| {
      i := ScheduledPosition(ctx, before, k);
      assert before[..i] == candidates[..i];
    } else {
      i := n;
    }
  }

  /** The schedule keeps the order in which the candidates came up. */
  lemma ScheduleKeepsOrder(ctx: Context, candidates: seq<Candidate>, k: nat, l: nat) returns (i: nat, j: nat)
    requires k < l < |PlanAfter(ctx, candidates).scheduled|
    ensures i < j && ScheduledAt(ctx, candidates, k, i) && ScheduledAt(ctx, candidates, l, j)
  {
    hide SendAfter, Judge, PlanAfter;
    i := ScheduledPosition(ctx, candidates, k);
    j := ScheduledPosition(ctx, candidates, l);
    if j <= i {
      CountGrows(ctx, candidates, j, i);
    }
  }

  // ----- order

  /**
   The schedule is in order, in all six respects; in particular a repair comes before a source exactly if
   it is initialization, configuration, keyframe or audio repair within 5 ms of its deadline and the
   source is delta or data.
   */
  lemma ScheduleInPriorityOrder(frames: seq<FrameSchedule>, policy: Policy, state: QueueState, k: nat, l: nat)
    requires k < l < |PlanOf(frames, policy, state).scheduled|
    ensures var c := PlanOf(frames, policy, state).scheduled[k].candidate;
            var d := PlanOf(frames, policy, state).scheduled[l].candidate;
            && InOrder(c, d, ReadyAt(state))
            && (c.send.role.RepairRole? && d.send.role.SourceRole? ==> Rescue(c, ReadyAt(state)) && OtherSource(d))
            && (c.send.role.SourceRole? && d.send.role.RepairRole? ==> !(OtherSource(c) && Rescue(d, ReadyAt(state))))
  {
    hide ContextOf, Admitted, LimitReached, PlanAfter, LexLe;
    var ctx, candidates := ContextOf(policy, state), Admitted(frames, policy, state);
    var i, j := ScheduleKeepsOrder(ctx, candidates, k, l);
    AdmittedInOrder(frames, policy, state, i, j);
  }

  /** A live candidate held back for capacity came after, and so does not outrank, anything scheduled. */
  lemma BlockedNeverOutranks(frames: seq<FrameSchedule>, policy: Policy, state: QueueState, i: nat, j: nat)
    requires var ctx, candidates := ContextOf(policy, state), Admitted(frames, policy, state);
             && i < |candidates| && j < |candidates|
             && VerdictAt(ctx, candidates, i).Block? && VerdictAt(ctx, candidates, j).Schedule?
    ensures j < i
    ensures InOrder(Admitted(frames, policy, state)[j], Admitted(frames, policy, state)[i], ReadyAt(state))
  {
    hide ContextOf, Admitted, PlanAfter, InOrder, Count;
    var ctx, candidates := ContextOf(policy, state), Admitted(frames, policy, state);
    if i < j {
      CountGrows(ctx, candidates, i, j);
      CountWithinCapacity(ctx, candidates, j);
    }
    AdmittedInOrder(frames, policy, state, j, i);
  }

  // ----- time

  lemma SatMulGrows(m: nat, n: nat, c: nat)
    requires m <= n
    ensures SatMul(m, c) <= SatMul(n, c)
  {
    MulAtMost(m, n, c);
  }

  lemma SendAtGrows(ctx: Context, m: nat, n: nat)
    requires m <= n
    ensures SendAt(ctx, m) <= SendAt(ctx, n)
  {
    hide SatMul;
    SatMulGrows(m, n, ctx.spacingUs);
  }

  /**
   Once a candidate was dropped as expired, no later candidate with the same or an earlier deadline
   is scheduled.
   */
  lemma ExpiredStaysExpired(ctx: Context, candidates: seq<Candidate>, i: nat, j: nat)
    requires i < j < |candidates| && VerdictAt(ctx, candidates, i) == Drop(Expired)
    requires candidates[j].deadline <= candidates[i].deadline
    ensures !VerdictAt(ctx, candidates, j).Schedule?
  {
    hide Count, SendAt;
    CountGrows(ctx, candidates, i, j);
    SendAtGrows(ctx, Count(ctx, candidates, i), Count(ctx, candidates, j));
    ReadyFirst(ctx, Count(ctx, candidates, i));
  }

  lemma ReadyFirst(ctx: Context, n: nat)
    ensures ctx.ready <= SendAt(ctx, n)
  {
  }

  /**
   Entry `k` is sent exactly `k` spacings after the queue drains, strictly before its deadline, and
   nothing in that sum saturates.
   */
  lemma SchedulePacedInTime(frames: seq<FrameSchedule>, policy: Policy, state: QueueState, k: nat)
    requires k < |PlanOf(frames, policy, state).scheduled|
    ensures var entry := PlanOf(frames, policy, state).scheduled[k];
            && entry.sendAfterUs == k * policy.minSpacingUs
            && state.nowUs + state.queueDelayUs + entry.sendAfterUs < entry.candidate.deadline
  {
    hide Admitted, LimitReached, PlanAfter, Count;
    var ctx, candidates := ContextOf(policy, state), Admitted(frames, policy, state);
    var i := ScheduledPosition(ctx, candidates, k);
    assert !ExpiredAt(candidates[i].deadline, SendAt(ctx, k));
  }

  ghost predicate ExpiredWhenUp(ctx: Context, candidates: seq<Candidate>, i: nat, c: Candidate) {
    i < |candidates| && candidates[i] == c && c.deadline <= SendAt(ctx, Count(ctx, candidates, i))
  }

  ghost predicate DropJustified(ctx: Context, candidates: seq<Candidate>, dropped: Dropped) {
    match dropped.reason
    case Expired => exists i: nat :: ExpiredWhenUp(ctx, candidates, i, dropped.candidate)
    case StaleDeltaRepair =>
      Stale(ctx, dropped.candidate) && ctx.ready < dropped.candidate.deadline && dropped.candidate in candidates
  }

  /**
   Every drop is justified: an expired one could not have been sent in time after what was already
   scheduled when it came up, a stale one is a delta repair behind a queue delay over the threshold.
   */
  lemma {:induction false} DropsJustified(ctx: Context, candidates: seq<Candidate>)
    ensures forall d | d in PlanAfter(ctx, candidates).dropped :: DropJustified(ctx, candidates, d)
  {
    hide SendAfter, SendAt, Stale;
    if candidates != [] {
      var n := |candidates| - 1;
      var before := candidates[..n];
      assert candidates[..n + 1] == candidates;
      PlanNext(ctx, candidates, n);
      DropsJustified(ctx, before);
      ReadyFirst(ctx, Count(ctx, candidates, n));
      forall d | d in PlanAfter(ctx, candidates).dropped ensures DropJustified(ctx, candidates, d) {
        if d in PlanAfter(ctx, before).dropped {
          if d.reason.Expired? {
            var i: nat :| ExpiredWhenUp(ctx, before, i, d.candidate);
            assert before[..i] == candidates[..i];
            assert ExpiredWhenUp(ctx, candidates, i, d.candidate);
          }
        } else if d.reason.Expired? {
          assert ExpiredWhenUp(ctx, candidates, n, d.candidate);
        }
      }
    }
  }

  // ----- accounting

  function ScheduledCandidates(scheduled: seq<Scheduled>): (cs: seq<Candidate>)
    ensures |cs| == |scheduled| && forall i | 0 <= i < |cs| :: cs[i] == scheduled[i].candidate
  {
    seq(|scheduled|, i requires 0 <= i < |scheduled| => scheduled[i].candidate)
  }

  function DroppedCandidates(dropped: seq<Dropped>): (cs: seq<Candidate>)
    ensures |cs| == |dropped| && forall i | 0 <= i < |cs| :: cs[i] == dropped[i].candidate
  {
    seq(|dropped|, i requires 0 <= i < |dropped| => dropped[i].candidate)
  }

  lemma AdmitAccounts(ctx: Context, plan: Plan, c: Candidate)
    ensures var plan' := Admit(ctx, plan, c);
            match Judge(ctx, |plan.scheduled|, c)
            case Schedule =>
              && plan'.dropped == plan.dropped && plan'.blocked == plan.blocked
              && ScheduledCandidates(plan'.scheduled) == ScheduledCandidates(plan.scheduled) + [c]
            case Drop(_) =>
              && plan'.scheduled == plan.scheduled && plan'.blocked == plan.blocked
              && DroppedCandidates(plan'.dropped) == DroppedCandidates(plan.dropped) + [c]
            case Block => plan' == plan.(blocked := plan.blocked + 1)
  {
    hide Judge, SendAfter;
  }

  /** Every candidate is scheduled, dropped or held back, each exactly once. */
  lemma {:induction false} PlanAccounts(ctx: Context, candidates: seq<Candidate>)
    ensures var plan := PlanAfter(ctx, candidates);
            && |plan.scheduled| + |plan.dropped| + plan.blocked == |candidates|
            && multiset(ScheduledCandidates(plan.scheduled)) + multiset(DroppedCandidates(plan.dropped)) <= multiset(candidates)
            && |plan.scheduled| <= ctx.capacity
  {
    hide Judge, SendAfter, Admit, ScheduledCandidates, DroppedCandidates;
    if candidates != [] {
      var n := |candidates| - 1;
      var before, c := candidates[..n], candidates[n];
      PlanAccounts(ctx, before);
      assert candidates[..n + 1] == candidates;
      PlanNext(ctx, candidates, n);
      AdmitAccounts(ctx, PlanAfter(ctx, before), c);
      CountWithinCapacity(ctx, candidates, |candidates|);
      assert candidates == before + [c];
    } else {
      NothingPlanned(ctx);
    }
  }

  lemma NothingPlanned(ctx: Context)
    ensures var plan := PlanAfter(ctx, []);
            plan == EMPTY_PLAN && ScheduledCandidates(plan.scheduled) == [] == DroppedCandidates(plan.dropped)
  {
  }

  /** Positions whose candidates are held back for capacity. */
  ghost function BlockedPositions(ctx: Context, candidates: seq<Candidate>): set<nat> {
    set i: nat | i < |candidates| && VerdictAt(ctx, candidates, i).Block?
  }

  lemma SameVerdict(ctx: Context, candidates: seq<Candidate>, n: nat, i: nat)
    requires i < n <= |candidates|
    ensures VerdictAt(ctx, candidates[..n], i) == VerdictAt(ctx, candidates, i)
  {
    assert candidates[..n][..i] == candidates[..i];
  }

  /** The plan's verdicts are those by position: the drops in order, and the number held back. */
  lemma {:induction false} VerdictsAreThePlan(ctx: Context, candidates: seq<Candidate>)
    ensures PlanAfter(ctx, candidates).blocked == |BlockedPositions(ctx, candidates)|
    ensures forall i | 0 <= i < |candidates| && VerdictAt(ctx, candidates, i).Drop? ::
              Dropped(candidates[i], VerdictAt(ctx, candidates, i).reason) in PlanAfter(ctx, candidates).dropped
  {
    hide Judge, SendAfter, Admit, VerdictAt;
    var plan := PlanAfter(ctx, candidates);
    if candidates == [] {
      NothingPlanned(ctx);
      assert BlockedPositions(ctx, candidates) == {};
    } else {
      var n := |candidates| - 1;
      var before := candidates[..n];
      VerdictsAreThePlan(ctx, before);
      assert candidates[..n + 1] == candidates;
      PlanNext(ctx, candidates, n);
      AdmitAccounts(ctx, PlanAfter(ctx, before), candidates[n]);
      LastVerdict(ctx, candidates);
      forall i: nat | i < n ensures VerdictAt(ctx, before, i) == VerdictAt(ctx, candidates, i) && before[i] == candidates[i] {
        SameVerdict(ctx, candidates, n, i);
      }
      var last: set<nat> := if VerdictAt(ctx, candidates, n).Block? then {n} else {};
      assert BlockedPositions(ctx, candidates) == BlockedPositions(ctx, before) + last;
    }
  }

  lemma LastVerdict(ctx: Context, candidates: seq<Candidate>)
    requires candidates != []
    ensures var n := |candidates| - 1;
            var before := PlanAfter(ctx, candidates[..n]);
            && VerdictAt(ctx, candidates, n) == Judge(ctx, |before.scheduled|, candidates[n])
            && (VerdictAt(ctx, candidates, n).Drop? ==>
                  PlanAfter(ctx, candidates).dropped
                  == before.dropped + [Dropped(candidates[n], VerdictAt(ctx, candidates, n).reason)])
            && (!VerdictAt(ctx, candidates, n).Drop? ==> PlanAfter(ctx, candidates).dropped == before.dropped)
  {
    hide Judge, SendAfter;
    assert candidates[..|candidates| - 1 + 1] == candidates;
  }

  /** Everything admitted is scheduled, dropped or held back, within all the limits. */
  lemma PlanIsAccountedFor(frames: seq<FrameSchedule>, policy: Policy, state: QueueState)
    ensures var plan := PlanOf(frames, policy, state);
            var admitted := Admitted(frames, policy, state);
            && |plan.scheduled| + |plan.dropped| + plan.blocked == |admitted|
            && multiset(ScheduledCandidates(plan.scheduled)) + multiset(DroppedCandidates(plan.dropped)) <= multiset(admitted)
            && |admitted| <= Min(Max(policy.maxPerPlan, 1), 65_536)
            && |plan.scheduled| <= SatSub(Min(policy.maxInFlight, Min(Max(policy.maxPerPlan, 1), 65_536)), state.inFlight)
  {
    hide Queue, PlanAfter, LimitReached;
    PlanAccounts(ContextOf(policy, state), Admitted(frames, policy, state));
  }

  // ----- completeness

  /** Every datagram of a frame as a candidate, in encoded order. */
  function FrameCandidates(s: FrameSchedule): seq<Candidate> {
    CandidatesOf(Group(s.frame, SourceRole, KindOfFrame(s.frame), s.deadline), BlockByBlock(s.frame.blocks))
  }

  function AllCandidates(frames: seq<FrameSchedule>): seq<Candidate> {
    if frames == [] then [] else AllCandidates(frames[..|frames| - 1]) + FrameCandidates(frames[|frames| - 1])
  }

  function GroupCandidates(g: Group): seq<Candidate> {
    CandidatesOf(g, EntriesOf(g.frame.blocks, g.role))
  }

  lemma {:induction false} FlattenConcat(a: seq<Visit>, b: seq<Visit>)
    ensures Flatten(a + b) == Flatten(a) + Flatten(b)
    decreases |b|
  {
    hide VisitCandidates;
    if b == [] {
      assert a + b == a;
    } else {
      var n := |b| - 1;
      FlattenConcat(a, b[..n]);
      assert (a + b)[..|a + b| - 1] == a + b[..n];
    }
  }

  /** The visits of a group bring exactly its role's entries. */
  lemma {:induction false} VisitsBring(g: Group, blocks: seq<MediaBlock>)
    ensures Flatten(GroupVisits(g, blocks)) == CandidatesOf(g, EntriesOf(blocks, g.role))
  {
    hide Entries;
    if blocks != [] {
      var n := |blocks| - 1;
      VisitsBring(g, blocks[..n]);
      assert blocks == blocks[..n] + [blocks[n]];
      EntriesOfAppend(blocks[..n], blocks[n], g.role);
      assert GroupVisits(g, blocks)[..n] == GroupVisits(g, blocks[..n]);
    }
  }

  /** The candidates of these groups, in no particular order. */
  function GroupBag(groups: seq<Group>): multiset<Candidate> {
    if groups == [] then multiset{} else multiset(GroupCandidates(groups[0])) + GroupBag(groups[1..])
  }

  lemma {:induction false} BagConcat(a: seq<Group>, b: seq<Group>)
    ensures GroupBag(a + b) == GroupBag(a) + GroupBag(b)
  {
    hide GroupCandidates;
    if a == [] {
      assert a + b == b;
    } else {
      assert (a + b)[1..] == a[1..] + b;
      BagConcat(a[1..], b);
    }
  }

  lemma OneGroup(g: Group)
    ensures GroupBag([g]) == multiset(GroupCandidates(g))
  {
    assert [g][1..] == [];
  }

  lemma {:induction false} BagOfVisits(groups: seq<Group>)
    ensures multiset(Flatten(VisitsOf(groups))) == GroupBag(groups)
    decreases |groups|
  {
    hide Flatten, CandidatesOf;
    if groups == [] {
      assert Flatten([]) == [] by { FlattenNothing(); }
    } else {
      var n := |groups| - 1;
      BagOfVisits(groups[..n]);
      FlattenConcat(VisitsOf(groups[..n]), GroupVisits(groups[n], groups[n].frame.blocks));
      VisitsBring(groups[n], groups[n].frame.blocks);
      assert groups == groups[..n] + [groups[n]];
      BagConcat(groups[..n], [groups[n]]);
      OneGroup(groups[n]);
    }
  }

  lemma FlattenNothing()
    ensures Flatten([]) == []
  {
  }

  lemma {:induction false} BagOfInsert(le: (Group, Group) -> bool, x: Group, s: seq<Group>)
    ensures GroupBag(InsertSorted(le, x, s)) == multiset(GroupCandidates(x)) + GroupBag(s)
  {
    hide GroupCandidates;
    if s != [] && !le(x, s[0]) {
      BagOfInsert(le, x, s[1..]);
    } else {
      BagConcat([x], s);
      OneGroup(x);
    }
  }

  lemma {:induction false} BagOfSort(le: (Group, Group) -> bool, s: seq<Group>)
    ensures GroupBag(StableSort(le, s)) == GroupBag(s)
  {
    hide GroupCandidates;
    if s != [] {
      BagOfSort(le, s[1..]);
      BagOfInsert(le, s[0], StableSort(le, s[1..]));
    }
  }

  lemma CandidatesConcat(g: Group, a: seq<Send>, b: seq<Send>)
    ensures CandidatesOf(g, a + b) == CandidatesOf(g, a) + CandidatesOf(g, b)
  {
  }

  /** A frame's two groups together bring each of its datagrams once. */
  lemma {:induction false} RolesBringAll(g: Group, blocks: seq<MediaBlock>)
    ensures multiset(CandidatesOf(g, EntriesOf(blocks, SourceRole))) + multiset(CandidatesOf(g, EntriesOf(blocks, RepairRole)))
            == multiset(CandidatesOf(g, BlockByBlock(blocks)))
  {
    hide Entries, CandidatesOf;
    if blocks == [] {
      NoSends(g);
    } else {
      RolesBringAll(g, blocks[1..]);
      var sources, repairs := Entries(blocks[0], SourceRole), Entries(blocks[0], RepairRole);
      CandidatesConcat(g, sources, EntriesOf(blocks[1..], SourceRole));
      CandidatesConcat(g, repairs, EntriesOf(blocks[1..], RepairRole));
      CandidatesConcat(g, sources, repairs);
      CandidatesConcat(g, sources + repairs, BlockByBlock(blocks[1..]));
    }
  }

  lemma NoSends(g: Group)
    ensures CandidatesOf(g, []) == []
  {
  }

  lemma FrameBag(s: FrameSchedule)
    ensures GroupBag(FrameGroups(s)) == multiset(FrameCandidates(s))
  {
    hide EntriesOf, BlockByBlock, KindOfFrame;
    var groups := FrameGroups(s);
    RolesBringAll(groups[0], s.frame.blocks);
    assert CandidatesOf(groups[1], EntriesOf(s.frame.blocks, RepairRole))
        == CandidatesOf(groups[0], EntriesOf(s.frame.blocks, RepairRole));
    assert groups == [groups[0]] + [groups[1]];
    BagConcat([groups[0]], [groups[1]]);
    OneGroup(groups[0]);
    OneGroup(groups[1]);
  }

  lemma {:induction false} BagOfFrames(frames: seq<FrameSchedule>)
    ensures GroupBag(GroupsOf(frames)) == multiset(AllCandidates(frames))
    decreases |frames|
  {
    hide FrameGroups, FrameCandidates, GroupBag;
    if frames == [] {
      NoGroups();
    } else {
      var n := |frames| - 1;
      BagOfFrames(frames[..n]);
      FrameBag(frames[n]);
      BagConcat(GroupsOf(frames[..n]), FrameGroups(frames[n]));
    }
  }

  lemma NoGroups()
    ensures GroupBag([]) == multiset{}
  {
  }

  /**
   When the plan limit was not reached, every datagram of every frame was decided on exactly once: the
   candidates are, up to their order, all frames' datagrams.
   */
  lemma PlanIsComplete(frames: seq<FrameSchedule>, policy: Policy, state: QueueState)
    requires !PlanOf(frames, policy, state).limitReached
    ensures multiset(Admitted(frames, policy, state)) == multiset(AllCandidates(frames))
  {
    hide StableSort, GroupsOf, VisitsOf, Flatten, KeyOrder, GroupBag, AllCandidates, PlanAfter;
    var ready := ContextOf(policy, state).ready;
    var sorted := SortedGroups(frames, ready);
    assert Prefix(frames, HARD_MAX_FRAMES) == frames;
    assert Prefix(VisitsOf(sorted), HARD_MAX_BLOCK_VISITS) == VisitsOf(sorted);
    assert Admitted(frames, policy, state) == Queue(frames, ready);
    BagOfVisits(sorted);
    BagOfSort(KeyOrder(ready), GroupsOf(frames));
    BagOfFrames(frames);
  }

  // ----- one frame

  lemma OneFrameSorted(s: FrameSchedule, ready: u64)
    ensures SortedGroups([s], ready) == FrameGroups(s)
  {
    hide KindOfFrame, KeyOrder, StableSort, GroupsOf;
    assert Prefix([s], HARD_MAX_FRAMES) == [s];
    OneFrameGroups(s);
    SourceGroupFirst(s, ready);
    SortOfSorted(KeyOrder(ready), FrameGroups(s));
  }

  lemma OneFrameGroups(s: FrameSchedule)
    ensures GroupsOf([s]) == FrameGroups(s)
  {
    hide KindOfFrame;
    assert [s][..0] == [] && GroupsOf([]) == [];
    assert [] + FrameGroups(s) == FrameGroups(s);
  }

  lemma SourceGroupFirst(s: FrameSchedule, ready: u64)
    ensures KeyOrder(ready)(FrameGroups(s)[0], FrameGroups(s)[1])
  {
  }

  /** The datagrams of one frame come up in source-first order. */
  lemma OneFrameQueue(s: FrameSchedule, ready: u64)
    requires 2 * |s.frame.blocks| <= HARD_MAX_BLOCK_VISITS
    ensures Queue([s], ready) == CandidatesOf(FrameGroups(s)[0], MediaLayout.SendPlan(s.frame.blocks, SourceFirst))
    ensures |VisitsOf(SortedGroups([s], ready))| <= HARD_MAX_BLOCK_VISITS
  {
    hide KindOfFrame, Flatten, EntriesOf, SortedGroups;
    OneFrameSorted(s, ready);
    var groups, blocks := FrameGroups(s), s.frame.blocks;
    var first, second := GroupVisits(groups[0], blocks), GroupVisits(groups[1], blocks);
    assert groups[..1] == [groups[0]] && [groups[0]][..0] == [];
    assert VisitsOf([groups[0]]) == VisitsOf([]) + first;
    assert VisitsOf(groups) == first + second;
    assert Prefix(first + second, HARD_MAX_BLOCK_VISITS) == first + second;
    FlattenConcat(first, second);
    VisitsBring(groups[0], blocks);
    VisitsBring(groups[1], blocks);
    assert CandidatesOf(groups[1], EntriesOf(blocks, RepairRole)) == CandidatesOf(groups[0], EntriesOf(blocks, RepairRole));
    CandidatesConcat(groups[0], EntriesOf(blocks, SourceRole), EntriesOf(blocks, RepairRole));
  }

  /** Nothing is dropped or held back exactly when each candidate could go right after those before it. */
  lemma {:induction false} AllScheduled(ctx: Context, candidates: seq<Candidate>)
    ensures var plan := PlanAfter(ctx, candidates);
            && (plan.dropped == [] && plan.blocked == 0 <==>
                  forall i | 0 <= i < |candidates| :: Judge(ctx, i, candidates[i]).Schedule?)
            && (plan.dropped == [] && plan.blocked == 0 ==> ScheduledCandidates(plan.scheduled) == candidates)
    decreases |candidates|
  {
    hide Judge, SendAfter, Admit, ScheduledCandidates, DroppedCandidates;
    if candidates == [] {
      NothingPlanned(ctx);
    } else {
      var n := |candidates| - 1;
      var before := candidates[..n];
      AllScheduled(ctx, before);
      assert candidates[..n + 1] == candidates;
      PlanNext(ctx, candidates, n);
      AdmitAccounts(ctx, PlanAfter(ctx, before), candidates[n]);
      PlanAccounts(ctx, before);
      assert forall i | 0 <= i < n :: candidates[i] == before[i];
    }
  }

  /** No drop or capacity rule applies to a frame of `n` datagrams. */
  ghost predicate NoRuleInForce(ctx: Context, s: FrameSchedule, sends: seq<Send>) {
    && |sends| <= ctx.capacity
    && (sends != [] ==> SendAt(ctx, |sends| - 1) < s.deadline)
    && (KindOfFrame(s.frame).VideoDeltaObject? && ctx.queueDelayUs >= ctx.staleUs ==>
          forall i | 0 <= i < |sends| :: sends[i].role.SourceRole?)
  }

  lemma FullIsFull(ctx: Context, c: Candidate)
    ensures !Judge(ctx, ctx.capacity, c).Schedule?
  {
  }

  lemma {:induction false} RulesOfOneFrame(ctx: Context, s: FrameSchedule, sends: seq<Send>)
    ensures NoRuleInForce(ctx, s, sends) <==>
              forall i | 0 <= i < |sends| :: Judge(ctx, i, CandidateOf(FrameGroups(s)[0], sends[i])).Schedule?
  {
    hide KindOfFrame, SendAt;
    forall i | 0 <= i < |sends| ensures ctx.ready <= SendAt(ctx, i) <= SendAt(ctx, |sends| - 1) {
      ReadyFirst(ctx, i);
      SendAtGrows(ctx, i, |sends| - 1);
    }
    if forall i | 0 <= i < |sends| :: Judge(ctx, i, CandidateOf(FrameGroups(s)[0], sends[i])).Schedule? {
      if |sends| > ctx.capacity {
        FullIsFull(ctx, CandidateOf(FrameGroups(s)[0], sends[ctx.capacity]));
      }
      if sends != [] {
        assert Judge(ctx, |sends| - 1, CandidateOf(FrameGroups(s)[0], sends[|sends| - 1])).Schedule?;
      }
    }
  }

  /**
   For one frame within the work limits the plan schedules exactly the source-first order, entry by
   entry, if and only if no capacity, deadline or stale rule is in force.
   */
  lemma OneFrameIsSourceFirst(s: FrameSchedule, policy: Policy, state: QueueState)
    requires 2 * |s.frame.blocks| <= HARD_MAX_BLOCK_VISITS
    requires |MediaLayout.SendPlan(s.frame.blocks, SourceFirst)| <= policy.Normalized().maxPerPlan
    ensures var plan := PlanOf([s], policy, state);
            var sends := MediaLayout.SendPlan(s.frame.blocks, SourceFirst);
            && !plan.limitReached
            && (NoRuleInForce(ContextOf(policy, state), s, sends) <==> plan.dropped == [] && plan.blocked == 0)
            && (NoRuleInForce(ContextOf(policy, state), s, sends) ==>
                  |plan.scheduled| == |sends| && forall i | 0 <= i < |sends| :: plan.scheduled[i].candidate.send == sends[i])
  {
    hide ContextOf, Queue, PlanAfter, Judge, NoRuleInForce, MediaLayout.SendPlan, KindOfFrame, SortedGroups, VisitsOf;
    var ctx, sends := ContextOf(policy, state), MediaLayout.SendPlan(s.frame.blocks, SourceFirst);
    OneFrameQueue(s, ctx.ready);
    var candidates := CandidatesOf(FrameGroups(s)[0], sends);
    assert Admitted([s], policy, state) == candidates;
    AllScheduled(ctx, candidates);
    RulesOfOneFrame(ctx, s, sends);
    var plan := PlanAfter(ctx, candidates);
    if plan.dropped == [] && plan.blocked == 0 {
      forall i | 0 <= i < |sends| ensures plan.scheduled[i].candidate.send == sends[i] {
        assert ScheduledCandidates(plan.scheduled)[i] == candidates[i];
      }
    }
  }
}
