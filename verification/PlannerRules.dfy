/** The planner's decisions and limits in terms of its inputs. */
module PlannerRules {
  import opened Collections
  import opened MachineInts
  import opened MediaEncoding
  import opened MediaLayout
  import opened Planner
  import opened PlannerGuarantees
  import opened Wrappers

  // ----- decisions

  /** At most this many datagrams are decided on. */
  function PlanLimit(policy: Policy): nat {
    if policy.maxPerPlan == 0 then 1 else if policy.maxPerPlan > 65_536 then 65_536 else policy.maxPerPlan
  }

  /** At most this many are scheduled: what the in-flight limit, and the plan limit, leave free. */
  function Free(policy: Policy, state: QueueState): nat {
    var limit := if policy.maxInFlight < PlanLimit(policy) then policy.maxInFlight else PlanLimit(policy);
    if limit <= state.inFlight then 0 else limit - state.inFlight
  }

  /** A delta repair behind a queue at least as long as the policy allows. */
  predicate TooLate(policy: Policy, state: QueueState, c: Candidate) {
    && c.kind.VideoDeltaObject? && c.send.role.RepairRole?
    && state.queueDelayUs >= policy.staleDeltaRepairDelayMs * 1_000
  }

  /** It would be sent before its deadline, after `n` others. */
  predicate InTime(policy: Policy, state: QueueState, c: Candidate, n: nat) {
    state.nowUs + state.queueDelayUs + n * policy.minSpacingUs < c.deadline
  }

  /** What the planner decides on `c` when `n` datagrams are scheduled. */
  ghost predicate Decided(policy: Policy, state: QueueState, c: Candidate, n: nat, v: Verdict) {
    if !InTime(policy, state, c, 0) then v == Drop(Expired)
    else if TooLate(policy, state, c) then v == Drop(StaleDeltaRepair)
    else if n == Free(policy, state) then v == Block
    else if !InTime(policy, state, c, n) then v == Drop(Expired)
    else v == Schedule
  }

  lemma SumsSaturate(policy: Policy, state: QueueState, deadline: u64, n: nat)
    ensures deadline <= SendAt(ContextOf(policy, state), n)
            <==> deadline <= state.nowUs + state.queueDelayUs + n * policy.minSpacingUs
  {
    assert n * policy.minSpacingUs >= 0;
  }

  lemma ContextIs(policy: Policy, state: QueueState)
    ensures var ctx := ContextOf(policy, state);
            && ctx.capacity == Free(policy, state) && ctx.staleUs == policy.staleDeltaRepairDelayMs * 1_000
            && ctx.queueDelayUs == state.queueDelayUs && ctx.spacingUs == policy.minSpacingUs
            && policy.Normalized().maxPerPlan == PlanLimit(policy)
  {
  }

  /** Every decision follows the rules, counted from what was scheduled before it. */
  lemma VerdictsFollowRules(frames: seq<FrameSchedule>, policy: Policy, state: QueueState, i: nat)
    requires i < |Admitted(frames, policy, state)|
    ensures var candidates := Admitted(frames, policy, state);
            Decided(policy, state, candidates[i], ScheduledBefore(frames, policy, state, i),
                    VerdictAt(ContextOf(policy, state), candidates, i))
  {
    hide ContextOf, Admitted, Free, SendAt;
    var ctx, candidates := ContextOf(policy, state), Admitted(frames, policy, state);
    var n := Count(ctx, candidates, i);
    CountIsScheduled(ctx, candidates, i);
    ContextIs(policy, state);
    SumsSaturate(policy, state, candidates[i].deadline, n);
    SumsSaturate(policy, state, candidates[i].deadline, 0);
    ReadyIsSendAt(ctx);
    hide Count;
  }

  lemma ReadyIsSendAt(ctx: Context)
    ensures SendAt(ctx, 0) == ctx.ready
  {
  }

  /** How many of the first `i` candidates were scheduled. */
  ghost function ScheduledBefore(frames: seq<FrameSchedule>, policy: Policy, state: QueueState, i: nat): nat
    requires i <= |Admitted(frames, policy, state)|
  {
    |ScheduledPositions(ContextOf(policy, state), Admitted(frames, policy, state), i)|
  }

  ghost function ScheduledPositions(ctx: Context, candidates: seq<Candidate>, n: nat): set<nat>
    requires n <= |candidates|
  {
    set i: nat | i < n && VerdictAt(ctx, candidates, i).Schedule?
  }

  lemma {:induction false} CountIsScheduled(ctx: Context, candidates: seq<Candidate>, n: nat)
    requires n <= |candidates|
    ensures Count(ctx, candidates, n) == |ScheduledPositions(ctx, candidates, n)|
  {
    hide Count, VerdictAt;
    if n == 0 {
      NothingCounted(ctx, candidates);
      assert ScheduledPositions(ctx, candidates, 0) == {};
    } else {
      CountIsScheduled(ctx, candidates, n - 1);
      CountStep(ctx, candidates, n - 1);
      var before, now := ScheduledPositions(ctx, candidates, n - 1), ScheduledPositions(ctx, candidates, n);
      if VerdictAt(ctx, candidates, n - 1).Schedule? {
        assert now == before + {n - 1};
      } else {
        assert now == before;
      }
    }
  }

  lemma {:induction false} ScheduledInPlan(ctx: Context, candidates: seq<Candidate>, i: nat)
    requires i < |candidates| && VerdictAt(ctx, candidates, i).Schedule?
    ensures var n, scheduled := Count(ctx, candidates, i), PlanAfter(ctx, candidates).scheduled;
            n < |scheduled| && scheduled[n] == Scheduled(candidates[i], SendAfter(ctx, n))
    decreases |candidates|
  {
    hide SendAfter, Judge;
    var last := |candidates| - 1;
    var before := candidates[..last];
    assert candidates[..last + 1] == candidates;
    PlanNext(ctx, candidates, last);
    if i < last {
      SameVerdict(ctx, candidates, last, i);
      ScheduledInPlan(ctx, before, i);
      assert before[..i] == candidates[..i];
    }
  }

  /** The plan is these verdicts: the schedule, paced and in order, the drops with their reasons, the number held back. */
  lemma PlanIsVerdicts(frames: seq<FrameSchedule>, policy: Policy, state: QueueState, i: nat)
    requires i < |Admitted(frames, policy, state)|
    ensures var ctx, candidates := ContextOf(policy, state), Admitted(frames, policy, state);
            var plan, n := PlanOf(frames, policy, state), ScheduledBefore(frames, policy, state, i);
            match VerdictAt(ctx, candidates, i)
            case Schedule =>
              n < |plan.scheduled| && plan.scheduled[n].candidate == candidates[i]
              && plan.scheduled[n].sendAfterUs == n * policy.minSpacingUs
            case Drop(reason) => Dropped(candidates[i], reason) in plan.dropped
            case Block => plan.blocked == |BlockedPositions(ctx, candidates)| && i in BlockedPositions(ctx, candidates)
    ensures var candidates, plan := Admitted(frames, policy, state), PlanOf(frames, policy, state);
            && |plan.scheduled| == ScheduledBefore(frames, policy, state, |candidates|)
            && |plan.scheduled| + |plan.dropped| + plan.blocked == |candidates|
  {
    hide ContextOf, Admitted, LimitReached, PlanAfter, VerdictAt, SendAfter;
    var ctx, candidates := ContextOf(policy, state), Admitted(frames, policy, state);
    VerdictsAreThePlan(ctx, candidates);
    PlanAccounts(ctx, candidates);
    CountIsScheduled(ctx, candidates, i);
    CountIsScheduled(ctx, candidates, |candidates|);
    assert candidates[..|candidates|] == candidates;
    if VerdictAt(ctx, candidates, i).Schedule? {
      ScheduledInPlan(ctx, candidates, i);
      SchedulePacedInTime(frames, policy, state, Count(ctx, candidates, i));
    }
  }

  // ----- candidates

  /** What kind of object a frame is: its flags first (bit 4, then bit 1), its priority otherwise. */
  ghost predicate IsKind(frame: EncodedFrame, kind: ObjectKind) {
    var flags := frame.metadata.flags;
    && (kind.Initialization? <==> flags / 16 % 2 == 1)
    && (kind.CodecConfig? <==> flags / 16 % 2 == 0 && flags / 2 % 2 == 1)
    && (kind.VideoKeyframe? <==> flags / 16 % 2 == 0 && flags / 2 % 2 == 0 && frame.priority.VideoKey?)
    && (kind.AudioObject? <==> flags / 16 % 2 == 0 && flags / 2 % 2 == 0 && frame.priority.AudioPriority?)
    && (kind.VideoDeltaObject? <==> flags / 16 % 2 == 0 && flags / 2 % 2 == 0 && frame.priority.VideoDelta?)
    && (kind.DataObject? <==> flags / 16 % 2 == 0 && flags / 2 % 2 == 0 && frame.priority.DataPriority?)
  }

  lemma KindIs(frame: EncodedFrame)
    ensures IsKind(frame, KindOfFrame(frame))
  {
  }

  /** The candidate is datagram `index` of block `b` of the frame, and says so. */
  ghost predicate Describes(c: Candidate, s: FrameSchedule, b: nat) {
    && b < |s.frame.blocks|
    && c.streamId == s.frame.metadata.streamId && c.frameSequence == s.frame.sequence && c.deadline == s.deadline
    && IsKind(s.frame, c.kind)
    && c.send.blockId == s.frame.blocks[b].blockId && c.send.fragmentIndex == s.frame.blocks[b].fragmentIndex
    && s.frame.blocks[b].RoleOf(c.send.datagramIndex) == Some(c.send.role)
  }

  ghost predicate FromFrame(c: Candidate, frames: seq<FrameSchedule>) {
    exists k, b: nat :: 0 <= k < |frames| && k < 4_096 && Describes(c, frames[k], b)
  }

  predicate GroupOf(frames: seq<FrameSchedule>, k: nat, g: Group)
    requires k < |frames|
  {
    g == Group(frames[k].frame, g.role, KindOfFrame(frames[k].frame), frames[k].deadline)
  }

  lemma {:induction false} GroupsComeFrom(frames: seq<FrameSchedule>)
    ensures forall g | g in GroupsOf(frames) :: exists k :: 0 <= k < |frames| && GroupOf(frames, k, g)
  {
    hide KindOfFrame;
    if frames != [] {
      var n := |frames| - 1;
      GroupsComeFrom(frames[..n]);
      forall g | g in GroupsOf(frames)
        ensures exists k :: 0 <= k < |frames| && GroupOf(frames, k, g)
      {
        if g in GroupsOf(frames[..n]) {
          var k :| 0 <= k < n && GroupOf(frames[..n], k, g);
          assert GroupOf(frames, k, g);
        } else {
          assert GroupOf(frames, n, g);
        }
      }
    }
  }

  lemma {:induction false} VisitsAre(groups: seq<Group>)
    ensures forall v | v in VisitsOf(groups) :: v.group in groups && v.block in v.group.frame.blocks
  {
    if groups != [] {
      VisitsAre(groups[..|groups| - 1]);
    }
  }

  lemma {:induction false} FlattenComesFrom(visits: seq<Visit>)
    ensures forall c | c in Flatten(visits) :: exists v :: v in visits && c in VisitCandidates(v)
  {
    hide VisitCandidates;
    if visits != [] {
      var n := |visits| - 1;
      FlattenComesFrom(visits[..n]);
      assert visits[n] in visits;
      forall c | c in Flatten(visits) ensures exists v :: v in visits && c in VisitCandidates(v) {
        if c in Flatten(visits[..n]) {
          var v :| v in visits[..n] && c in VisitCandidates(v);
          assert v in visits;
        }
      }
    }
  }

  lemma VisitDescribes(v: Visit, c: Candidate)
    requires c in VisitCandidates(v)
    ensures c == Candidate(c.send, v.group.frame.metadata.streamId, v.group.frame.sequence, v.group.kind, v.group.deadline)
    ensures c.send == Send(c.send.datagramIndex, v.block.blockId, v.block.fragmentIndex, v.group.role)
    ensures v.block.RoleOf(c.send.datagramIndex) == Some(v.group.role)
  {
    EntriesFromAre(v.block, v.group.role, v.block.Range(v.group.role).0);
  }

  /** Every datagram planned is one of the frames given, within the first 4,096, under its own fields. */
  lemma PlannedFromFrames(frames: seq<FrameSchedule>, policy: Policy, state: QueueState, c: Candidate)
    requires c in Admitted(frames, policy, state)
    ensures FromFrame(c, frames)
  {
    hide StableSort, GroupsOf, VisitsOf, Flatten, KeyOrder, VisitCandidates, KindOfFrame, IsKind;
    var ready := ContextOf(policy, state).ready;
    var first := Prefix(frames, HARD_MAX_FRAMES);
    var groups := SortedGroups(frames, ready);
    FlattenComesFrom(Prefix(VisitsOf(groups), HARD_MAX_BLOCK_VISITS));
    VisitsAre(groups);
    SortMembers(KeyOrder(ready), GroupsOf(first));
    GroupsComeFrom(first);
    assert c in Queue(frames, ready);
    var v :| v in Prefix(VisitsOf(groups), HARD_MAX_BLOCK_VISITS) && c in VisitCandidates(v);
    assert v in VisitsOf(groups);
    VisitDescribes(v, c);
    assert v.group in multiset(groups) && v.group in GroupsOf(first);
    var k :| 0 <= k < |first| && GroupOf(first, k, v.group);
    KindIs(first[k].frame);
    var b :| 0 <= b < |v.group.frame.blocks| && v.group.frame.blocks[b] == v.block;
    assert Describes(c, frames[k], b);
  }

  // ----- limits

  function BlockCount(frames: seq<FrameSchedule>): nat {
    if frames == [] then 0 else BlockCount(frames[..|frames| - 1]) + |frames[|frames| - 1].frame.blocks|
  }

  function GroupBlocks(groups: seq<Group>): nat {
    if groups == [] then 0 else |groups[0].frame.blocks| + GroupBlocks(groups[1..])
  }

  lemma {:induction false} GroupBlocksConcat(a: seq<Group>, b: seq<Group>)
    ensures GroupBlocks(a + b) == GroupBlocks(a) + GroupBlocks(b)
  {
    if a == [] {
      assert a + b == b;
    } else {
      assert (a + b)[1..] == a[1..] + b;
      GroupBlocksConcat(a[1..], b);
    }
  }

  lemma {:induction false} VisitCount(groups: seq<Group>)
    ensures |VisitsOf(groups)| == GroupBlocks(groups)
    decreases |groups|
  {
    if groups != [] {
      var n := |groups| - 1;
      VisitCount(groups[..n]);
      assert groups == groups[..n] + [groups[n]] && [groups[n]][1..] == [];
      GroupBlocksConcat(groups[..n], [groups[n]]);
    }
  }

  lemma {:induction false} InsertBlocks(le: (Group, Group) -> bool, x: Group, s: seq<Group>)
    ensures GroupBlocks(InsertSorted(le, x, s)) == |x.frame.blocks| + GroupBlocks(s)
  {
    if s != [] && !le(x, s[0]) {
      InsertBlocks(le, x, s[1..]);
      GroupBlocksConcat([s[0]], InsertSorted(le, x, s[1..]));
      assert [s[0]][1..] == [];
    } else {
      GroupBlocksConcat([x], s);
      assert [x][1..] == [];
    }
  }

  lemma {:induction false} SortBlocks(le: (Group, Group) -> bool, s: seq<Group>)
    ensures GroupBlocks(StableSort(le, s)) == GroupBlocks(s)
  {
    hide InsertSorted;
    if s != [] {
      SortBlocks(le, s[1..]);
      InsertBlocks(le, s[0], StableSort(le, s[1..]));
    }
  }

  lemma {:induction false} FrameBlocks(frames: seq<FrameSchedule>)
    ensures GroupBlocks(GroupsOf(frames)) == 2 * BlockCount(frames)
    decreases |frames|
  {
    hide KindOfFrame;
    if frames != [] {
      var n := |frames| - 1;
      FrameBlocks(frames[..n]);
      var groups := FrameGroups(frames[n]);
      GroupBlocksConcat(GroupsOf(frames[..n]), groups);
      OneGroupBlocks(groups[0]);
      OneGroupBlocks(groups[1]);
      GroupBlocksConcat([groups[0]], [groups[1]]);
      assert groups == [groups[0]] + [groups[1]];
    }
  }

  lemma OneGroupBlocks(g: Group)
    ensures GroupBlocks([g]) == |g.frame.blocks|
  {
    assert [g][1..] == [];
  }

  /**
   The plan says it left something undecided exactly when there are more than 4,096 frames, more than
   262,144 blocks to visit (each once for either role), or more datagrams than the plan limit.
   */
  lemma LimitReachedWhen(frames: seq<FrameSchedule>, policy: Policy, state: QueueState)
    ensures PlanOf(frames, policy, state).limitReached <==>
              |frames| > 4_096 || 2 * BlockCount(frames) > 262_144 || |AllCandidates(frames)| > PlanLimit(policy)
  {
    hide StableSort, GroupsOf, VisitsOf, Flatten, KeyOrder, GroupBag, AllCandidates, PlanAfter, GroupBlocks, BlockCount;
    var ready := ContextOf(policy, state).ready;
    var sorted := SortedGroups(frames, ready);
    if |frames| <= 4_096 {
      assert Prefix(frames, HARD_MAX_FRAMES) == frames;
      VisitCount(sorted);
      SortBlocks(KeyOrder(ready), GroupsOf(frames));
      FrameBlocks(frames);
      if 2 * BlockCount(frames) <= 262_144 {
        assert Prefix(VisitsOf(sorted), HARD_MAX_BLOCK_VISITS) == VisitsOf(sorted);
        BagOfVisits(sorted);
        BagOfSort(KeyOrder(ready), GroupsOf(frames));
        BagOfFrames(frames);
        var queue := Queue(frames, ready);
        assert |multiset(queue)| == |multiset(AllCandidates(frames))|;
      }
    }
  }
}
