/**
 The deadline planner: which datagrams of the frames at hand to send now, in which order and when,
 which to drop and which to hold back.
 */
module Planner {
  import opened Collections
  import opened MachineInts
  import opened MediaEncoding
  import opened MediaFragments
  import opened MediaLayout

  const HARD_MAX_DATAGRAMS := 65_536
  const HARD_MAX_FRAMES := 4_096
  const HARD_MAX_BLOCK_VISITS := 262_144
  const URGENT_REPAIR_WINDOW_US := 5_000

  datatype Policy = Policy(maxInFlight: u64, maxPerPlan: u64, minSpacingUs: u64, staleDeltaRepairDelayMs: u32) {
    function Normalized(): Policy {
      var limit := Min(Max(maxPerPlan, 1), HARD_MAX_DATAGRAMS);
      this.(maxInFlight := Min(maxInFlight, limit), maxPerPlan := limit)
    }
  }

  datatype QueueState = QueueState(nowUs: u64, queueDelayUs: u64, inFlight: u64)

  /** In the order of importance. */
  datatype ObjectKind = Initialization | CodecConfig | VideoKeyframe | AudioObject | VideoDeltaObject | DataObject

  datatype FrameSchedule = FrameSchedule(frame: EncodedFrame, deadline: u64)

  /** One role's datagrams of one frame. */
  datatype Group = Group(frame: EncodedFrame, role: Role, kind: ObjectKind, deadline: u64)

  datatype Candidate = Candidate(send: Send, streamId: u64, frameSequence: u64, kind: ObjectKind, deadline: u64)

  datatype DropReason = Expired | StaleDeltaRepair

  datatype Scheduled = Scheduled(candidate: Candidate, sendAfterUs: u64)

  datatype Dropped = Dropped(candidate: Candidate, reason: DropReason)

  datatype Plan = Plan(scheduled: seq<Scheduled>, dropped: seq<Dropped>, blocked: nat, limitReached: bool)

  const EMPTY_PLAN := Plan([], [], 0, false)

  // ----- importance

  /** `media_object_kind` */
  function KindOfFrame(frame: EncodedFrame): ObjectKind {
    if HasFlag(frame.metadata.flags, FLAG_INITIALIZATION) then Initialization
    else if HasFlag(frame.metadata.flags, FLAG_CODEC_CONFIG) then CodecConfig
    else match frame.priority
      case VideoKey => VideoKeyframe
      case AudioPriority => AudioObject
      case VideoDelta => VideoDeltaObject
      case DataPriority => DataObject
  }

  predicate Important(kind: ObjectKind) {
    kind.Initialization? || kind.CodecConfig? || kind.VideoKeyframe? || kind.AudioObject?
  }

  function KindRank(kind: ObjectKind): nat {
    match kind
    case Initialization => 0
    case CodecConfig => 1
    case VideoKeyframe => 2
    case AudioObject => 3
    case VideoDeltaObject => 4
    case DataObject => 5
  }

  predicate ExpiredAt(deadline: u64, now: u64) {
    deadline <= now
  }

  /** `remaining_us_at(ready)` is there and within the urgent window. */
  predicate Urgent(deadline: u64, ready: u64) {
    ready < deadline && deadline - ready <= URGENT_REPAIR_WINDOW_US
  }

  /** `scheduling_rank` */
  function SchedulingRank(role: Role, kind: ObjectKind, deadline: u64, ready: u64): nat {
    match role
    case SourceRole => if Important(kind) then 0 else 2
    case RepairRole => if Important(kind) && Urgent(deadline, ready) then 1 else 3
  }

  /** The six-part sort key. */
  function SortKey(role: Role, kind: ObjectKind, deadline: u64, streamId: u64, sequence: u64, ready: u64): seq<nat> {
    [SchedulingRank(role, kind, deadline, ready), KindRank(kind), deadline, streamId, sequence,
     if role.SourceRole? then 0 else 1]
  }

  function GroupKey(g: Group, ready: u64): seq<nat> {
    SortKey(g.role, g.kind, g.deadline, g.frame.metadata.streamId, g.frame.sequence, ready)
  }

  function CandidateKey(c: Candidate, ready: u64): seq<nat> {
    SortKey(c.send.role, c.kind, c.deadline, c.streamId, c.frameSequence, ready)
  }

  /** Lexicographic order of keys of one length. */
  predicate LexLe(a: seq<nat>, b: seq<nat>) {
    a == [] || (b != [] && (a[0] < b[0] || (a[0] == b[0] && LexLe(a[1..], b[1..]))))
  }

  function KeyOrder(ready: u64): (Group, Group) -> bool {
    (a, b) => LexLe(GroupKey(a, ready), GroupKey(b, ready))
  }

  // ----- candidates

  function GroupsOf(frames: seq<FrameSchedule>): seq<Group> {
    if frames == [] then []
    else GroupsOf(frames[..|frames| - 1]) + FrameGroups(frames[|frames| - 1])
  }

  function FrameGroups(s: FrameSchedule): seq<Group> {
    [Group(s.frame, SourceRole, KindOfFrame(s.frame), s.deadline), Group(s.frame, RepairRole, KindOfFrame(s.frame), s.deadline)]
  }

  datatype Visit = Visit(group: Group, block: MediaBlock)

  function GroupVisits(g: Group, blocks: seq<MediaBlock>): (visits: seq<Visit>)
    ensures |visits| == |blocks| && forall i | 0 <= i < |blocks| :: visits[i] == Visit(g, blocks[i])
  {
    seq(|blocks|, i requires 0 <= i < |blocks| => Visit(g, blocks[i]))
  }

  function VisitsOf(groups: seq<Group>): seq<Visit> {
    if groups == [] then []
    else VisitsOf(groups[..|groups| - 1]) + GroupVisits(groups[|groups| - 1], groups[|groups| - 1].frame.blocks)
  }

  function CandidateOf(g: Group, send: Send): Candidate {
    Candidate(send, g.frame.metadata.streamId, g.frame.sequence, g.kind, g.deadline)
  }

  function CandidatesOf(g: Group, sends: seq<Send>): (candidates: seq<Candidate>)
    ensures |candidates| == |sends| && forall i | 0 <= i < |sends| :: candidates[i] == CandidateOf(g, sends[i])
  {
    seq(|sends|, i requires 0 <= i < |sends| => CandidateOf(g, sends[i]))
  }

  function VisitCandidates(v: Visit): seq<Candidate> {
    CandidatesOf(v.group, Entries(v.block, v.group.role))
  }

  function Flatten(visits: seq<Visit>): seq<Candidate> {
    if visits == [] then [] else Flatten(visits[..|visits| - 1]) + VisitCandidates(visits[|visits| - 1])
  }

  // ----- verdicts

  datatype Context = Context(ready: u64, queueDelayUs: u64, staleUs: u64, spacingUs: u64, capacity: nat)

  /** Earliest send time of the datagram scheduled after `n` others. */
  function SendAfter(ctx: Context, n: nat): u64 {
    SatMul(n, ctx.spacingUs)
  }

  function SendAt(ctx: Context, n: nat): u64 {
    SatAdd(ctx.ready, SendAfter(ctx, n))
  }

  predicate Stale(ctx: Context, c: Candidate) {
    c.kind.VideoDeltaObject? && c.send.role.RepairRole? && ctx.queueDelayUs >= ctx.staleUs
  }

  datatype Verdict = Schedule | Drop(reason: DropReason) | Block

  /** What becomes of a candidate that comes up when `n` are scheduled. */
  function Judge(ctx: Context, n: nat, c: Candidate): Verdict {
    if ExpiredAt(c.deadline, ctx.ready) then Drop(Expired)
    else if Stale(ctx, c) then Drop(StaleDeltaRepair)
    else if n == ctx.capacity then Block
    else if ExpiredAt(c.deadline, SendAt(ctx, n)) then Drop(Expired)
    else Schedule
  }

  function Admit(ctx: Context, plan: Plan, c: Candidate): Plan {
    match Judge(ctx, |plan.scheduled|, c)
    case Schedule => plan.(scheduled := plan.scheduled + [Scheduled(c, SendAfter(ctx, |plan.scheduled|))])
    case Drop(reason) => plan.(dropped := plan.dropped + [Dropped(c, reason)])
    case Block => plan.(blocked := plan.blocked + 1)
  }

  /** The plan after these candidates came up in order. */
  function PlanAfter(ctx: Context, candidates: seq<Candidate>): Plan {
    if candidates == [] then EMPTY_PLAN
    else Admit(ctx, PlanAfter(ctx, candidates[..|candidates| - 1]), candidates[|candidates| - 1])
  }

  function ContextOf(policy: Policy, state: QueueState): Context {
    var p := policy.Normalized();
    Context(SatAdd(state.nowUs, state.queueDelayUs), state.queueDelayUs, SatMul(p.staleDeltaRepairDelayMs, 1_000),
            p.minSpacingUs, SatSub(p.maxInFlight, state.inFlight))
  }

  function Prefix<T>(s: seq<T>, n: nat): seq<T> {
    s[..Min(|s|, n)]
  }

  function SortedGroups(frames: seq<FrameSchedule>, ready: u64): seq<Group> {
    StableSort(KeyOrder(ready), GroupsOf(Prefix(frames, HARD_MAX_FRAMES)))
  }

  /** All candidates within the frame and block limits, in the order they come up. */
  function Queue(frames: seq<FrameSchedule>, ready: u64): seq<Candidate> {
    Flatten(Prefix(VisitsOf(SortedGroups(frames, ready)), HARD_MAX_BLOCK_VISITS))
  }

  /** The candidates the plan decides on. */
  function Admitted(frames: seq<FrameSchedule>, policy: Policy, state: QueueState): seq<Candidate> {
    Prefix(Queue(frames, ContextOf(policy, state).ready), policy.Normalized().maxPerPlan)
  }

  /** Whether anything was left undecided. */
  function LimitReached(frames: seq<FrameSchedule>, policy: Policy, state: QueueState): bool {
    var ready := ContextOf(policy, state).ready;
    || |frames| > HARD_MAX_FRAMES
    || |VisitsOf(SortedGroups(frames, ready))| > HARD_MAX_BLOCK_VISITS
    || |Queue(frames, ready)| > policy.Normalized().maxPerPlan
  }

  /** `plan_media_datagrams_with_deadlines` */
  function PlanOf(frames: seq<FrameSchedule>, policy: Policy, state: QueueState): Plan {
    PlanAfter(ContextOf(policy, state), Admitted(frames, policy, state)).(limitReached := LimitReached(frames, policy, state))
  }

  // ----- the planning loops

  /** The body of the innermost loop. */
  method Decide(ctx: Context, plan: Plan, candidate: Candidate) returns (plan': Plan)
    ensures plan' == Admit(ctx, plan, candidate)
  {
    if ExpiredAt(candidate.deadline, ctx.ready) {
      return plan.(dropped := plan.dropped + [Dropped(candidate, Expired)]);
    }
    if Stale(ctx, candidate) {
      return plan.(dropped := plan.dropped + [Dropped(candidate, StaleDeltaRepair)]);
    }
    if |plan.scheduled| == ctx.capacity {
      return plan.(blocked := plan.blocked + 1);
    }
    var sendAfterUs := SatMul(|plan.scheduled|, ctx.spacingUs);
    var sendAtUs := SatAdd(ctx.ready, sendAfterUs);
    if ExpiredAt(candidate.deadline, sendAtUs) {
      return plan.(dropped := plan.dropped + [Dropped(candidate, Expired)]);
    }
    plan' := plan.(scheduled := plan.scheduled + [Scheduled(candidate, sendAfterUs)]);
  }

  lemma PlanNext(ctx: Context, all: seq<Candidate>, n: nat)
    requires n < |all|
    ensures PlanAfter(ctx, all[..n + 1]) == Admit(ctx, PlanAfter(ctx, all[..n]), all[n])
  {
    assert all[..n + 1][..n] == all[..n];
  }

  /** One block of a group: every index comes up until the plan limit is met. */
  method AdmitBlock(ctx: Context, limit: nat, plan0: Plan, admitted0: nat, group: Group, block: MediaBlock,
                    ghost done: seq<Candidate>) returns (plan: Plan, admitted: nat, stop: bool)
    requires plan0 == PlanAfter(ctx, done) && admitted0 == |done| <= limit
    ensures var all := done + VisitCandidates(Visit(group, block));
            && plan == PlanAfter(ctx, Prefix(all, limit)) && admitted == |Prefix(all, limit)| && (stop <==> |all| > limit)
  {
    hide Admit, PlanAfter, EntriesFrom;
    ghost var mine := VisitCandidates(Visit(group, block));
    ghost var all := done + mine;
    EntriesFromAre(block, group.role, block.Range(group.role).0);
    var lo, hi := block.Range(group.role).0, block.Range(group.role).1;
    plan, admitted := plan0, admitted0;
    assert all[..|done|] == done;
    for index := lo to hi
      invariant admitted == |done| + index - lo <= limit
      invariant plan == PlanAfter(ctx, all[..admitted])
    {
      if admitted == limit {
        return plan, admitted, true;
      }
      PlanNext(ctx, all, admitted);
      assert all[admitted] == mine[index - lo];
      plan := Decide(ctx, plan, CandidateOf(group, Send(index, block.blockId, block.fragmentIndex, group.role)));
      admitted := admitted + 1;
    }
    assert all[..|all|] == all;
    stop := false;
  }

  lemma {:induction false} VisitAt(groups: seq<Group>, g: nat, b: nat)
    requires g < |groups| && b <= |groups[g].frame.blocks|
    ensures |VisitsOf(groups[..g])| + b <= |VisitsOf(groups)|
    ensures b < |groups[g].frame.blocks| ==>
              && |VisitsOf(groups[..g])| + b < |VisitsOf(groups)|
              && VisitsOf(groups)[|VisitsOf(groups[..g])| + b] == Visit(groups[g], groups[g].frame.blocks[b])
    ensures |VisitsOf(groups[..g + 1])| == |VisitsOf(groups[..g])| + |groups[g].frame.blocks|
    decreases |groups|
  {
    var n := |groups| - 1;
    assert groups[..g + 1][..g] == groups[..g];
    if g < n {
      VisitAt(groups[..n], g, b);
      assert groups[..n][..g] == groups[..g];
    } else {
      assert groups[..g + 1] == groups;
    }
  }

  method PlanDatagrams(frames: seq<FrameSchedule>, policy: Policy, state: QueueState) returns (plan: Plan)
    ensures plan == PlanOf(frames, policy, state)
  {
    hide StableSort, VisitCandidates, Admit, PlanAfter, VisitsOf, Flatten, KeyOrder, FrameGroups;
    var p := policy.Normalized();
    var ready := SatAdd(state.nowUs, state.queueDelayUs);
    var groups := CollectGroups(Prefix(frames, HARD_MAX_FRAMES));
    var limited := |frames| > HARD_MAX_FRAMES;
    groups := StableSort(KeyOrder(ready), groups);
    var capacity := SatSub(p.maxInFlight, state.inFlight);
    var ctx := Context(ready, state.queueDelayUs, SatMul(p.staleDeltaRepairDelayMs, 1_000), p.minSpacingUs, capacity);
    ghost var visits := VisitsOf(groups);
    ghost var queue := Queue(frames, ready);
    var scheduled, reached := PlanGroups(ctx, p.maxPerPlan, groups);
    plan := scheduled.(limitReached := limited || reached);
  }

  method CollectGroups(frames: seq<FrameSchedule>) returns (groups: seq<Group>)
    ensures groups == GroupsOf(frames)
  {
    groups := [];
    for i := 0 to |frames|
      invariant groups == GroupsOf(frames[..i])
    {
      assert frames[..i + 1][..i] == frames[..i];
      var s := frames[i];
      var kind := KindOfFrame(s.frame);
      groups := groups + [Group(s.frame, SourceRole, kind, s.deadline), Group(s.frame, RepairRole, kind, s.deadline)];
    }
    assert frames[..|frames|] == frames;
  }

  lemma FlattenNext(visits: seq<Visit>, n: nat)
    requires n < |visits|
    ensures Flatten(visits[..n + 1]) == Flatten(visits[..n]) + VisitCandidates(visits[n])
  {
    assert visits[..n + 1][..n] == visits[..n];
  }

  lemma {:induction false} FlattenPrefix(visits: seq<Visit>, n: nat)
    requires n <= |visits|
    ensures Flatten(visits[..n]) <= Flatten(visits)
    decreases |visits|
  {
    hide VisitCandidates;
    if n < |visits| {
      FlattenPrefix(visits[..|visits| - 1], n);
      assert visits[..|visits| - 1][..n] == visits[..n];
    } else {
      assert visits[..n] == visits;
    }
  }

  /** The nested loops over groups and blocks, left early at either work limit. */
  method PlanGroups(ctx: Context, limit: nat, groups: seq<Group>) returns (plan: Plan, reached: bool)
    ensures var queue := Flatten(Prefix(VisitsOf(groups), HARD_MAX_BLOCK_VISITS));
            && plan == PlanAfter(ctx, Prefix(queue, limit))
            && (reached <==> |VisitsOf(groups)| > HARD_MAX_BLOCK_VISITS || |queue| > limit)
  {
    hide VisitCandidates, Admit, PlanAfter, VisitsOf, Flatten;
    ghost var visits := VisitsOf(groups);
    ghost var taken := Prefix(visits, HARD_MAX_BLOCK_VISITS);
    ghost var queue := Flatten(taken);
    NoCandidates(ctx, groups, visits);
    plan := EMPTY_PLAN;
    reached := false;
    var admitted, blockVisits := 0, 0;
    assert groups[..|groups|] == groups;
    for g := 0 to |groups|
      invariant blockVisits == |VisitsOf(groups[..g])| <= |taken|
      invariant admitted == |Flatten(visits[..blockVisits])| <= limit
      invariant plan == PlanAfter(ctx, Flatten(visits[..blockVisits]))
    {
      var blocks := groups[g].frame.blocks;
      for b := 0 to |blocks|
        invariant blockVisits == |VisitsOf(groups[..g])| + b <= |taken|
        invariant admitted == |Flatten(visits[..blockVisits])| <= limit
        invariant plan == PlanAfter(ctx, Flatten(visits[..blockVisits]))
      {
        VisitAt(groups, g, b);
        if blockVisits == HARD_MAX_BLOCK_VISITS {
          assert visits[..blockVisits] == taken;
          assert Prefix(queue, limit) == queue;
          return plan, true;
        }
        FlattenNext(visits, blockVisits);
        var stop;
        plan, admitted, stop := AdmitBlock(ctx, limit, plan, admitted, groups[g], blocks[b], Flatten(visits[..blockVisits]));
        blockVisits := blockVisits + 1;
        FlattenPrefix(taken, blockVisits);
        assert taken[..blockVisits] == visits[..blockVisits];
        if stop {
          assert Prefix(Flatten(visits[..blockVisits]), limit) == Prefix(queue, limit);
          return plan, true;
        }
        assert Prefix(Flatten(visits[..blockVisits]), limit) == Flatten(visits[..blockVisits]);
      }
      VisitAt(groups, g, |blocks|);
    }
    assert visits[..blockVisits] == visits == taken;
    assert Prefix(queue, limit) == queue;
  }

  lemma NoCandidates(ctx: Context, groups: seq<Group>, visits: seq<Visit>)
    ensures VisitsOf(groups[..0]) == [] && Flatten(visits[..0]) == [] && PlanAfter(ctx, []) == EMPTY_PLAN
  {
  }
}
