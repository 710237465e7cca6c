/** The order of the planner in the fields of what it orders: four classes, then importance, then time. */
module PlannerOrder {
  import opened MachineInts
  import opened MediaLayout
  import opened Planner

  /** What a receiver cannot do without. */
  predicate Vital(kind: ObjectKind) {
    !kind.VideoDeltaObject? && !kind.DataObject?
  }

  predicate VitalSource(c: Candidate) {
    c.send.role.SourceRole? && Vital(c.kind)
  }

  /** A vital repair that is useless in 5 ms but still in time at `ready`. */
  predicate Rescue(c: Candidate, ready: nat) {
    c.send.role.RepairRole? && Vital(c.kind) && ready < c.deadline <= ready + 5_000
  }

  predicate OtherSource(c: Candidate) {
    c.send.role.SourceRole? && !Vital(c.kind)
  }

  /** Vital sources first, then rescues, then the other sources, then the other repairs. */
  predicate ClassNotBehind(c: Candidate, d: Candidate, ready: nat) {
    && (VitalSource(d) ==> VitalSource(c))
    && (Rescue(d, ready) ==> VitalSource(c) || Rescue(c, ready))
    && (OtherSource(d) ==> VitalSource(c) || Rescue(c, ready) || OtherSource(c))
  }

  predicate SameClass(c: Candidate, d: Candidate, ready: nat) {
    ClassNotBehind(c, d, ready) && ClassNotBehind(d, c, ready)
  }

  /** Initialization, configuration, keyframe, audio, delta, data. */
  predicate KindNotBehind(a: ObjectKind, b: ObjectKind) {
    match b
    case Initialization => a.Initialization?
    case CodecConfig => a.Initialization? || a.CodecConfig?
    case VideoKeyframe => a.Initialization? || a.CodecConfig? || a.VideoKeyframe?
    case AudioObject => a.Initialization? || a.CodecConfig? || a.VideoKeyframe? || a.AudioObject?
    case VideoDeltaObject => !a.DataObject?
    case DataObject => true
  }

  /** `c` does not come up after `d`: class, importance, deadline, stream, frame, source before repair. */
  predicate InOrder(c: Candidate, d: Candidate, ready: nat) {
    && ClassNotBehind(c, d, ready)
    && (SameClass(c, d, ready) ==>
          && KindNotBehind(c.kind, d.kind)
          && (c.kind == d.kind ==>
                || c.deadline < d.deadline
                || (c.deadline == d.deadline
                    && (|| c.streamId < d.streamId
                        || (c.streamId == d.streamId
                            && (|| c.frameSequence < d.frameSequence
                                || (c.frameSequence == d.frameSequence
                                    && (d.send.role.SourceRole? ==> c.send.role.SourceRole?))))))))
  }

  lemma LexStep(x: nat, a: seq<nat>, y: nat, b: seq<nat>)
    ensures LexLe([x] + a, [y] + b) <==> x < y || (x == y && LexLe(a, b))
  {
    assert ([x] + a)[1..] == a && ([y] + b)[1..] == b;
  }

  lemma LexSix(a: seq<nat>, b: seq<nat>)
    requires |a| == |b| == 6
    ensures LexLe(a, b) <==>
              || a[0] < b[0]
              || (a[0] == b[0]
                  && (|| a[1] < b[1]
                      || (a[1] == b[1]
                          && (|| a[2] < b[2]
                              || (a[2] == b[2]
                                  && (|| a[3] < b[3]
                                      || (a[3] == b[3] && (a[4] < b[4] || (a[4] == b[4] && a[5] <= b[5])))))))))
  {
    assert LexLe(a[5..], b[5..]) <==> a[5] <= b[5];
    LexStep(a[4], a[5..], b[4], b[5..]);
    assert a[4..] == [a[4]] + a[5..] && b[4..] == [b[4]] + b[5..];
    LexStep(a[3], a[4..], b[3], b[4..]);
    assert a[3..] == [a[3]] + a[4..] && b[3..] == [b[3]] + b[4..];
    LexStep(a[2], a[3..], b[2], b[3..]);
    assert a[2..] == [a[2]] + a[3..] && b[2..] == [b[2]] + b[3..];
    LexStep(a[1], a[2..], b[1], b[2..]);
    assert a[1..] == [a[1]] + a[2..] && b[1..] == [b[1]] + b[2..];
    LexStep(a[0], a[1..], b[0], b[1..]);
    assert a == [a[0]] + a[1..] && b == [b[0]] + b[1..];
  }

  lemma RanksAreClasses(c: Candidate, d: Candidate, ready: u64)
    ensures var x := SchedulingRank(c.send.role, c.kind, c.deadline, ready);
            var y := SchedulingRank(d.send.role, d.kind, d.deadline, ready);
            (x <= y <==> ClassNotBehind(c, d, ready)) && (x == y <==> SameClass(c, d, ready))
  {
  }

  lemma KindRanks(a: ObjectKind, b: ObjectKind)
    ensures KindRank(a) <= KindRank(b) <==> KindNotBehind(a, b)
    ensures KindRank(a) == KindRank(b) <==> a == b
  {
  }

  /** The sort key orders exactly by these fields. */
  lemma KeyIsOrder(c: Candidate, d: Candidate, ready: u64)
    ensures LexLe(CandidateKey(c, ready), CandidateKey(d, ready)) <==> InOrder(c, d, ready)
  {
    hide LexLe, SchedulingRank, KindRank, ClassNotBehind, SameClass, KindNotBehind;
    LexSix(CandidateKey(c, ready), CandidateKey(d, ready));
    RanksAreClasses(c, d, ready);
    KindRanks(c.kind, d.kind);
  }
}
