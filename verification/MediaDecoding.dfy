/**
 The media decoder: recovered blocks are fragments of frames, a frame is handed out once all its
 fragments are in, and a window of completed frames per stream suppresses late fragments.
 */
module MediaDecoding {
  import opened ByteCodec
  import opened Datagram
  import opened FecDecoding
  import opened MachineInts
  import opened MediaFragments
  import opened RaptorQ
  import opened Wrappers

  const FRAME_WINDOW := 128

  datatype Key = Key(streamId: u64, sequence: u64)

  datatype DecodedFrame = DecodedFrame(metadata: Metadata, payload: Bytes)

  type FrameResult = Result<Option<DecodedFrame>, MediaError>

  // ----- a frame being put together

  datatype PartialFrame = PartialFrame(
    metadata: Metadata, accessUnitLen: u32, fragments: seq<Option<Bytes>>, received: u16)

  function NewPartial(h: FragmentHeader): PartialFrame {
    PartialFrame(h.metadata, h.accessUnitLen, seq(h.fragmentCount, _ => None), 0)
  }

  /** `PartialFrame::insert` */
  function Insert(p: PartialFrame, h: FragmentHeader, fragment: Bytes): Result<PartialFrame, MediaError> {
    if h.metadata != p.metadata then Failure(ConflictingMetadata)
    else if h.accessUnitLen != p.accessUnitLen then Failure(ConflictingAccessUnitLength)
    else if h.fragmentIndex >= |p.fragments| then
      Failure(MediaError.InvalidFragmentIndex(h.fragmentIndex, |p.fragments| % 0x1_0000))
    else if p.fragments[h.fragmentIndex].Some? then Success(p)
    else Success(p.(fragments := p.fragments[h.fragmentIndex := Some(fragment)], received := Min(p.received + 1, U16_MAX)))
  }

  function JoinPieces(fragments: seq<Option<Bytes>>): Result<Bytes, MediaError> {
    if fragments == [] then Success([])
    else if fragments[0].None? then Failure(IncompleteFrame)
    else
      var rest :- JoinPieces(fragments[1..]);
      Success(fragments[0].value + rest)
  }

  /** `PartialFrame::finish` */
  function Finish(p: PartialFrame): Result<DecodedFrame, MediaError> {
    var payload :- JoinPieces(p.fragments);
    if |payload| != p.accessUnitLen then Failure(AccessUnitLengthMismatch(p.accessUnitLen, |payload|))
    else Success(DecodedFrame(p.metadata, payload))
  }

  // ----- the decoder

  datatype MediaState = MediaState(fec: Decoder, partial: map<Key, PartialFrame>, completed: set<Key>)

  const NEW_MEDIA := MediaState(IDLE, map[], {})

  /** What `prune_completed` keeps. */
  predicate InFrameWindow(key: Key, current: Key) {
    || key.streamId != current.streamId
    || current.sequence < FRAME_WINDOW
    || key.sequence >= SatSub(current.sequence, FRAME_WINDOW)
  }

  function PruneFrames(completed: set<Key>, current: Key): set<Key> {
    set key | key in completed && InFrameWindow(key, current)
  }

  /** The state and result after one block, and the frame that came to its end with it, if one did. */
  datatype Taken = Taken(state: MediaState, result: FrameResult, finished: Option<Key>)

  function KeyOf(h: FragmentHeader): Key {
    Key(h.metadata.streamId, h.metadata.sequence)
  }

  /** A fragment of a frame that is still open. */
  function TakeFragment(s: MediaState, h: FragmentHeader, fragment: Bytes): Taken {
    var key := KeyOf(h);
    var partial := if key in s.partial then s.partial[key] else NewPartial(h);
    match Insert(partial, h, fragment)
    case Failure(error) => Taken(s.(partial := s.partial[key := partial]), Failure(error), None)
    case Success(filled) =>
      if filled.received != |filled.fragments| then
        Taken(s.(partial := s.partial[key := filled]), Success(None), None)
      else
        var s' := s.(partial := s.partial - {key}, completed := PruneFrames(s.completed + {key}, key));
        match Finish(filled)
        case Failure(error) => Taken(s', Failure(error), Some(key))
        case Success(frame) => Taken(s', Success(Some(frame)), Some(key))
  }

  /** What `push_datagram` does with a recovered block. */
  function TakeBlock(s: MediaState, block: Bytes): Taken {
    if |block| < MEDIA_HEADER_LEN then Taken(s, Failure(MediaError.HeaderTooShort(|block|)), None)
    else
      match DecodeFragment(block[..MEDIA_HEADER_LEN])
      case Failure(error) => Taken(s, Failure(error), None)
      case Success(h) =>
        if h.fragmentCount == 0 || h.fragmentIndex >= h.fragmentCount then
          Taken(s, Failure(MediaError.InvalidFragmentIndex(h.fragmentIndex, h.fragmentCount)), None)
        else if KeyOf(h) in s.completed then Taken(s, Success(None), None)
        else TakeFragment(s, h, block[MEDIA_HEADER_LEN..])
  }

  /** `push_datagram` */
  function PushedMedia(code: Code, s: MediaState, datagram: Bytes): Taken {
    var (fec', r) := Pushed(code, s.fec, datagram);
    var s' := s.(fec := fec');
    match r
    case Failure(error) => Taken(s', Failure(Fec(error)), None)
    case Success(None) => Taken(s', Success(None), None)
    case Success(Some(block)) => TakeBlock(s', block)
  }

  class MediaFecDecoder {
    const fec: DatagramFecDecoder
    var partial: map<Key, PartialFrame>
    var completed: set<Key>

    ghost function Abs(): MediaState
      reads this, fec, fec.tracker
    {
      MediaState(fec.Abs(), partial, completed)
    }

    constructor (code: Code)
      ensures Abs() == NEW_MEDIA && fresh(fec) && fresh(fec.tracker) && fec.code == code
    {
      fec := new DatagramFecDecoder(code);
      partial, completed := map[], {};
    }

    method PushDatagram(datagram: Bytes) returns (r: FrameResult)
      modifies this, fec, fec.tracker
      ensures var taken := PushedMedia(fec.code, old(Abs()), datagram);
              Abs() == taken.state && r == taken.result
    {
      hide Pushed, DecodeFragment, Finish, Insert;
      var decoded := fec.PushDatagram(datagram);
      if decoded.Failure? {
        return Failure(Fec(decoded.error));
      }
      if decoded.value.None? {
        return Success(None);
      }
      var block := decoded.value.value;
      if |block| < MEDIA_HEADER_LEN {
        return Failure(MediaError.HeaderTooShort(|block|));
      }
      var header := DecodeFragment(block[..MEDIA_HEADER_LEN]);
      if header.Failure? {
        return Failure(header.error);
      }
      var h := header.value;
      if h.fragmentCount == 0 || h.fragmentIndex >= h.fragmentCount {
        return Failure(MediaError.InvalidFragmentIndex(h.fragmentIndex, h.fragmentCount));
      }
      var key := KeyOf(h);
      if key in completed {
        return Success(None);
      }
      if key !in partial {
        partial := partial[key := NewPartial(h)];
      }
      var filled := Insert(partial[key], h, block[MEDIA_HEADER_LEN..]);
      if filled.Failure? {
        return Failure(filled.error);
      }
      partial := partial[key := filled.value];
      if filled.value.received != |filled.value.fragments| {
        return Success(None);
      }
      partial := partial - {key};
      completed := PruneFrames(completed + {key}, key);
      var frame := FinishFrame(filled.value);
      r := if frame.Failure? then Failure(frame.error) else Success(Some(frame.value));
    }

    method FinishFrame(p: PartialFrame) returns (r: Result<DecodedFrame, MediaError>)
      ensures r == Finish(p)
    {
      var payload := [];
      ghost var all := JoinPieces(p.fragments);
      assert p.fragments[0..] == p.fragments;
      assert all.Success? ==> [] + all.value == all.value;
      for i := 0 to |p.fragments|
        invariant var rest := JoinPieces(p.fragments[i..]);
                  if rest.Failure? then all == Failure(rest.error) else all == Success(payload + rest.value)
      {
        assert p.fragments[i..][1..] == p.fragments[i + 1..];
        ghost var rest := JoinPieces(p.fragments[i + 1..]);
        assert rest.Success? && p.fragments[i].Some? ==>
          payload + (p.fragments[i].value + rest.value) == payload + p.fragments[i].value + rest.value;
        if p.fragments[i].None? {
          return Failure(IncompleteFrame);
        }
        payload := payload + p.fragments[i].value;
      }
      assert p.fragments[|p.fragments|..] == [] && payload + [] == payload;
      if |payload| != p.accessUnitLen {
        return Failure(AccessUnitLengthMismatch(p.accessUnitLen, |payload|));
      }
      r := Success(DecodedFrame(p.metadata, payload));
    }
  }

  // ----- the count of received fragments

  function Filled(fragments: seq<Option<Bytes>>): nat {
    if fragments == [] then 0 else (if fragments[0].Some? then 1 else 0) + Filled(fragments[1..])
  }

  lemma {:induction false} FilledBounds(fragments: seq<Option<Bytes>>)
    ensures Filled(fragments) <= |fragments|
    ensures Filled(fragments) == |fragments| <==> forall i | 0 <= i < |fragments| :: fragments[i].Some?
    ensures (forall i | 0 <= i < |fragments| :: fragments[i].None?) ==> Filled(fragments) == 0
  {
    if fragments != [] {
      FilledBounds(fragments[1..]);
      assert forall i | 1 <= i < |fragments| :: fragments[i] == fragments[1..][i - 1];
    }
  }

  lemma {:induction false} FilledOne(fragments: seq<Option<Bytes>>, i: nat, piece: Bytes)
    requires i < |fragments| && fragments[i].None?
    ensures Filled(fragments[i := Some(piece)]) == Filled(fragments) + 1
  {
    var more := fragments[i := Some(piece)];
    if i == 0 {
      assert more[1..] == fragments[1..];
    } else {
      assert more[1..] == fragments[1..][i - 1 := Some(piece)];
      FilledOne(fragments[1..], i - 1, piece);
    }
  }

  lemma {:induction false} AllPieces(fragments: seq<Option<Bytes>>)
    requires forall i | 0 <= i < |fragments| :: fragments[i].Some?
    ensures JoinPieces(fragments).Success?
  {
    if fragments != [] {
      AllPieces(fragments[1..]);
    }
  }

  ghost predicate PartialOk(p: PartialFrame) {
    p.received == Filled(p.fragments) && 0 < |p.fragments| <= U16_MAX
  }

  /** Open frames are incomplete, counted right and not among the completed ones. */
  ghost predicate MediaOk(s: MediaState) {
    forall key | key in s.partial ::
      && PartialOk(s.partial[key]) && s.partial[key].received < |s.partial[key].fragments|
      && key !in s.completed && key == Key(s.partial[key].metadata.streamId, s.partial[key].metadata.sequence)
  }

  lemma NewPartialOk(h: FragmentHeader)
    requires h.fragmentCount > 0
    ensures PartialOk(NewPartial(h)) && NewPartial(h).received == 0
  {
    FilledBounds(NewPartial(h).fragments);
  }

  lemma InsertKeeps(p: PartialFrame, h: FragmentHeader, fragment: Bytes)
    requires PartialOk(p) && Insert(p, h, fragment).Success?
    ensures PartialOk(Insert(p, h, fragment).value) && Insert(p, h, fragment).value.metadata == h.metadata
  {
    FilledBounds(p.fragments);
    if p.fragments[h.fragmentIndex].None? {
      FilledOne(p.fragments, h.fragmentIndex, fragment);
      FilledBounds(p.fragments[h.fragmentIndex := Some(fragment)]);
    }
  }

  /** With every fragment counted, joining never meets a hole. */
  lemma FinishHasAll(p: PartialFrame)
    requires PartialOk(p) && p.received == |p.fragments|
    ensures Finish(p) != Failure(IncompleteFrame)
  {
    FilledBounds(p.fragments);
    AllPieces(p.fragments);
  }

  lemma TakeFragmentKeeps(s: MediaState, h: FragmentHeader, fragment: Bytes)
    requires MediaOk(s) && h.fragmentIndex < h.fragmentCount && KeyOf(h) !in s.completed
    ensures MediaOk(TakeFragment(s, h, fragment).state)
    ensures TakeFragment(s, h, fragment).result != Failure(IncompleteFrame)
  {
    hide Finish, Insert, NewPartial;
    var key := KeyOf(h);
    NewPartialOk(h);
    var partial := if key in s.partial then s.partial[key] else NewPartial(h);
    InsertFits(partial, h, fragment);
    NewPartialMetadata(h);
    if Insert(partial, h, fragment).Success? {
      InsertKeeps(partial, h, fragment);
      var filled := Insert(partial, h, fragment).value;
      FilledBounds(filled.fragments);
      if filled.received == |filled.fragments| {
        FinishHasAll(filled);
      }
    }
  }

  lemma NewPartialMetadata(h: FragmentHeader)
    ensures NewPartial(h).metadata == h.metadata && |NewPartial(h).fragments| == h.fragmentCount
  {
  }

  lemma InsertFits(p: PartialFrame, h: FragmentHeader, fragment: Bytes)
    ensures Insert(p, h, fragment) != Failure(IncompleteFrame)
  {
  }

  function NoFragments(count: nat): (slots: seq<Option<Bytes>>)
    ensures |slots| == count && forall i | 0 <= i < count :: slots[i].None?
  {
    if count == 0 then [] else NoFragments(count - 1) + [None]
  }

  /** The fragments of a frame held so far. */
  function SlotsOf(s: MediaState, key: Key, count: nat): seq<Option<Bytes>> {
    if key in s.partial then s.partial[key].fragments else NoFragments(count)
  }

  /** A fragment that does not belong to the frame being put together under its key. */
  predicate Conflicts(s: MediaState, h: FragmentHeader) {
    var key := Key(h.metadata.streamId, h.metadata.sequence);
    && key in s.partial
    && (|| h.metadata != s.partial[key].metadata || h.accessUnitLen != s.partial[key].accessUnitLen
        || h.fragmentIndex >= |s.partial[key].fragments|)
  }

  /** Nothing but the frame `key` is touched. */
  ghost predicate OtherFramesKept(s: MediaState, s': MediaState, key: Key) {
    && s'.fec == s.fec
    && (forall k | k != key :: k in s'.partial <==> k in s.partial)
    && (forall k | k != key && k in s.partial :: s'.partial[k] == s.partial[k])
  }

  /**
   Whatever the fragment, a conflicting one is refused and changes nothing, one already held changes
   nothing, any other takes its slot. With the last slot the frame comes to its end: it is handed out if the
   fragments together have the declared length, and lost if not.
   */
  lemma FragmentOutcome(s: MediaState, h: FragmentHeader, fragment: Bytes)
    requires MediaOk(s) && h.fragmentIndex < h.fragmentCount && KeyOf(h) !in s.completed
    ensures var (key, taken) := (Key(h.metadata.streamId, h.metadata.sequence), TakeFragment(s, h, fragment));
            var before := SlotsOf(s, key, h.fragmentCount);
            if Conflicts(s, h) then
              && taken.state == s
              && taken.result == Failure(
                   if h.metadata != s.partial[key].metadata then ConflictingMetadata
                   else if h.accessUnitLen != s.partial[key].accessUnitLen then ConflictingAccessUnitLength
                   else MediaError.InvalidFragmentIndex(h.fragmentIndex, |s.partial[key].fragments|))
            else if before[h.fragmentIndex].Some? then taken.state == s && taken.result == Success(None)
            else
              var slots := before[h.fragmentIndex := Some(fragment)];
              && OtherFramesKept(s, taken.state, key)
              && if exists i :: 0 <= i < |slots| && slots[i].None? then
                   && taken.result == Success(None) && taken.state.completed == s.completed && key in taken.state.partial
                   && taken.state.partial[key].fragments == slots && taken.state.partial[key].metadata == h.metadata
                   && taken.state.partial[key].accessUnitLen == h.accessUnitLen
                 else
                   && key !in taken.state.partial && key in taken.state.completed
                   && JoinPieces(slots).Success?
                   && var joined := JoinPieces(slots).value;
                      taken.result == if |joined| == h.accessUnitLen then Success(Some(DecodedFrame(h.metadata, joined)))
                                      else Failure(AccessUnitLengthMismatch(h.accessUnitLen, |joined|))
  {
    hide JoinPieces, Filled;
    var key := KeyOf(h);
    var partial := if key in s.partial then s.partial[key] else NewPartial(h);
    NewPartialOk(h);
    assert NewPartial(h).fragments == NoFragments(h.fragmentCount);
    FilledBounds(partial.fragments);
    if !Conflicts(s, h) && partial.fragments[h.fragmentIndex].None? {
      var slots := partial.fragments[h.fragmentIndex := Some(fragment)];
      FilledOne(partial.fragments, h.fragmentIndex, fragment);
      FilledBounds(slots);
      if forall i | 0 <= i < |slots| :: slots[i].Some? {
        AllPieces(slots);
      }
    } else {
      assert key in s.partial ==> s.partial[key := s.partial[key]] == s.partial;
    }
  }

  /** Which finished frames are remembered: those of other streams, and of this one all but those more than 128 behind. */
  lemma FramesRemembered(completed: set<Key>, current: Key)
    ensures forall key ::
              key in PruneFrames(completed, current) <==>
                key in completed && (key.streamId != current.streamId || key.sequence + 128 >= current.sequence)
  {
  }

  /** A recovered block that is no fragment is refused, one of a finished frame ignored; neither changes anything. */
  lemma BlockRefused(s: MediaState, block: Bytes)
    ensures var taken := TakeBlock(s, block);
            && (|block| < 44 ==> taken.result == Failure(MediaError.HeaderTooShort(|block|)) && taken.state == s)
            && (|block| >= 44 && DecodeFragment(block[..44]).Failure? ==>
                  taken.result == Failure(DecodeFragment(block[..44]).error) && taken.state == s)
            && (|block| >= 44 && DecodeFragment(block[..44]).Success? ==>
                  var h := DecodeFragment(block[..44]).value;
                  if h.fragmentIndex >= h.fragmentCount then
                    taken.result == Failure(MediaError.InvalidFragmentIndex(h.fragmentIndex, h.fragmentCount)) && taken.state == s
                  else if Key(h.metadata.streamId, h.metadata.sequence) in s.completed then
                    taken.result == Success(None) && taken.state == s
                  else taken == TakeFragment(s, h, block[44..]))
  {
    hide TakeFragment, DecodeFragment;
  }

  /** Whatever arrives, the books stay right and a complete frame is never reported incomplete. */
  lemma PushMediaKeeps(code: Code, s: MediaState, datagram: Bytes)
    requires MediaOk(s)
    ensures MediaOk(PushedMedia(code, s, datagram).state)
    ensures PushedMedia(code, s, datagram).result != Failure(IncompleteFrame)
  {
    hide Pushed, TakeFragment, MediaOk;
    var (fec', r) := Pushed(code, s.fec, datagram);
    var s' := s.(fec := fec');
    FecIrrelevant(s, s');
    if r.Success? && r.value.Some? && |r.value.value| >= MEDIA_HEADER_LEN {
      var block := r.value.value;
      var header := DecodeFragment(block[..MEDIA_HEADER_LEN]);
      DecodeNeverIncomplete(block[..MEDIA_HEADER_LEN]);
      if header.Success? && header.value.fragmentIndex < header.value.fragmentCount && KeyOf(header.value) !in s'.completed {
        TakeFragmentKeeps(s', header.value, block[MEDIA_HEADER_LEN..]);
      }
    }
  }

  lemma FecIrrelevant(s: MediaState, s': MediaState)
    requires s'.partial == s.partial && s'.completed == s.completed
    ensures MediaOk(s') <==> MediaOk(s)
  {
  }

  lemma DecodeNeverIncomplete(bytes: Bytes)
    ensures DecodeFragment(bytes) != Failure(IncompleteFrame)
  {
    hide DecodeFields;
  }

  // ----- runs

  /** A frame that came to its end: handed out, or refused for its length. */
  datatype Ending = Ending(key: Key, delivered: bool)

  function MediaReplay(code: Code, datagrams: seq<Bytes>): (MediaState, seq<Ending>) {
    if datagrams == [] then (NEW_MEDIA, [])
    else
      var (s, log) := MediaReplay(code, datagrams[..|datagrams| - 1]);
      var taken := PushedMedia(code, s, datagrams[|datagrams| - 1]);
      (taken.state, log + (if taken.finished.None? then [] else [Ending(taken.finished.value, taken.result.Success?)]))
  }

  lemma {:induction false} MediaRunKeeps(code: Code, datagrams: seq<Bytes>)
    ensures MediaOk(MediaReplay(code, datagrams).0)
  {
    hide PushedMedia, MediaOk;
    if datagrams == [] {
      NewMediaOk();
    } else {
      MediaRunKeeps(code, datagrams[..|datagrams| - 1]);
      PushMediaKeeps(code, MediaReplay(code, datagrams[..|datagrams| - 1]).0, datagrams[|datagrams| - 1]);
    }
  }

  lemma NewMediaOk()
    ensures MediaOk(NEW_MEDIA)
  {
  }

  /** What a push does to the window, and when it ends a frame. */
  lemma Endings(code: Code, s: MediaState, datagram: Bytes)
    ensures var taken := PushedMedia(code, s, datagram);
            if taken.finished.Some? then
              && taken.finished.value !in s.completed
              && taken.state.completed == PruneFrames(s.completed + {taken.finished.value}, taken.finished.value)
            else taken.state.completed == s.completed
    ensures var taken := PushedMedia(code, s, datagram);
            taken.result.Success? && taken.result.value.Some? ==> taken.finished.Some?
  {
    hide Pushed, DecodeFragment, Finish, Insert, PruneFrames;
  }

  /** `log[k]` ended a frame of the same stream more than the window ahead. */
  ghost predicate FrameOvertaken(log: seq<Ending>, i: nat, end: nat)
    requires i < |log| && end <= |log|
  {
    exists k | i < k < end ::
      log[k].key.streamId == log[i].key.streamId && log[k].key.sequence >= log[i].key.sequence + FRAME_WINDOW + 1
  }

  ghost predicate EndingsKnown(completed: set<Key>, log: seq<Ending>) {
    forall i | 0 <= i < |log| :: log[i].key in completed || FrameOvertaken(log, i, |log|)
  }

  lemma EndingAdds(completed: set<Key>, log: seq<Ending>, e: Ending)
    requires EndingsKnown(completed, log)
    ensures EndingsKnown(PruneFrames(completed + {e.key}, e.key), log + [e])
  {
    var log' := log + [e];
    var completed' := PruneFrames(completed + {e.key}, e.key);
    forall i | 0 <= i < |log'| ensures log'[i].key in completed' || FrameOvertaken(log', i, |log'|) {
      if i < |log| && log'[i].key !in completed' {
        if log[i].key in completed {
          assert log'[|log|] == e;
        } else {
          var k :| i < k < |log| && log[k].key.streamId == log[i].key.streamId
                   && log[k].key.sequence >= log[i].key.sequence + FRAME_WINDOW + 1;
          assert log'[k] == log[k];
        }
      }
    }
  }

  lemma {:induction false} EndingsStayKnown(code: Code, datagrams: seq<Bytes>)
    ensures EndingsKnown(MediaReplay(code, datagrams).0.completed, MediaReplay(code, datagrams).1)
  {
    hide PushedMedia, EndingsKnown, PruneFrames;
    if datagrams == [] {
      NothingEnded();
    } else {
      var before := datagrams[..|datagrams| - 1];
      EndingsStayKnown(code, before);
      var (s, log) := MediaReplay(code, before);
      var taken := PushedMedia(code, s, datagrams[|datagrams| - 1]);
      Endings(code, s, datagrams[|datagrams| - 1]);
      if taken.finished.Some? {
        EndingAdds(s.completed, log, Ending(taken.finished.value, taken.result.Success?));
      } else {
        assert log + [] == log;
      }
    }
  }

  lemma NothingEnded()
    ensures EndingsKnown({}, [])
  {
  }

  /**
   Over any run of arbitrary datagrams, between two endings of one frame, delivered or not, a frame
   of the same stream with a sequence at least 129 higher came to its end.
   */
  lemma {:induction false} FrameOncePerWindow(code: Code, datagrams: seq<Bytes>, i: nat, j: nat)
    requires i < j < |MediaReplay(code, datagrams).1|
    requires MediaReplay(code, datagrams).1[i].key == MediaReplay(code, datagrams).1[j].key
    ensures var log := MediaReplay(code, datagrams).1;
            exists k | i < k < j ::
              log[k].key.streamId == log[i].key.streamId && log[k].key.sequence >= log[i].key.sequence + 129
    decreases |datagrams|
  {
    hide PushedMedia;
    var before := datagrams[..|datagrams| - 1];
    var (s, log) := MediaReplay(code, before);
    var log' := MediaReplay(code, datagrams).1;
    if j < |log| {
      FrameOncePerWindow(code, before, i, j);
      var k :| i < k < j && log[k].key.streamId == log[i].key.streamId
               && log[k].key.sequence >= log[i].key.sequence + 129;
      assert log'[k] == log[k];
    } else {
      Endings(code, s, datagrams[|datagrams| - 1]);
      EndingsStayKnown(code, before);
      assert log[i] == log'[i] && FrameOvertaken(log, i, |log|);
      var k :| i < k < |log| && log[k].key.streamId == log[i].key.streamId
               && log[k].key.sequence >= log[i].key.sequence + FRAME_WINDOW + 1;
      assert log'[k] == log[k];
    }
  }
}
