/**
 Liveness of media frames, through the datagram decoder: when every source datagram of a frame
 arrives, in whatever order, the frame comes out exactly once; and exactly which frames can lose
 symbols to the block window on the way.
 */
module MediaDelivery {
  import opened ByteCodec
  import opened Collections
  import opened FecDecoding
  import opened FecEncoding
  import opened MachineInts
  import opened MediaDecoding
  import opened MediaEncoding
  import opened MediaEndToEnd
  import opened MediaFragments
  import opened MediaLayout
  import opened RaptorQ
  import opened Wrappers
  import Arithmetic

  /** A frame and the ids of its blocks, one per fragment. */
  datatype Shipment = Shipment(frame: MediaFrame, decision: Decision, ids: seq<u32>) {
    function Max(): nat {
      decision.MaxFragment()
    }

    ghost predicate Valid() {
      && Cuttable(frame, Max()) && |ids| == FragmentCount(|frame.payload|, Max()) && NoRepeats(ids)
      && forall j | 0 <= j < |ids| :: FragmentSource(frame, decision, j).Valid()
    }

    ghost function SourceOf(j: nat): Source
      requires Valid() && j < |ids|
    {
      FragmentSource(frame, decision, j)
    }

    /** K of block `j` */
    ghost function Symbols(j: nat): nat
      requires Valid() && j < |ids|
    {
      SourceOf(j).SourceSymbols()
    }

    /** No closing block of the frame pushes block `j` out of the window. */
    ghost predicate Stays(j: nat)
      requires j < |ids|
    {
      forall i | 0 <= i < |ids| :: WithinWindow(ids[j], ids[i])
    }

    /** Every block stays, or has a single source symbol and so nothing to lose. */
    ghost predicate Safe()
      requires Valid()
    {
      forall j | 0 <= j < |ids| :: Stays(j) || Symbols(j) == 1
    }

    ghost predicate OnTheWay(sent: MediaSent) {
      forall j | 0 <= j < |ids| :: ids[j] in sent && sent[ids[j]] == SentFragment(frame, decision, j)
    }
  }

  /** One datagram of a frame: symbol `esi` of block `block`. */
  datatype Piece = Piece(block: nat, esi: nat, bytes: Bytes)

  ghost predicate IsPiece(code: Code, ship: Shipment, p: Piece)
    requires ship.Valid()
  {
    p.block < |ship.ids| && CarriesSymbol(code, ship.SourceOf(p.block), ship.ids[p.block], p.esi, p.bytes)
  }

  ghost predicate ArePieces(code: Code, ship: Shipment, pieces: seq<Piece>)
    requires ship.Valid()
  {
    forall k | 0 <= k < |pieces| :: IsPiece(code, ship, pieces[k])
  }

  // ----- the block decoder

  /** One datagram of a frame, seen by the block decoder. */
  lemma FecStep(code: Code, sent: MediaSent, fec: Decoder, b: u32, esi: nat, bytes: Bytes)
    requires code.Lawful() && MediaSends(sent) && GenuineState(code, MediaSources(sent), fec) && b in sent
    requires CarriesSymbol(code, sent[b].Source(), b, esi, bytes)
    ensures sent[b].Source().Valid()
    ensures var (fec', r) := Pushed(code, fec, bytes); Steps(code, sent[b].Source(), fec, fec', r, b, esi)
  {
    hide Parse, Source.Valid, GenuineArrival, GenuineBlock, FragmentSource, Pushed, Steps, Code.Lawful;
    assert MediaSources(sent)[b] == sent[b].Source();
    FragmentIsSource(sent, b);
    GenuineStep(code, MediaSources(sent), fec, bytes);
  }

  lemma FragmentIsSource(sent: MediaSent, b: u32)
    requires MediaSends(sent) && b in sent
    ensures sent[b].Source().Valid()
  {
    assert sent[b].Valid();
  }

  // ----- one push

  /** The frame is still open with exactly the fragments in `had`, or was handed out. */
  ghost predicate FrameState(s: MediaState, ship: Shipment, had: set<nat>)
    requires ship.Valid()
  {
    if Covered(ship.frame, ship.Max(), had) then FrameKey(ship.frame) in s.completed
    else Holds(s, ship.frame, ship.Max(), had)
  }

  /** What one push gives: the frame exactly when it brings the last fragment. */
  function Expected(ship: Shipment, before: bool, after: bool): FrameResult {
    if after && !before then Success(Some(FrameOf(ship.frame))) else Success(None)
  }

  lemma BlockTaken(s: MediaState, ship: Shipment, had: set<nat>, j: nat)
    requires ship.Valid() && j < |ship.ids| && FrameState(s, ship, had)
    ensures var taken := TakeBlock(s, ship.SourceOf(j).data);
            && FrameState(taken.state, ship, had + {j}) && taken.state.fec == s.fec
            && taken.result == Expected(ship, Covered(ship.frame, ship.Max(), had), Covered(ship.frame, ship.Max(), had + {j}))
  {
    hide TakeBlock, BlockData, FragmentCount, Holds, Source.Valid, TakeFragment;
    BlockGoesToFragment(s, ship.frame, ship.Max(), j);
    FragmentKeepsFec(s, HeaderOf(ship.frame, ship.Max(), j), FragmentOf(ship.frame.payload, ship.Max(), j));
    if !Covered(ship.frame, ship.Max(), had) {
      FragmentTaken(s, ship.frame, ship.Max(), had, j);
    }
  }

  lemma FragmentKeepsFec(s: MediaState, h: FragmentHeader, fragment: Bytes)
    ensures TakeFragment(s, h, fragment).state.fec == s.fec
  {
    hide Insert, Finish;
  }

  lemma FrameStateFec(s: MediaState, ship: Shipment, had: set<nat>, fec: Decoder)
    requires ship.Valid() && FrameState(s, ship, had)
    ensures FrameState(s.(fec := fec), ship, had)
  {
    hide FragmentCount;
  }

  /** Whether the push of a piece closes its block. */
  predicate ClosesBlock(code: Code, s: MediaState, p: Piece) {
    var r := Pushed(code, s.fec, p.bytes).1;
    r.Success? && r.value.Some?
  }

  /** One piece: the decoder's step, then the fragment, if the block closed. */
  lemma PieceTaken(code: Code, sent: MediaSent, s: MediaState, ship: Shipment, had: set<nat>, p: Piece)
    requires code.Lawful() && MediaSends(sent) && ExactMedia(code, sent, s) && ship.Valid() && ship.OnTheWay(sent)
    requires IsPiece(code, ship, p) && FrameState(s, ship, had)
    ensures var taken := PushedMedia(code, s, p.bytes);
            var had' := if ClosesBlock(code, s, p) then had + {p.block} else had;
            && ExactMedia(code, sent, taken.state) && FrameState(taken.state, ship, had')
            && taken.state.fec == Pushed(code, s.fec, p.bytes).0
            && taken.result == Expected(ship, Covered(ship.frame, ship.Max(), had), Covered(ship.frame, ship.Max(), had'))
    ensures var b, ids := ship.ids[p.block], HeldIds(s.fec, ship.ids[p.block]) + {p.esi};
            var fec' := Pushed(code, s.fec, p.bytes).0;
            if b in s.fec.completed then
              !ClosesBlock(code, s, p) && fec'.completed == s.fec.completed && fec'.blocks == s.fec.blocks
            else
              && (ClosesBlock(code, s, p) <==> Decodes(code, ship.SourceOf(p.block), ids))
              && (if ClosesBlock(code, s, p) then Closes(s.fec, fec', b) else TakesIn(s.fec, fec', b, p.esi))
  {
    hide Pushed, TakeBlock, MediaOk, GenuineState, ExactFor, CarriesSymbol, FragmentSource, SentFragment.Valid, Holds,
         Covered, TakesIn, Closes, Decodes, Source.SourceSymbols, Source.Valid, FrameState, FragmentCount, Cuttable, SameCut,
         HeldIds;
    var b := ship.ids[p.block];
    assert sent[b] == SentFragment(ship.frame, ship.decision, p.block);
    assert sent[b].Valid() && sent[b].Source() == ship.SourceOf(p.block);
    assert GenuineDatagram(code, sent, b, p.bytes);
    PushMediaExact(code, sent, s, b, p.bytes);
    FecStep(code, sent, s.fec, b, p.esi, p.bytes);
    var fec' := Pushed(code, s.fec, p.bytes).0;
    FrameStateFec(s, ship, had, fec');
    if ClosesBlock(code, s, p) {
      BlockTaken(s.(fec := fec'), ship, had, p.block);
    }
  }

  // ----- gathering

  ghost predicate Arrived(past: seq<Piece>, j: nat, esi: nat) {
    exists k :: 0 <= k < |past| && past[k].block == j && past[k].esi == esi
  }

  /** Symbol ids of block `j` among these pieces. */
  function ArrivedIds(past: seq<Piece>, j: nat): set<nat> {
    if past == [] then {}
    else
      var p := past[|past| - 1];
      ArrivedIds(past[..|past| - 1], j) + (if p.block == j then {p.esi} else {})
  }

  /** At some moment the symbols of block `j` arrived so far could be decoded. */
  ghost predicate Recoverable(code: Code, ship: Shipment, past: seq<Piece>, j: nat)
    requires ship.Valid() && j < |ship.ids|
  {
    exists n :: 0 <= n <= |past| && Decodes(code, ship.SourceOf(j), ArrivedIds(past[..n], j))
  }

  lemma RecoverableNext(code: Code, ship: Shipment, past: seq<Piece>, p: Piece, j: nat)
    requires ship.Valid() && j < |ship.ids|
    ensures ArrivedIds(past + [p], j) == ArrivedIds(past, j) + (if p.block == j then {p.esi} else {})
    ensures Recoverable(code, ship, past + [p], j)
            <==> Recoverable(code, ship, past, j) || Decodes(code, ship.SourceOf(j), ArrivedIds(past + [p], j))
  {
    hide Decodes, Shipment.Valid, Shipment.SourceOf;
    var all := past + [p];
    assert all[..|past|] == past && all[..|past| + 1] == all;
    assert forall n | 0 <= n <= |past| :: all[..n] == past[..n];
  }

  lemma {:induction false} ArrivedIdsAre(past: seq<Piece>, j: nat)
    ensures forall esi: nat :: esi in ArrivedIds(past, j) <==> Arrived(past, j, esi)
  {
    if past != [] {
      var before, p := past[..|past| - 1], past[|past| - 1];
      ArrivedIdsAre(before, j);
      assert past == before + [p];
      forall esi: nat ensures esi in ArrivedIds(past, j) <==> Arrived(past, j, esi) {
        ArrivedNext(before, p, j, esi);
      }
    }
  }

  /**
   Block `j` is not complete: what arrived of it could at no moment be decoded and is held, if the block
   stays in the window; and its source symbol did not arrive, if it has but one.
   */
  ghost predicate Waiting(code: Code, fec: Decoder, ship: Shipment, past: seq<Piece>, j: nat)
    requires ship.Valid() && j < |ship.ids|
  {
    && ship.ids[j] !in fec.completed
    && (ship.Stays(j) ==> HeldIds(fec, ship.ids[j]) == ArrivedIds(past, j) && !Recoverable(code, ship, past, j))
    && (ship.Symbols(j) == 1 ==> !Arrived(past, j, 0))
  }

  ghost predicate Gathering(code: Code, sent: MediaSent, s: MediaState, ship: Shipment, past: seq<Piece>, had: set<nat>)
    requires MediaSends(sent) && ship.Valid()
  {
    && ExactMedia(code, sent, s) && ship.OnTheWay(sent) && FrameState(s, ship, had)
    && forall j | 0 <= j < |ship.ids| && j !in had :: Waiting(code, s.fec, ship, past, j)
  }

  lemma ArrivedNext(past: seq<Piece>, p: Piece, j: nat, esi: nat)
    ensures Arrived(past + [p], j, esi) <==> Arrived(past, j, esi) || (p.block == j && p.esi == esi)
  {
    var all := past + [p];
    assert forall k | 0 <= k < |past| :: all[k] == past[k];
    assert all[|past|] == p;
  }

  /** A piece of another block leaves a waiting block waiting. */
  lemma OthersWait(code: Code, fec: Decoder, fec': Decoder, ship: Shipment, past: seq<Piece>, p: Piece, j: nat)
    requires code.Lawful() && ship.Valid() && j < |ship.ids| && p.block < |ship.ids| && p.block != j
    requires Waiting(code, fec, ship, past, j)
    requires var b := ship.ids[p.block];
             (fec'.completed == fec.completed && fec'.blocks == fec.blocks) || TakesIn(fec, fec', b, p.esi) || Closes(fec, fec', b)
    ensures Waiting(code, fec', ship, past + [p], j)
  {
    hide Shipment.Symbols, WithinWindow, Arrived, FragmentCount, Cuttable, Recoverable, Decodes, FragmentSource, Code.Lawful;
    assert ship.ids[j] != ship.ids[p.block];
    ArrivedNext(past, p, j, 0);
    RecoverableNext(code, ship, past, p, j);
    if ship.Stays(j) {
      assert WithinWindow(ship.ids[j], ship.ids[p.block]);
      StillUnrecovered(code, ship, past, p, j);
    }
  }

  /** Nothing new of a block, nothing new to decode. */
  lemma StillUnrecovered(code: Code, ship: Shipment, past: seq<Piece>, p: Piece, j: nat)
    requires ship.Valid() && j < |ship.ids| && p.block != j && !Recoverable(code, ship, past, j)
    ensures !Recoverable(code, ship, past + [p], j)
  {
    hide Decodes, Shipment.Valid, Shipment.SourceOf, ArrivedIds;
    RecoverableNext(code, ship, past, p, j);
    assert past[..|past|] == past;
    assert ArrivedIds(past + [p], j) == ArrivedIds(past, j);
  }

  /** The piece's own block, taken in but not closed. */
  lemma OwnWaits(code: Code, fec: Decoder, fec': Decoder, ship: Shipment, past: seq<Piece>, p: Piece)
    requires code.Lawful() && ship.Valid() && p.block < |ship.ids| && Waiting(code, fec, ship, past, p.block)
    requires var b := ship.ids[p.block];
             TakesIn(fec, fec', b, p.esi) && !Decodes(code, ship.SourceOf(p.block), HeldIds(fec, b) + {p.esi})
    ensures Waiting(code, fec', ship, past + [p], p.block)
  {
    hide WithinWindow, Arrived, FragmentCount, Cuttable, Shipment.Stays, Recoverable, Decodes, FragmentSource, Code.Lawful,
         Source.SourceSymbols;
    var j, ids := p.block, HeldIds(fec, ship.ids[p.block]) + {p.esi};
    RecoverableNext(code, ship, past, p, j);
    ArrivedNext(past, p, j, 0);
    DecodesWhen(code, ship.SourceOf(j), ids);
    assert 0 in ids ==> AllBelow(ids, 1);
  }

  lemma {:induction false} PieceGathers(code: Code, sent: MediaSent, s: MediaState, ship: Shipment, past: seq<Piece>,
                                        had: set<nat>, p: Piece) returns (had': set<nat>)
    requires code.Lawful() && MediaSends(sent) && ship.Valid() && Gathering(code, sent, s, ship, past, had)
    requires IsPiece(code, ship, p)
    ensures had <= had'
    ensures var taken := PushedMedia(code, s, p.bytes);
            && Gathering(code, sent, taken.state, ship, past + [p], had')
            && taken.result == Expected(ship, Covered(ship.frame, ship.Max(), had), Covered(ship.frame, ship.Max(), had'))
  {
    hide PushedMedia, Pushed, ExactMedia, IsPiece, FrameState, Waiting, Shipment.OnTheWay, Covered, TakesIn, Closes, Decodes,
         Expected, ClosesBlock, Shipment.Symbols, Shipment.Valid, HeldIds;
    had' := if ClosesBlock(code, s, p) then had + {p.block} else had;
    PieceTaken(code, sent, s, ship, had, p);
    PieceInside(code, ship, p);
    var fec' := Pushed(code, s.fec, p.bytes).0;
    forall j | 0 <= j < |ship.ids| && j !in had' ensures Waiting(code, fec', ship, past + [p], j) {
      if j == p.block {
        WaitingIsOpen(code, s.fec, ship, past, j);
        OwnWaits(code, s.fec, fec', ship, past, p);
      } else {
        OthersWait(code, s.fec, fec', ship, past, p, j);
      }
    }
  }

  lemma WaitingIsOpen(code: Code, fec: Decoder, ship: Shipment, past: seq<Piece>, j: nat)
    requires ship.Valid() && j < |ship.ids| && Waiting(code, fec, ship, past, j)
    ensures ship.ids[j] !in fec.completed
  {
  }

  lemma PieceInside(code: Code, ship: Shipment, p: Piece)
    requires ship.Valid() && IsPiece(code, ship, p)
    ensures p.block < |ship.ids|
  {
  }

  // ----- whole lists of datagrams

  /** State and results after these pieces. */
  function Feed(code: Code, s: MediaState, pieces: seq<Piece>): (MediaState, seq<FrameResult>)
    decreases |pieces|
  {
    if pieces == [] then (s, [])
    else
      var taken := PushedMedia(code, s, pieces[0].bytes);
      var (s', results) := Feed(code, taken.state, pieces[1..]);
      (s', [taken.result] + results)
  }

  lemma {:induction false} FeedLength(code: Code, s: MediaState, pieces: seq<Piece>)
    ensures |Feed(code, s, pieces).1| == |pieces|
    decreases |pieces|
  {
    hide PushedMedia;
    if pieces != [] {
      FeedLength(code, PushedMedia(code, s, pieces[0].bytes).state, pieces[1..]);
    }
  }

  /** Every source symbol of every block arrived. */
  ghost predicate AllSourcesArrived(ship: Shipment, pieces: seq<Piece>)
    requires ship.Valid()
  {
    forall j, esi: nat | 0 <= j < |ship.ids| && esi < ship.Symbols(j) :: Arrived(pieces, j, esi)
  }

  /** Every block has what it needs: enough to decode, if it stays in the window, or its only source symbol. */
  ghost predicate EnoughArrived(code: Code, ship: Shipment, pieces: seq<Piece>)
    requires ship.Valid()
  {
    forall j | 0 <= j < |ship.ids| ::
      (ship.Stays(j) && Recoverable(code, ship, pieces, j)) || (ship.Symbols(j) == 1 && Arrived(pieces, j, 0))
  }

  /** All source symbols are enough for a safe frame. */
  lemma SourcesAreEnough(code: Code, ship: Shipment, pieces: seq<Piece>)
    requires code.Lawful() && ship.Valid() && ship.Safe() && AllSourcesArrived(ship, pieces)
    ensures EnoughArrived(code, ship, pieces)
  {
    hide Arrived, FragmentCount, Cuttable, FragmentSource, Shipment.Stays, Source.SourceSymbols, Source.Valid, Decodes,
         Code.Lawful, ArrivedIds;
    forall j | 0 <= j < |ship.ids| && ship.Symbols(j) != 1 ensures Recoverable(code, ship, pieces, j) {
      ArrivedIdsAre(pieces, j);
      assert pieces[..|pieces|] == pieces;
      DecodesWhen(code, ship.SourceOf(j), ArrivedIds(pieces, j));
    }
    forall j | 0 <= j < |ship.ids| && ship.Symbols(j) == 1 ensures Arrived(pieces, j, 0) {
    }
  }

  lemma AllHad(code: Code, sent: MediaSent, s: MediaState, ship: Shipment, past: seq<Piece>, had: set<nat>)
    requires MediaSends(sent) && ship.Valid() && EnoughArrived(code, ship, past)
    requires Gathering(code, sent, s, ship, past, had)
    ensures Covered(ship.frame, ship.Max(), had)
  {
    hide FrameState, ExactMedia, FragmentCount, Cuttable, FragmentSource, Shipment.OnTheWay, Recoverable, Arrived,
         Shipment.Stays, Shipment.Symbols;
    forall j: nat | j < |ship.ids| ensures j in had {
    }
  }

  ghost predicate AllNothing(results: seq<FrameResult>) {
    forall k | 0 <= k < |results| :: results[k] == Success(None)
  }

  /** The frame comes out once among these results if it still has to, and not at all otherwise. */
  ghost predicate OnceIf(results: seq<FrameResult>, frame: MediaFrame, open': bool) {
    if open' then exists at: nat :: OnceAt(results, frame, at) else AllNothing(results)
  }

  lemma OnceNext(first: FrameResult, rest: seq<FrameResult>, ship: Shipment, before: bool, after: bool)
    requires before ==> after
    requires first == Expected(ship, before, after) && OnceIf(rest, ship.frame, !after)
    ensures OnceIf([first] + rest, ship.frame, !before)
  {
    var all := [first] + rest;
    assert forall k | 1 <= k < |all| :: all[k] == rest[k - 1];
    if before {
    } else if after {
      assert OnceAt(all, ship.frame, 0);
    } else {
      var at: nat :| OnceAt(rest, ship.frame, at);
      assert OnceAt(all, ship.frame, at + 1);
    }
  }

  lemma MaxPositive(ship: Shipment)
    requires ship.Valid()
    ensures ship.Max() > 0
  {
  }

  lemma CoveredMore(ship: Shipment, had: set<nat>, had': set<nat>)
    requires ship.Valid() && had <= had' && Covered(ship.frame, ship.Max(), had)
    ensures Covered(ship.frame, ship.Max(), had')
  {
  }

  lemma {:induction false} FeedGathers(code: Code, sent: MediaSent, s: MediaState, ship: Shipment, past: seq<Piece>,
                                       had: set<nat>, rest: seq<Piece>)
    requires code.Lawful() && MediaSends(sent) && ship.Valid()
    requires Gathering(code, sent, s, ship, past, had) && ArePieces(code, ship, rest)
    requires EnoughArrived(code, ship, past + rest)
    ensures OnceIf(Feed(code, s, rest).1, ship.frame, !Covered(ship.frame, ship.Max(), had))
    decreases |rest|
  {
    hide PushedMedia, Gathering, IsPiece, Covered, Expected, Shipment.Valid, EnoughArrived, OnceAt, Code.Lawful;
    if rest == [] {
      assert past + rest == past;
      AllHad(code, sent, s, ship, past, had);
    } else {
      var p := rest[0];
      assert IsPiece(code, ship, p);
      MaxPositive(ship);
      var had' := PieceGathers(code, sent, s, ship, past, had, p);
      var taken := PushedMedia(code, s, p.bytes);
      assert past + rest == (past + [p]) + rest[1..];
      FeedGathers(code, sent, taken.state, ship, past + [p], had', rest[1..]);
      if Covered(ship.frame, ship.Max(), had) {
        CoveredMore(ship, had, had');
      }
      OnceNext(taken.result, Feed(code, taken.state, rest[1..]).1, ship, Covered(ship.frame, ship.Max(), had),
               Covered(ship.frame, ship.Max(), had'));
    }
  }

  /** The decoder never met the frame or its blocks. */
  ghost predicate Unmet(s: MediaState, ship: Shipment) {
    && FrameKey(ship.frame) !in s.completed && FrameKey(ship.frame) !in s.partial
    && forall j | 0 <= j < |ship.ids| :: ship.ids[j] !in s.fec.completed && ship.ids[j] !in s.fec.blocks
  }

  lemma UnmetGathers(code: Code, sent: MediaSent, s: MediaState, ship: Shipment)
    requires code.Lawful() && MediaSends(sent) && ExactMedia(code, sent, s)
    requires ship.Valid() && ship.OnTheWay(sent) && Unmet(s, ship)
    ensures Gathering(code, sent, s, ship, [], {}) && !Covered(ship.frame, ship.Max(), {})
  {
    hide ExactMedia, FragmentSource, WithinWindow, Source.SourceSymbols, Decodes, Code.Lawful;
    var none: set<nat> := {};
    assert 0 < FragmentCount(|ship.frame.payload|, ship.Max()) && 0 !in none;
    forall j | 0 <= j < |ship.ids| ensures Waiting(code, s.fec, ship, [], j) {
      SomeSymbols(ship, j);
      DecodesWhen(code, ship.SourceOf(j), none);
    }
  }

  lemma SomeSymbols(ship: Shipment, j: nat)
    requires ship.Valid() && j < |ship.ids|
    ensures ship.Symbols(j) > 0
  {
    hide FragmentSource, Cuttable;
    var source := ship.SourceOf(j);
    Arithmetic.CeilDivCovers(|source.data|, source.symbolSize);
  }

  /**
   Exactly once, through the whole decoder, whatever is lost: any list of datagrams of a frame, in any
   order, with repetitions and repairs, that brings every block what it needs gives the frame as it was
   sent once, and nothing else.
   */
  lemma FrameRecoveredOnce(code: Code, sent: MediaSent, s: MediaState, ship: Shipment, pieces: seq<Piece>)
    requires code.Lawful() && MediaSends(sent) && ExactMedia(code, sent, s)
    requires ship.Valid() && ship.OnTheWay(sent) && Unmet(s, ship)
    requires ArePieces(code, ship, pieces) && EnoughArrived(code, ship, pieces)
    ensures exists at: nat :: OnceAt(Feed(code, s, pieces).1, ship.frame, at)
  {
    hide Gathering, Covered, Feed, OnceAt, Shipment.Valid, EnoughArrived, Unmet, ArePieces, ExactMedia, Shipment.OnTheWay,
         Code.Lawful;
    UnmetGathers(code, sent, s, ship);
    assert [] + pieces == pieces;
    FeedGathers(code, sent, s, ship, [], {}, pieces);
  }

  /**
   With every source datagram among them the frame comes out once when no block of it can push another
   with more than one source symbol out of the window.
   */
  lemma FrameDeliveredOnce(code: Code, sent: MediaSent, s: MediaState, ship: Shipment, pieces: seq<Piece>)
    requires code.Lawful() && MediaSends(sent) && ExactMedia(code, sent, s)
    requires ship.Valid() && ship.OnTheWay(sent) && Unmet(s, ship) && ship.Safe()
    requires ArePieces(code, ship, pieces) && AllSourcesArrived(ship, pieces)
    ensures exists at: nat :: OnceAt(Feed(code, s, pieces).1, ship.frame, at)
  {
    hide Feed, OnceAt, Shipment.Valid, Shipment.Safe, AllSourcesArrived, EnoughArrived, Unmet, ArePieces, ExactMedia,
         Shipment.OnTheWay, Code.Lawful;
    SourcesAreEnough(code, ship, pieces);
    FrameRecoveredOnce(code, sent, s, ship, pieces);
  }

  // ----- outside the window

  lemma {:induction false} FeedConcat(code: Code, s: MediaState, a: seq<Piece>, b: seq<Piece>)
    ensures var (s1, r1) := Feed(code, s, a);
            var (s2, r2) := Feed(code, s1, b);
            Feed(code, s, a + b) == (s2, r1 + r2)
    decreases |a|
  {
    hide PushedMedia;
    if a == [] {
      assert a + b == b;
      assert [] + Feed(code, s, b).1 == Feed(code, s, b).1;
    } else {
      assert (a + b)[1..] == a[1..] + b;
      var taken := PushedMedia(code, s, a[0].bytes);
      FeedConcat(code, taken.state, a[1..], b);
      var (s1, r1) := Feed(code, taken.state, a[1..]);
      assert [taken.result] + (r1 + Feed(code, s1, b).1) == [taken.result] + r1 + Feed(code, s1, b).1;
    }
  }

  /** Block `j` was never completed, and of its symbols at most those in `keys` are held. */
  ghost predicate Lacking(code: Code, sent: MediaSent, s: MediaState, ship: Shipment, j: nat, keys: set<nat>)
    requires MediaSends(sent) && ship.Valid() && j < |ship.ids|
  {
    && ExactMedia(code, sent, s) && ship.OnTheWay(sent)
    && ship.ids[j] !in s.fec.completed && HeldIds(s.fec, ship.ids[j]) <= keys
    && exists had: set<nat> :: j !in had && FrameState(s, ship, had)
  }

  ghost predicate OnlyKeys(pieces: seq<Piece>, j: nat, keys: set<nat>) {
    forall k | 0 <= k < |pieces| && pieces[k].block == j :: pieces[k].esi in keys
  }

  /** The decoder knows of block `i` what it knew before. */
  ghost predicate Untouched(fec: Decoder, fec': Decoder, b: u32) {
    (b in fec'.completed <==> b in fec.completed) && HeldIds(fec', b) == HeldIds(fec, b)
  }

  lemma BlockDecodes(code: Code, ship: Shipment, j: nat, ids: set<nat>)
    requires code.Lawful() && ship.Valid() && j < |ship.ids|
    ensures AllBelow(ids, ship.Symbols(j)) ==> Decodes(code, ship.SourceOf(j), ids)
    ensures |ids| < ship.Symbols(j) ==> !Decodes(code, ship.SourceOf(j), ids)
  {
    hide FragmentSource, Cuttable, Code.Lawful, Source.Valid, Source.SourceSymbols, Decodes, AllBelow;
    DecodesWhen(code, ship.SourceOf(j), ids);
  }

  /** Fewer symbols than the block has never complete it, so nothing comes out. */
  lemma PieceLacking(code: Code, sent: MediaSent, s: MediaState, ship: Shipment, j: nat, keys: set<nat>, p: Piece)
    requires code.Lawful() && MediaSends(sent) && ship.Valid() && j < |ship.ids| && |keys| < ship.Symbols(j)
    requires Lacking(code, sent, s, ship, j, keys) && IsPiece(code, ship, p) && (p.block == j ==> p.esi in keys)
    ensures var taken := PushedMedia(code, s, p.bytes);
            && Lacking(code, sent, taken.state, ship, j, keys) && taken.result == Success(None)
            && (p.block == j ==> forall b | b != ship.ids[j] :: Untouched(s.fec, taken.state.fec, b))
  {
    hide PushedMedia, Pushed, ExactMedia, IsPiece, FrameState, Shipment.OnTheWay, Covered, AllBelow, ClosesBlock,
         Shipment.Symbols, WithinWindow, Cuttable, FragmentCount, FragmentSource, Code.Lawful, Decodes, Source.Valid;
    var had: set<nat> :| j !in had && FrameState(s, ship, had);
    PieceTaken(code, sent, s, ship, had, p);
    PieceInside(code, ship, p);
    var had' := if ClosesBlock(code, s, p) then had + {p.block} else had;
    if p.block == j {
      var ids := HeldIds(s.fec, ship.ids[j]) + {p.esi};
      Smaller(ids, keys);
      BlockDecodes(code, ship, j, ids);
    }
    NotCovered(ship, j, had);
    NotCovered(ship, j, had');
  }

  lemma NotCovered(ship: Shipment, j: nat, had: set<nat>)
    requires ship.Valid() && j < |ship.ids|
    ensures j !in had ==> !Covered(ship.frame, ship.Max(), had)
  {
  }

  lemma {:induction false} FeedLacking(code: Code, sent: MediaSent, s: MediaState, ship: Shipment, j: nat, keys: set<nat>,
                                       pieces: seq<Piece>)
    requires code.Lawful() && MediaSends(sent) && ship.Valid() && j < |ship.ids| && |keys| < ship.Symbols(j)
    requires Lacking(code, sent, s, ship, j, keys) && ArePieces(code, ship, pieces) && OnlyKeys(pieces, j, keys)
    ensures var (s', results) := Feed(code, s, pieces);
            && Lacking(code, sent, s', ship, j, keys) && AllNothing(results)
            && ((forall k | 0 <= k < |pieces| :: pieces[k].block == j) ==>
                  forall b | b != ship.ids[j] :: Untouched(s.fec, s'.fec, b))
    decreases |pieces|
  {
    hide PushedMedia, Lacking, IsPiece, Shipment.Symbols, Shipment.Valid, Code.Lawful, HeldIds;
    if pieces != [] {
      assert IsPiece(code, ship, pieces[0]);
      PieceLacking(code, sent, s, ship, j, keys, pieces[0]);
      assert forall k | 0 <= k < |pieces| - 1 :: pieces[1..][k] == pieces[k + 1];
      var s1 := PushedMedia(code, s, pieces[0].bytes).state;
      FeedLacking(code, sent, s1, ship, j, keys, pieces[1..]);
      if forall k | 0 <= k < |pieces| :: pieces[k].block == j {
        assert pieces[0].block == j;
        var s2 := Feed(code, s1, pieces[1..]).0;
        forall b | b != ship.ids[j] ensures Untouched(s.fec, s2.fec, b) {
          assert Untouched(s.fec, s1.fec, b) && Untouched(s1.fec, s2.fec, b);
        }
      }
    }
  }

  /** Symbols `from..to` of a block, in order. */
  function Run(symbols: (nat, nat) -> Bytes, b: nat, from: nat, to: nat): (pieces: seq<Piece>)
    requires from <= to
    ensures |pieces| == to - from
    ensures forall k | 0 <= k < to - from :: pieces[k] == Piece(b, from + k, symbols(b, from + k))
  {
    seq(to - from, k requires 0 <= k < to - from => Piece(b, from + k, symbols(b, from + k)))
  }

  /** Either the window dropped block `j`, or block `i` is open and has its first `n` symbols. */
  ghost predicate DroppedOr(fec: Decoder, ship: Shipment, j: nat, i: nat, n: nat)
    requires ship.Valid() && j < |ship.ids| && i < |ship.ids|
  {
    || HeldIds(fec, ship.ids[j]) == {}
    || (ship.ids[i] !in fec.completed && !AllBelow(HeldIds(fec, ship.ids[i]), ship.Symbols(i))
        && AllBelow(HeldIds(fec, ship.ids[i]), n))
  }

  lemma PieceDrops(code: Code, sent: MediaSent, s: MediaState, ship: Shipment, j: nat, i: nat, keys: set<nat>, p: Piece)
    requires code.Lawful() && MediaSends(sent) && ship.Valid() && j < |ship.ids| && i < |ship.ids|
    requires !WithinWindow(ship.ids[j], ship.ids[i])
    requires Lacking(code, sent, s, ship, j, keys) && IsPiece(code, ship, p) && p.block == i
    requires DroppedOr(s.fec, ship, j, i, p.esi)
    ensures DroppedOr(PushedMedia(code, s, p.bytes).state.fec, ship, j, i, p.esi + 1)
  {
    hide PushedMedia, Pushed, ExactMedia, IsPiece, FrameState, Shipment.OnTheWay, Covered, ClosesBlock,
         Shipment.Symbols, Cuttable, FragmentCount, FragmentSource, Code.Lawful, Decodes, Source.Valid;
    var had: set<nat> :| j !in had && FrameState(s, ship, had);
    PieceTaken(code, sent, s, ship, had, p);
    BlockDecodes(code, ship, i, HeldIds(s.fec, ship.ids[i]) + {p.esi});
    assert ship.ids[i] != ship.ids[j];
  }

  lemma {:induction false} RunDrops(code: Code, sent: MediaSent, s: MediaState, ship: Shipment, j: nat, i: nat, keys: set<nat>,
                                    symbols: (nat, nat) -> Bytes, n: nat)
    requires code.Lawful() && MediaSends(sent) && ship.Valid() && j < |ship.ids| && i < |ship.ids| && j != i
    requires !WithinWindow(ship.ids[j], ship.ids[i]) && |keys| < ship.Symbols(j)
    requires Lacking(code, sent, s, ship, j, keys) && n <= ship.Symbols(i) && DroppedOr(s.fec, ship, j, i, n)
    requires ArePieces(code, ship, Run(symbols, i, n, ship.Symbols(i)))
    ensures HeldIds(Feed(code, s, Run(symbols, i, n, ship.Symbols(i))).0.fec, ship.ids[j]) == {}
    decreases ship.Symbols(i) - n
  {
    hide PushedMedia, Lacking, IsPiece, Shipment.Symbols, Shipment.Valid, Code.Lawful, HeldIds, WithinWindow;
    var pieces := Run(symbols, i, n, ship.Symbols(i));
    if n < ship.Symbols(i) {
      hide DroppedOr;
      var p := pieces[0];
      assert IsPiece(code, ship, p);
      PieceDrops(code, sent, s, ship, j, i, keys, p);
      PieceLacking(code, sent, s, ship, j, keys, p);
      assert pieces[1..] == Run(symbols, i, n + 1, ship.Symbols(i));
      RunDrops(code, sent, PushedMedia(code, s, p.bytes).state, ship, j, i, keys, symbols, n + 1);
    } else {
      assert pieces == [];
    }
  }

  /** All source symbols of the first `n` blocks but block `j`. */
  ghost function Others(ship: Shipment, symbols: (nat, nat) -> Bytes, j: nat, n: nat): seq<Piece>
    requires ship.Valid() && n <= |ship.ids|
  {
    if n == 0 then []
    else Others(ship, symbols, j, n - 1) + (if n - 1 == j then [] else Run(symbols, n - 1, 0, ship.Symbols(n - 1)))
  }

  /** The symbols are pieces of the frame. */
  ghost predicate Supplies(code: Code, ship: Shipment, symbols: (nat, nat) -> Bytes)
    requires ship.Valid()
  {
    forall b, esi: nat | 0 <= b < |ship.ids| && esi < ship.Symbols(b) :: IsPiece(code, ship, Piece(b, esi, symbols(b, esi)))
  }

  lemma {:induction false} OthersAre(code: Code, ship: Shipment, symbols: (nat, nat) -> Bytes, j: nat, n: nat)
    requires ship.Valid() && n <= |ship.ids| && Supplies(code, ship, symbols)
    ensures ArePieces(code, ship, Others(ship, symbols, j, n))
    ensures forall k | 0 <= k < |Others(ship, symbols, j, n)| :: Others(ship, symbols, j, n)[k].block != j
    ensures forall b, esi: nat | 0 <= b < n && b != j && esi < ship.Symbols(b) :: Arrived(Others(ship, symbols, j, n), b, esi)
  {
    hide IsPiece, Shipment.Symbols, Shipment.Valid;
    if n > 0 {
      OthersAre(code, ship, symbols, j, n - 1);
      var before, all := Others(ship, symbols, j, n - 1), Others(ship, symbols, j, n);
      forall b, esi: nat | 0 <= b < n && b != j && esi < ship.Symbols(b) ensures Arrived(all, b, esi) {
        if b < n - 1 {
          assert Arrived(before, b, esi);
          var k :| 0 <= k < |before| && before[k].block == b && before[k].esi == esi;
          assert all[k] == before[k];
        } else {
          assert all[|before| + esi] == Piece(b, esi, symbols(b, esi));
        }
      }
    }
  }

  /** All but the last symbol of block `j`, then all of block `i`, then all other blocks, then what is left of `j`. */
  ghost function LosingOrder(ship: Shipment, symbols: (nat, nat) -> Bytes, j: nat, i: nat): seq<Piece>
    requires ship.Valid() && j < |ship.ids| && i < |ship.ids| && ship.Symbols(j) > 0
  {
    var k := ship.Symbols(j);
    Run(symbols, j, 0, k - 1) + Run(symbols, i, 0, ship.Symbols(i))
    + (Others(ship, symbols, j, |ship.ids|) + Run(symbols, j, k - 1, k))
  }

  lemma LosingOrderHasAll(code: Code, ship: Shipment, symbols: (nat, nat) -> Bytes, j: nat, i: nat)
    requires ship.Valid() && j < |ship.ids| && i < |ship.ids| && ship.Symbols(j) > 0 && Supplies(code, ship, symbols)
    ensures AllSourcesArrived(ship, LosingOrder(ship, symbols, j, i))
    ensures ArePieces(code, ship, LosingOrder(ship, symbols, j, i))
  {
    hide IsPiece, Shipment.Symbols, Shipment.Valid, Others;
    OthersAre(code, ship, symbols, j, |ship.ids|);
    var k := ship.Symbols(j);
    var first, second := Run(symbols, j, 0, k - 1), Run(symbols, i, 0, ship.Symbols(i));
    var others := Others(ship, symbols, j, |ship.ids|);
    var all := LosingOrder(ship, symbols, j, i);
    forall b, esi: nat | 0 <= b < |ship.ids| && esi < ship.Symbols(b) ensures Arrived(all, b, esi) {
      if b != j {
        assert Arrived(others, b, esi);
        var at :| 0 <= at < |others| && others[at].block == b && others[at].esi == esi;
        assert all[|first| + |second| + at] == others[at];
      } else if esi < k - 1 {
        assert all[esi] == first[esi];
      } else {
        assert all[|first| + |second| + |others|] == Piece(j, k - 1, symbols(j, k - 1));
      }
    }
  }

  function Range(n: nat): set<nat> {
    if n == 0 then {} else Range(n - 1) + {n - 1}
  }

  lemma {:induction false} RangeIs(n: nat)
    ensures |Range(n)| == n && forall x: nat :: x in Range(n) <==> x < n
  {
    if n > 0 {
      RangeIs(n - 1);
    }
  }

  lemma RunKeys(symbols: (nat, nat) -> Bytes, j: nat, i: nat, k: nat, n: nat)
    requires i != j
    ensures OnlyKeys(Run(symbols, j, 0, k), j, Range(k)) && OnlyKeys(Run(symbols, i, 0, n), j, Range(k))
    ensures forall m | 0 <= m < k :: Run(symbols, j, 0, k)[m].block == j
  {
    RangeIs(k);
  }

  lemma LastKey(ship: Shipment, symbols: (nat, nat) -> Bytes, j: nat, k: nat)
    requires ship.Valid()
    requires var others := Others(ship, symbols, j, |ship.ids|); forall m | 0 <= m < |others| :: others[m].block != j
    ensures OnlyKeys(Others(ship, symbols, j, |ship.ids|) + Run(symbols, j, k, k + 1), j, {k})
  {
    hide Others, Shipment.Valid;
  }

  /**
   The window condition cannot be weakened: for every frame with a block of several source symbols that
   another of its blocks pushes out of the window there is an order of its source datagrams in which the
   frame never comes out.
   */
  lemma UnsafeFrameLost(code: Code, sent: MediaSent, s: MediaState, ship: Shipment, symbols: (nat, nat) -> Bytes)
    returns (pieces: seq<Piece>)
    requires code.Lawful() && MediaSends(sent) && ExactMedia(code, sent, s)
    requires ship.Valid() && ship.OnTheWay(sent) && Unmet(s, ship) && !ship.Safe() && Supplies(code, ship, symbols)
    ensures ArePieces(code, ship, pieces) && AllSourcesArrived(ship, pieces)
    ensures AllNothing(Feed(code, s, pieces).1)
  {
    hide ExactMedia, Shipment.OnTheWay, Shipment.Valid, Shipment.Symbols, IsPiece, Feed, Code.Lawful, Supplies, Unmet, Others,
         WithinWindow, ArePieces, AllSourcesArrived, AllNothing, LosingOrder;
    var j :| 0 <= j < |ship.ids| && !(ship.Stays(j) || ship.Symbols(j) == 1);
    var i :| 0 <= i < |ship.ids| && !WithinWindow(ship.ids[j], ship.ids[i]);
    SomeSymbols(ship, j);
    pieces := LosingOrder(ship, symbols, j, i);
    LosingOrderHasAll(code, ship, symbols, j, i);
    LosingOrderLoses(code, sent, s, ship, symbols, j, i);
  }

  lemma LosingOrderLoses(code: Code, sent: MediaSent, s: MediaState, ship: Shipment, symbols: (nat, nat) -> Bytes, j: nat, i: nat)
    requires code.Lawful() && MediaSends(sent) && ExactMedia(code, sent, s)
    requires ship.Valid() && ship.OnTheWay(sent) && Unmet(s, ship) && Supplies(code, ship, symbols)
    requires j < |ship.ids| && i < |ship.ids| && ship.Symbols(j) > 1 && !WithinWindow(ship.ids[j], ship.ids[i])
    ensures AllNothing(Feed(code, s, LosingOrder(ship, symbols, j, i)).1)
  {
    hide ExactMedia, Shipment.OnTheWay, Shipment.Valid, Shipment.Symbols, IsPiece, Feed, Code.Lawful, Lacking, Supplies,
         DroppedOr, Others, Arrived, Unmet, Run, Range, OnlyKeys, HeldIds, ArePieces, Untouched;
    SelfWithin(ship.ids[j]);
    var k := ship.Symbols(j);
    LosingOrderHasAll(code, ship, symbols, j, i);
    OthersAre(code, ship, symbols, j, |ship.ids|);
    var first, second := Run(symbols, j, 0, k - 1), Run(symbols, i, 0, ship.Symbols(i));
    var rest := Others(ship, symbols, j, |ship.ids|) + Run(symbols, j, k - 1, k);
    PartsArePieces(code, ship, first, second, rest);
    UnmetLacks(code, sent, s, ship, j, i);
    RangeIs(k - 1);
    RunKeys(symbols, j, i, k - 1, ship.Symbols(i));
    LastKey(ship, symbols, j, k - 1);
    FeedLacking(code, sent, s, ship, j, Range(k - 1), first);
    var s1 := Feed(code, s, first).0;
    DistinctIds(ship, j, i);
    SomeSymbols(ship, i);
    StillUnmet(s, s1, ship, j, i);
    FeedLacking(code, sent, s1, ship, j, Range(k - 1), second);
    RunDrops(code, sent, s1, ship, j, i, Range(k - 1), symbols, 0);
    var s2 := Feed(code, s1, second).0;
    NowEmpty(code, sent, s2, ship, j, Range(k - 1), {k - 1});
    FeedLacking(code, sent, s2, ship, j, {k - 1}, rest);
    FeedConcat(code, s, first, second);
    FeedConcat(code, s, first + second, rest);
  }

  lemma DistinctIds(ship: Shipment, j: nat, i: nat)
    requires ship.Valid() && j < |ship.ids| && i < |ship.ids| && i != j
    ensures ship.ids[i] != ship.ids[j]
  {
  }

  lemma PartsArePieces(code: Code, ship: Shipment, a: seq<Piece>, b: seq<Piece>, c: seq<Piece>)
    requires ship.Valid() && ArePieces(code, ship, a + b + c)
    ensures ArePieces(code, ship, a) && ArePieces(code, ship, b) && ArePieces(code, ship, c)
  {
    hide IsPiece, Shipment.Valid;
    var all := a + b + c;
    assert forall k | 0 <= k < |a| :: a[k] == all[k];
    assert forall k | 0 <= k < |b| :: b[k] == all[|a| + k];
    assert forall k | 0 <= k < |c| :: c[k] == all[|a| + |b| + k];
  }

  lemma UnmetLacks(code: Code, sent: MediaSent, s: MediaState, ship: Shipment, j: nat, i: nat)
    requires MediaSends(sent) && ship.Valid() && ExactMedia(code, sent, s) && ship.OnTheWay(sent) && Unmet(s, ship)
    requires j < |ship.ids| && i < |ship.ids|
    ensures forall keys :: Lacking(code, sent, s, ship, j, keys)
    ensures ship.ids[i] !in s.fec.completed && HeldIds(s.fec, ship.ids[i]) == {}
  {
    hide ExactMedia, FragmentSource;
    var none: set<nat> := {};
    assert 0 < FragmentCount(|ship.frame.payload|, ship.Max()) && 0 !in none;
    assert j !in none && FrameState(s, ship, none);
  }

  lemma StillUnmet(s: MediaState, s1: MediaState, ship: Shipment, j: nat, i: nat)
    requires ship.Valid() && j < |ship.ids| && i < |ship.ids| && ship.ids[i] != ship.ids[j] && ship.Symbols(i) > 0
    requires ship.ids[i] !in s.fec.completed && HeldIds(s.fec, ship.ids[i]) == {}
    requires forall b | b != ship.ids[j] :: Untouched(s.fec, s1.fec, b)
    ensures DroppedOr(s1.fec, ship, j, i, 0)
  {
    hide HeldIds, Shipment.Symbols, Shipment.Valid;
    assert Untouched(s.fec, s1.fec, ship.ids[i]);
    assert 0 !in HeldIds(s1.fec, ship.ids[i]);
  }

  lemma NowEmpty(code: Code, sent: MediaSent, s: MediaState, ship: Shipment, j: nat, keys: set<nat>, keys': set<nat>)
    requires MediaSends(sent) && ship.Valid() && j < |ship.ids| && Lacking(code, sent, s, ship, j, keys)
    requires HeldIds(s.fec, ship.ids[j]) == {}
    ensures Lacking(code, sent, s, ship, j, keys')
  {
    hide ExactMedia, FrameState, Shipment.OnTheWay, Shipment.Valid;
  }

  // ----- consecutive block ids

  /** Block ids as the encoder gives them out. */
  function Consecutive(first: u32, count: nat): (ids: seq<u32>)
    ensures |ids| == count && forall j | 0 <= j < count :: ids[j] == Advance32(first, j)
  {
    seq(count, j requires 0 <= j < count => Advance32(first, j))
  }

  /** Consecutive ids all stay within each other's window exactly when there are at most 65 and none wraps. */
  lemma ConsecutiveStay(first: u32, count: nat)
    requires 0 < count <= U16_MAX
    ensures (forall i, j | 0 <= i < count && 0 <= j < count ::
               WithinWindow(Consecutive(first, count)[j], Consecutive(first, count)[i]))
            <==> count <= 65 && first + count - 1 <= U32_MAX
  {
    var ids := Consecutive(first, count);
    if count <= 65 && first + count - 1 <= U32_MAX {
      forall j | 0 <= j < count ensures ids[j] == first + j {
        NoWrap(first, j);
      }
    } else if first + count - 1 > U32_MAX {
      var last := U32_MAX - first;
      NoWrap(first, last);
      Wraps(first, last + 1);
      assert !WithinWindow(ids[last + 1], ids[last]);
    } else {
      NoWrap(first, 0);
      NoWrap(first, 65);
      assert !WithinWindow(ids[0], ids[65]);
    }
  }

  lemma NoWrap(first: u32, j: nat)
    requires first + j <= U32_MAX
    ensures Advance32(first, j) == first + j
  {
  }

  lemma Wraps(first: u32, j: nat)
    requires first + j == U32_SPAN
    ensures Advance32(first, j) == 0
  {
  }

  // ----- from the encoder

  /** Datagram `index` of block `block` of an encoded frame. */
  datatype Position = Position(block: nat, index: nat)

  ghost predicate Within(encoded: EncodedFrame, a: Position) {
    && a.block < |encoded.blocks| && a.index < encoded.blocks[a.block].datagramCount
    && encoded.blocks[a.block].firstDatagram + a.index < |encoded.datagrams|
  }

  ghost function PieceAt(encoded: EncodedFrame, a: Position): Piece
    requires Within(encoded, a)
  {
    Piece(a.block, a.index, encoded.datagrams[encoded.blocks[a.block].firstDatagram + a.index])
  }

  ghost function PiecesOf(encoded: EncodedFrame, arrivals: seq<Position>): (pieces: seq<Piece>)
    requires forall k | 0 <= k < |arrivals| :: Within(encoded, arrivals[k])
    ensures |pieces| == |arrivals| && forall k | 0 <= k < |arrivals| :: pieces[k] == PieceAt(encoded, arrivals[k])
  {
    seq(|arrivals|, k requires 0 <= k < |arrivals| => PieceAt(encoded, arrivals[k]))
  }

  ghost function ShipmentOf(e: Encoder, frame: MediaFrame, d: Decision, count: nat): Shipment {
    Shipment(frame, d, Consecutive(e.blockId, count))
  }

  lemma ConsecutiveDistinct(first: u32, count: nat)
    requires count <= U16_MAX
    ensures NoRepeats(Consecutive(first, count))
  {
    forall i, j | 0 <= i < j < count ensures Advance32(first, i) != Advance32(first, j) {
      AdvanceDiffers(first, i, j);
    }
  }

  lemma AdvanceDiffers(first: u32, i: nat, j: nat)
    requires i < j <= U16_MAX
    ensures Advance32(first, i) != Advance32(first, j)
  {
  }

  /** One block of an encoded frame: its id, its K, and its source. */
  lemma EncodedBlockIs(code: Code, e: Encoder, frame: MediaFrame, d: Decision, j: nat)
    requires code.Lawful() && d.Usable() && EncodedFrameOf(code, e, frame, d).1.Success?
    requires j < |EncodedFrameOf(code, e, frame, d).1.value.blocks|
    ensures Cuttable(frame, d.MaxFragment()) && j < FragmentCount(|frame.payload|, d.MaxFragment())
    ensures var block := EncodedFrameOf(code, e, frame, d).1.value.blocks[j];
            && FragmentSource(frame, d, j).Valid() && block.blockId == Advance32(e.blockId, j)
            && block.sourceSymbols == FragmentSource(frame, d, j).SourceSymbols()
            && block.sourceSymbols <= block.datagramCount
  {
    hide EncodedFrameOf, CarriesSymbol, FragmentSource, Advance32, LaidOut, Total, FewSymbols, FragmentCount, Compact,
         Source.Valid, Source.SourceSymbols;
    EncodedFrameIs(code, e, frame, d);
    var encoded := EncodedFrameOf(code, e, frame, d).1.value;
    var block := encoded.blocks[j];
    assert CarriesFragment(code, frame, d, j, Advance32(e.blockId, j), block,
                           encoded.datagrams[block.firstDatagram..block.firstDatagram + block.datagramCount]);
  }

  /** The blocks of an encoded frame are a shipment under consecutive ids. */
  lemma EncodedIsShipment(code: Code, e: Encoder, frame: MediaFrame, d: Decision, sent: MediaSent)
    requires code.Lawful() && d.Usable() && EncodedFrameOf(code, e, frame, d).1.Success?
    requires OnTheWay(sent, frame, d, EncodedFrameOf(code, e, frame, d).1.value.blocks)
    ensures var encoded := EncodedFrameOf(code, e, frame, d).1.value;
            var ship := ShipmentOf(e, frame, d, |encoded.blocks|);
            && 0 < |encoded.blocks| <= U16_MAX && ship.Valid() && ship.OnTheWay(sent)
            && forall j | 0 <= j < |ship.ids| ::
                 ship.ids[j] == encoded.blocks[j].blockId && ship.Symbols(j) == encoded.blocks[j].sourceSymbols
  {
    hide EncodedFrameOf, FragmentSource, Advance32, Source.SourceSymbols, NoRepeats, Cuttable, FragmentCount;
    EncodedCount(code, e, frame, d);
    var encoded := EncodedFrameOf(code, e, frame, d).1.value;
    ConsecutiveDistinct(e.blockId, |encoded.blocks|);
    forall j | 0 <= j < |encoded.blocks|
      ensures FragmentSource(frame, d, j).Valid() && encoded.blocks[j].blockId == Advance32(e.blockId, j)
      ensures encoded.blocks[j].sourceSymbols == FragmentSource(frame, d, j).SourceSymbols()
    {
      EncodedBlockIs(code, e, frame, d, j);
    }
  }

  lemma EncodedCount(code: Code, e: Encoder, frame: MediaFrame, d: Decision)
    requires code.Lawful() && d.Usable() && EncodedFrameOf(code, e, frame, d).1.Success?
    ensures Cuttable(frame, d.MaxFragment())
    ensures var encoded := EncodedFrameOf(code, e, frame, d).1.value;
            0 < |encoded.blocks| == FragmentCount(|frame.payload|, d.MaxFragment()) <= U16_MAX
  {
    hide EncodedFrameOf, LaidOut, Total, FewSymbols, Compact, CarriesFragment, BlockData, Advance32;
    EncodedFrameIs(code, e, frame, d);
  }

  lemma EncodedPieces(code: Code, e: Encoder, frame: MediaFrame, d: Decision, sent: MediaSent, arrivals: seq<Position>)
    requires code.Lawful() && d.Usable() && EncodedFrameOf(code, e, frame, d).1.Success?
    requires var encoded := EncodedFrameOf(code, e, frame, d).1.value;
             && OnTheWay(sent, frame, d, encoded.blocks)
             && (forall k | 0 <= k < |arrivals| :: Within(encoded, arrivals[k]))
             && forall j, k: nat | 0 <= j < |encoded.blocks| && k < encoded.blocks[j].sourceSymbols :: Position(j, k) in arrivals
    ensures var encoded := EncodedFrameOf(code, e, frame, d).1.value;
            var ship := ShipmentOf(e, frame, d, |encoded.blocks|);
            && ship.Valid() && ArePieces(code, ship, PiecesOf(encoded, arrivals))
            && AllSourcesArrived(ship, PiecesOf(encoded, arrivals))
  {
    hide EncodedFrameOf, FragmentSource, Consecutive, Shipment.Valid, Shipment.Symbols, CarriesSymbol, FragmentCount;
    EncodedIsShipment(code, e, frame, d, sent);
    var encoded := EncodedFrameOf(code, e, frame, d).1.value;
    var ship, pieces := ShipmentOf(e, frame, d, |encoded.blocks|), PiecesOf(encoded, arrivals);
    forall k | 0 <= k < |pieces| ensures IsPiece(code, ship, pieces[k]) {
      EncodedSymbol(code, e, frame, d, arrivals[k].block, arrivals[k].index);
    }
    forall j, esi: nat | 0 <= j < |ship.ids| && esi < ship.Symbols(j) ensures Arrived(pieces, j, esi) {
      assert Position(j, esi) in arrivals;
      var k :| 0 <= k < |arrivals| && arrivals[k] == Position(j, esi);
      assert pieces[k].block == j && pieces[k].esi == esi;
    }
  }

  /**
   From encoder to decoder: a frame of at most 65 blocks whose ids do not wrap, its datagrams in any order
   and with any repetitions, all source datagrams among them, comes out exactly once, as it went in.
   */
  lemma EncodedFrameDeliveredOnce(code: Code, e: Encoder, frame: MediaFrame, d: Decision, sent: MediaSent, s: MediaState,
                                  arrivals: seq<Position>)
    requires code.Lawful() && d.Usable() && EncodedFrameOf(code, e, frame, d).1.Success?
    requires MediaSends(sent) && ExactMedia(code, sent, s)
    requires var encoded := EncodedFrameOf(code, e, frame, d).1.value;
             && OnTheWay(sent, frame, d, encoded.blocks) && Unmet(s, ShipmentOf(e, frame, d, |encoded.blocks|))
             && |encoded.blocks| <= 65 && e.blockId + |encoded.blocks| - 1 <= U32_MAX
             && (forall k | 0 <= k < |arrivals| :: Within(encoded, arrivals[k]))
             && forall j, k: nat | 0 <= j < |encoded.blocks| && k < encoded.blocks[j].sourceSymbols :: Position(j, k) in arrivals
    ensures var encoded := EncodedFrameOf(code, e, frame, d).1.value;
            exists at: nat :: OnceAt(Feed(code, s, PiecesOf(encoded, arrivals)).1, frame, at)
  {
    hide EncodedFrameOf, ExactMedia, Unmet, Feed, OnceAt, Shipment.Valid, Shipment.OnTheWay, OnTheWay, Consecutive, ArePieces,
         AllSourcesArrived, WithinWindow, Shipment.Symbols, Code.Lawful;
    EncodedIsShipment(code, e, frame, d, sent);
    EncodedPieces(code, e, frame, d, sent, arrivals);
    var encoded := EncodedFrameOf(code, e, frame, d).1.value;
    var ship := ShipmentOf(e, frame, d, |encoded.blocks|);
    ConsecutiveStay(e.blockId, |encoded.blocks|);
    assert ship.Safe();
    FrameDeliveredOnce(code, sent, s, ship, PiecesOf(encoded, arrivals));
  }

  // ----- a frame outside the window

  function NoRepairs(sources: u16): u32 { 0 }

  function Sevens(count: nat): (bytes: Bytes)
    ensures |bytes| == count
  {
    if count == 0 then [] else [7] + Sevens(count - 1)
  }

  /** 66 fragments of two bytes each, every block two symbols of 23 bytes. */
  const SPLIT_FRAME := MediaFrame(Metadata(1, 1, 0, None, 0, H264, 0), Sevens(132))
  const SPLIT_DECISION := Decision(2, 23, NoRepairs)
  const SPLIT := Shipment(SPLIT_FRAME, SPLIT_DECISION, Consecutive(0, 66))

  lemma SplitFrame()
    ensures Cuttable(SPLIT_FRAME, 2) && SPLIT_DECISION.MaxFragment() == 2 && FragmentCount(132, 2) == 66
  {
  }

  lemma SplitSources(j: nat)
    requires j < 66
    ensures Cuttable(SPLIT_FRAME, SPLIT_DECISION.MaxFragment()) && j < FragmentCount(132, SPLIT_DECISION.MaxFragment())
    ensures var source := FragmentSource(SPLIT_FRAME, SPLIT_DECISION, j); source.Valid() && source.SourceSymbols() == 2
  {
    hide BlockData;
    SplitFrame();
    BlockDataLength(SPLIT_FRAME, 2, j);
    FragmentLength(SPLIT_FRAME.payload, 2, j);
  }

  ghost function SplitSent(): MediaSent {
    map b: u32 | 0 <= b < 66 :: SentFragment(SPLIT_FRAME, SPLIT_DECISION, b)
  }

  /** The datagram of one symbol of a shipment. */
  ghost function SymbolBytes(code: Code, ship: Shipment, j: nat, esi: nat): Bytes
    requires ship.Valid()
  {
    if j < |ship.ids| && esi < ESI_LIMIT then
      var source := ship.SourceOf(j);
      var datagram := SymbolDatagram(code, Profile(ship.ids[j], |source.data|, source.SourceSymbols(), source.symbolSize),
                                     source.data, 0, esi);
      if datagram.Success? then datagram.value else []
    else []
  }

  /** The datagrams of a shipment, one for every symbol. */
  ghost function SymbolsOf(code: Code, ship: Shipment): (nat, nat) -> Bytes
    requires ship.Valid()
  {
    (j, esi) => SymbolBytes(code, ship, j, esi)
  }

  lemma SymbolsSupply(code: Code, ship: Shipment)
    requires code.Lawful() && ship.Valid()
    ensures Supplies(code, ship, SymbolsOf(code, ship))
  {
    hide SymbolDatagram, Parse, GenuineArrival, Code.Lawful, FragmentSource, Cuttable, FragmentCount;
    forall b, esi: nat | 0 <= b < |ship.ids| && esi < ship.Symbols(b)
      ensures IsPiece(code, ship, Piece(b, esi, SymbolsOf(code, ship)(b, esi)))
    {
      var source := ship.SourceOf(b);
      var profile := Profile(ship.ids[b], |source.data|, source.SourceSymbols(), source.symbolSize);
      SymbolDatagramParses(code, profile, source.data, 0, esi);
    }
  }

  lemma SplitIsUnsafe()
    ensures SPLIT.Valid() && !SPLIT.Safe() && Unmet(NEW_MEDIA, SPLIT)
    ensures MediaSends(SplitSent()) && SPLIT.OnTheWay(SplitSent())
  {
    hide FragmentSource, Cuttable;
    SplitFrame();
    ConsecutiveDistinct(0, 66);
    forall j | 0 <= j < 66 ensures Advance32(0, j) == j {
      NoWrap(0, j);
    }
    forall j: nat | j < 66
      ensures Cuttable(SPLIT_FRAME, SPLIT_DECISION.MaxFragment()) && j < FragmentCount(132, SPLIT_DECISION.MaxFragment())
      ensures FragmentSource(SPLIT_FRAME, SPLIT_DECISION, j).Valid()
    {
      SplitSources(j);
    }
    SplitSources(0);
    assert SPLIT.ids[0] == 0 && SPLIT.ids[65] == 65;
    assert !WithinWindow(SPLIT.ids[0], SPLIT.ids[65]);
    assert !SPLIT.Stays(0) && SPLIT.Symbols(0) == 2;
  }

  /** Concretely: an order of all datagrams of this frame in which a new decoder never gives it out. */
  lemma SplitFrameLost() returns (pieces: seq<Piece>)
    ensures SPLIT.Valid() && ArePieces(SYSTEMATIC, SPLIT, pieces) && AllSourcesArrived(SPLIT, pieces)
    ensures AllNothing(Feed(SYSTEMATIC, NEW_MEDIA, pieces).1)
  {
    hide Shipment.Valid, Shipment.Safe, Shipment.OnTheWay, Unmet, Supplies, ArePieces, AllSourcesArrived, AllNothing, Feed,
         Code.Lawful, ExactMedia, SymbolsOf, MediaSends;
    SplitIsUnsafe();
    SystematicIsLawful();
    NewMediaExact(SYSTEMATIC, SplitSent());
    SymbolsSupply(SYSTEMATIC, SPLIT);
    pieces := UnsafeFrameLost(SYSTEMATIC, SplitSent(), NEW_MEDIA, SPLIT, SymbolsOf(SYSTEMATIC, SPLIT));
  }
}
