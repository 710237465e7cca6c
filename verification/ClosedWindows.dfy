/**
 A bounded first-in-first-out set of block ids, as the decoder keeps for completed blocks and the
 receiver for ignored ones. `history` records every id that ever entered; the window is its tail.
 */
module ClosedWindows {
  import opened Collections
  import opened MachineInts

  datatype Window = Window(members: set<u32>, order: seq<u32>, history: seq<u32>)

  const EMPTY := Window({}, [], [])

  function Trimmed(w: Window, max: nat): Window
    decreases |w.order|
  {
    if |w.order| > max then Trimmed(w.(members := w.members - {w.order[0]}, order := w.order[1..]), max) else w
  }

  /** Insert unless present, then drop the oldest ids beyond the bound. */
  function Remembered(w: Window, id: u32, max: nat): Window {
    Trimmed(if id in w.members then w else Window(w.members + {id}, w.order + [id], w.history + [id]), max)
  }

  function LastN(s: seq<u32>, n: nat): seq<u32> {
    if |s| <= n then s else s[|s| - n..]
  }

  /** The members are exactly the last `max` ids that entered, without repeats. */
  ghost predicate Ok(w: Window, max: nat) {
    Enumerates(w.order, w.members) && w.order == LastN(w.history, max)
  }

  lemma RememberedOk(w: Window, id: u32, max: nat)
    requires Ok(w, max) && max > 0
    ensures var w' := Remembered(w, id, max);
            && Ok(w', max)
            && id in w'.members
            && w'.members <= w.members + {id}
            && w'.history == (if id in w.members then w.history else w.history + [id])
  {
    if id in w.members {
      assert Remembered(w, id, max) == w;
    } else {
      EnumeratesAppend(w.order, w.members, id);
      var grown := Window(w.members + {id}, w.order + [id], w.history + [id]);
      if |grown.order| > max {
        EnumeratesTail(grown.order, grown.members);
        var trimmed := Window(grown.members - {grown.order[0]}, grown.order[1..], grown.history);
        assert Trimmed(grown, max) == trimmed;
        assert trimmed.order == LastN(trimmed.history, max);
      } else {
        assert grown.order == LastN(grown.history, max);
      }
    }
  }

  /** An id that once entered and is no longer a member was followed by at least `max` others. */
  lemma ForgottenAfterMax(w: Window, max: nat, at: nat)
    requires Ok(w, max) && at < |w.history| && w.history[at] !in w.members
    ensures at + max < |w.history|
    ensures forall k | |w.history| - max <= k < |w.history| :: w.history[k] != w.history[at]
  {
    var h := w.history;
    var from := |h| - |w.order|;
    assert forall k | from <= k < |h| :: h[k] == w.order[k - from];
    forall k | |h| - max <= k < |h| ensures h[k] != h[at] {
      assert h[k] == w.order[k - (|h| - max)];
    }
  }

  lemma {:induction false} TrimmedShrinks(w: Window, max: nat)
    ensures Trimmed(w, max).members <= w.members
    decreases |w.order|
  {
    if |w.order| > max {
      TrimmedShrinks(w.(members := w.members - {w.order[0]}, order := w.order[1..]), max);
    }
  }

  /** Nothing but the new id enters the window. */
  lemma RememberedOnly(w: Window, id: u32, max: nat)
    ensures Remembered(w, id, max).members <= w.members + {id}
  {
    hide Trimmed;
    TrimmedShrinks(if id in w.members then w else Window(w.members + {id}, w.order + [id], w.history + [id]), max);
  }
}
