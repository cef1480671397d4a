/**
  The bounded undo history: a stack of full-buffer snapshots, newest last,
  that never grows past its capacity because a save into a full history
  first drops the oldest snapshot (`saveState`), and whose top is popped back
  into the buffer by `undo`.
 */
module History {
  import opened Pixels

  /** `CONFIG.maxHistory`. */
  const MaxHistory: nat := 20

  /** The last `n` entries of `s`, or all of `s` when it is no longer than `n`. */
  function Newest<T>(s: seq<T>, n: nat): (r: seq<T>)
    ensures |r| <= n || r == s
    ensures |s| <= n ==> r == s
    ensures |s| > n ==> |r| == n
    ensures forall i :: 0 <= i < |r| ==> r[i] == s[|s| - |r| + i]
  {
    if |s| <= n then s else s[|s| - n..]
  }

  /**
    `saveState`: when the history already holds `cap` snapshots the oldest
    one is shifted out, then the current buffer is pushed on top.
   */
  function Save(h: seq<Image>, snap: Image, cap: nat): (r: seq<Image>)
    requires cap > 0
    ensures |r| > 0 && r[|r| - 1] == snap
    ensures |r| == (if |h| < cap then |h| + 1 else |h|)
    ensures |h| <= cap ==> |r| <= cap
    ensures forall i :: 0 <= i < |r| - 1 ==> r[i] == h[|h| - (|r| - 1) + i]
  {
    var kept := if |h| >= cap then h[1..] else h;
    kept + [snap]
  }

  /** A snapshot history paired with the live buffer. */
  datatype Restored = Restored(history: seq<Image>, canvas: Image)

  /**
    `undo`: on an empty history nothing changes; otherwise the newest
    snapshot is popped and becomes the buffer.
   */
  function Undo(h: seq<Image>, canvas: Image): (r: Restored)
    ensures |h| == 0 ==> r == Restored(h, canvas)
    ensures |h| > 0 ==> r.history + [r.canvas] == h
  {
    if |h| == 0 then Restored(h, canvas)
    else Restored(h[..|h| - 1], h[|h| - 1])
  }

  /** Saving into a history within its capacity is keeping the newest `cap` of the extended sequence. */
  lemma SaveIsNewest(h: seq<Image>, snap: Image, cap: nat)
    requires cap > 0 && |h| <= cap
    ensures Save(h, snap, cap) == Newest(h + [snap], cap)
  {
  }

  /**
    Undo right after a save hands back exactly the saved buffer, and the
    history as it was before the save, less the oldest entry if the save
    had to evict it.
   */
  lemma SaveThenUndo(h: seq<Image>, snap: Image, canvas: Image, cap: nat)
    requires cap > 0
    ensures Undo(Save(h, snap, cap), canvas).canvas == snap
    ensures |h| < cap ==> Undo(Save(h, snap, cap), canvas).history == h
    ensures |h| >= cap ==> Undo(Save(h, snap, cap), canvas).history == h[1..]
  {
  }

  /** Saving a sequence of buffers one after another, oldest first. */
  function SaveAll(h: seq<Image>, snaps: seq<Image>, cap: nat): seq<Image>
    requires cap > 0
    decreases |snaps|
  {
    if |snaps| == 0 then h else SaveAll(Save(h, snaps[0], cap), snaps[1..], cap)
  }

  lemma NewestOfNewest<T>(a: seq<T>, b: seq<T>, n: nat)
    ensures Newest(Newest(a, n) + b, n) == Newest(a + b, n)
  {
  }

  /**
    However many saves are made, the history holds the newest `cap` of the
    old entries followed by the saved buffers, and never more than `cap`.
   */
  lemma {:induction false} SaveAllIsNewest(h: seq<Image>, snaps: seq<Image>, cap: nat)
    requires cap > 0 && |h| <= cap
    ensures SaveAll(h, snaps, cap) == Newest(h + snaps, cap)
    ensures |SaveAll(h, snaps, cap)| <= cap
    decreases |snaps|
  {
    if |snaps| > 0 {
      var h' := Save(h, snaps[0], cap);
      var rest := snaps[1..];
      calc {
        SaveAll(h, snaps, cap);
        SaveAll(h', rest, cap);
        { SaveAllIsNewest(h', rest, cap); }
        Newest(h' + rest, cap);
        { SaveIsNewest(h, snaps[0], cap); }
        Newest(Newest(h + [snaps[0]], cap) + rest, cap);
        { NewestOfNewest(h + [snaps[0]], rest, cap); }
        Newest(h + [snaps[0]] + rest, cap);
        { assert h + [snaps[0]] + rest == h + snaps; }
        Newest(h + snaps, cap);
      }
    }
  }

  /**
    After at least `cap` saves only the last `cap` saved buffers remain: in
    particular, after `cap + 1` saves the first saved buffer is no longer in
    the history, so undo cannot reach it.
   */
  lemma SaveAllEvicts(h: seq<Image>, snaps: seq<Image>, cap: nat)
    requires cap > 0 && |h| <= cap && |snaps| >= cap
    ensures SaveAll(h, snaps, cap) == snaps[|snaps| - cap..]
  {
    SaveAllIsNewest(h, snaps, cap);
    assert (h + snaps)[|h + snaps| - cap..] == snaps[|snaps| - cap..];
  }
}
