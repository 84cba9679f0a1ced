/**
 Sliding windows over a history of event times: pruning old events early never
 changes what a later window sees.
 */
module Windows {

  ghost predicate Ordered(h: seq<int>) {
    forall i, j | 0 <= i < j < |h| :: h[i] <= h[j]
  }

  // The events at or after the cutoff, in order.
  function Keep(h: seq<int>, cutoff: int): (r: seq<int>)
    ensures |r| <= |h|
    ensures forall i | 0 <= i < |r| :: r[i] >= cutoff
  {
    if h == [] then []
    else
      var front, last := h[..|h| - 1], h[|h| - 1];
      Keep(front, cutoff) + if last >= cutoff then [last] else []
  }

  // The in-place filter of the source, one event at a time.
  method Prune(bucket: seq<int>, cutoff: int) returns (kept: seq<int>)
    ensures kept == Keep(bucket, cutoff)
  {
    kept := [];
    for i := 0 to |bucket|
      invariant kept == Keep(bucket[..i], cutoff)
    {
      assert bucket[..i + 1][..i] == bucket[..i];
      if bucket[i] >= cutoff {
        kept := kept + [bucket[i]];
      }
    }
    assert bucket[..|bucket|] == bucket;
  }

  lemma KeepAppend(h: seq<int>, t: int, cutoff: int)
    ensures Keep(h + [t], cutoff) == Keep(h, cutoff) + if t >= cutoff then [t] else []
  {
    assert (h + [t])[..|h|] == h;
  }

  // The kept events are counted: those at or after the cutoff.
  lemma {:induction false} KeepCount(h: seq<int>, cutoff: int)
    ensures |Keep(h, cutoff)| == |set i | 0 <= i < |h| && h[i] >= cutoff|
  {
    if h != [] {
      var n := |h| - 1;
      KeepCount(h[..n], cutoff);
      var before, all := set i | 0 <= i < n && h[..n][i] >= cutoff, set i | 0 <= i < |h| && h[i] >= cutoff;
      assert all == before + if h[n] >= cutoff then {n} else {};
    }
  }

  // A bucket pruned at an earlier cutoff gives the same later window as the history.
  lemma {:induction false} KeepKeep(h: seq<int>, early: int, late: int)
    requires early <= late
    ensures Keep(Keep(h, early), late) == Keep(h, late)
  {
    if h != [] {
      var front, last := h[..|h| - 1], h[|h| - 1];
      KeepKeep(front, early, late);
      if last >= early {
        KeepAppend(Keep(front, early), last, late);
      } else {
        assert Keep(h, early) == Keep(front, early);
      }
    }
  }

  // Later cutoffs keep fewer events.
  lemma {:induction false} KeepShrinks(h: seq<int>, early: int, late: int)
    requires early <= late
    ensures |Keep(h, late)| <= |Keep(h, early)|
  {
    if h != [] {
      KeepShrinks(h[..|h| - 1], early, late);
    }
  }

  ghost predicate AtMost(h: seq<int>, bound: int) {
    forall i | 0 <= i < |h| :: h[i] <= bound
  }

  lemma OrderedFront(h: seq<int>)
    requires h != [] && Ordered(h)
    ensures Ordered(h[..|h| - 1]) && AtMost(h[..|h| - 1], h[|h| - 1])
  {
  }

  lemma OrderedAppend(h: seq<int>, t: int)
    requires Ordered(h) && AtMost(h, t)
    ensures Ordered(h + [t]) && AtMost(h + [t], t)
  {
  }

  lemma AtMostLater(h: seq<int>, a: int, b: int)
    requires AtMost(h, a) && a <= b
    ensures AtMost(h, b)
  {
  }

  // The kept events are the last ones, and the one before them is too old.
  ghost predicate IsTail(kept: seq<int>, h: seq<int>, cutoff: int) {
    |kept| <= |h| &&
    var n := |h| - |kept|;
    kept == h[n..] && (n > 0 ==> h[n - 1] < cutoff)
  }

  // In an ordered history the kept events are the last ones.
  lemma {:induction false} KeepIsSuffix(h: seq<int>, cutoff: int)
    requires Ordered(h)
    ensures IsTail(Keep(h, cutoff), h, cutoff)
  {
    if h != [] {
      var front, last := h[..|h| - 1], h[|h| - 1];
      OrderedFront(h);
      assert Keep(h, cutoff) == Keep(front, cutoff) + if last >= cutoff then [last] else [];
      hide Ordered, IsTail, Keep;
      KeepIsSuffix(front, cutoff);
      TailStep(front, last, Keep(front, cutoff), cutoff);
      assert front + [last] == h;
    }
  }

  lemma TailStep(front: seq<int>, last: int, kept: seq<int>, cutoff: int)
    requires AtMost(front, last) && IsTail(kept, front, cutoff)
    requires forall i | 0 <= i < |kept| :: kept[i] >= cutoff
    ensures IsTail(kept + if last >= cutoff then [last] else [], front + [last], cutoff)
  {
    var m := |front| - |kept|;
    assert kept != [] ==> kept[0] == front[m] && cutoff <= front[m] <= last;
    if last >= cutoff {
      assert (front + [last])[m..] == kept + [last];
    }
  }

  // Number of events from a to b inclusive.
  function CountIn(h: seq<int>, a: int, b: int): (n: nat)
    ensures n <= |h|
  {
    if h == [] then 0
    else CountIn(h[..|h| - 1], a, b) + if a <= h[|h| - 1] <= b then 1 else 0
  }

  lemma {:induction false} CountInExact(h: seq<int>, a: int, b: int)
    ensures CountIn(h, a, b) == |set i | 0 <= i < |h| && a <= h[i] <= b|
  {
    if h != [] {
      var n := |h| - 1;
      CountInExact(h[..n], a, b);
      var before, all := set i | 0 <= i < n && a <= h[..n][i] <= b, set i | 0 <= i < |h| && a <= h[i] <= b;
      assert all == before + if a <= h[n] <= b then {n} else {};
    }
  }

  lemma {:induction false} CountIsKeep(h: seq<int>, a: int, b: int)
    requires AtMost(h, b)
    ensures CountIn(h, a, b) == |Keep(h, a)|
  {
    if h != [] {
      CountIsKeep(h[..|h| - 1], a, b);
    }
  }

  // Every event found at most `bound - 1` others in the window that ends with it.
  ghost predicate Paced(h: seq<int>, width: int, bound: nat) {
    forall i | 0 <= i < |h| :: |Keep(h[..i], h[i] - width)| < bound
  }

  // Then no window of that width, wherever it lies, holds more than `bound`.
  lemma {:induction false} PacedWindows(h: seq<int>, width: int, bound: nat, a: int)
    requires Ordered(h) && Paced(h, width, bound)
    ensures CountIn(h, a, a + width) <= bound
  {
    if h != [] {
      var front, last := h[..|h| - 1], h[|h| - 1];
      OrderedFront(h);
      PacedPrefix(h, width, bound);
      assert CountIn(h, a, a + width) == CountIn(front, a, a + width) + if a <= last <= a + width then 1 else 0;
      hide Keep, Ordered, Paced, CountIn;
      if a <= last <= a + width {
        AtMostLater(front, last, a + width);
        CountIsKeep(front, a, a + width);
        KeepShrinks(front, last - width, a);
      } else {
        PacedWindows(front, width, bound, a);
      }
    }
  }

  lemma PacedPrefix(h: seq<int>, width: int, bound: nat)
    requires h != [] && Paced(h, width, bound)
    ensures Paced(h[..|h| - 1], width, bound)
    ensures |Keep(h[..|h| - 1], h[|h| - 1] - width)| < bound
  {
    hide Keep;
    var front := h[..|h| - 1];
    forall i | 0 <= i < |front|
      ensures |Keep(front[..i], front[i] - width)| < bound
    {
      assert front[..i] == h[..i];
    }
  }

  lemma PacedExtends(h: seq<int>, t: int, width: int, bound: nat)
    requires Paced(h, width, bound) && |Keep(h, t - width)| < bound
    ensures Paced(h + [t], width, bound)
  {
    hide Keep;
    var g := h + [t];
    forall i | 0 <= i < |g|
      ensures |Keep(g[..i], g[i] - width)| < bound
    {
      if i < |h| {
        assert g[..i] == h[..i];
      } else {
        assert g[..i] == h;
      }
    }
  }

  // A bucket holds what the history keeps from some cutoff up to `bound` on.
  ghost predicate Agrees(bucket: seq<int>, h: seq<int>, bound: int) {
    exists cut :: cut <= bound && bucket == Keep(h, cut)
  }

  lemma AgreesAt(bucket: seq<int>, h: seq<int>, bound: int, now: int)
    requires Agrees(bucket, h, bound) && bound <= now
    ensures Keep(bucket, now) == Keep(h, now)
    ensures Agrees(bucket, h, now) && Agrees(Keep(h, now), h, now)
  {
    var cut :| cut <= bound && bucket == Keep(h, cut);
    KeepKeep(h, cut, now);
  }
}
