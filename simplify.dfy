/**
 * The four simplification passes over a recorded event list. Each pass is one loop
 * that keeps an output list, compares its last element with the next input event
 * and either overwrites that last element with a merged event or appends the input
 * event. Each method is proved equal to a recursive definition of its result, and
 * the lemmas below state what that result keeps, merges and drops.
 *
 * Events are values, so no pass can change the events it is given; the click
 * objects the multi-click pass updates are all ones it has just made.
 *
 * Every pass hands its result to `Events.FromIterable`, whose validation turns each
 * plain click into a click event. So a pass returns `ValidatedAll` of its recursive
 * definition. Validation commutes with each definition, so what is proved about
 * the definition carries over to what the pass returns.
 */
module Simplify {
  import opened Wrappers
  import opened Events

  /** The events of `s` in the opposite order. */
  function Reversed(s: seq<Event>): (r: seq<Event>)
    ensures |r| == |s|
  {
    if s == [] then [] else [s[|s| - 1]] + Reversed(s[..|s| - 1])
  }

  /**
   * Whether two locations are at most `maxPixels` apart (Euclidean distance, compared
   * squared). Locations that close are within `maxPixels` on each axis, and a location
   * is within any non-negative distance of itself.
   */
  predicate WithinPixels(a: Point, b: Point, maxPixels: int): (r: bool)
    ensures r ==> maxPixels >= 0
    ensures r ==> -maxPixels <= a.x - b.x <= maxPixels && -maxPixels <= a.y - b.y <= maxPixels
    ensures a == b ==> (r <==> maxPixels >= 0)
  {
    var dx := a.x - b.x;
    var dy := a.y - b.y;
    var close := maxPixels >= 0 && dx * dx + dy * dy <= maxPixels * maxPixels;
    if close then AxisBound(dx, dy, maxPixels); close else close
  }

  /** A sum of two squares bounded by `m * m` bounds each term by `m`. */
  lemma AxisBound(d: int, e: int, m: int)
    requires m >= 0 && d * d + e * e <= m * m
    ensures -m <= d <= m && -m <= e <= m
  {
    assert d * d >= 0 && e * e >= 0;
    SquareBound(d, m);
    SquareBound(e, m);
  }

  /** A square at most `m * m` has its root between `-m` and `m`. */
  lemma SquareBound(d: int, m: int)
    requires m >= 0
    ensures d * d <= m * m ==> -m <= d <= m
  {
    if d > m {
      SquareGrows(d, m);
    } else if d < -m {
      SquareGrows(-d, m);
      assert (-d) * (-d) == d * d;
    }
  }

  /** Squaring is strictly increasing on the non-negative integers. */
  lemma SquareGrows(d: int, m: int)
    requires d > m >= 0
    ensures d * d > m * m
  {
    var k := d - m;
    assert d * d == d * m + d * k;
    assert d * m == m * m + k * m;
    assert d * k == m * k + k * k;
    assert m * k >= 0 && k * m == m * k;
    assert k * k >= k;
  }

  // ===========================================================================
  // Pass 1: drop consecutive state snapshots
  // ===========================================================================

  /** Whether the event at `i` is a snapshot immediately followed by another snapshot. */
  predicate Superseded(s: seq<Event>, i: int)
    requires 0 <= i < |s|
  {
    s[i].StateSnapshot? && i + 1 < |s| && s[i + 1].StateSnapshot?
  }

  /**
   * `s` with every snapshot removed whose successor is also a snapshot: of each run
   * of snapshots only the last is kept, and every other event stays where it was.
   */
  function WithoutSupersededSnapshots(s: seq<Event>): (r: seq<Event>)
    ensures |r| <= |s|
    ensures s != [] ==> r != [] && r[0].StateSnapshot? == s[0].StateSnapshot?
    ensures s != [] ==> r[|r| - 1] == s[|s| - 1]
  {
    if s == [] then []
    else (if Superseded(s, 0) then [] else [s[0]]) + WithoutSupersededSnapshots(s[1..])
  }

  /** The right-to-left pass that keeps only the last snapshot of each run of snapshots. */
  method DropConsecutiveStateSnapshots(events: seq<Event>) returns (r: seq<Event>)
    ensures r == ValidatedAll(WithoutSupersededSnapshots(events))
  {
    var reversedSavedEvents: seq<Event> := [];
    var i := |events|;
    while i > 0
      invariant 0 <= i <= |events|
      invariant Reversed(reversedSavedEvents) == WithoutSupersededSnapshots(events[i..])
    {
      i := i - 1;
      var event := events[i];
      assert events[i..] == [event] + events[i + 1..];
      assert Superseded(events[i..], 0) <==>
        event.StateSnapshot? && reversedSavedEvents != []
        && reversedSavedEvents[|reversedSavedEvents| - 1].StateSnapshot?;
      if |reversedSavedEvents| == 0 {
        reversedSavedEvents := reversedSavedEvents + [event];
      } else if event.StateSnapshot? {
        if !reversedSavedEvents[|reversedSavedEvents| - 1].StateSnapshot? {
          reversedSavedEvents := reversedSavedEvents + [event];
        }
      } else {
        reversedSavedEvents := reversedSavedEvents + [event];
      }
    }
    assert events[0..] == events;
    var saved := new Events.FromIterable(Reversed(reversedSavedEvents));
    r := saved.items;
  }

  /** No two adjacent events of `s` are both snapshots. */
  predicate NoConsecutiveSnapshots(s: seq<Event>) {
    forall i :: 0 <= i < |s| - 1 ==> !Superseded(s, i)
  }

  /** An input without two adjacent snapshots comes back unchanged (the empty input included). */
  lemma {:induction false} NoConsecutiveSnapshotsUnchanged(s: seq<Event>)
    requires NoConsecutiveSnapshots(s)
    ensures WithoutSupersededSnapshots(s) == s
  {
    if s != [] {
      assert !Superseded(s, 0);
      assert NoConsecutiveSnapshots(s[1..]) by {
        forall i | 0 <= i < |s[1..]| - 1 ensures !Superseded(s[1..], i) {
          assert !Superseded(s, i + 1);
        }
      }
      NoConsecutiveSnapshotsUnchanged(s[1..]);
    }
  }

  /** The pass leaves no two adjacent snapshots. */
  lemma {:induction false} NoConsecutiveSnapshotsInResult(s: seq<Event>)
    ensures NoConsecutiveSnapshots(WithoutSupersededSnapshots(s))
  {
    if s != [] {
      var rest := WithoutSupersededSnapshots(s[1..]);
      NoConsecutiveSnapshotsInResult(s[1..]);
      if !Superseded(s, 0) {
        var r := [s[0]] + rest;
        assert WithoutSupersededSnapshots(s) == r;
        forall i | 0 <= i < |r| - 1 ensures !Superseded(r, i) {
          if i > 0 {
            assert !Superseded(rest, i - 1);
          } else {
            assert s[1..][0] == s[1];
          }
        }
      } else {
        assert WithoutSupersededSnapshots(s) == rest;
      }
    }
  }

  /** Dropping consecutive snapshots a second time changes nothing. */
  lemma DropConsecutiveStateSnapshotsIdempotent(s: seq<Event>)
    ensures WithoutSupersededSnapshots(WithoutSupersededSnapshots(s)) == WithoutSupersededSnapshots(s)
  {
    NoConsecutiveSnapshotsInResult(s);
    NoConsecutiveSnapshotsUnchanged(WithoutSupersededSnapshots(s));
  }

  /** Validation keeps every event's kind, so it commutes with dropping superseded snapshots. */
  lemma {:induction false} WithoutSupersededSnapshotsValidated(s: seq<Event>)
    ensures WithoutSupersededSnapshots(ValidatedAll(s)) == ValidatedAll(WithoutSupersededSnapshots(s))
  {
    if s != [] {
      var v := ValidatedAll(s);
      ValidatedAllDrop(s, 1);
      WithoutSupersededSnapshotsValidated(s[1..]);
      assert Superseded(v, 0) == Superseded(s, 0);
      var head := if Superseded(s, 0) then [] else [s[0]];
      ValidatedAllAppend(head, WithoutSupersededSnapshots(s[1..]));
    }
  }

  /** Running the pass again on what it returned returns the same list. */
  lemma DropConsecutiveStateSnapshotsIdempotentAsReturned(s: seq<Event>)
    ensures var r := ValidatedAll(WithoutSupersededSnapshots(s));
      ValidatedAll(WithoutSupersededSnapshots(r)) == r
  {
    var w := WithoutSupersededSnapshots(s);
    WithoutSupersededSnapshotsValidated(w);
    DropConsecutiveStateSnapshotsIdempotent(s);
    ValidatedAllIdempotent(w);
  }

  /** The events of `s` that are not snapshots, in order. */
  function NonSnapshots(s: seq<Event>): seq<Event> {
    if s == [] then []
    else (if s[0].StateSnapshot? then [] else [s[0]]) + NonSnapshots(s[1..])
  }

  lemma {:induction false} NonSnapshotsAppend(a: seq<Event>, b: seq<Event>)
    ensures NonSnapshots(a + b) == NonSnapshots(a) + NonSnapshots(b)
  {
    if a == [] {
      assert a + b == b;
    } else {
      var head := if a[0].StateSnapshot? then [] else [a[0]];
      assert (a + b)[0] == a[0];
      assert (a + b)[1..] == a[1..] + b;
      NonSnapshotsAppend(a[1..], b);
      calc {
        NonSnapshots(a + b);
        head + NonSnapshots(a[1..] + b);
        head + (NonSnapshots(a[1..]) + NonSnapshots(b));
        (head + NonSnapshots(a[1..])) + NonSnapshots(b);
        NonSnapshots(a) + NonSnapshots(b);
      }
    }
  }

  /** Every event that is not a snapshot is kept, in its original order. */
  lemma {:induction false} NonSnapshotsKept(s: seq<Event>)
    ensures NonSnapshots(WithoutSupersededSnapshots(s)) == NonSnapshots(s)
  {
    if s != [] {
      NonSnapshotsKept(s[1..]);
      NonSnapshotsAppend(if Superseded(s, 0) then [] else [s[0]], WithoutSupersededSnapshots(s[1..]));
    }
  }

  /** A run of three snapshots collapses to the last of them. */
  lemma SnapshotRunKeepsLast(a: Event, b: Event, c: Event)
    requires a.StateSnapshot? && b.StateSnapshot? && c.StateSnapshot?
    ensures WithoutSupersededSnapshots([a, b, c]) == [c]
  {
    assert [a, b, c][1..] == [b, c];
    assert [b, c][1..] == [c];
  }

  // ===========================================================================
  // Pass 2: mouse press then release becomes a click
  // ===========================================================================

  /**
   * Whether `prev` and `next` are a press and then a release of the same mouse
   * button, at most `maxSeconds` and `maxPixels` apart.
   */
  predicate PressThenRelease(prev: Event, next: Event, maxSeconds: int, maxPixels: int): (b: bool)
    // A click event's action is always "click", so a click never pairs.
    ensures b ==> prev.MouseButton? && next.MouseButton?
    ensures b ==> MouseActionOf(prev) == MousePress && MouseActionOf(next) == MouseRelease
    ensures b ==> FromMouseButtonEvent(prev).button == next.button
    ensures b ==> -maxPixels <= next.location.x - prev.location.x <= maxPixels
    ensures b ==> -maxPixels <= next.location.y - prev.location.y <= maxPixels
    ensures b ==> next.timestamp - prev.timestamp <= maxSeconds
  {
    && IsMouseButton(next)
    && IsMouseButton(prev)
    && prev.button == next.button
    && MouseActionOf(prev) == MousePress
    && MouseActionOf(next) == MouseRelease
    && next.timestamp - prev.timestamp <= maxSeconds
    && WithinPixels(next.location, prev.location, maxPixels)
  }

  /**
   * `s` with each press immediately followed by its matching release replaced, from
   * the left, by the click made from the press.
   */
  function PressReleaseAsClicks(s: seq<Event>, maxSeconds: int, maxPixels: int): (r: seq<Event>)
    ensures r == [] <==> s == []
    decreases |s|
  {
    if |s| < 2 then s
    else if PressThenRelease(s[0], s[1], maxSeconds, maxPixels)
    then [FromMouseButtonEvent(s[0])] + PressReleaseAsClicks(s[2..], maxSeconds, maxPixels)
    else [s[0]] + PressReleaseAsClicks(s[1..], maxSeconds, maxPixels)
  }

  /**
   * The left-to-right pass that turns a mouse press and its release into one click.
   * The default thresholds are 0.2 seconds and 5 pixels.
   */
  method ConvertMousePressThenReleaseToClick(events: seq<Event>, maxSeconds: int := 200000, maxPixels: int := 5)
    returns (r: seq<Event>)
    ensures r == ValidatedAll(PressReleaseAsClicks(events, maxSeconds, maxPixels))
  {
    var newEvents: seq<Event> := [];
    ghost var open := false;
    PressReleaseLoopStart(events, maxSeconds, maxPixels);
    for i := 0 to |events|
      invariant PressReleaseLoop(events, i, newEvents, open, maxSeconds, maxPixels)
    {
      var event := events[i];
      if |newEvents| > 0 && PressThenRelease(newEvents[|newEvents| - 1], event, maxSeconds, maxPixels) {
        PressReleaseLoopMerge(events, i, newEvents, open, maxSeconds, maxPixels);
        newEvents := newEvents[..|newEvents| - 1] + [FromMouseButtonEvent(newEvents[|newEvents| - 1])];
        open := false;
      } else {
        PressReleaseLoopKeep(events, i, newEvents, open, maxSeconds, maxPixels);
        newEvents := newEvents + [event];
        open := true;
      }
    }
    PressReleaseLoopEnd(events, newEvents, open, maxSeconds, maxPixels);
    var saved := new Events.FromIterable(newEvents);
    r := saved.items;
  }

  /**
   * The state of the press-release loop after `i` input events. When `open`, the
   * last output event is the previous input event, not yet paired, and the rest of
   * the result is still to come from the input from `i - 1` on. Otherwise the output
   * is a finished prefix of the result, ending, if at all, in a click.
   */
  ghost predicate PressReleaseLoop(s: seq<Event>, i: int, out: seq<Event>, open: bool, maxSeconds: int, maxPixels: int) {
    && 0 <= i <= |s|
    && (open ==> && 0 < i && out != [] && out[|out| - 1] == s[i - 1]
                 && PressReleaseAsClicks(s, maxSeconds, maxPixels)
                    == out[..|out| - 1] + PressReleaseAsClicks(s[i - 1..], maxSeconds, maxPixels))
    && (!open ==> && PressReleaseAsClicks(s, maxSeconds, maxPixels) == out + PressReleaseAsClicks(s[i..], maxSeconds, maxPixels)
                  && (out != [] ==> out[|out| - 1].Click?))
  }

  lemma PressReleaseLoopStart(s: seq<Event>, maxSeconds: int, maxPixels: int)
    ensures PressReleaseLoop(s, 0, [], false, maxSeconds, maxPixels)
  {
    assert s[0..] == s;
  }

  /** Loop step: the open press pairs with the next event and becomes its click. */
  lemma PressReleaseLoopMerge(s: seq<Event>, i: int, out: seq<Event>, open: bool, maxSeconds: int, maxPixels: int)
    requires PressReleaseLoop(s, i, out, open, maxSeconds, maxPixels) && i < |s|
    requires out != [] && PressThenRelease(out[|out| - 1], s[i], maxSeconds, maxPixels)
    ensures PressReleaseLoop(s, i + 1, out[..|out| - 1] + [FromMouseButtonEvent(out[|out| - 1])], false,
                             maxSeconds, maxPixels)
  {
    assert open;
    assert s[i - 1..][2..] == s[i + 1..];
  }

  /** Loop step: the next event does not pair, so it is appended and left open. */
  lemma PressReleaseLoopKeep(s: seq<Event>, i: int, out: seq<Event>, open: bool, maxSeconds: int, maxPixels: int)
    requires PressReleaseLoop(s, i, out, open, maxSeconds, maxPixels) && i < |s|
    requires !(out != [] && PressThenRelease(out[|out| - 1], s[i], maxSeconds, maxPixels))
    ensures PressReleaseLoop(s, i + 1, out + [s[i]], true, maxSeconds, maxPixels)
  {
    var out' := out + [s[i]];
    assert out'[..|out'| - 1] == out;
    if open {
      assert s[i - 1..][1..] == s[i..];
      assert out == out[..|out| - 1] + [s[i - 1]];
    }
  }

  lemma PressReleaseLoopEnd(s: seq<Event>, out: seq<Event>, open: bool, maxSeconds: int, maxPixels: int)
    requires PressReleaseLoop(s, |s|, out, open, maxSeconds, maxPixels)
    ensures out == PressReleaseAsClicks(s, maxSeconds, maxPixels)
  {
    if open {
      assert s[|s| - 1..] == [s[|s| - 1]];
      assert out == out[..|out| - 1] + [s[|s| - 1]];
    } else {
      assert s[|s|..] == [];
    }
  }

  /** The number of adjacent pairs of `s` that are a press and its matching release. */
  function PressReleasePairs(s: seq<Event>, maxSeconds: int, maxPixels: int): nat {
    if |s| < 2 then 0
    else (if PressThenRelease(s[0], s[1], maxSeconds, maxPixels) then 1 else 0)
         + PressReleasePairs(s[1..], maxSeconds, maxPixels)
  }

  /**
   * The output is shorter than the input by exactly the number of press/release
   * pairs in the input: pairs never overlap, so each one is merged.
   */
  lemma {:induction false} PressReleaseAsClicksLength(s: seq<Event>, maxSeconds: int, maxPixels: int)
    ensures |PressReleaseAsClicks(s, maxSeconds, maxPixels)| == |s| - PressReleasePairs(s, maxSeconds, maxPixels)
  {
    if |s| >= 2 {
      if PressThenRelease(s[0], s[1], maxSeconds, maxPixels) {
        assert s[1..][1..] == s[2..];
        PressReleaseAsClicksLength(s[2..], maxSeconds, maxPixels);
      } else {
        PressReleaseAsClicksLength(s[1..], maxSeconds, maxPixels);
      }
    }
  }

  /** An input without a press/release pair comes back unchanged. */
  lemma {:induction false} NoPressReleasePairUnchanged(s: seq<Event>, maxSeconds: int, maxPixels: int)
    requires PressReleasePairs(s, maxSeconds, maxPixels) == 0
    ensures PressReleaseAsClicks(s, maxSeconds, maxPixels) == s
  {
    if |s| >= 2 {
      NoPressReleasePairUnchanged(s[1..], maxSeconds, maxPixels);
    }
  }

  /** The first output event is the first input event, or the click made from it. */
  lemma {:induction false} PressReleaseAsClicksHead(s: seq<Event>, maxSeconds: int, maxPixels: int)
    requires s != []
    ensures var r := PressReleaseAsClicks(s, maxSeconds, maxPixels);
      r != [] && (r[0] == s[0] || (IsMouseButton(s[0]) && r[0] == FromMouseButtonEvent(s[0])))
  {
  }

  /** The pass leaves no press followed by its matching release. */
  lemma {:induction false} NoPressReleasePairInResult(s: seq<Event>, maxSeconds: int, maxPixels: int)
    ensures PressReleasePairs(PressReleaseAsClicks(s, maxSeconds, maxPixels), maxSeconds, maxPixels) == 0
  {
    if |s| >= 2 {
      var r := PressReleaseAsClicks(s, maxSeconds, maxPixels);
      if PressThenRelease(s[0], s[1], maxSeconds, maxPixels) {
        NoPressReleasePairInResult(s[2..], maxSeconds, maxPixels);
        assert r[1..] == PressReleaseAsClicks(s[2..], maxSeconds, maxPixels);
      } else {
        NoPressReleasePairInResult(s[1..], maxSeconds, maxPixels);
        PressReleaseAsClicksHead(s[1..], maxSeconds, maxPixels);
        assert r[1..] == PressReleaseAsClicks(s[1..], maxSeconds, maxPixels);
      }
    }
  }

  /** Converting presses and releases a second time changes nothing. */
  lemma ConvertMousePressThenReleaseIdempotent(s: seq<Event>, maxSeconds: int, maxPixels: int)
    ensures var r := PressReleaseAsClicks(s, maxSeconds, maxPixels);
      PressReleaseAsClicks(r, maxSeconds, maxPixels) == r
  {
    NoPressReleasePairInResult(s, maxSeconds, maxPixels);
    NoPressReleasePairUnchanged(PressReleaseAsClicks(s, maxSeconds, maxPixels), maxSeconds, maxPixels);
  }

  /**
   * Validation commutes with the pass: it only rebuilds plain clicks, which never
   * pair, and the clicks the pass makes are already click events.
   */
  lemma {:induction false} PressReleaseAsClicksValidated(s: seq<Event>, maxSeconds: int, maxPixels: int)
    ensures PressReleaseAsClicks(ValidatedAll(s), maxSeconds, maxPixels)
            == ValidatedAll(PressReleaseAsClicks(s, maxSeconds, maxPixels))
    decreases |s|
  {
    if |s| >= 2 {
      var v := ValidatedAll(s);
      ValidatedAllDrop(s, 1);
      ValidatedAllDrop(s, 2);
      assert PressThenRelease(v[0], v[1], maxSeconds, maxPixels) == PressThenRelease(s[0], s[1], maxSeconds, maxPixels);
      if PressThenRelease(s[0], s[1], maxSeconds, maxPixels) {
        PressReleaseAsClicksValidated(s[2..], maxSeconds, maxPixels);
        ValidatedAllAppend([FromMouseButtonEvent(s[0])], PressReleaseAsClicks(s[2..], maxSeconds, maxPixels));
      } else {
        PressReleaseAsClicksValidated(s[1..], maxSeconds, maxPixels);
        ValidatedAllAppend([s[0]], PressReleaseAsClicks(s[1..], maxSeconds, maxPixels));
      }
    }
  }

  /** Running the pass again on what it returned returns the same list. */
  lemma ConvertMousePressThenReleaseIdempotentAsReturned(s: seq<Event>, maxSeconds: int, maxPixels: int)
    ensures var r := ValidatedAll(PressReleaseAsClicks(s, maxSeconds, maxPixels));
      ValidatedAll(PressReleaseAsClicks(r, maxSeconds, maxPixels)) == r
  {
    var p := PressReleaseAsClicks(s, maxSeconds, maxPixels);
    PressReleaseAsClicksValidated(p, maxSeconds, maxPixels);
    ConvertMousePressThenReleaseIdempotent(s, maxSeconds, maxPixels);
    ValidatedAllIdempotent(p);
  }

  /** The pass works on the two halves of a list separately when no pair straddles the split. */
  lemma {:induction false} PressReleaseAsClicksSplit(a: seq<Event>, b: seq<Event>, maxSeconds: int, maxPixels: int)
    requires a != [] && b != [] ==> !PressThenRelease(a[|a| - 1], b[0], maxSeconds, maxPixels)
    ensures PressReleaseAsClicks(a + b, maxSeconds, maxPixels)
         == PressReleaseAsClicks(a, maxSeconds, maxPixels) + PressReleaseAsClicks(b, maxSeconds, maxPixels)
  {
    if a == [] {
      assert a + b == b;
    } else if b == [] {
      assert a + b == a;
    } else if |a| == 1 {
      assert (a + b)[1..] == b;
    } else if PressThenRelease(a[0], a[1], maxSeconds, maxPixels) {
      assert (a + b)[2..] == a[2..] + b;
      PressReleaseAsClicksSplit(a[2..], b, maxSeconds, maxPixels);
    } else {
      assert (a + b)[1..] == a[1..] + b;
      PressReleaseAsClicksSplit(a[1..], b, maxSeconds, maxPixels);
    }
  }

  /**
   * Wherever a press is immediately followed by its matching release, the two become
   * the click made from the press (its timestamp, screenshot, location and button,
   * one click, no last timestamp), whatever comes before and after.
   */
  lemma PressReleaseBecomesClick(before: seq<Event>, press: Event, release: Event, after: seq<Event>,
                                 maxSeconds: int, maxPixels: int)
    requires PressThenRelease(press, release, maxSeconds, maxPixels)
    ensures PressReleaseAsClicks(before + [press, release] + after, maxSeconds, maxPixels)
         == PressReleaseAsClicks(before, maxSeconds, maxPixels) + [FromMouseButtonEvent(press)]
            + PressReleaseAsClicks(after, maxSeconds, maxPixels)
  {
    var pair := [press, release] + after;
    assert before + [press, release] + after == before + pair;
    PressReleaseAsClicksSplit(before, pair, maxSeconds, maxPixels);
    assert pair[2..] == after;
  }

  /** Any event other than a mouse-button event between a press and its release keeps them apart. */
  lemma InterveningEventBlocksClick(press: Event, between: Event, release: Event, maxSeconds: int, maxPixels: int)
    requires !IsMouseButton(between)
    ensures PressReleaseAsClicks([press, between, release], maxSeconds, maxPixels) == [press, between, release]
  {
    assert [press, between, release][1..] == [between, release];
    assert [between, release][1..] == [release];
    assert PressReleaseAsClicks([between, release], maxSeconds, maxPixels) == [between, release];
  }

  // ===========================================================================
  // Pass 3: consecutive clicks become a multi-click
  // ===========================================================================

  /**
   * Whether `earlier` and `later` are both clicks of the same mouse button, `later`
   * starting at most `maxSeconds` after `earlier` and at most `maxPixels` away.
   */
  predicate ClicksJoin(earlier: Event, later: Event, maxSeconds: int, maxPixels: int): (b: bool)
    // Only genuine clicks join: each side counts at least one click.
    ensures b ==> ClickCount(earlier) >= 1 && ClickCount(later) >= 1
    ensures b ==> AsClick(earlier).button == AsClick(later).button
    ensures b ==> -maxPixels <= earlier.location.x - later.location.x <= maxPixels
    ensures b ==> -maxPixels <= earlier.location.y - later.location.y <= maxPixels
    ensures b ==> later.timestamp - earlier.timestamp <= maxSeconds
  {
    && IsMouseButton(earlier)
    && IsMouseButton(later)
    && later.button == earlier.button
    && MouseActionOf(later) == MouseClick
    && MouseActionOf(earlier) == MouseClick
    && later.timestamp - earlier.timestamp <= maxSeconds
    && WithinPixels(earlier.location, later.location, maxPixels)
  }

  /** A mouse-button event as a click event: a click event as it is, any other made into one. */
  function AsClick(e: Event): (c: Event)
    requires IsMouseButton(e)
    ensures c.Click?
    ensures e.Click? ==> c == e
    ensures !e.Click? ==> c.nClicks == 1 && c.lastTimestamp == None
    ensures c.timestamp == e.timestamp && c.screenshot == e.screenshot
    ensures c.location == e.location && c.button == e.button
    ensures IsClickAction(e) ==> c.nClicks == ClickCount(e)
  {
    if e.Click? then e else FromMouseButtonEvent(e)
  }

  /**
   * `s` with, from the right, each click merged into the click before it whenever
   * the two join; the merged click may then join the one before it in turn.
   */
  function MultiClicks(s: seq<Event>, maxSeconds: int, maxPixels: int): (r: seq<Event>)
    ensures |r| <= |s|
    ensures s != [] <==> r != []
  {
    if s == [] then []
    else
      var rest := MultiClicks(s[1..], maxSeconds, maxPixels);
      if rest != [] && ClicksJoin(s[0], rest[0], maxSeconds, maxPixels)
      then [MergedClick(AsClick(s[0]), AsClick(rest[0]))] + rest[1..]
      else [s[0]] + rest
  }

  /**
   * The right-to-left pass that merges runs of clicks into multi-clicks.
   * The default thresholds are 0.4 seconds and 5 pixels.
   */
  method ConvertMouseClicksToMultiClick(events: seq<Event>, maxSeconds: int := 400000, maxPixels: int := 5)
    returns (r: seq<Event>)
    ensures r == ValidatedAll(MultiClicks(events, maxSeconds, maxPixels))
  {
    var reversedSavedEvents: seq<Event> := [];
    var i := |events|;
    while i > 0
      invariant 0 <= i <= |events|
      invariant Reversed(reversedSavedEvents) == MultiClicks(events[i..], maxSeconds, maxPixels)
    {
      i := i - 1;
      var event := events[i];
      assert events[i..][1..] == events[i + 1..];
      if |reversedSavedEvents| > 0
         && ClicksJoin(event, reversedSavedEvents[|reversedSavedEvents| - 1], maxSeconds, maxPixels)
      {
        var nextEvent := reversedSavedEvents[|reversedSavedEvents| - 1];
        if !nextEvent.Click? {
          nextEvent := FromMouseButtonEvent(nextEvent);
        }
        var merged: ClickEvent;
        if !event.Click? {
          merged := new ClickEvent.Copy(FromMouseButtonEvent(event));
        } else {
          merged := new ClickEvent.Copy(event);
        }
        merged.UpdateWith(nextEvent);
        var kept := reversedSavedEvents[..|reversedSavedEvents| - 1];
        assert Reversed(reversedSavedEvents)[1..] == Reversed(kept);
        reversedSavedEvents := kept + [merged.Value()];
        assert reversedSavedEvents[..|reversedSavedEvents| - 1] == kept;
      } else {
        reversedSavedEvents := reversedSavedEvents + [event];
      }
    }
    assert events[0..] == events;
    var saved := new Events.FromIterable(Reversed(reversedSavedEvents));
    r := saved.items;
  }

  /** How many clicks an event stands for: its count for a click event, one for a plain click, else none. */
  function ClickCount(e: Event): nat {
    if e.Click? then e.nClicks
    else if e.MouseButton? && e.action == MouseClick then 1
    else 0
  }

  function TotalClicks(s: seq<Event>): nat {
    if s == [] then 0 else ClickCount(s[0]) + TotalClicks(s[1..])
  }

  /** Merging never gains or loses a click: the total click count is preserved. */
  lemma {:induction false} TotalClicksPreserved(s: seq<Event>, maxSeconds: int, maxPixels: int)
    ensures TotalClicks(MultiClicks(s, maxSeconds, maxPixels)) == TotalClicks(s)
  {
    if s != [] {
      TotalClicksPreserved(s[1..], maxSeconds, maxPixels);
      var rest := MultiClicks(s[1..], maxSeconds, maxPixels);
      if rest != [] && ClicksJoin(s[0], rest[0], maxSeconds, maxPixels) {
        var r := [MergedClick(AsClick(s[0]), AsClick(rest[0]))] + rest[1..];
        assert r[1..] == rest[1..];
        assert TotalClicks(r) == ClickCount(s[0]) + ClickCount(rest[0]) + TotalClicks(rest[1..]);
      } else {
        assert ([s[0]] + rest)[1..] == rest;
      }
    }
  }

  /** Whether `e` takes part in multi-click merging: a mouse-button event whose action is "click". */
  predicate IsClickAction(e: Event) {
    IsMouseButton(e) && MouseActionOf(e) == MouseClick
  }

  /** The events of `s` that are not clicks, in order. */
  function NonClicks(s: seq<Event>): seq<Event> {
    if s == [] then [] else (if IsClickAction(s[0]) then [] else [s[0]]) + NonClicks(s[1..])
  }

  /** Every event that is not a click passes through, in its original order. */
  lemma {:induction false} NonClicksKept(s: seq<Event>, maxSeconds: int, maxPixels: int)
    ensures NonClicks(MultiClicks(s, maxSeconds, maxPixels)) == NonClicks(s)
  {
    if s != [] {
      NonClicksKept(s[1..], maxSeconds, maxPixels);
      var rest := MultiClicks(s[1..], maxSeconds, maxPixels);
      if rest != [] && ClicksJoin(s[0], rest[0], maxSeconds, maxPixels) {
        var r := [MergedClick(AsClick(s[0]), AsClick(rest[0]))] + rest[1..];
        assert r[1..] == rest[1..];
        assert NonClicks(rest) == NonClicks(rest[1..]);
      } else {
        assert ([s[0]] + rest)[1..] == rest;
      }
    }
  }

  /**
   * Two joining clicks merge into a click at the earlier one's location whose count is
   * the sum of theirs (a plain click counting one), which starts at the earlier of
   * their starts and ends at the latest of their starts and ends.
   */
  lemma JoinedClicks(earlier: Event, later: Event, maxSeconds: int, maxPixels: int)
    requires ClicksJoin(earlier, later, maxSeconds, maxPixels)
    ensures var m := MergedClick(AsClick(earlier), AsClick(later));
      && m.nClicks == ClickCount(earlier) + ClickCount(later)
      && m.timestamp == Min(earlier.timestamp, later.timestamp)
      && LastTimestampOrFirst(m)
         == Max(Max(earlier.timestamp, later.timestamp),
                Max(LastTimestampOrFirst(AsClick(earlier)), LastTimestampOrFirst(AsClick(later))))
      && m.location == earlier.location && m.button == earlier.button
  {
  }

  /** Three clicks counting 2, 7 and 1, close enough together, become one click counting 10. */
  lemma ThreeClicksSumUp(a: Event, b: Event, c: Event)
    requires a.Click? && b.Click? && c.Click?
    requires a.nClicks == 2 && b.nClicks == 7 && c.nClicks == 1
    requires a.button == b.button == c.button && a.location == b.location == c.location
    requires a.timestamp == 0 && b.timestamp == 100 && c.timestamp == 200
    requires a.lastTimestamp == b.lastTimestamp == c.lastTimestamp == None
    ensures var r := MultiClicks([a, b, c], 400, 5);
      |r| == 1 && r[0].Click? && r[0].nClicks == 10
      && r[0].timestamp == 0 && r[0].lastTimestamp == Some(200)
  {
    assert [a, b, c][1..] == [b, c];
    assert [b, c][1..] == [c];
    assert [c][1..] == [];
    assert MultiClicks([c], 400, 5) == [c];
    var bc := MultiClicks([b, c], 400, 5);
    assert bc == [MergedClick(b, c)];
    assert bc[0].nClicks == 8 && bc[0].timestamp == 100;
  }

  /**
   * Validation commutes with the pass: a plain click and the click event made from
   * it join the same neighbours and merge to the same click.
   */
  lemma {:induction false} MultiClicksValidated(s: seq<Event>, maxSeconds: int, maxPixels: int)
    ensures MultiClicks(ValidatedAll(s), maxSeconds, maxPixels) == ValidatedAll(MultiClicks(s, maxSeconds, maxPixels))
  {
    if s != [] {
      var v := ValidatedAll(s);
      ValidatedAllDrop(s, 1);
      MultiClicksValidated(s[1..], maxSeconds, maxPixels);
      var rest := MultiClicks(s[1..], maxSeconds, maxPixels);
      var vr := ValidatedAll(rest);
      assert MultiClicks(v[1..], maxSeconds, maxPixels) == vr;
      if rest != [] {
        ClicksJoinValidated(s[0], rest[0], maxSeconds, maxPixels);
      }
      if rest != [] && ClicksJoin(s[0], rest[0], maxSeconds, maxPixels) {
        ValidatedAllDrop(rest, 1);
        var m := MergedClick(AsClick(s[0]), AsClick(rest[0]));
        assert MultiClicks(v, maxSeconds, maxPixels) == [m] + vr[1..];
        ValidatedAllAppend([m], rest[1..]);
      } else {
        assert MultiClicks(v, maxSeconds, maxPixels) == [v[0]] + vr;
        ValidatedAllAppend([s[0]], rest);
      }
    }
  }

  /** A plain click and the click event validation makes of it join alike and merge alike. */
  lemma ClicksJoinValidated(a: Event, b: Event, maxSeconds: int, maxPixels: int)
    ensures ClicksJoin(Validated(a), Validated(b), maxSeconds, maxPixels) == ClicksJoin(a, b, maxSeconds, maxPixels)
    ensures IsMouseButton(a) ==> AsClick(Validated(a)) == AsClick(a)
    ensures IsMouseButton(b) ==> AsClick(Validated(b)) == AsClick(b)
  {
  }

  /** Validation keeps every event's click count and every event that is not a click. */
  lemma {:induction false} ClicksUnderValidation(s: seq<Event>)
    ensures TotalClicks(ValidatedAll(s)) == TotalClicks(s)
    ensures NonClicks(ValidatedAll(s)) == NonClicks(s)
  {
    if s != [] {
      ValidatedAllDrop(s, 1);
      ClicksUnderValidation(s[1..]);
    }
  }

  /** What the pass returns keeps the total click count and every event that is not a click. */
  lemma MultiClicksAsReturned(s: seq<Event>, maxSeconds: int, maxPixels: int)
    ensures TotalClicks(ValidatedAll(MultiClicks(s, maxSeconds, maxPixels))) == TotalClicks(s)
    ensures NonClicks(ValidatedAll(MultiClicks(s, maxSeconds, maxPixels))) == NonClicks(s)
  {
    ClicksUnderValidation(MultiClicks(s, maxSeconds, maxPixels));
    TotalClicksPreserved(s, maxSeconds, maxPixels);
    NonClicksKept(s, maxSeconds, maxPixels);
  }

  /** A plain left click at `(x, 0)` at time 0. */
  function ClickAt(x: int): (e: Event)
    ensures IsClickAction(e) && e.location == Point(x, 0)
  {
    MouseButton(0, None, Point(x, 0), MouseClick, Left)
  }

  /**
   * The multi-click pass is not idempotent: clicks at x = 8, 4 and 10 give a double
   * click at x = 8 (only the first two join) and the click at x = 10, and those two
   * are close enough to join on a second run.
   */
  lemma MultiClicksNotIdempotent()
    ensures var once := MultiClicks([ClickAt(8), ClickAt(4), ClickAt(10)], 400000, 5);
      |once| == 2 && |MultiClicks(once, 400000, 5)| == 1
  {
    var a, b, c := ClickAt(8), ClickAt(4), ClickAt(10);
    assert [a, b, c][1..] == [b, c];
    assert [b, c][1..] == [c];
    assert [c][1..] == [];
    assert MultiClicks([c], 400000, 5) == [c];
    assert !WithinPixels(b.location, c.location, 5);
    assert MultiClicks([b, c], 400000, 5) == [b, c];
    var m := MergedClick(AsClick(a), AsClick(b));
    assert MultiClicks([a, b, c], 400000, 5) == [m, c];
    assert [m, c][1..] == [c];
    assert MultiClicks([m, c], 400000, 5) == [MergedClick(m, AsClick(c))];
  }

  // ===========================================================================
  // Pass 4: key press then release becomes a write
  // ===========================================================================

  /**
   * Whether `prev` and `next` are a press and then a release of the same key, at
   * most `maxSeconds` apart.
   */
  predicate KeyPressThenRelease(prev: Event, next: Event, maxSeconds: int): (b: bool)
    ensures b ==> prev.Keyboard? && next.Keyboard? && SingleKeyWrite(prev).keys == [next.key]
    ensures b ==> prev.keyAction == KeyPress && next.keyAction == KeyRelease
    ensures b ==> next.timestamp - prev.timestamp <= maxSeconds
  {
    && next.Keyboard?
    && prev.Keyboard?
    && prev.key == next.key
    && prev.keyAction == KeyPress
    && next.keyAction == KeyRelease
    && next.timestamp - prev.timestamp <= maxSeconds
  }

  /**
   * `s` with each key press immediately followed by its release replaced, from the
   * left, by the write event of that one key.
   */
  function KeyPressReleaseAsWrites(s: seq<Event>, maxSeconds: int): (r: seq<Event>)
    ensures r == [] <==> s == []
    decreases |s|
  {
    if |s| < 2 then s
    else if KeyPressThenRelease(s[0], s[1], maxSeconds)
    then [SingleKeyWrite(s[0])] + KeyPressReleaseAsWrites(s[2..], maxSeconds)
    else [s[0]] + KeyPressReleaseAsWrites(s[1..], maxSeconds)
  }

  /**
   * The left-to-right pass that turns a key press and its release into a write.
   * The default threshold is 0.15 seconds.
   */
  method ConvertKeyPressThenReleaseToWrite(events: seq<Event>, maxSeconds: int := 150000) returns (r: seq<Event>)
    ensures r == ValidatedAll(KeyPressReleaseAsWrites(events, maxSeconds))
  {
    var newEvents: seq<Event> := [];
    ghost var open := false;
    KeyPressReleaseLoopStart(events, maxSeconds);
    for i := 0 to |events|
      invariant KeyPressReleaseLoop(events, i, newEvents, open, maxSeconds)
    {
      var event := events[i];
      if |newEvents| > 0 && KeyPressThenRelease(newEvents[|newEvents| - 1], event, maxSeconds) {
        KeyPressReleaseLoopMerge(events, i, newEvents, open, maxSeconds);
        var write := new WriteEvent.FromKeyboardEvent(newEvents[|newEvents| - 1]);
        newEvents := newEvents[..|newEvents| - 1] + [write.Value()];
        open := false;
      } else {
        KeyPressReleaseLoopKeep(events, i, newEvents, open, maxSeconds);
        newEvents := newEvents + [event];
        open := true;
      }
    }
    KeyPressReleaseLoopEnd(events, newEvents, open, maxSeconds);
    var saved := new Events.FromIterable(newEvents);
    r := saved.items;
  }

  /** The state of the key loop after `i` input events, as for the press-release loop. */
  ghost predicate KeyPressReleaseLoop(s: seq<Event>, i: int, out: seq<Event>, open: bool, maxSeconds: int) {
    && 0 <= i <= |s|
    && (open ==> && 0 < i && out != [] && out[|out| - 1] == s[i - 1]
                 && KeyPressReleaseAsWrites(s, maxSeconds)
                    == out[..|out| - 1] + KeyPressReleaseAsWrites(s[i - 1..], maxSeconds))
    && (!open ==> && KeyPressReleaseAsWrites(s, maxSeconds) == out + KeyPressReleaseAsWrites(s[i..], maxSeconds)
                  && (out != [] ==> out[|out| - 1].Write?))
  }

  lemma KeyPressReleaseLoopStart(s: seq<Event>, maxSeconds: int)
    ensures KeyPressReleaseLoop(s, 0, [], false, maxSeconds)
  {
    assert s[0..] == s;
  }

  /** Loop step: the open key press pairs with the next event and becomes its write. */
  lemma KeyPressReleaseLoopMerge(s: seq<Event>, i: int, out: seq<Event>, open: bool, maxSeconds: int)
    requires KeyPressReleaseLoop(s, i, out, open, maxSeconds) && i < |s|
    requires out != [] && KeyPressThenRelease(out[|out| - 1], s[i], maxSeconds)
    ensures KeyPressReleaseLoop(s, i + 1, out[..|out| - 1] + [SingleKeyWrite(out[|out| - 1])], false, maxSeconds)
  {
    assert open;
    assert s[i - 1..][2..] == s[i + 1..];
  }

  /** Loop step: the next event does not pair, so it is appended and left open. */
  lemma KeyPressReleaseLoopKeep(s: seq<Event>, i: int, out: seq<Event>, open: bool, maxSeconds: int)
    requires KeyPressReleaseLoop(s, i, out, open, maxSeconds) && i < |s|
    requires !(out != [] && KeyPressThenRelease(out[|out| - 1], s[i], maxSeconds))
    ensures KeyPressReleaseLoop(s, i + 1, out + [s[i]], true, maxSeconds)
  {
    var out' := out + [s[i]];
    assert out'[..|out'| - 1] == out;
    if open {
      assert s[i - 1..][1..] == s[i..];
      assert out == out[..|out| - 1] + [s[i - 1]];
    }
  }

  lemma KeyPressReleaseLoopEnd(s: seq<Event>, out: seq<Event>, open: bool, maxSeconds: int)
    requires KeyPressReleaseLoop(s, |s|, out, open, maxSeconds)
    ensures out == KeyPressReleaseAsWrites(s, maxSeconds)
  {
    if open {
      assert s[|s| - 1..] == [s[|s| - 1]];
      assert out == out[..|out| - 1] + [s[|s| - 1]];
    } else {
      assert s[|s|..] == [];
    }
  }

  /** The number of adjacent pairs of `s` that are a key press and its release. */
  function KeyPressReleasePairs(s: seq<Event>, maxSeconds: int): nat {
    if |s| < 2 then 0
    else (if KeyPressThenRelease(s[0], s[1], maxSeconds) then 1 else 0) + KeyPressReleasePairs(s[1..], maxSeconds)
  }

  /** The output is shorter than the input by exactly the number of key press/release pairs. */
  lemma {:induction false} KeyPressReleaseAsWritesLength(s: seq<Event>, maxSeconds: int)
    ensures |KeyPressReleaseAsWrites(s, maxSeconds)| == |s| - KeyPressReleasePairs(s, maxSeconds)
  {
    if |s| >= 2 {
      if KeyPressThenRelease(s[0], s[1], maxSeconds) {
        assert s[1..][1..] == s[2..];
        KeyPressReleaseAsWritesLength(s[2..], maxSeconds);
      } else {
        KeyPressReleaseAsWritesLength(s[1..], maxSeconds);
      }
    }
  }

  /** An input without a key press/release pair comes back unchanged. */
  lemma {:induction false} NoKeyPressReleasePairUnchanged(s: seq<Event>, maxSeconds: int)
    requires KeyPressReleasePairs(s, maxSeconds) == 0
    ensures KeyPressReleaseAsWrites(s, maxSeconds) == s
  {
    if |s| >= 2 {
      NoKeyPressReleasePairUnchanged(s[1..], maxSeconds);
    }
  }

  /** The first output event is the first input event, or the write made from it. */
  lemma {:induction false} KeyPressReleaseAsWritesHead(s: seq<Event>, maxSeconds: int)
    requires s != []
    ensures var r := KeyPressReleaseAsWrites(s, maxSeconds);
      r != [] && (r[0] == s[0] || (s[0].Keyboard? && r[0] == SingleKeyWrite(s[0])))
  {
  }

  /** The pass leaves no key press followed by its release. */
  lemma {:induction false} NoKeyPressReleasePairInResult(s: seq<Event>, maxSeconds: int)
    ensures KeyPressReleasePairs(KeyPressReleaseAsWrites(s, maxSeconds), maxSeconds) == 0
  {
    if |s| >= 2 {
      var r := KeyPressReleaseAsWrites(s, maxSeconds);
      if KeyPressThenRelease(s[0], s[1], maxSeconds) {
        NoKeyPressReleasePairInResult(s[2..], maxSeconds);
        assert r[1..] == KeyPressReleaseAsWrites(s[2..], maxSeconds);
      } else {
        NoKeyPressReleasePairInResult(s[1..], maxSeconds);
        KeyPressReleaseAsWritesHead(s[1..], maxSeconds);
        assert r[1..] == KeyPressReleaseAsWrites(s[1..], maxSeconds);
      }
    }
  }

  /** Converting key presses and releases a second time changes nothing. */
  lemma ConvertKeyPressThenReleaseIdempotent(s: seq<Event>, maxSeconds: int)
    ensures var r := KeyPressReleaseAsWrites(s, maxSeconds); KeyPressReleaseAsWrites(r, maxSeconds) == r
  {
    NoKeyPressReleasePairInResult(s, maxSeconds);
    NoKeyPressReleasePairUnchanged(KeyPressReleaseAsWrites(s, maxSeconds), maxSeconds);
  }

  /** Validation commutes with the pass: it never touches keyboard or write events. */
  lemma {:induction false} KeyPressReleaseAsWritesValidated(s: seq<Event>, maxSeconds: int)
    ensures KeyPressReleaseAsWrites(ValidatedAll(s), maxSeconds) == ValidatedAll(KeyPressReleaseAsWrites(s, maxSeconds))
    decreases |s|
  {
    if |s| >= 2 {
      var v := ValidatedAll(s);
      ValidatedAllDrop(s, 1);
      ValidatedAllDrop(s, 2);
      assert KeyPressThenRelease(v[0], v[1], maxSeconds) == KeyPressThenRelease(s[0], s[1], maxSeconds);
      if KeyPressThenRelease(s[0], s[1], maxSeconds) {
        KeyPressReleaseAsWritesValidated(s[2..], maxSeconds);
        ValidatedAllAppend([SingleKeyWrite(s[0])], KeyPressReleaseAsWrites(s[2..], maxSeconds));
      } else {
        KeyPressReleaseAsWritesValidated(s[1..], maxSeconds);
        ValidatedAllAppend([s[0]], KeyPressReleaseAsWrites(s[1..], maxSeconds));
      }
    }
  }

  /** Running the pass again on what it returned returns the same list. */
  lemma ConvertKeyPressThenReleaseIdempotentAsReturned(s: seq<Event>, maxSeconds: int)
    ensures var r := ValidatedAll(KeyPressReleaseAsWrites(s, maxSeconds));
      ValidatedAll(KeyPressReleaseAsWrites(r, maxSeconds)) == r
  {
    var k := KeyPressReleaseAsWrites(s, maxSeconds);
    KeyPressReleaseAsWritesValidated(k, maxSeconds);
    ConvertKeyPressThenReleaseIdempotent(s, maxSeconds);
    ValidatedAllIdempotent(k);
  }

  /** The pass works on the two halves of a list separately when no pair straddles the split. */
  lemma {:induction false} KeyPressReleaseAsWritesSplit(a: seq<Event>, b: seq<Event>, maxSeconds: int)
    requires a != [] && b != [] ==> !KeyPressThenRelease(a[|a| - 1], b[0], maxSeconds)
    ensures KeyPressReleaseAsWrites(a + b, maxSeconds)
         == KeyPressReleaseAsWrites(a, maxSeconds) + KeyPressReleaseAsWrites(b, maxSeconds)
  {
    if a == [] {
      assert a + b == b;
    } else if b == [] {
      assert a + b == a;
    } else if |a| == 1 {
      assert (a + b)[1..] == b;
    } else if KeyPressThenRelease(a[0], a[1], maxSeconds) {
      assert (a + b)[2..] == a[2..] + b;
      KeyPressReleaseAsWritesSplit(a[2..], b, maxSeconds);
    } else {
      assert (a + b)[1..] == a[1..] + b;
      KeyPressReleaseAsWritesSplit(a[1..], b, maxSeconds);
    }
  }

  /**
   * Wherever a key press is immediately followed by its release, the two become the
   * write of that key (the press's timestamp and screenshot, no last timestamp),
   * whatever comes before and after.
   */
  lemma KeyPressReleaseBecomesWrite(before: seq<Event>, press: Event, release: Event, after: seq<Event>,
                                    maxSeconds: int)
    requires KeyPressThenRelease(press, release, maxSeconds)
    ensures KeyPressReleaseAsWrites(before + [press, release] + after, maxSeconds)
         == KeyPressReleaseAsWrites(before, maxSeconds) + [SingleKeyWrite(press)]
            + KeyPressReleaseAsWrites(after, maxSeconds)
  {
    var pair := [press, release] + after;
    assert before + [press, release] + after == before + pair;
    assert pair[0] == press && pair[1] == release && pair[2..] == after;
    assert before != [] ==> !KeyPressThenRelease(before[|before| - 1], pair[0], maxSeconds);
    KeyPressReleaseAsWritesSplit(before, pair, maxSeconds);
    assert KeyPressReleaseAsWrites(pair, maxSeconds) == [SingleKeyWrite(press)] + KeyPressReleaseAsWrites(after, maxSeconds);
  }
}
