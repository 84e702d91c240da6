/** The pointer-trail buffer of the portfolio's background canvas.
    A mouse move appends a cell when the pointer has travelled far enough from the
    newest cell; every animation frame fades every cell and splices out the ones
    whose opacity has run out. */
module PointerTrail {

  /** One remembered pointer position and its current glow strength. */
  datatype TrailCell = TrailCell(x: real, y: real, opacity: real)

  /** Side of one background grid square, in pixels. */
  const GridSize: real := 40.0
  /** Opacity lost by every cell on every frame. */
  const FadeSpeed: real := 0.01
  /** Square of the minimum spacing GridSize / 2 between recorded points. */
  const MinSpacingSquared: real := (GridSize / 2.0) * (GridSize / 2.0)

  /** The pointer at (x, y) is more than GridSize / 2 away from cell c.
      Comparing squares is the same test as comparing the (non-negative)
      Euclidean distance with GridSize / 2. */
  predicate Apart(c: TrailCell, x: real, y: real)
  {
    (c.x - x) * (c.x - x) + (c.y - y) * (c.y - y) > MinSpacingSquared
  }

  /** The buffer after a mouse move to (x, y): a fresh, fully opaque cell is
      pushed when the buffer is empty or the newest cell is far enough away. */
  function Recorded(cells: seq<TrailCell>, x: real, y: real): (r: seq<TrailCell>)
    ensures |cells| <= |r| <= |cells| + 1
    ensures r[..|cells|] == cells
    ensures |r| == |cells| + 1 <==> cells == [] || Apart(cells[|cells| - 1], x, y)
    ensures |r| == |cells| + 1 ==> r[|cells|] == TrailCell(x, y, 1.0)
  {
    if cells == [] || Apart(cells[|cells| - 1], x, y) then cells + [TrailCell(x, y, 1.0)]
    else cells
  }

  /** One cell after one frame's fade: it stays where it was drawn and loses
      exactly FadeSpeed of opacity. */
  function Fade(c: TrailCell): (r: TrailCell)
    ensures r.x == c.x && r.y == c.y
    ensures r.opacity < c.opacity && c.opacity - r.opacity == FadeSpeed
  {
    c.(opacity := c.opacity - FadeSpeed)
  }

  /** The buffer after one frame: every cell faded once, in order, keeping only
      the cells whose faded opacity is still positive. */
  function Stepped(cells: seq<TrailCell>): (r: seq<TrailCell>)
    ensures |r| <= |cells|
    ensures forall k :: 0 <= k < |r| ==> r[k].opacity > 0.0
  {
    if cells == [] then [] else Survivor(cells[0]) + Stepped(cells[1..])
  }

  /** What one frame leaves of cell c: its faded self, or nothing once the
      faded opacity is at most 0. */
  function Survivor(c: TrailCell): (r: seq<TrailCell>)
    ensures |r| <= 1
    ensures r == [] <==> c.opacity <= FadeSpeed
    ensures r != [] ==> r[0] == Fade(c) && 0.0 < r[0].opacity < c.opacity
  {
    if Fade(c).opacity <= 0.0 then [] else [Fade(c)]
  }

  /** Stepping the cells from index i on handles cell i first. */
  lemma SteppedFrom(cells: seq<TrailCell>, i: nat)
    requires i < |cells|
    ensures Stepped(cells[i..]) == Survivor(cells[i]) + Stepped(cells[i + 1..])
  {
    assert cells[i..][1..] == cells[i + 1..];
  }

  /** Every cell faded once, none removed. */
  function FadeAll(cells: seq<TrailCell>): (r: seq<TrailCell>)
    ensures |r| == |cells|
  {
    seq(|cells|, k requires 0 <= k < |cells| => Fade(cells[k]))
  }

  /** The number of leading cells that the next frame will remove. */
  function DeadCount(cells: seq<TrailCell>): (d: nat)
    ensures d <= |cells|
    ensures forall k :: 0 <= k < d ==> cells[k].opacity <= FadeSpeed
    ensures d < |cells| ==> cells[d].opacity > FadeSpeed
  {
    if cells == [] || cells[0].opacity > FadeSpeed then 0
    else 1 + DeadCount(cells[1..])
  }

  /** The buffer after n frames with no mouse move in between. */
  function StepN(cells: seq<TrailCell>, n: nat): seq<TrailCell>
    decreases n
  {
    if n == 0 then cells else StepN(Stepped(cells), n - 1)
  }

  /** Every opacity lies in (0, 1]. */
  ghost predicate OpacityBounded(cells: seq<TrailCell>)
  {
    forall k :: 0 <= k < |cells| ==> 0.0 < cells[k].opacity <= 1.0
  }

  /** Opacities never decrease from the oldest cell (index 0) to the newest. */
  ghost predicate OpacityOrdered(cells: seq<TrailCell>)
  {
    forall j, k :: 0 <= j < k < |cells| ==> cells[j].opacity <= cells[k].opacity
  }

  /** Consecutive cells are more than GridSize / 2 apart. */
  ghost predicate Spaced(cells: seq<TrailCell>)
  {
    forall k :: 0 < k < |cells| ==> Apart(cells[k - 1], cells[k].x, cells[k].y)
  }

  /** The invariant every reachable buffer satisfies. */
  ghost predicate WellFormed(cells: seq<TrailCell>)
  {
    OpacityBounded(cells) && OpacityOrdered(cells) && Spaced(cells)
  }

  /** What can happen to the buffer: a mouse move or an animation frame. */
  datatype Event = MouseMove(x: real, y: real) | Frame

  function Apply(cells: seq<TrailCell>, e: Event): seq<TrailCell>
  {
    match e
    case MouseMove(x, y) => Recorded(cells, x, y)
    case Frame => Stepped(cells)
  }

  /** The buffer after a whole history of events, oldest first. */
  function Run(cells: seq<TrailCell>, events: seq<Event>): seq<TrailCell>
    decreases |events|
  {
    if events == [] then cells else Run(Apply(cells, events[0]), events[1..])
  }

  // ---------------------------------------------------------------------------
  // Properties of a single frame

  /** A frame treats the cells independently: stepping a concatenation steps each part. */
  lemma {:induction false} SteppedAppend(a: seq<TrailCell>, b: seq<TrailCell>)
    ensures Stepped(a + b) == Stepped(a) + Stepped(b)
  {
    if a == [] {
      assert a + b == b;
    } else {
      assert (a + b)[0] == a[0];
      assert (a + b)[1..] == a[1..] + b;
      SteppedAppend(a[1..], b);
    }
  }

  /** When every cell will survive the frame, the frame is a plain fade of all cells. */
  lemma {:induction false} SteppedAllSurvive(cells: seq<TrailCell>)
    requires forall k :: 0 <= k < |cells| ==> cells[k].opacity > FadeSpeed
    ensures Stepped(cells) == FadeAll(cells)
  {
    if cells != [] {
      SteppedAllSurvive(cells[1..]);
      assert FadeAll(cells) == [Fade(cells[0])] + FadeAll(cells[1..]);
    }
  }

  /** With ordered opacities a frame removes exactly a prefix: the first
      DeadCount cells go, every later cell survives faded. */
  lemma {:induction false} SteppedDropsPrefix(cells: seq<TrailCell>)
    requires OpacityOrdered(cells)
    ensures Stepped(cells) == FadeAll(cells[DeadCount(cells)..])
  {
    if cells == [] {
    } else if cells[0].opacity > FadeSpeed {
      SteppedAllSurvive(cells);
    } else {
      SteppedDropsPrefix(cells[1..]);
      assert cells[1..][DeadCount(cells[1..])..] == cells[DeadCount(cells)..];
    }
  }

  /** Dropping a prefix keeps a buffer well formed. */
  lemma SuffixWellFormed(cells: seq<TrailCell>, d: nat)
    requires WellFormed(cells) && d <= |cells|
    ensures WellFormed(cells[d..])
  {
    var rest := cells[d..];
    assert forall k :: 0 <= k < |rest| ==> rest[k] == cells[d + k];
  }

  /** Fading every cell of a well-formed buffer whose cells all survive keeps it well formed. */
  lemma FadeAllWellFormed(cells: seq<TrailCell>)
    requires WellFormed(cells)
    requires forall k :: 0 <= k < |cells| ==> cells[k].opacity > FadeSpeed
    ensures WellFormed(FadeAll(cells))
  {
    var r := FadeAll(cells);
    assert forall k :: 0 <= k < |r| ==> r[k] == Fade(cells[k]);
  }

  /** A frame keeps the buffer well formed: survivors stay in (0, 1], stay
      ordered, and stay spaced because only a prefix is dropped. */
  lemma StepKeepsWellFormed(cells: seq<TrailCell>)
    requires WellFormed(cells)
    ensures WellFormed(Stepped(cells))
  {
    SteppedDropsPrefix(cells);
    var d := DeadCount(cells);
    var rest := cells[d..];
    SuffixWellFormed(cells, d);
    forall k | 0 <= k < |rest| ensures rest[k].opacity > FadeSpeed {
      assert rest[k] == cells[d + k];
      assert cells[d].opacity <= cells[d + k].opacity;
    }
    FadeAllWellFormed(rest);
  }

  /** A mouse move keeps the buffer well formed: the new cell is the most opaque
      one and is spaced from the previous newest cell. */
  lemma RecordKeepsWellFormed(cells: seq<TrailCell>, x: real, y: real)
    requires WellFormed(cells)
    ensures WellFormed(Recorded(cells, x, y))
  {
    var r := Recorded(cells, x, y);
    assert forall k :: 0 <= k < |cells| ==> r[k] == cells[k];
  }

  /** Any history of mouse moves and frames keeps the buffer well formed. */
  lemma {:induction false} RunKeepsWellFormed(cells: seq<TrailCell>, events: seq<Event>)
    requires WellFormed(cells)
    ensures WellFormed(Run(cells, events))
    decreases |events|
  {
    if events != [] {
      match events[0] {
        case MouseMove(x, y) => RecordKeepsWellFormed(cells, x, y);
        case Frame => StepKeepsWellFormed(cells);
      }
      RunKeepsWellFormed(Apply(cells, events[0]), events[1..]);
    }
  }

  // ---------------------------------------------------------------------------
  // Lifetime

  /** Frames act on each part of the buffer independently. */
  lemma {:induction false} StepNAppend(a: seq<TrailCell>, b: seq<TrailCell>, n: nat)
    ensures StepN(a + b, n) == StepN(a, n) + StepN(b, n)
    decreases n
  {
    if n > 0 {
      calc {
        StepN(a + b, n);
        StepN(Stepped(a + b), n - 1);
        { SteppedAppend(a, b); }
        StepN(Stepped(a) + Stepped(b), n - 1);
        { StepNAppend(Stepped(a), Stepped(b), n - 1); }
        StepN(Stepped(a), n - 1) + StepN(Stepped(b), n - 1);
      }
    }
  }

  /** A cell whose opacity stays positive for n frames loses exactly n * FadeSpeed. */
  lemma {:induction false} SingleCellFades(c: TrailCell, n: nat)
    requires c.opacity - (n as real) * FadeSpeed > 0.0
    ensures StepN([c], n) == [c.(opacity := c.opacity - (n as real) * FadeSpeed)]
    decreases n
  {
    if n > 0 {
      assert Stepped([c]) == [Fade(c)] by {
        assert Stepped([c]) == Survivor(c) + Stepped([]);
      }
      SingleCellFades(Fade(c), n - 1);
    }
  }

  /** A frame lowers every surviving opacity by FadeSpeed, so an upper bound
      on the opacities drops by FadeSpeed too. */
  lemma {:induction false} SteppedLowersBound(cells: seq<TrailCell>, b: real)
    requires forall k :: 0 <= k < |cells| ==> cells[k].opacity <= b
    ensures forall k :: 0 <= k < |Stepped(cells)| ==> Stepped(cells)[k].opacity <= b - FadeSpeed
  {
    if cells != [] {
      SteppedLowersBound(cells[1..], b);
      var s := Stepped(cells);
      assert s == Survivor(cells[0]) + Stepped(cells[1..]);
      forall k | 0 <= k < |s| ensures s[k].opacity <= b - FadeSpeed {
        if k >= |Survivor(cells[0])| {
          assert s[k] == Stepped(cells[1..])[k - |Survivor(cells[0])|];
        }
      }
    }
  }

  /** Cells with opacity at most FadeSpeed all go in the next frame. */
  lemma {:induction false} NoneSurvive(cells: seq<TrailCell>)
    requires forall k :: 0 <= k < |cells| ==> cells[k].opacity <= FadeSpeed
    ensures Stepped(cells) == []
  {
    if cells != [] {
      NoneSurvive(cells[1..]);
    }
  }

  /** A buffer whose opacities are at most m * FadeSpeed is empty after m frames. */
  lemma {:induction false} EmptyAfter(cells: seq<TrailCell>, m: nat)
    requires m >= 1
    requires forall k :: 0 <= k < |cells| ==> cells[k].opacity <= (m as real) * FadeSpeed
    ensures StepN(cells, m) == []
    decreases m
  {
    SteppedLowersBound(cells, (m as real) * FadeSpeed);
    var s := Stepped(cells);
    if m == 1 {
      NoneSurvive(cells);
    } else {
      EmptyAfter(s, m - 1);
    }
  }

  /** Once recording stops, a well-formed buffer is empty after any n >= 100 frames. */
  lemma EmptiesWithin100Frames(cells: seq<TrailCell>, n: nat)
    requires OpacityBounded(cells)
    requires n >= 100
    ensures StepN(cells, n) == []
  {
    EmptyAfter(cells, n);
  }

  /** A freshly recorded cell, wherever it sits in the buffer, is still present
      after n <= 99 frames, with opacity 1 - n * FadeSpeed; the cells around it
      evolve as if it were not there. */
  lemma RecordedCellSurvives(older: seq<TrailCell>, newer: seq<TrailCell>, x: real, y: real, n: nat)
    requires n <= 99
    ensures StepN(older + [TrailCell(x, y, 1.0)] + newer, n)
         == StepN(older, n) + [TrailCell(x, y, 1.0 - (n as real) * FadeSpeed)] + StepN(newer, n)
  {
    var c := TrailCell(x, y, 1.0);
    StepNAppend(older + [c], newer, n);
    StepNAppend(older, [c], n);
    SingleCellFades(c, n);
  }

  /** The 100th frame after its recording removes the cell, and it stays gone. */
  lemma RecordedCellExpires(older: seq<TrailCell>, newer: seq<TrailCell>, x: real, y: real, n: nat)
    requires n >= 100
    ensures StepN(older + [TrailCell(x, y, 1.0)] + newer, n) == StepN(older, n) + StepN(newer, n)
  {
    var c := TrailCell(x, y, 1.0);
    assert [c][0].opacity <= (n as real) * FadeSpeed;
    EmptyAfter([c], n);
    calc {
      StepN(older + [c] + newer, n);
      { StepNAppend(older + [c], newer, n); }
      StepN(older + [c], n) + StepN(newer, n);
      { StepNAppend(older, [c], n); }
      StepN(older, n) + StepN([c], n) + StepN(newer, n);
      StepN(older, n) + StepN(newer, n);
    }
  }

  /** Example: moves to (0,0), (100,0), (100,100) are all recorded
      (each is more than 20 px from the previous one), a move to (101,101) is not. */
  lemma RecordScenario()
    ensures Run([], [MouseMove(0.0, 0.0), MouseMove(100.0, 0.0), MouseMove(100.0, 100.0)])
         == [TrailCell(0.0, 0.0, 1.0), TrailCell(100.0, 0.0, 1.0), TrailCell(100.0, 100.0, 1.0)]
    ensures Recorded([TrailCell(0.0, 0.0, 1.0), TrailCell(100.0, 0.0, 1.0), TrailCell(100.0, 100.0, 1.0)], 101.0, 101.0)
         == [TrailCell(0.0, 0.0, 1.0), TrailCell(100.0, 0.0, 1.0), TrailCell(100.0, 100.0, 1.0)]
  {
    var e := [MouseMove(0.0, 0.0), MouseMove(100.0, 0.0), MouseMove(100.0, 100.0)];
    var s1 := Recorded([], 0.0, 0.0);
    var s2 := Recorded(s1, 100.0, 0.0);
    var s3 := Recorded(s2, 100.0, 100.0);
    assert Run([], e) == Run(s1, e[1..]);
    assert Run(s1, e[1..]) == Run(s2, e[2..]);
    assert Run(s2, e[2..]) == Run(s3, e[3..]);
  }

  // ---------------------------------------------------------------------------
  // The buffer as the component holds it

  /** One iteration of the newest-to-oldest frame loop: when cells 0..i are
      untouched and the later ones already stepped, fading cell i in place and
      splicing it out if its opacity is at most 0 leaves cells 0..i-1 untouched
      and the later ones stepped, so no cell is skipped or handled twice. */
  lemma FadeAndSplice(before: seq<TrailCell>, i: nat, cells: seq<TrailCell>, faded: seq<TrailCell>)
    requires i < |before|
    requires cells == before[..i + 1] + Stepped(before[i + 1..])
    requires i < |cells| && faded == cells[i := Fade(cells[i])]
    ensures faded[i].opacity <= 0.0 ==> faded[..i] + faded[i + 1..] == before[..i] + Stepped(before[i..])
    ensures faded[i].opacity > 0.0 ==> faded == before[..i] + Stepped(before[i..])
  {
    var p, c, t := before[..i], before[i], Stepped(before[i + 1..]);
    assert before[..i + 1] == p + [c];
    assert cells == p + [c] + t;
    SteppedFrom(before, i);
    UpdateMiddle(p, c, t, Fade(c));
    assert faded == p + [Fade(c)] + t;
    if Fade(c).opacity <= 0.0 {
      assert Survivor(c) == [];
      RemoveMiddle(p, Fade(c), t);
    } else {
      assert Survivor(c) == [Fade(c)];
    }
  }

  /** Overwriting the element after a prefix p. */
  lemma UpdateMiddle<T>(p: seq<T>, c: T, t: seq<T>, v: T)
    ensures (p + [c] + t)[|p| := v] == p + [v] + t
  {
  }

  /** Splicing out the element after a prefix p. */
  lemma RemoveMiddle<T>(p: seq<T>, v: T, t: seq<T>)
    ensures (p + [v] + t)[..|p|] + (p + [v] + t)[|p| + 1..] == p + t
  {
    assert (p + [v] + t)[..|p|] == p;
    assert (p + [v] + t)[|p| + 1..] == t;
  }

  /** The component's trail state: the cell array it pushes to and splices
      from, and the latest pointer position (drawn as the live glow). */
  class TrailBuffer {
    var cells: seq<TrailCell>
    var pointerX: real
    var pointerY: real

    ghost predicate Valid()
      reads this
    {
      WellFormed(cells)
    }

    constructor ()
      ensures Valid()
      ensures cells == [] && pointerX == 0.0 && pointerY == 0.0
    {
      cells := [];
      pointerX, pointerY := 0.0, 0.0;
    }

    /** The mouse-move handler: remember the pointer, and push a fresh cell when
        the buffer is empty or the newest cell is more than GridSize / 2 away. */
    method HandleMouseMove(x: real, y: real)
      requires Valid()
      modifies this
      ensures Valid()
      ensures cells == Recorded(old(cells), x, y)
      ensures pointerX == x && pointerY == y
    {
      pointerX, pointerY := x, y;
      ghost var before := cells;
      if |cells| == 0 || Apart(cells[|cells| - 1], x, y) {
        cells := cells + [TrailCell(x, y, 1.0)];
      }
      RecordKeepsWellFormed(before, x, y);
    }

    /** The trail part of one animation frame: walk the cells from newest to
        oldest, fade each one, and splice it out once its opacity is at most 0.
        In a valid buffer this removes exactly the DeadCount oldest cells and
        fades all the others. */
    method AdvanceFrame()
      requires Valid()
      modifies this`cells
      ensures Valid()
      ensures cells == Stepped(old(cells))
      ensures cells == FadeAll(old(cells)[DeadCount(old(cells))..])
    {
      ghost var before := cells;
      var i := |cells| - 1;
      while i >= 0
        invariant -1 <= i < |before|
        invariant cells == before[..i + 1] + Stepped(before[i + 1..])
      {
        ghost var visited := cells;
        cells := cells[i := Fade(cells[i])];
        FadeAndSplice(before, i, visited, cells);
        if cells[i].opacity <= 0.0 {
          cells := cells[..i] + cells[i + 1..];
        }
        i := i - 1;
      }
      assert before[..0] == [] && before[0..] == before;
      StepKeepsWellFormed(before);
      SteppedDropsPrefix(before);
    }
  }
}
