/** The bounded position history that a body leaves behind it (src/trail.rs):
    a first-in first-out buffer of at most `maxLength` positions, oldest first,
    and the line segments that drawing it produces. */
module Trails {
  import opened Vectors

  /** One call of the line-drawing primitive: from one stored position to the next. */
  datatype Segment = Segment(from: Vec2d, to: Vec2d)

  function Min(a: int, b: int): (m: int) { if a <= b then a else b }

  // ---------------------------------------------------------------------------
  // Specification functions
  // ---------------------------------------------------------------------------

  /** The contents after one `update`: append `pos`, then remove the entry at
      index 0 if the length now exceeds `maxLength`. */
  function Pushed(s: seq<Vec2d>, maxLength: nat, pos: Vec2d): (r: seq<Vec2d>)
  {
    var t := s + [pos];
    if |t| > maxLength then t[1..] else t
  }

  /** The contents after one `update` per element of `ps`, in order. */
  function PushAll(s: seq<Vec2d>, maxLength: nat, ps: seq<Vec2d>): (r: seq<Vec2d>)
    decreases |ps|
  {
    if ps == [] then s
    else Pushed(PushAll(s, maxLength, ps[..|ps| - 1]), maxLength, ps[|ps| - 1])
  }

  /** Reference definition of a bounded history: the most recent
      `min(|h|, c)` entries of `h`, oldest first. */
  function Recent(h: seq<Vec2d>, c: nat): (r: seq<Vec2d>)
  {
    h[|h| - Min(|h|, c)..]
  }

  /** The segments `draw` emits for the stored positions `p`, in emission
      order: one per index `i` in `1..|p|`. */
  function Segments(p: seq<Vec2d>): (r: seq<Segment>)
    decreases |p|
  {
    if |p| < 2 then []
    else Segments(p[..|p| - 1]) + [Segment(p[|p| - 2], p[|p| - 1])]
  }

  // ---------------------------------------------------------------------------
  // Properties of one update
  // ---------------------------------------------------------------------------

  /** From a buffer within its bound, `update` either appends (room left),
      evicts exactly the oldest entry (full), or keeps nothing (capacity 0);
      the bound holds again, the length is `min(old + 1, maxLength)` and the
      newest entry is `pos`. */
  lemma PushedCases(s: seq<Vec2d>, maxLength: nat, pos: Vec2d)
    requires |s| <= maxLength
    ensures |s| < maxLength ==> Pushed(s, maxLength, pos) == s + [pos]
    ensures 0 < |s| == maxLength ==> Pushed(s, maxLength, pos) == s[1..] + [pos]
    ensures maxLength == 0 ==> Pushed(s, maxLength, pos) == []
    ensures |Pushed(s, maxLength, pos)| == Min(|s| + 1, maxLength) <= maxLength
    ensures 0 < maxLength ==> Pushed(s, maxLength, pos)[|Pushed(s, maxLength, pos)| - 1] == pos
  {
  }

  /** Pushing onto the bounded view of a history gives the bounded view of
      the history extended by the new position. */
  lemma PushedRecent(h: seq<Vec2d>, c: nat, pos: Vec2d)
    ensures Pushed(Recent(h, c), c, pos) == Recent(h + [pos], c)
  {
  }

  // ---------------------------------------------------------------------------
  // Properties of a sequence of updates
  // ---------------------------------------------------------------------------

  /** Starting from contents within the bound, pushing `ps` leaves the most
      recent `maxLength` entries of the old contents followed by `ps`. */
  lemma {:induction false} PushAllRecent(s: seq<Vec2d>, maxLength: nat, ps: seq<Vec2d>)
    requires |s| <= maxLength
    ensures PushAll(s, maxLength, ps) == Recent(s + ps, maxLength)
    decreases |ps|
  {
    if ps == [] {
      assert s + ps == s;
    } else {
      var init, last := ps[..|ps| - 1], ps[|ps| - 1];
      PushAllRecent(s, maxLength, init);
      PushedRecent(s + init, maxLength, last);
      assert (s + init) + [last] == s + ps;
    }
  }

  /** A trail created with capacity `c` and then updated with `p1, ..., pn`
      holds exactly the last `min(n, c)` of them, oldest first. */
  lemma {:induction false} FreshTrailKeepsMostRecent(c: nat, ps: seq<Vec2d>)
    ensures |PushAll([], c, ps)| == Min(|ps|, c)
    ensures forall k :: 0 <= k < |PushAll([], c, ps)| ==>
              PushAll([], c, ps)[k] == ps[|ps| - Min(|ps|, c) + k]
  {
    PushAllRecent([], c, ps);
    assert [] + ps == ps;
  }

  // ---------------------------------------------------------------------------
  // Properties of drawing
  // ---------------------------------------------------------------------------

  /** `draw` emits `max(|p| - 1, 0)` segments, and the segment emitted for
      index `i` joins `p[i - 1]` to `p[i]`. */
  lemma {:induction false} SegmentsJoinNeighbours(p: seq<Vec2d>)
    ensures |Segments(p)| == if p == [] then 0 else |p| - 1
    ensures forall i :: 1 <= i < |p| ==> Segments(p)[i - 1] == Segment(p[i - 1], p[i])
    decreases |p|
  {
    if |p| >= 2 {
      var init := p[..|p| - 1];
      SegmentsJoinNeighbours(init);
      forall i | 1 <= i < |p|
        ensures Segments(p)[i - 1] == Segment(p[i - 1], p[i])
      {
        if i < |p| - 1 {
          assert Segments(p)[i - 1] == Segments(init)[i - 1];
        }
      }
    }
  }

  // ---------------------------------------------------------------------------
  // The buffer itself
  // ---------------------------------------------------------------------------

  /** A trail: the stored positions, oldest first, and the capacity fixed at
      creation. */
  class Trail {
    var positions: seq<Vec2d>
    const maxLength: nat
    /** Every position passed to `Update` since creation, oldest first. */
    ghost var history: seq<Vec2d>

    /** The buffer never holds more than `maxLength` entries, and what it holds
        is the most recent part of everything pushed. */
    ghost predicate Valid()
      reads this
    {
      |positions| <= maxLength && positions == Recent(history, maxLength)
    }

    /** `Trail::new`: an empty trail with the given capacity. */
    constructor (maxLength: nat)
      ensures Valid()
      ensures this.maxLength == maxLength
      ensures positions == [] && history == []
    {
      positions := [];
      this.maxLength := maxLength;
      history := [];
    }

    /** `Trail::update`: push the newest position and, once the buffer is
        longer than `maxLength`, remove the oldest one. */
    method Update(pos: Vec2d)
      requires Valid()
      modifies this
      ensures Valid()
      ensures history == old(history) + [pos]
      ensures positions == Pushed(old(positions), maxLength, pos)
      ensures |old(positions)| < maxLength ==> positions == old(positions) + [pos]
      ensures 0 < |old(positions)| == maxLength ==> positions == old(positions)[1..] + [pos]
      ensures maxLength == 0 ==> positions == []
      ensures |positions| == Min(|old(positions)| + 1, maxLength)
      ensures 0 < maxLength ==> positions[|positions| - 1] == pos
    {
      PushedCases(positions, maxLength, pos);
      PushedRecent(history, maxLength, pos);
      positions := positions + [pos];
      if |positions| > maxLength {
        positions := positions[1..];
      }
      history := history + [pos];
    }

    /** `Trail::draw`: the segments handed to the line-drawing primitive, one
        per pair of consecutive stored positions, in index order. Drawing reads
        the buffer and changes nothing. */
    method Draw() returns (segments: seq<Segment>)
      ensures segments == Segments(positions)
      ensures |segments| == if positions == [] then 0 else |positions| - 1
      ensures forall i :: 1 <= i < |positions| ==>
                segments[i - 1] == Segment(positions[i - 1], positions[i])
    {
      segments := [];
      var i := 1;
      while i < |positions|
        invariant 1 <= i
        invariant segments == Segments(positions[..Min(i, |positions|)])
      {
        assert positions[..i + 1][..i] == positions[..i];
        segments := segments + [Segment(positions[i - 1], positions[i])];
        i := i + 1;
      }
      assert positions[..Min(i, |positions|)] == positions;
      SegmentsJoinNeighbours(positions);
    }
  }

  /** A body's trail as the frame loop uses it: created once, then in every
      tick drawn and afterwards updated with the body's new position. */
  method TrailOverThreeTicks(a: Vec2d, b: Vec2d, c: Vec2d)
  {
    var trail := new Trail(2);
    var drawn := trail.Draw();
    assert drawn == [];
    trail.Update(a);
    drawn := trail.Draw();
    assert drawn == [];
    trail.Update(b);
    drawn := trail.Draw();
    assert drawn == [Segment(a, b)];
    trail.Update(c);
    assert trail.positions == [b, c];
    drawn := trail.Draw();
    assert drawn == [Segment(b, c)];
  }
}
