/** Spatial placement: getRandomPosition, rejection sampling with a budget of
    MaxAttempts candidates, and the loop in startGame that places one target
    after another. Each Math.random draw becomes a supplied candidate. */
module Placement {

  datatype Option<T> = None | Some(value: T)

  datatype Position = Position(x: int, y: int)

  const MaxAttempts: nat := 100

  /** The arena and target size startGame passes to the placer. */
  const ArenaWidth: int := 500
  const ArenaHeight: int := 400
  const TargetRadius: int := 25

  /** v is a value Math.floor(Math.random() * span) can produce, for a span of
      either sign: [0, span) when span is positive, [span, 0] otherwise. */
  predicate Drawable(v: int, span: int)
  {
    if span > 0 then 0 <= v < span else span <= v <= 0
  }

  /** p is a candidate the sampler can draw. */
  predicate InArena(p: Position, maxWidth: int, maxHeight: int, radius: int)
  {
    Drawable(p.x, maxWidth - 2 * radius) && Drawable(p.y, maxHeight - 2 * radius)
  }

  /** The candidates supplied for one call: one per possible attempt, each
      drawable. */
  predicate ValidCandidates(candidates: seq<Position>, maxWidth: int, maxHeight: int, radius: int)
  {
    |candidates| == MaxAttempts
    && forall k :: 0 <= k < |candidates| ==> InArena(candidates[k], maxWidth, maxHeight, radius)
  }

  function SquaredDistance(p: Position, q: Position): int
  {
    (p.x - q.x) * (p.x - q.x) + (p.y - q.y) * (p.y - q.y)
  }

  /** The test sqrt(d2) < 2r decided exactly: a square root is never below a
      non-positive bound, and for a positive bound it is below 2r exactly when
      d2 < (2r)^2. */
  predicate Overlaps(p: Position, q: Position, radius: int)
  {
    0 < radius && SquaredDistance(p, q) < (2 * radius) * (2 * radius)
  }

  /** p overlaps none of the positions already placed. */
  predicate Clear(p: Position, positions: seq<Position>, radius: int)
  {
    forall q :: q in positions ==> !Overlaps(p, q, radius)
  }

  /** The index of the candidate rejection sampling settles on: the first
      candidate that is clear, or the last one if none is. */
  function FirstFit(candidates: seq<Position>, positions: seq<Position>, radius: int): (k: nat)
    requires |candidates| > 0
    ensures k < |candidates|
    ensures forall m :: 0 <= m < k ==> !Clear(candidates[m], positions, radius)
    ensures Clear(candidates[k], positions, radius) || k == |candidates| - 1
    decreases |candidates|
  {
    if Clear(candidates[0], positions, radius) || |candidates| == 1 then 0
    else 1 + FirstFit(candidates[1..], positions, radius)
  }

  /** FirstFit's contract determines its result. */
  lemma FirstFitIs(candidates: seq<Position>, positions: seq<Position>, radius: int, k: nat)
    requires k < |candidates|
    requires forall m :: 0 <= m < k ==> !Clear(candidates[m], positions, radius)
    requires Clear(candidates[k], positions, radius) || k == |candidates| - 1
    ensures FirstFit(candidates, positions, radius) == k
  {
  }

  /** getRandomPosition(maxWidth, maxHeight, radius, positions): draws up to
      MaxAttempts candidates, returns the first that overlaps no placed
      position, and falls back to the last candidate drawn. */
  method GetRandomPosition(maxWidth: int, maxHeight: int, radius: int, positions: seq<Position>,
                           candidates: seq<Position>)
    returns (chosen: Position)
    requires ValidCandidates(candidates, maxWidth, maxHeight, radius)
    ensures chosen == candidates[FirstFit(candidates, positions, radius)]
    ensures InArena(chosen, maxWidth, maxHeight, radius)
  {
    var attempt := 0;
    var position: Option<Position> := None;
    while attempt < MaxAttempts
      invariant 0 <= attempt <= MaxAttempts
      invariant forall m :: 0 <= m < attempt ==> !Clear(candidates[m], positions, radius)
      invariant position == if attempt == 0 then None else Some(candidates[attempt - 1])
    {
      var x := candidates[attempt].x;
      var y := candidates[attempt].y;
      position := Some(Position(x, y));

      var overlap := false;
      var i := 0;
      while i < |positions|
        invariant 0 <= i <= |positions|
        invariant !overlap
        invariant forall m :: 0 <= m < i ==> !Overlaps(Position(x, y), positions[m], radius)
      {
        if Overlaps(Position(x, y), positions[i], radius) {
          overlap := true;
          break;
        }
        i := i + 1;
      }

      if !overlap {
        FirstFitIs(candidates, positions, radius, attempt);
        return Position(x, y);
      }

      attempt := attempt + 1;
    }
    FirstFitIs(candidates, positions, radius, MaxAttempts - 1);
    chosen := position.value;
  }

  /** The placement loop of startGame: each new target is placed against all
      the targets placed before it, with its own supplied candidates. */
  method PlaceTargets(targetCount: nat, candidates: seq<seq<Position>>) returns (newPositions: seq<Position>)
    requires |candidates| == targetCount
    requires forall i :: 0 <= i < |candidates| ==>
               |candidates[i]| == MaxAttempts && ValidCandidates(candidates[i], ArenaWidth, ArenaHeight, TargetRadius)
    ensures |newPositions| == targetCount
    ensures forall i :: 0 <= i < targetCount ==>
              newPositions[i] == candidates[i][FirstFit(candidates[i], newPositions[..i], TargetRadius)]
    ensures forall i :: 0 <= i < targetCount ==>
              InArena(newPositions[i], ArenaWidth, ArenaHeight, TargetRadius)
  {
    newPositions := [];
    var radius := TargetRadius;
    for i := 0 to targetCount
      invariant |newPositions| == i
      invariant forall k :: 0 <= k < i ==>
                  newPositions[k] == candidates[k][FirstFit(candidates[k], newPositions[..k], TargetRadius)]
      invariant forall k :: 0 <= k < i ==> InArena(newPositions[k], ArenaWidth, ArenaHeight, TargetRadius)
    {
      var newPosition := GetRandomPosition(ArenaWidth, ArenaHeight, radius, newPositions, candidates[i]);
      ghost var before := newPositions;
      newPositions := newPositions + [newPosition];
      assert newPositions[..i] == before;
      forall k | 0 <= k < i ensures newPositions[..k] == before[..k] {
      }
    }
  }

  /** Best effort, not a guarantee: every placed target is clear of every
      target placed before it, unless all of its candidates overlapped
      something already placed. */
  lemma PlacementsSeparatedOrExhausted(ps: seq<Position>, candidates: seq<seq<Position>>, radius: int)
    requires |candidates| == |ps|
    requires forall i :: 0 <= i < |ps| ==> |candidates[i]| > 0
    requires forall i :: 0 <= i < |ps| ==> ps[i] == candidates[i][FirstFit(candidates[i], ps[..i], radius)]
    ensures forall i, j :: 0 <= j < i < |ps| ==>
              !Overlaps(ps[i], ps[j], radius)
              || forall m :: 0 <= m < |candidates[i]| ==> !Clear(candidates[i][m], ps[..i], radius)
  {
    forall i, j | 0 <= j < i < |ps| && Overlaps(ps[i], ps[j], radius)
      ensures forall m :: 0 <= m < |candidates[i]| ==> !Clear(candidates[i][m], ps[..i], radius)
    {
      assert ps[j] == ps[..i][j];
      var k := FirstFit(candidates[i], ps[..i], radius);
      assert !Clear(candidates[i][k], ps[..i], radius);
      assert k == |candidates[i]| - 1;
    }
  }
}
