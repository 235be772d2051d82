/** The wavefront planner of `src/Navigator.py`: `wave` grows breadth-first
    layers of cells from the robot's cell, `findNeighbor` picks a cell of a
    layer next to a given cell, and `computePath` walks back from the
    destination through the layers. The robot's cell is the `start`
    parameter. */
module Navigation {
  import opened PyErrors
  import opened Cartography

  /** `set(s)` for a list of cells. */
  function Elems(s: seq<Cell>): set<Cell>
  {
    set x | x in s
  }

  /** `list(s)` for a set of cells: Python fixes no order, so any
      enumeration without repeats may come back. */
  method ListOfSet(s: set<Cell>) returns (l: seq<Cell>)
    ensures NoDup(l)
    ensures forall x :: x in l <==> x in s
  {
    l := [];
    var rest := s;
    while rest != {}
      invariant rest <= s
      invariant NoDup(l)
      invariant forall x :: x in l <==> x in s && x !in rest
      decreases rest
    {
      var x :| x in rest;
      l := l + [x];
      rest := rest - {x};
    }
  }

  // ---------------------------------------------------------------------
  // findNeighbor
  // ---------------------------------------------------------------------

  /** `findNeighbor`: some 8-neighbour of `goal` that belongs to `layer`;
      `set.pop` on an empty intersection raises KeyError. Which member comes
      back is not fixed by Python. */
  method FindNeighbor(goal: Cell, layer: seq<Cell>) returns (r: Result<Cell>)
    ensures r.Ok? <==> exists x :: x in layer && Adjacent8(goal, x)
    ensures r.Ok? ==> r.value in layer && Adjacent8(goal, r.value)
    ensures r.Err? ==> r.error == KeyError
  {
    var neighbors: set<Cell> := {};
    for i := -1 to 2
      invariant forall x :: x in neighbors <==> Adjacent8(goal, x) && x.0 - goal.0 < i
    {
      for j := -1 to 2
        invariant forall x :: x in neighbors <==>
                    Adjacent8(goal, x) && (x.0 - goal.0 < i || (x.0 - goal.0 == i && x.1 - goal.1 < j))
      {
        if Abs(i) + Abs(j) != 0 {
          neighbors := neighbors + {(goal.0 + i, goal.1 + j)};
        }
      }
    }
    var candidates := neighbors * Elems(layer);
    if candidates == {} {
      return Err(KeyError);
    }
    var x :| x in candidates;
    return Ok(x);
  }

  // ---------------------------------------------------------------------
  // Waves
  // ---------------------------------------------------------------------

  /** The cells of all layers, in order. */
  function Flatten(wave: seq<seq<Cell>>): seq<Cell>
  {
    if wave == [] then []
    else Flatten(wave[..|wave| - 1]) + wave[|wave| - 1]
  }

  /** A cell is in the flattened layers exactly when it is in one of them. */
  lemma {:induction false} FlattenMember(wave: seq<seq<Cell>>, x: Cell)
    ensures x in Flatten(wave) <==> exists k :: 0 <= k < |wave| && x in wave[k]
    decreases |wave|
  {
    if wave != [] {
      var init := wave[..|wave| - 1];
      FlattenMember(init, x);
      forall k | 0 <= k < |init| ensures init[k] == wave[k] {
      }
    }
  }

  /** The layer the next frontier grows from: the newest layer, or the
      start cell alone before there is any. */
  function Parent(start: Cell, wave: seq<seq<Cell>>): seq<Cell>
  {
    if wave == [] then [start] else wave[|wave| - 1]
  }

  /** The list `inside` once the layers of `wave` have been added to it. */
  function Visited(start: Cell, wave: seq<seq<Cell>>): seq<Cell>
  {
    [start] + Flatten(wave)
  }

  lemma VisitedMember(start: Cell, wave: seq<seq<Cell>>, x: Cell)
    ensures x in Visited(start, wave) <==> x == start || exists k :: 0 <= k < |wave| && x in wave[k]
  {
    FlattenMember(wave, x);
  }

  /** Every layer cell is visited. */
  lemma LayersVisited(start: Cell, wave: seq<seq<Cell>>)
    ensures forall k, x :: 0 <= k < |wave| && x in wave[k] ==> x in Visited(start, wave)
  {
    forall k, x | 0 <= k < |wave| && x in wave[k] ensures x in Visited(start, wave) {
      VisitedMember(start, wave, x);
    }
  }

  /** Visiting grows with the wave. */
  lemma VisitedPrefix(start: Cell, wave: seq<seq<Cell>>, j: nat)
    requires j <= |wave|
    ensures forall x :: x in Visited(start, wave[..j]) ==> x in Visited(start, wave)
  {
    forall x | x in Visited(start, wave[..j]) ensures x in Visited(start, wave) {
      VisitedMember(start, wave[..j], x);
      VisitedMember(start, wave, x);
      if x != start {
        var k :| 0 <= k < j && x in wave[..j][k];
        assert wave[..j][k] == wave[k];
      }
    }
  }

  /** The cells of the frontier that follows `wave`: admissible
      4-neighbours of its newest layer that are not yet visited. */
  ghost predicate InFrontier(c: Cartographer, start: Cell, wave: seq<seq<Cell>>, n: Cell)
  {
    InNextBorder(c, Parent(start, wave), Visited(start, wave), n)
  }

  /** Layer `k` is non-empty, lists no cell twice, and holds exactly the
      frontier of the layers before it. */
  ghost predicate LayerOK(c: Cartographer, start: Cell, wave: seq<seq<Cell>>, k: int)
  {
    && 0 <= k < |wave|
    && wave[k] != []
    && NoDup(wave[k])
    && forall n :: n in wave[k] <==> InFrontier(c, start, wave[..k], n)
  }

  /** Breadth-first layers from `start`. */
  ghost predicate IsWave(c: Cartographer, start: Cell, wave: seq<seq<Cell>>)
  {
    forall k :: 0 <= k < |wave| ==> LayerOK(c, start, wave, k)
  }

  /** The in-bounds cells: the measure `wave` uses up. */
  function AllCells(c: Cartographer): set<Cell>
  {
    set row, col | 0 <= row < Height(c.bounds) && 0 <= col < Width(c.bounds) :: (row, col)
  }

  /** The first frontier, computed with an empty `inside`, is the frontier
      of the empty wave, and lists no cell twice. */
  lemma FirstFrontier(c: Cartographer, start: Cell)
    requires Valid(c)
    ensures NoDup(NextBorder(c, [start], []))
    ensures forall n :: n in NextBorder(c, [start], []) <==> InFrontier(c, start, [], n)
  {
    NextBorderSingletonNoDup(c, start, []);
    assert Visited(start, []) == [start];
    forall n ensures n in NextBorder(c, [start], []) <==> InFrontier(c, start, [], n) {
      NextBorderExact(c, [start], [], n);
    }
  }

  lemma WaveExtend(c: Cartographer, start: Cell, wave: seq<seq<Cell>>, layer: seq<Cell>)
    requires IsWave(c, start, wave)
    requires layer != [] && NoDup(layer)
    requires forall n :: n in layer <==> InFrontier(c, start, wave, n)
    ensures IsWave(c, start, wave + [layer])
  {
    var w := wave + [layer];
    forall k | 0 <= k < |w| ensures LayerOK(c, start, w, k) {
      if k < |wave| {
        assert LayerOK(c, start, wave, k);
        assert w[..k] == wave[..k] && w[k] == wave[k];
      } else {
        assert w[..k] == wave && w[k] == layer;
      }
    }
  }

  lemma FlattenSnoc(wave: seq<seq<Cell>>, layer: seq<Cell>)
    ensures Flatten(wave + [layer]) == Flatten(wave) + layer
  {
  }

  /** One round of `wave`: appending a frontier as a new layer keeps the
      layers breadth-first, adds the layer to `inside`, uses up at least
      one in-bounds cell, and `getNextBorder` of the new layer is the next
      frontier. */
  lemma WaveStep(c: Cartographer, start: Cell, wave: seq<seq<Cell>>, layer: seq<Cell>)
    requires Valid(c) && IsWave(c, start, wave)
    requires layer != [] && NoDup(layer)
    requires forall n :: n in layer <==> InFrontier(c, start, wave, n)
    ensures IsWave(c, start, wave + [layer])
    ensures Visited(start, wave + [layer]) == Visited(start, wave) + layer
    ensures AllCells(c) - Elems(Visited(start, wave) + layer) < AllCells(c) - Elems(Visited(start, wave))
    ensures forall n :: n in NextBorder(c, layer, Visited(start, wave) + layer) <==>
              InFrontier(c, start, wave + [layer], n)
  {
    WaveExtend(c, start, wave, layer);
    FlattenSnoc(wave, layer);
    var inside := Visited(start, wave) + layer;
    assert layer[0] in AllCells(c) - Elems(Visited(start, wave)) by {
      assert InFrontier(c, start, wave, layer[0]);
      assert (layer[0].0, layer[0].1) in AllCells(c);
    }
    assert layer[0] !in AllCells(c) - Elems(inside);
    forall n ensures n in NextBorder(c, layer, inside) <==> InFrontier(c, start, wave + [layer], n) {
      NextBorderExact(c, layer, inside, n);
    }
  }

  /** A frontier cell is in no layer. */
  lemma FrontierOutsideLayers(c: Cartographer, start: Cell, wave: seq<seq<Cell>>)
    ensures forall k, n {:trigger n in wave[k]} ::
              0 <= k < |wave| && InFrontier(c, start, wave, n) ==> n !in wave[k]
  {
    LayersVisited(start, wave);
  }

  /** `wave`: breadth-first layers from `start`. It stops when the next
      frontier is empty or contains `dest`; that frontier is not returned,
      so `dest` is in no layer. Each round adds a non-empty frontier,
      disjoint from `inside`, to `inside`, so the in-bounds cells not yet
      inside shrink and the loop ends. */
  method Wave(c: Cartographer, start: Cell, dest: Cell) returns (wave: seq<seq<Cell>>)
    requires Valid(c)
    ensures IsWave(c, start, wave)
    ensures forall k :: 0 <= k < |wave| ==> dest !in wave[k]
    ensures InFrontier(c, start, wave, dest) || forall n :: !InFrontier(c, start, wave, n)
  {
    wave := [];
    var inside := [start];
    var nextBorder := NextBorder(c, inside, []);
    FirstFrontier(c, start);
    while dest !in nextBorder && nextBorder != []
      invariant IsWave(c, start, wave)
      invariant inside == Visited(start, wave)
      invariant NoDup(nextBorder)
      invariant forall n :: n in nextBorder <==> InFrontier(c, start, wave, n)
      invariant forall k :: 0 <= k < |wave| ==> dest !in wave[k]
      decreases AllCells(c) - Elems(inside)
    {
      var layer := nextBorder;
      WaveStep(c, start, wave, layer);
      wave := wave + [layer];
      inside := inside + layer;
      nextBorder := NextBorder(c, layer, inside);
      FrontierOutsideLayers(c, start, wave);
      for k := 0 to |wave|
        invariant k > 0 ==> NoDup(nextBorder)
        invariant forall n :: n in nextBorder <==> InFrontier(c, start, wave, n)
      {
        nextBorder := ListOfSet(Elems(nextBorder) - Elems(wave[k]));
      }
    }
  }

  // ---------------------------------------------------------------------
  // What the layers are
  // ---------------------------------------------------------------------

  /** The cell a walk steps from at position `i`. */
  function Before(start: Cell, p: seq<Cell>, i: int): Cell
    requires 0 <= i < |p|
  {
    if i == 0 then start else p[i - 1]
  }

  /** A 4-connected walk out of `start` over passable cells; `start` itself
      is not part of it. */
  ghost predicate IsWalk(c: Cartographer, start: Cell, p: seq<Cell>)
  {
    forall i {:trigger Before(start, p, i)} :: 0 <= i < |p| ==> Passable(c, p[i]) && Adjacent4(Before(start, p, i), p[i])
  }

  /** `dest` is `start` or the end of a walk out of `start`. */
  ghost predicate Reachable(c: Cartographer, start: Cell, dest: Cell)
  {
    dest == start || exists p :: IsWalk(c, start, p) && p != [] && p[|p| - 1] == dest
  }

  lemma PrefixIsWave(c: Cartographer, start: Cell, wave: seq<seq<Cell>>, j: nat)
    requires IsWave(c, start, wave) && j <= |wave|
    ensures IsWave(c, start, wave[..j])
  {
    forall k | 0 <= k < j ensures LayerOK(c, start, wave[..j], k) {
      assert LayerOK(c, start, wave, k);
      assert wave[..j][..k] == wave[..k] && wave[..j][k] == wave[k];
    }
  }

  /** Every layer cell is passable and differs from the start cell. */
  lemma WaveCells(c: Cartographer, start: Cell, wave: seq<seq<Cell>>)
    requires IsWave(c, start, wave)
    ensures forall k, x {:trigger x in wave[k]} :: 0 <= k < |wave| && x in wave[k] ==> Passable(c, x) && x != start
  {
    forall k, x | 0 <= k < |wave| && x in wave[k] ensures Passable(c, x) && x != start {
      assert LayerOK(c, start, wave, k);
      assert InFrontier(c, start, wave[..k], x);
    }
  }

  /** No cell is in two layers. */
  lemma WaveDisjoint(c: Cartographer, start: Cell, wave: seq<seq<Cell>>)
    requires IsWave(c, start, wave)
    ensures forall i, j, x {:trigger x in wave[i], x in wave[j]} ::
              0 <= i < j < |wave| && x in wave[i] ==> x !in wave[j]
  {
    forall i, j, x | 0 <= i < j < |wave| && x in wave[i] ensures x !in wave[j] {
      assert LayerOK(c, start, wave, j);
      LayersVisited(start, wave[..j]);
      assert wave[..j][i] == wave[i];
    }
  }

  /** Layer 0 lies next to `start` and each later layer next to the one
      before it. */
  lemma WaveAdjacent(c: Cartographer, start: Cell, wave: seq<seq<Cell>>)
    requires IsWave(c, start, wave)
    ensures forall x :: |wave| > 0 && x in wave[0] ==> Adjacent4(start, x)
    ensures forall k, x {:trigger x in wave[k]} ::
              0 < k < |wave| && x in wave[k] ==> exists p :: p in wave[k - 1] && Adjacent4(p, x)
  {
    forall k, x {:trigger x in wave[k]} | 0 < k < |wave| && x in wave[k]
      ensures exists p :: p in wave[k - 1] && Adjacent4(p, x)
    {
      assert LayerOK(c, start, wave, k);
      assert InFrontier(c, start, wave[..k], x);
      assert Parent(start, wave[..k]) == wave[k - 1];
    }
    if |wave| > 0 {
      assert LayerOK(c, start, wave, 0);
      forall x | x in wave[0] ensures Adjacent4(start, x) {
        assert InFrontier(c, start, wave[..0], x);
      }
    }
  }

  /** Every cell of layer `k` ends a walk of exactly `k + 1` steps. */
  lemma {:induction false} LayerCellReachable(c: Cartographer, start: Cell, wave: seq<seq<Cell>>, k: nat, x: Cell)
    returns (p: seq<Cell>)
    requires IsWave(c, start, wave) && k < |wave| && x in wave[k]
    ensures |p| == k + 1 && IsWalk(c, start, p) && p[k] == x
    decreases k
  {
    assert LayerOK(c, start, wave, k);
    assert InFrontier(c, start, wave[..k], x);
    var b :| b in Parent(start, wave[..k]) && Adjacent4(b, x);
    if k == 0 {
      p := [x];
    } else {
      assert wave[..k][k - 1] == wave[k - 1];
      var q := LayerCellReachable(c, start, wave, k - 1, b);
      p := q + [x];
      forall i | 0 <= i < |p| ensures Passable(c, p[i]) && Adjacent4(Before(start, p, i), p[i]) {
        if i < k {
          assert p[i] == q[i] && Before(start, p, i) == Before(start, q, i);
        }
      }
    }
  }

  /** A frontier cell ends a walk one step longer than the wave. */
  lemma FrontierCellReachable(c: Cartographer, start: Cell, wave: seq<seq<Cell>>, dest: Cell)
    returns (p: seq<Cell>)
    requires IsWave(c, start, wave) && InFrontier(c, start, wave, dest)
    ensures |p| == |wave| + 1 && IsWalk(c, start, p) && p[|wave|] == dest
  {
    var b :| b in Parent(start, wave) && Adjacent4(b, dest);
    if wave == [] {
      p := [dest];
    } else {
      var q := LayerCellReachable(c, start, wave, |wave| - 1, b);
      p := q + [dest];
      forall i | 0 <= i < |p| ensures Passable(c, p[i]) && Adjacent4(Before(start, p, i), p[i]) {
        if i < |q| {
          assert p[i] == q[i] && Before(start, p, i) == Before(start, q, i);
        }
      }
    }
  }

  /** One step from a visited cell lands on a visited cell or on the
      frontier. */
  lemma StepFromVisited(c: Cartographer, start: Cell, wave: seq<seq<Cell>>, x: Cell, y: Cell)
    requires IsWave(c, start, wave)
    requires x in Visited(start, wave) && Passable(c, y) && Adjacent4(x, y)
    ensures y in Visited(start, wave) || InFrontier(c, start, wave, y)
  {
    VisitedMember(start, wave, x);
    var j: nat;
    if x == start {
      j := 0;
    } else {
      var k :| 0 <= k < |wave| && x in wave[k];
      j := k + 1;
      assert wave[..j][k] == wave[k];
    }
    var w := wave[..j];
    assert x in Parent(start, w);
    VisitedPrefix(start, wave, j);
    if j < |wave| {
      assert LayerOK(c, start, wave, j);
      assert y in Visited(start, w) || y in wave[j];
      LayersVisited(start, wave);
    } else {
      assert w == wave;
    }
  }

  /** Breadth-first depth: the `i`-th step of any walk, for `i` up to the
      wave's length, is the start cell, in a layer before `i`, or in the
      frontier after the first `i` layers. */
  lemma {:induction false} WalkDepth(c: Cartographer, start: Cell, wave: seq<seq<Cell>>, p: seq<Cell>, i: nat)
    requires IsWave(c, start, wave) && IsWalk(c, start, p)
    requires i < |p| && i <= |wave|
    ensures p[i] in Visited(start, wave[..i]) || InFrontier(c, start, wave[..i], p[i])
    decreases i
  {
    PrefixIsWave(c, start, wave, i);
    assert Adjacent4(Before(start, p, i), p[i]) && Passable(c, p[i]);
    if i == 0 {
      assert start in Visited(start, wave[..0]);
      StepFromVisited(c, start, wave[..0], start, p[0]);
    } else {
      WalkDepth(c, start, wave, p, i - 1);
      assert p[i - 1] in Visited(start, wave[..i]) by {
        assert wave[..i][..i - 1] == wave[..i - 1];
        VisitedPrefix(start, wave[..i], i - 1);
        assert LayerOK(c, start, wave, i - 1);
        LayersVisited(start, wave[..i]);
        assert wave[..i][i - 1] == wave[i - 1];
      }
      StepFromVisited(c, start, wave[..i], p[i - 1], p[i]);
    }
  }

  /** A walk to a cell outside every layer and the start is longer than
      the wave: the layers are the shortest walk lengths. */
  lemma ShortestWalk(c: Cartographer, start: Cell, wave: seq<seq<Cell>>, dest: Cell)
    requires IsWave(c, start, wave)
    ensures forall p :: IsWalk(c, start, p) && p != [] && p[|p| - 1] == dest && |p| <= |wave| ==>
              dest in Visited(start, wave)
  {
    forall p | IsWalk(c, start, p) && p != [] && p[|p| - 1] == dest && |p| <= |wave|
      ensures dest in Visited(start, wave)
    {
      var i := |p| - 1;
      WalkDepth(c, start, wave, p, i);
      VisitedPrefix(start, wave, i);
      assert LayerOK(c, start, wave, i);
      LayersVisited(start, wave);
    }
  }

  /** Once the frontier is empty, every walk stays among the visited
      cells. */
  lemma {:induction false} ClosedWaveHoldsWalk(c: Cartographer, start: Cell, wave: seq<seq<Cell>>, p: seq<Cell>, i: nat)
    requires IsWave(c, start, wave) && forall n :: !InFrontier(c, start, wave, n)
    requires IsWalk(c, start, p) && i < |p|
    ensures p[i] in Visited(start, wave)
    decreases i
  {
    if i > 0 {
      ClosedWaveHoldsWalk(c, start, wave, p, i - 1);
    }
    assert Adjacent4(Before(start, p, i), p[i]) && Passable(c, p[i]);
    StepFromVisited(c, start, wave, Before(start, p, i), p[i]);
  }

  /** With an empty frontier the visited cells are everything reachable. */
  lemma ClosedWaveCoversReachable(c: Cartographer, start: Cell, wave: seq<seq<Cell>>, dest: Cell)
    requires IsWave(c, start, wave) && forall n :: !InFrontier(c, start, wave, n)
    ensures Reachable(c, start, dest) ==> dest in Visited(start, wave)
  {
    if dest != start && Reachable(c, start, dest) {
      var p :| IsWalk(c, start, p) && p != [] && p[|p| - 1] == dest;
      ClosedWaveHoldsWalk(c, start, wave, p, |p| - 1);
    }
  }

  // ---------------------------------------------------------------------
  // computePath
  // ---------------------------------------------------------------------

  /** The wave comes back empty exactly when the first frontier is empty
      or already holds `dest`. */
  lemma WaveEmptyIff(c: Cartographer, start: Cell, dest: Cell, wave: seq<seq<Cell>>)
    requires Valid(c) && IsWave(c, start, wave)
    requires forall k :: 0 <= k < |wave| ==> dest !in wave[k]
    requires InFrontier(c, start, wave, dest) || forall n :: !InFrontier(c, start, wave, n)
    ensures wave == [] <==> NextBorder(c, [start], []) == [] || dest in NextBorder(c, [start], [])
    ensures start !in NextBorder(c, [start], [])
  {
    FirstFrontier(c, start);
    if wave != [] {
      assert LayerOK(c, start, wave, 0);
      assert wave[..0] == [];
      assert wave[0][0] in NextBorder(c, [start], []);
    } else if NextBorder(c, [start], []) != [] {
      assert InFrontier(c, start, wave, NextBorder(c, [start], [])[0]);
    }
  }

  /** `computePath` as written. It drops the deepest layer, then walks
      back from `dest`, popping one layer per step, until it stands on
      `start`. A step only ever moves to a layer cell and no layer holds
      `start`, so the walk cannot arrive: the call returns (and then only
      `None`) exactly when `dest` is `start` and `start` has a passable
      4-neighbour; with an empty wave the first `pop` raises IndexError. */
  method ComputePath(c: Cartographer, start: Cell, dest: Cell) returns (r: Outcome)
    requires Valid(c)
    ensures r == ReturnedNone <==> dest == start && NextBorder(c, [start], []) != []
    ensures NextBorder(c, [start], []) == [] || dest in NextBorder(c, [start], []) ==>
              r == Raised(IndexError)
  {
    var path := [dest];
    var full := Wave(c, start, dest);
    WaveEmptyIff(c, start, dest, full);
    WaveCells(c, start, full);
    if full == [] {
      return Raised(IndexError);
    }
    var wave := full[..|full| - 1];
    var cur := dest;
    while cur != start
      invariant |wave| < |full| && wave == full[..|wave|]
      invariant |path| + |wave| == |full|
      invariant (cur == start) == (dest == start)
      decreases |wave|
    {
      if wave == [] {
        return Raised(IndexError);
      }
      var layer := wave[|wave| - 1];
      assert layer == full[|wave| - 1];
      wave := wave[..|wave| - 1];
      var next := FindNeighbor(cur, layer);
      if next.Err? {
        return Raised(next.error);
      }
      cur := next.value;
      path := path + [cur];
    }
    // The source reverses `path` here and then drops it: there is no
    // `return` statement, so the caller receives None.
    return ReturnedNone;
  }

  /** On a fresh 3 x 3 map the corner (0, 0) is two steps from the centre,
      yet `ComputePath` from the centre to it raises. */
  lemma CornerReachableOnFreshMap()
    ensures Build(0, 3, 0, 3).Ok?
    ensures Reachable(Build(0, 3, 0, 3).value, (1, 1), (0, 0))
  {
    var c := Build(0, 3, 0, 3).value;
    FreshMapPassable(0, 3, 0, 3, (0, 1));
    FreshMapPassable(0, 3, 0, 3, (0, 0));
    var p := [(0, 1), (0, 0)];
    assert Before((1, 1), p, 1) == (0, 1);
    assert IsWalk(c, (1, 1), p);
  }

  /** Breadth-first layers alternate colours on the chessboard: a cell of
      the frontier after the first `j` layers is `j + 1` 4-steps from
      `start`, so the parity of its coordinate sum is fixed by `j`. */
  lemma {:induction false} FrontierParity(c: Cartographer, start: Cell, wave: seq<seq<Cell>>, j: nat, x: Cell)
    requires IsWave(c, start, wave) && j <= |wave| && InFrontier(c, start, wave[..j], x)
    ensures (x.0 + x.1 - start.0 - start.1 - j - 1) % 2 == 0
    decreases j
  {
    var b :| b in Parent(start, wave[..j]) && Adjacent4(b, x);
    if j > 0 {
      assert wave[..j][j - 1] == wave[j - 1];
      assert LayerOK(c, start, wave, j - 1);
      FrontierParity(c, start, wave, j - 1, b);
    }
  }

  /** A step back from the frontier after layer `j - 1` into that layer is
      never diagonal: the two cells differ in parity, and a diagonal
      neighbour has the same parity. */
  lemma BackStepIs4(c: Cartographer, start: Cell, wave: seq<seq<Cell>>, j: nat, cur: Cell, x: Cell)
    requires IsWave(c, start, wave) && 0 < j <= |wave| && InFrontier(c, start, wave[..j], cur)
    requires x in wave[j - 1] && Adjacent8(cur, x)
    ensures Adjacent4(x, cur)
  {
    FrontierParity(c, start, wave, j, cur);
    assert LayerOK(c, start, wave, j - 1);
    FrontierParity(c, start, wave, j - 1, x);
  }

  /** A route that starts next to `start`, moves between 4-neighbours and
      stays on passable cells is a walk. */
  lemma ChainIsWalk(c: Cartographer, start: Cell, p: seq<Cell>)
    requires p != [] ==> Adjacent4(start, p[0])
    requires forall i, j :: 0 <= i && j == i + 1 && j < |p| ==> Adjacent4(p[i], p[j])
    requires forall i :: 0 <= i < |p| ==> Passable(c, p[i])
    ensures IsWalk(c, start, p)
  {
  }

  /** One step back: a cell of the frontier after layer `j - 1` has an
      8-neighbour in that layer, and every cell of that layer is itself in
      the frontier of the layers before it. */
  lemma BackStep(c: Cartographer, start: Cell, wave: seq<seq<Cell>>, j: nat, cur: Cell)
    requires IsWave(c, start, wave) && 0 < j <= |wave| && InFrontier(c, start, wave[..j], cur)
    ensures exists x :: x in wave[j - 1] && Adjacent8(cur, x)
    ensures forall x {:trigger InFrontier(c, start, wave[..j - 1], x)} ::
              x in wave[j - 1] ==> InFrontier(c, start, wave[..j - 1], x)
  {
    assert Parent(start, wave[..j]) == wave[j - 1];
    var b :| b in wave[j - 1] && Adjacent4(b, cur);
    assert Adjacent8(cur, b);
    assert LayerOK(c, start, wave, j - 1);
  }

  /** The walk back from a frontier cell `dest`: one cell of each layer,
      deepest first, each a 4-neighbour of the one after it, listed from
      the cell of layer 0 up to `dest`. */
  method WalkBack(c: Cartographer, start: Cell, wave: seq<seq<Cell>>, dest: Cell) returns (path: seq<Cell>)
    requires IsWave(c, start, wave) && InFrontier(c, start, wave, dest)
    ensures |path| == |wave| + 1 && path[|wave|] == dest
    ensures Adjacent4(start, path[0])
    ensures forall i, j :: 0 <= i && j == i + 1 && j < |path| ==> Adjacent4(path[i], path[j])
    ensures forall i :: 0 <= i < |path| ==> Passable(c, path[i]) && path[i] != start
    ensures IsWalk(c, start, path)
  {
    assert wave[..|wave|] == wave;
    path := [dest];
    var cur := dest;
    var j := |wave|;
    while j > 0
      invariant 0 <= j <= |wave|
      invariant InFrontier(c, start, wave[..j], cur)
      invariant |path| == |wave| - j + 1
      invariant path[0] == cur && path[|path| - 1] == dest
      invariant forall i, k :: 0 <= i && k == i + 1 && k < |path| ==> Adjacent4(path[i], path[k])
      invariant forall i :: 0 <= i < |path| ==> Passable(c, path[i]) && path[i] != start
    {
      BackStep(c, start, wave, j, cur);
      var next := FindNeighbor(cur, wave[j - 1]);
      BackStepIs4(c, start, wave, j, cur, next.value);
      cur := next.value;
      path := [cur] + path;
      j := j - 1;
    }
    assert Parent(start, wave[..0]) == [start];
    ChainIsWalk(c, start, path);
  }

  /** `computePath` as it is evidently meant: it keeps every layer, walks
      back from `dest` one layer per step, and returns the cells from the
      one next to `start` up to `dest`. It answers None exactly when `dest`
      cannot be reached; the route has one cell per layer plus `dest`,
      which is no longer than any walk to `dest`. Although the back-steps
      look at 8-neighbours, each one is a 4-step, so the route is itself a
      shortest walk. */
  method ComputePathCorrected(c: Cartographer, start: Cell, dest: Cell) returns (r: Option<seq<Cell>>)
    requires Valid(c)
    ensures r.Some? <==> Reachable(c, start, dest)
    ensures r.Some? && dest == start ==> r.value == []
    ensures r.Some? && dest != start ==>
              r.value != [] && r.value[|r.value| - 1] == dest && Adjacent4(start, r.value[0])
    ensures r.Some? ==> forall i, j :: 0 <= i && j == i + 1 && j < |r.value| ==> Adjacent4(r.value[i], r.value[j])
    ensures r.Some? ==> IsWalk(c, start, r.value)
    ensures r.Some? ==> forall i :: 0 <= i < |r.value| ==> Passable(c, r.value[i]) && r.value[i] != start
    ensures r.Some? ==> forall p :: IsWalk(c, start, p) && p != [] && p[|p| - 1] == dest ==> |r.value| <= |p|
  {
    if dest == start {
      return Some([]);
    }
    var wave := Wave(c, start, dest);
    var found := dest in NextBorder(c, Parent(start, wave), Visited(start, wave));
    NextBorderExact(c, Parent(start, wave), Visited(start, wave), dest);
    if !found {
      ClosedWaveCoversReachable(c, start, wave, dest);
      VisitedMember(start, wave, dest);
      return None;
    }
    ghost var route := FrontierCellReachable(c, start, wave, dest);
    assert route[|route| - 1] == dest;
    ShortestWalk(c, start, wave, dest);
    VisitedMember(start, wave, dest);
    var path := WalkBack(c, start, wave, dest);
    return Some(path);
  }
}
