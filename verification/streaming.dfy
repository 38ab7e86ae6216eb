/**
 * `ensure_tiles_spawned`: once per tick, every road cell of the 7x7 window
 * around the player's cell that has no tile yet gets exactly one.
 */
module Streaming {
  import opened Grid
  import opened Registry

  /**
   * The window's candidates in loop order: `dy` outer, `dx` inner, each over
   * -3..=3, so a side of 7 = 2 * WindowRadius + 1 cells.
   */
  function Candidates(centre: Cell): (cs: seq<Cell>)
    ensures |cs| == 49
  {
    seq(49, k => (centre.0 + k % 7 - WindowRadius, centre.1 + k / 7 - WindowRadius))
  }

  /** The candidate visited for offsets `(dx, dy)` sits at position `k = 7 (dy + 3) + dx + 3`. */
  lemma CandidateAt(centre: Cell, dx: int, dy: int, k: int)
    requires -WindowRadius <= dx <= WindowRadius && -WindowRadius <= dy <= WindowRadius
    requires k == 7 * (dy + WindowRadius) + dx + WindowRadius
    ensures 0 <= k < |Candidates(centre)|
    ensures Candidates(centre)[k] == (centre.0 + dx, centre.1 + dy)
  {
  }

  /** The candidates are exactly the cells of the window. */
  lemma CandidatesIff(centre: Cell, c: Cell)
    ensures c in Candidates(centre) <==> InWindow(centre, c)
  {
    if InWindow(centre, c) {
      var dx, dy := c.0 - centre.0, c.1 - centre.1;
      CandidateAt(centre, dx, dy, 7 * (dy + WindowRadius) + dx + WindowRadius);
    }
  }

  /** The cells the tick must pave: the road cells of the window. */
  ghost function Needed(centre: Cell): set<Cell>
  {
    LaneSet(Candidates(centre))
  }

  /** A cell must be paved exactly when it is a road cell of the window. */
  lemma NeededIff(centre: Cell, c: Cell)
    ensures c in Needed(centre) <==> InWindow(centre, c) && InLane(c)
  {
    CandidatesIff(centre, c);
  }

  /** The effect of one call on the registry and the allocator. */
  function Tick(s: Street, centre: Cell): Street
  {
    Fill(s, Candidates(centre))
  }

  /**
   * `spawned` lists, in order, the cells spawned on the way from `s` to `s'`:
   * each one was absent from `s` and holds the next handle the allocator gave out.
   */
  ghost predicate SpawnLog(s: Street, s': Street, spawned: seq<Cell>)
  {
    && Extends(s, s')
    && s'.nextEntity == s.nextEntity + |spawned|
    && (forall i :: 0 <= i < |spawned| ==>
          spawned[i] !in s.tiles && spawned[i] in s'.tiles && s'.tiles[spawned[i]] == s.nextEntity + i)
    && (forall c :: c in s'.tiles && c !in s.tiles ==> c in spawned)
  }

  /** Spawning one more absent cell extends the log by that cell. */
  lemma SpawnLogStep(s: Street, s': Street, spawned: seq<Cell>, c: Cell)
    requires SpawnLog(s, s', spawned) && c !in s'.tiles
    ensures SpawnLog(s, Spawn(s', c), spawned + [c])
  {
  }

  /** One step of the loops is one `Visit` of the next candidate. */
  lemma FillStep(s: Street, cs: seq<Cell>, k: nat, c: Cell)
    requires k < |cs| && cs[k] == c
    ensures Visit(Fill(s, cs[..k]), c) == Fill(s, cs[..k + 1])
  {
    assert cs[..k + 1][..k] == cs[..k];
  }

  /**
   * The system itself: nested loops over the window, the lane filter and the
   * insert-if-absent, returning the new state and the spawned cells in order.
   */
  method EnsureTilesSpawned(s: Street, player: Vec3) returns (s': Street, spawned: seq<Cell>)
    ensures s' == Tick(s, CentreCell(player))
    ensures s'.tiles.Keys == s.tiles.Keys + Needed(CentreCell(player))
    ensures Extends(s, s')
    ensures s'.nextEntity == s.nextEntity + |spawned|
    ensures forall i :: 0 <= i < |spawned| ==>
              spawned[i] !in s.tiles && spawned[i] in s'.tiles && s'.tiles[spawned[i]] == s.nextEntity + i
    ensures forall c :: c in s'.tiles && c !in s.tiles ==> c in spawned
    ensures forall i, j :: 0 <= i < j < |spawned| ==> spawned[i] != spawned[j]
  {
    var gridLoc := CentreCell(player);
    ghost var cs := Candidates(gridLoc);
    ghost var k := 0;
    s', spawned := s, [];
    var dy := -WindowRadius;
    while dy <= WindowRadius
      invariant -WindowRadius <= dy <= WindowRadius + 1
      invariant k == 7 * (dy + WindowRadius)
      invariant s' == Fill(s, cs[..k])
      invariant SpawnLog(s, s', spawned)
    {
      var dx := -WindowRadius;
      while dx <= WindowRadius
        invariant -WindowRadius <= dx <= WindowRadius + 1
        invariant k == 7 * (dy + WindowRadius) + dx + WindowRadius
        invariant s' == Fill(s, cs[..k])
        invariant SpawnLog(s, s', spawned)
      {
        var x := gridLoc.0 + dx;
        var y := gridLoc.1 + dy;
        CandidateAt(gridLoc, dx, dy, k);
        FillStep(s, cs, k, (x, y));
        ghost var before := s';
        if LaneMin <= y <= LaneMax && (x, y) !in s'.tiles {
          SpawnLogStep(s, s', spawned, (x, y));
          s' := Spawn(s', (x, y));
          spawned := spawned + [(x, y)];
        }
        assert s' == Visit(before, (x, y));
        k := k + 1;
        dx := dx + 1;
      }
      dy := dy + 1;
    }
    assert s' == Tick(s, gridLoc) by {
      assert cs[..k] == cs;
    }
    TickKeys(s, gridLoc);
  }

  /** A call adds exactly the road cells of the window to the keys. */
  lemma TickKeys(s: Street, centre: Cell)
    ensures Tick(s, centre).tiles.Keys == s.tiles.Keys + Needed(centre)
  {
    FillKeys(s, Candidates(centre));
  }

  /** Every road cell of the window is recorded after the call. */
  lemma TickCoverage(s: Street, centre: Cell)
    ensures forall c :: InWindow(centre, c) && InLane(c) ==> c in Tick(s, centre).tiles
  {
    FillKeys(s, Candidates(centre));
    forall c | InWindow(centre, c) && InLane(c)
      ensures c in Tick(s, centre).tiles
    {
      NeededIff(centre, c);
    }
  }

  /** Only road cells of the window are added; every other key is untouched. */
  lemma TickLocality(s: Street, centre: Cell)
    ensures forall c :: c in Tick(s, centre).tiles && c !in s.tiles ==> InWindow(centre, c) && InLane(c)
  {
    FillKeys(s, Candidates(centre));
    forall c | c in Tick(s, centre).tiles && c !in s.tiles
      ensures InWindow(centre, c) && InLane(c)
    {
      NeededIff(centre, c);
    }
  }

  /** A recorded tile is never spawned again and keeps its entity; nothing is removed. */
  lemma TickNoOverwrite(s: Street, centre: Cell)
    ensures Extends(s, Tick(s, centre))
    ensures s.tiles.Keys <= Tick(s, centre).tiles.Keys
  {
    FillExtends(s, Candidates(centre));
  }

  /** One spawn per needed cell that was absent: the allocator advances by exactly that count. */
  lemma TickSpawnCount(s: Street, centre: Cell)
    ensures Tick(s, centre).nextEntity == s.nextEntity + |Needed(centre) - s.tiles.Keys|
  {
    FillKeys(s, Candidates(centre));
    FillSpawnCount(s, Candidates(centre));
    assert Tick(s, centre).tiles.Keys - s.tiles.Keys == Needed(centre) - s.tiles.Keys;
  }

  /** A second call at the same centre spawns nothing and changes nothing. */
  lemma TickIdempotent(s: Street, centre: Cell)
    ensures Tick(Tick(s, centre), centre) == Tick(s, centre)
  {
    FillKeys(s, Candidates(centre));
    FillIdle(Tick(s, centre), Candidates(centre));
  }

  /** Fresh, distinct handles and the road band are both kept by a call. */
  lemma TickPreserves(s: Street, centre: Cell)
    ensures Valid(s) ==> Valid(Tick(s, centre))
    ensures LaneOnly(s) ==> LaneOnly(Tick(s, centre))
  {
    if Valid(s) {
      FillValid(s, Candidates(centre));
    }
    TickLocality(s, centre);
  }

  /** The state after one call per centre, in order. */
  function Run(s: Street, centres: seq<Cell>): Street
    decreases |centres|
  {
    if |centres| == 0 then s else Tick(Run(s, centres[..|centres| - 1]), centres[|centres| - 1])
  }

  /**
   * Whatever path the player takes, starting from the empty registry no tile
   * off the road is ever recorded, and no entity stands for two tiles.
   */
  lemma {:induction false} RunInvariant(alloc: Entity, centres: seq<Cell>)
    ensures LaneOnly(Run(Empty(alloc), centres))
    ensures Valid(Run(Empty(alloc), centres))
    decreases |centres|
  {
    if |centres| > 0 {
      RunInvariant(alloc, centres[..|centres| - 1]);
      TickPreserves(Run(Empty(alloc), centres[..|centres| - 1]), centres[|centres| - 1]);
    }
  }

  /** Over any number of calls the registry only grows, and old entries keep their entity. */
  lemma {:induction false} RunMonotonic(s: Street, centres: seq<Cell>)
    ensures Extends(s, Run(s, centres))
    decreases |centres|
  {
    if |centres| > 0 {
      var mid := Run(s, centres[..|centres| - 1]);
      RunMonotonic(s, centres[..|centres| - 1]);
      TickNoOverwrite(mid, centres[|centres| - 1]);
    }
  }
}
