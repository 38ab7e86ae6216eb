/**
 * The `StreetTiles` resource: a map from tile coordinate to the entity that
 * renders the tile, together with the world's entity allocator from which
 * each `commands.spawn(..).id()` draws a fresh handle.
 */
module Registry {
  import opened Grid

  /** An opaque entity handle. */
  type Entity = nat

  /**
   * `tiles` is the registry proper. `nextEntity` stands for the world's
   * entity allocator: a spawn returns it and advances it, so every handle
   * a spawn returns is new.
   */
  datatype Street = Street(tiles: map<Cell, Entity>, nextEntity: Entity)

  /** The registry as the resource's `Default` creates it: no tiles yet. */
  function Empty(alloc: Entity): (s: Street)
    ensures |s.tiles| == 0 && s.nextEntity == alloc
  {
    Street(map[], alloc)
  }

  /** Every recorded handle came from the allocator, and no two tiles share one. */
  ghost predicate Valid(s: Street)
  {
    && (forall c :: c in s.tiles ==> s.tiles[c] < s.nextEntity)
    && (forall c, d :: c in s.tiles && d in s.tiles && s.tiles[c] == s.tiles[d] ==> c == d)
  }

  /** Every recorded tile lies on the road. */
  ghost predicate LaneOnly(s: Street)
  {
    forall c :: c in s.tiles ==> InLane(c)
  }

  /** The recorded entries of `s` survive, unchanged, in `s'`. */
  ghost predicate Extends(s: Street, s': Street)
  {
    forall c :: c in s.tiles ==> c in s'.tiles && s'.tiles[c] == s.tiles[c]
  }

  /** Spawn the tile for the absent cell `c` and record the entity the spawn returns. */
  function Spawn(s: Street, c: Cell): (s': Street)
    requires c !in s.tiles
    ensures s'.tiles.Keys == s.tiles.Keys + {c}
    ensures s'.tiles[c] == s.nextEntity && s'.nextEntity == s.nextEntity + 1
    ensures Extends(s, s')
    ensures Valid(s) ==> Valid(s')
  {
    Street(s.tiles[c := s.nextEntity], s.nextEntity + 1)
  }

  /**
   * One pass of the loop body for candidate `c`: skip a cell off the road,
   * leave a recorded cell alone, spawn the rest.
   */
  function Visit(s: Street, c: Cell): (s': Street)
    ensures s'.tiles.Keys == if InLane(c) then s.tiles.Keys + {c} else s.tiles.Keys
    ensures Extends(s, s')
    ensures s'.nextEntity == if InLane(c) && c !in s.tiles then s.nextEntity + 1 else s.nextEntity
    ensures InLane(c) && c !in s.tiles ==> s'.tiles[c] == s.nextEntity
  {
    if !InLane(c) || c in s.tiles then s else Spawn(s, c)
  }

  /** Visit the candidates in order. */
  function Fill(s: Street, cells: seq<Cell>): Street
    decreases |cells|
  {
    if |cells| == 0 then s else Visit(Fill(s, cells[..|cells| - 1]), cells[|cells| - 1])
  }

  /** The road cells among `cells`. */
  ghost function LaneSet(cells: seq<Cell>): set<Cell>
  {
    set c | c in cells && InLane(c)
  }

  /** Filling never removes or overwrites an entry. */
  lemma {:induction false} FillExtends(s: Street, cells: seq<Cell>)
    ensures Extends(s, Fill(s, cells))
    decreases |cells|
  {
    if |cells| > 0 {
      FillExtends(s, cells[..|cells| - 1]);
    }
  }

  /** After filling, the keys are exactly the old keys plus the road cells visited. */
  lemma {:induction false} FillKeys(s: Street, cells: seq<Cell>)
    ensures Fill(s, cells).tiles.Keys == s.tiles.Keys + LaneSet(cells)
    decreases |cells|
  {
    if |cells| > 0 {
      var init, last := cells[..|cells| - 1], cells[|cells| - 1];
      FillKeys(s, init);
      assert cells == init + [last];
      assert LaneSet(cells) == LaneSet(init) + (if InLane(last) then {last} else {});
    }
  }

  /** One step keeps "one allocation per added key", counted from any earlier state `s0`. */
  lemma VisitSpawnCount(s0: Street, s: Street, c: Cell)
    requires s0.tiles.Keys <= s.tiles.Keys
    requires s.nextEntity == s0.nextEntity + |s.tiles.Keys - s0.tiles.Keys|
    ensures Visit(s, c).nextEntity == s0.nextEntity + |Visit(s, c).tiles.Keys - s0.tiles.Keys|
  {
  }

  /** The allocator advances once per spawn, and each spawn adds one new key. */
  lemma {:induction false} FillSpawnCount(s: Street, cells: seq<Cell>)
    ensures Fill(s, cells).nextEntity == s.nextEntity + |Fill(s, cells).tiles.Keys - s.tiles.Keys|
    decreases |cells|
  {
    if |cells| > 0 {
      var init, last := cells[..|cells| - 1], cells[|cells| - 1];
      FillSpawnCount(s, init);
      FillKeys(s, init);
      VisitSpawnCount(s, Fill(s, init), last);
    }
  }

  /** Filling keeps the handles fresh and distinct. */
  lemma {:induction false} FillValid(s: Street, cells: seq<Cell>)
    requires Valid(s)
    ensures Valid(Fill(s, cells))
    decreases |cells|
  {
    if |cells| > 0 {
      FillValid(s, cells[..|cells| - 1]);
    }
  }

  /** When every road cell visited is already recorded, filling changes nothing. */
  lemma {:induction false} FillIdle(s: Street, cells: seq<Cell>)
    requires LaneSet(cells) <= s.tiles.Keys
    ensures Fill(s, cells) == s
    decreases |cells|
  {
    if |cells| > 0 {
      var init, last := cells[..|cells| - 1], cells[|cells| - 1];
      assert cells == init + [last];
      assert LaneSet(init) <= LaneSet(cells);
      FillIdle(s, init);
    }
  }
}
