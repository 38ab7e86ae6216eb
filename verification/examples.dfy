/**
 * Concrete runs of the model: where a few positions land on the grid, and
 * the two calls of the worked example (centre (0,0), then centre (3,0)).
 */
module Examples {
  import opened Grid
  import opened Registry
  import opened Streaming
  import opened Bounds

  /** Truncation sends -1.5 and 1.5 to the same cell, and 6.5 to cell 3. */
  lemma CellExamples()
    ensures CellOf(1.5, GridWidth) == 0 && CellOf(-1.5, GridWidth) == 0
    ensures CellOf(-2.5, GridWidth) == -1
    ensures CentreCell(Vec3(6.5, 0.0, 0.0)) == (3, 0)
  {
  }

  /** The first call on an empty registry at the origin paves columns -3..3 of the road. */
  lemma FirstCall(alloc: Entity)
    ensures Tick(Empty(alloc), (0, 0)).tiles.Keys == Band(-3, 3)
    ensures Tick(Empty(alloc), (0, 0)).nextEntity == alloc + 21
  {
    TickKeys(Empty(alloc), (0, 0));
    NeededInBand((0, 0));
    TickSpawnBound(Empty(alloc), (0, 0));
  }

  /** From the origin's band, moving the centre to (3,0) adds columns 4..6 only: nine new tiles. */
  lemma MoveRight(s: Street)
    requires s.tiles.Keys == Band(-3, 3)
    ensures Tick(s, (3, 0)).tiles.Keys - s.tiles.Keys == Band(4, 6)
    ensures Tick(s, (3, 0)).nextEntity == s.nextEntity + 9
  {
    var added := Needed((3, 0)) - s.tiles.Keys;
    assert added == Band(4, 6) by {
      forall c | c in added
        ensures c in Band(4, 6)
      {
        NeededIff((3, 0), c);
        BandIff(-3, 3, c);
        BandIff(4, 6, c);
      }
      forall c | c in Band(4, 6)
        ensures c in added
      {
        NeededIff((3, 0), c);
        BandIff(-3, 3, c);
        BandIff(4, 6, c);
      }
    }
    assert Tick(s, (3, 0)).tiles.Keys - s.tiles.Keys == added by {
      TickKeys(s, (3, 0));
    }
    assert Tick(s, (3, 0)).nextEntity == s.nextEntity + |added| by {
      TickSpawnCount(s, (3, 0));
    }
    BandSize(4, 6);
  }

  /** The worked example end to end: 21 tiles, then 9 more. */
  lemma WorkedExample(alloc: Entity)
    ensures Run(Empty(alloc), [(0, 0), (3, 0)]).nextEntity == alloc + 30
  {
    var first := Tick(Empty(alloc), (0, 0));
    FirstCall(alloc);
    MoveRight(first);
    assert [(0, 0), (3, 0)][..1] == [(0, 0)];
    assert [(0, 0)][..0] == [];
  }
}
