/**
 * How much one call can spawn: the road cells of a window fill at most
 * 7 columns by 3 rows, and a window whose centre row is 5 or more away from
 * the road contains none.
 */
module Bounds {
  import opened Grid
  import opened Registry
  import opened Streaming

  /** The cells of row `y` between columns `lo` and `hi`. */
  ghost function Row(lo: int, hi: int, y: int): set<Cell>
  {
    set x | lo <= x <= hi :: (x, y)
  }

  /** The road cells between columns `lo` and `hi`. */
  ghost function Band(lo: int, hi: int): set<Cell>
  {
    set x, y | lo <= x <= hi && LaneMin <= y <= LaneMax :: (x, y)
  }

  /** A band cell is a road cell between the two columns. */
  lemma BandIff(lo: int, hi: int, c: Cell)
    ensures c in Band(lo, hi) <==> lo <= c.0 <= hi && InLane(c)
  {
  }

  /** A row from column `lo` to `hi` holds `hi - lo + 1` cells. */
  lemma {:induction false} RowSize(lo: int, hi: int, y: int)
    requires lo <= hi + 1
    ensures |Row(lo, hi, y)| == hi - lo + 1
    decreases hi - lo
  {
    if lo <= hi {
      RowSize(lo, hi - 1, y);
      assert Row(lo, hi, y) == Row(lo, hi - 1, y) + {(hi, y)};
    } else {
      assert Row(lo, hi, y) == {};
    }
  }

  /** A band `n` columns wide holds `3 n` cells. */
  lemma BandSize(lo: int, hi: int)
    requires lo <= hi + 1
    ensures |Band(lo, hi)| == 3 * (hi - lo + 1)
  {
    RowSize(lo, hi, -1);
    RowSize(lo, hi, 0);
    RowSize(lo, hi, 1);
    var a, b, c := Row(lo, hi, -1), Row(lo, hi, 0), Row(lo, hi, 1);
    forall d | d in Band(lo, hi)
      ensures d in a + b + c
    {
      BandIff(lo, hi, d);
      assert d == (d.0, d.1);
    }
    forall d | d in a + b + c
      ensures d in Band(lo, hi)
    {
      BandIff(lo, hi, d);
    }
    assert Band(lo, hi) == a + b + c;
    assert a * b == {} && (a + b) * c == {};
  }

  /** A subset is no larger than its superset. */
  lemma SubsetSize(a: set<Cell>, b: set<Cell>)
    requires a <= b
    ensures |a| <= |b|
  {
    assert b == a + (b - a);
  }

  /**
   * The road cells of a window lie among the window's seven columns on road
   * rows -1..1, and are all of them when the centre row is within 2 of row 0.
   */
  lemma NeededInBand(centre: Cell)
    ensures Needed(centre) <= Band(centre.0 - WindowRadius, centre.0 + WindowRadius)
    ensures -LaneMax - 1 <= centre.1 <= -LaneMin + 1 ==>
              Needed(centre) == Band(centre.0 - WindowRadius, centre.0 + WindowRadius)
  {
    var lo, hi := centre.0 - WindowRadius, centre.0 + WindowRadius;
    forall c | c in Needed(centre)
      ensures c in Band(lo, hi)
    {
      NeededIff(centre, c);
      BandIff(lo, hi, c);
    }
    if -LaneMax - 1 <= centre.1 <= -LaneMin + 1 {
      forall c | c in Band(lo, hi)
        ensures c in Needed(centre)
      {
        NeededIff(centre, c);
        BandIff(lo, hi, c);
      }
    }
  }

  /**
   * A call spawns at most 21 tiles, exactly 21 on an empty registry when the
   * centre row is within 2 of the road's middle row.
   */
  lemma TickSpawnBound(s: Street, centre: Cell)
    ensures Tick(s, centre).nextEntity - s.nextEntity <= 21
    ensures |s.tiles| == 0 && -2 <= centre.1 <= 2 ==>
              Tick(s, centre).nextEntity - s.nextEntity == 21
  {
    var lo, hi := centre.0 - WindowRadius, centre.0 + WindowRadius;
    var added := Needed(centre) - s.tiles.Keys;
    assert Tick(s, centre).nextEntity - s.nextEntity == |added| by {
      TickSpawnCount(s, centre);
    }
    assert |Band(lo, hi)| == 21 by {
      BandSize(lo, hi);
    }
    assert |added| <= 21 by {
      NeededInBand(centre);
      SubsetSize(added, Band(lo, hi));
    }
    if |s.tiles| == 0 && -2 <= centre.1 <= 2 {
      assert added == Band(lo, hi) by {
        NeededInBand(centre);
      }
    }
  }

  /** The window reaches the road exactly when the centre row lies in -4..4. */
  lemma NeededEmptyIff(centre: Cell)
    ensures Needed(centre) == {} <==> centre.1 >= LaneMax + WindowRadius + 1 || centre.1 <= LaneMin - WindowRadius - 1
  {
    if LaneMin - WindowRadius <= centre.1 <= LaneMax + WindowRadius {
      var y := if centre.1 > LaneMax then LaneMax else if centre.1 < LaneMin then LaneMin else centre.1;
      NeededIff(centre, (centre.0, y));
    } else {
      forall c | c in Needed(centre)
        ensures false
      {
        NeededIff(centre, c);
      }
    }
  }

  /** A call whose window misses the road spawns nothing and leaves the state as it was. */
  lemma TickFarFromRoad(s: Street, centre: Cell)
    requires centre.1 >= LaneMax + WindowRadius + 1 || centre.1 <= LaneMin - WindowRadius - 1
    ensures Tick(s, centre) == s
  {
    NeededEmptyIff(centre);
    FillIdle(s, Candidates(centre));
  }
}
