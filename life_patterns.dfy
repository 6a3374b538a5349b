/**
 * A known Game of Life pattern, seeded directly into a lattice, and the
 * generations the scene's rule produces from it on a small torus.
 */
module LifePatterns {
  import opened Life

  /** A horizontal blinker: columns 1 to 3 of row 2 alive on a 5x5 torus. */
  function BlinkerH(): Board {
    seq(5, c => seq(5, r => if r == 2 && 1 <= c <= 3 then 1 else 0))
  }

  /** The same blinker turned vertical: rows 1 to 3 of column 2. */
  function BlinkerV(): Board {
    seq(5, c => seq(5, r => if c == 2 && 1 <= r <= 3 then 1 else 0))
  }

  /** One generation turns the horizontal blinker vertical. */
  lemma BlinkerTurnsVertical()
    ensures Successor(BlinkerH(), 5, 5) == BlinkerV()
  {
    var h, v := BlinkerH(), BlinkerV();
    assert IsGrid(h, 5, 5);
    var s := Successor(h, 5, 5);
    forall c, r | 0 <= c < 5 && 0 <= r < 5 ensures s[c][r] == v[c][r] {
      assert s[c][r] == NextCell(h, 5, 5, c, r);
    }
    SameBoard(s, v, 5, 5);
  }

  /** One generation turns the vertical blinker back horizontal. */
  lemma BlinkerTurnsHorizontal()
    ensures Successor(BlinkerV(), 5, 5) == BlinkerH()
  {
    var h, v := BlinkerH(), BlinkerV();
    assert IsGrid(v, 5, 5);
    var s := Successor(v, 5, 5);
    forall c, r | 0 <= c < 5 && 0 <= r < 5 ensures s[c][r] == h[c][r] {
      assert s[c][r] == NextCell(v, 5, 5, c, r);
    }
    SameBoard(s, h, 5, 5);
  }

  /** The blinker has period two. */
  lemma BlinkerPeriodTwo()
    ensures Successor(Successor(BlinkerH(), 5, 5), 5, 5) == BlinkerH()
  {
    BlinkerTurnsVertical();
    BlinkerTurnsHorizontal();
  }
}
