/** The fixed lookup that relates a coordinate to the three other coordinates. */
module Adjacency {
  import opened JointStates

  /** The three other coordinates, in the order the source returns them. */
  datatype Neighbours = Neighbours(sameParalogOtherSite: nat, otherParalogSameSite: nat, otherParalogOtherSite: nat)

  /** The lookup table: 0 -> (1, 2, 3), 1 -> (0, 3, 2), 2 -> (3, 0, 1), 3 -> (2, 1, 0).
      Its contract states each entry by the layout `2 * paralog + site`. */
  function OtherPositions(pos: nat): (nb: Neighbours)
    requires pos < 4
    ensures nb.sameParalogOtherSite == Coordinate(Paralog(pos), 1 - Site(pos))
    ensures nb.otherParalogSameSite == Coordinate(1 - Paralog(pos), Site(pos))
    ensures nb.otherParalogOtherSite == Coordinate(1 - Paralog(pos), 1 - Site(pos))
  {
    if pos == 0 then Neighbours(1, 2, 3)
    else if pos == 1 then Neighbours(0, 3, 2)
    else if pos == 2 then Neighbours(3, 0, 1)
    else Neighbours(2, 1, 0)
  }

  /** `pos` and its three neighbours are the four coordinates, each once. */
  lemma NeighboursArePermutation(pos: nat)
    requires pos < 4
    ensures var nb := OtherPositions(pos);
      multiset{pos, nb.sameParalogOtherSite, nb.otherParalogSameSite, nb.otherParalogOtherSite}
        == multiset{0, 1, 2, 3}
  {
    var nb := OtherPositions(pos);
    if pos == 0 {
      assert nb == Neighbours(1, 2, 3);
    } else if pos == 1 {
      assert nb == Neighbours(0, 3, 2);
      assert multiset{1, 0, 3, 2} == multiset{0, 1, 2, 3};
    } else if pos == 2 {
      assert nb == Neighbours(3, 0, 1);
      assert multiset{2, 3, 0, 1} == multiset{0, 1, 2, 3};
    } else {
      assert nb == Neighbours(2, 1, 0);
      assert multiset{3, 2, 1, 0} == multiset{0, 1, 2, 3};
    }
  }

  /** Going to the other paralog twice returns to the starting coordinate. */
  lemma OtherParalogInvolution(pos: nat)
    requires pos < 4
    ensures OtherPositions(pos).otherParalogSameSite < 4
    ensures OtherPositions(OtherPositions(pos).otherParalogSameSite).otherParalogSameSite == pos
  {
  }
}
