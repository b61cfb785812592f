/** The board entities the pad tool reads and writes: pads, footprints and the
    commit (undo) log of the host editor. */
module BoardModel {

  /** PAD_ATTR_T: through-hole, surface-mount, edge-connector and non-plated hole pads. */
  datatype PadAttribute = Standard | Smd | Conn | HoleNotPlated

  /** A pad (D_PAD) as far as the pad tool sees it.
      `orientation` is the absolute orientation in tenths of a degree, `layers` the
      layer set, `aperture` the answer of IsAperturePad(). */
  datatype Pad = Pad(
    name: string,
    selected: bool,
    shape: int,
    orientation: int,
    layers: set<int>,
    attribute: PadAttribute,
    aperture: bool)

  /** A footprint (MODULE): its library identifier, its orientation and the
      board indices of its pads, in the footprint's own order. */
  datatype Footprint = Footprint(fpid: string, orientation: int, pads: seq<nat>)

  /** One intent recorded in a BOARD_COMMIT: Modify(pad) registers a pad before it
      is changed; Push(message) and Revert end the commit. */
  datatype CommitOp = Modify(pad: nat) | Push(message: string) | Revert

  /** Every footprint lists only pads of the board, and every pad belongs to at
      most one footprint, at one position. */
  ghost predicate BoardWellFormed(modules: seq<Footprint>, padCount: nat)
  {
    && (forall m, j | 0 <= m < |modules| && 0 <= j < |modules[m].pads| :: modules[m].pads[j] < padCount)
    && (forall m1, j1, m2, j2 |
          && 0 <= m1 < |modules| && 0 <= j1 < |modules[m1].pads|
          && 0 <= m2 < |modules| && 0 <= j2 < |modules[m2].pads|
          && modules[m1].pads[j1] == modules[m2].pads[j2]
          :: m1 == m2 && j1 == j2)
  }

  /** Every index in `list` names a pad of a board with `padCount` pads. */
  predicate AllPadsIn(list: seq<nat>, padCount: nat)
  {
    forall k | 0 <= k < |list| :: list[k] < padCount
  }

  /** A list made of entries of a list of pads of the board also names pads of the board. */
  lemma AllPadsInSublist(list: seq<nat>, sub: seq<nat>, padCount: nat)
    requires AllPadsIn(list, padCount)
    requires forall x | x in sub :: x in list
    ensures AllPadsIn(sub, padCount)
  {
    forall k | 0 <= k < |sub| ensures sub[k] < padCount {
      assert sub[k] in list;
    }
  }
}
