/**
 * The molecule graph the stereo and bond operations work on. Atoms are addressed
 * by integer identities; a bond joins two of them with an order and an optional
 * stereo flag (absent stands for a flag that was never set); a stereo element is
 * a tetrahedral centre with its ordered ligands and parity, or some other kind
 * of stereo element over a set of carrier atoms.
 */
module MoleculeGraph {
  import opened Outcomes

  /** The identity of an atom. */
  type AtomId = int

  datatype Order = Single | Double | Triple | Quadruple

  /** The stereo flags a bond can carry (the values of the chemistry library's bond stereo enumeration). */
  datatype BondStereo =
    | NoStereo
    | Up | UpInverted | Down | DownInverted | UpOrDown | UpOrDownInverted
    | EOrZ | E | Z | EZByCoordinates

  datatype Bond = Bond(begin: AtomId, end: AtomId, order: Order, stereo: Option<BondStereo>)

  /** The bond the library makes from two atoms alone: single, with no stereo. */
  function PlainBond(a: AtomId, b: AtomId): Bond {
    Bond(a, b, Single, Some(NoStereo))
  }

  /** The sense of a tetrahedral centre, seen along its first ligand. */
  datatype Parity = Clockwise | Anticlockwise

  datatype StereoElement =
    | Tetrahedral(chiralAtom: AtomId, ligands: seq<AtomId>, parity: Parity)
    | OtherStereo(carriers: seq<AtomId>)

  /** An element contains its focus (the chiral atom of a tetrahedral centre) and all its carriers. */
  predicate Contains(e: StereoElement, a: AtomId) {
    match e
    case Tetrahedral(chiral, ligands, _) => a == chiral || a in ligands
    case OtherStereo(carriers) => a in carriers
  }

  /** A molecule whose bond list is extended in place. */
  class Molecule {
    var bonds: seq<Bond>
    var stereoElements: seq<StereoElement>

    constructor(bonds: seq<Bond>, stereoElements: seq<StereoElement>)
      ensures this.bonds == bonds && this.stereoElements == stereoElements
    {
      this.bonds := bonds;
      this.stereoElements := stereoElements;
    }

    /** Adds a bond at the end of the bond list; the stereo elements are not touched. */
    method AddBond(b: Bond)
      modifies this
      ensures bonds == old(bonds) + [b]
      ensures stereoElements == old(stereoElements)
    {
      bonds := bonds + [b];
    }
  }
}
