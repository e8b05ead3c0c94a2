/**
 * Joining two fragments with a plain bond. `bindAtoms` makes a single bond
 * between two atoms of the chemistry library's own atom kind and refuses anything
 * else as "invalid atoms"; `setStereoInformation` falls back on such a bond when
 * the stereo-preserving join (inherited, and not part of this model) reports that
 * it did not apply.
 */
module Binding {
  import opened Outcomes
  import opened MoleculeGraph

  /** An atom handed to the join: one of the library's atoms, an atom of some other kind, or null. */
  datatype AtomHandle = LibraryAtom(id: AtomId) | ForeignAtom | NullAtom

  /**
   * The join as the guard is written: it tests the first atom twice and never
   * the second, so a foreign second atom fails on the cast and a null one on the
   * dereference, instead of being refused as invalid.
   */
  function BindAtomsAsWritten(atom1: AtomHandle, atom2: AtomHandle): (r: Result<Bond>)
    ensures r.Success? <==> atom1.LibraryAtom? && atom2.LibraryAtom?
    ensures !atom1.LibraryAtom? ==> r == Failure(InvalidAtoms)
    ensures atom1.LibraryAtom? && atom2.ForeignAtom? ==> r == Failure(ClassCast)
    ensures atom1.LibraryAtom? && atom2.NullAtom? ==> r == Failure(NullPointer)
  {
    if !atom1.LibraryAtom? then Failure(InvalidAtoms)
    else match atom2
      case LibraryAtom(id2) => Success(PlainBond(atom1.id, id2))
      case ForeignAtom => Failure(ClassCast)
      case NullAtom => Failure(NullPointer)
  }

  /** The join with both atoms tested, as the error message and the casts intend. */
  function BindAtoms(atom1: AtomHandle, atom2: AtomHandle): (r: Result<Bond>)
    ensures r.Success? <==> atom1.LibraryAtom? && atom2.LibraryAtom?
    ensures r.Failure? ==> r.error == InvalidAtoms
    ensures r.Success? ==>
      r.value.begin == atom1.id && r.value.end == atom2.id &&
      r.value.order == Single && r.value.stereo == Some(NoStereo)
  {
    if atom1.LibraryAtom? && atom2.LibraryAtom? then Success(PlainBond(atom1.id, atom2.id))
    else Failure(InvalidAtoms)
  }

  /** The two agree on every pair of atoms except a library atom followed by a foreign or null one. */
  lemma GuardDifference(atom1: AtomHandle, atom2: AtomHandle)
    ensures BindAtomsAsWritten(atom1, atom2) != BindAtoms(atom1, atom2) <==>
      atom1.LibraryAtom? && !atom2.LibraryAtom?
  {
  }

  /** A library atom joined to a foreign atom: a cast failure as written, "invalid atoms" as intended. */
  lemma ForeignSecondAtom()
    ensures BindAtomsAsWritten(LibraryAtom(1), ForeignAtom) == Failure(ClassCast)
    ensures BindAtoms(LibraryAtom(1), ForeignAtom) == Failure(InvalidAtoms)
  {
  }

  /**
   * The fallback join: when the stereo-preserving join did not apply, a plain bond
   * between the two atoms is added to the first fragment (or the join fails and
   * the fragment is left as it was); when it did apply, nothing is added.
   */
  method SetStereoInformation(firstContainer: Molecule, atom1: AtomHandle, atom2: AtomHandle, inheritedIsStereo: bool)
    returns (r: Result<bool>)
    modifies firstContainer
    ensures inheritedIsStereo ==> r == Success(true) && unchanged(firstContainer)
    ensures !inheritedIsStereo && BindAtoms(atom1, atom2).Success? ==>
      r == Success(false) &&
      firstContainer.bonds == old(firstContainer.bonds) + [BindAtoms(atom1, atom2).value] &&
      firstContainer.stereoElements == old(firstContainer.stereoElements)
    ensures !inheritedIsStereo && BindAtoms(atom1, atom2).Failure? ==>
      r == Failure(InvalidAtoms) && unchanged(firstContainer)
  {
    if !inheritedIsStereo {
      var bond := BindAtoms(atom1, atom2);
      if bond.Failure? {
        return Failure(bond.error);
      }
      firstContainer.AddBond(bond.value);
    }
    r := Success(inheritedIsStereo);
  }
}
