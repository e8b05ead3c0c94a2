/**
 * Carrying tetrahedral stereo across an attachment point. When the R-group atom
 * `rGroup` of a fragment is about to be replaced by a bond from `atom1` (inside
 * the fragment) to `atom2`, every tetrahedral element that contains the R-group
 * atom is rebuilt with the R-group's first ligand position taken by `atom1`, the
 * same chiral atom and the same parity; the last such element is the one handed
 * back, with a new `atom1`-`atom2` bond carrying the stereo flag of the R-group's
 * first bond.
 */
module StereoTransfer {
  import opened Outcomes
  import opened MoleculeGraph

  // ---------------------------------------------------------------------------
  // Rewriting a ligand list
  // ---------------------------------------------------------------------------

  /** The first position of `x` in `xs`. */
  function IndexOf(xs: seq<AtomId>, x: AtomId): (i: nat)
    requires x in xs
    ensures i < |xs| && xs[i] == x
    ensures forall j :: 0 <= j < i ==> xs[j] != x
  {
    if xs[0] == x then 0 else 1 + IndexOf(xs[1..], x)
  }

  /** `xs` with its first `x` replaced by `y`; unchanged when `x` does not occur. */
  function ReplaceFirst(xs: seq<AtomId>, x: AtomId, y: AtomId): (r: seq<AtomId>)
    ensures |r| == |xs|
    ensures x !in xs ==> r == xs
    ensures x in xs ==> r[IndexOf(xs, x)] == y
    ensures x in xs ==> forall j :: 0 <= j < |xs| && j != IndexOf(xs, x) ==> r[j] == xs[j]
  {
    if |xs| == 0 then []
    else if xs[0] == x then [y] + xs[1..]
    else [xs[0]] + ReplaceFirst(xs[1..], x, y)
  }

  /** Replacing the first `x` by `y` takes one `x` out of the ligands and puts one `y` in. */
  lemma {:induction false} ReplaceFirstSwapsOne(xs: seq<AtomId>, x: AtomId, y: AtomId)
    ensures x in xs ==>
      multiset(ReplaceFirst(xs, x, y)) == multiset(xs) - multiset{x} + multiset{y}
  {
    if |xs| > 0 && x in xs {
      var rest := xs[1..];
      assert xs == [xs[0]] + rest;
      assert multiset(xs) == multiset{xs[0]} + multiset(rest);
      if xs[0] == x {
        assert ReplaceFirst(xs, x, y) == [y] + rest;
        assert multiset(ReplaceFirst(xs, x, y)) == multiset{y} + multiset(rest);
      } else {
        assert x in rest;
        ReplaceFirstSwapsOne(rest, x, y);
        assert ReplaceFirst(xs, x, y) == [xs[0]] + ReplaceFirst(rest, x, y);
        assert multiset(ReplaceFirst(xs, x, y)) == multiset{xs[0]} + multiset(ReplaceFirst(rest, x, y));
      }
    }
  }

  /** An R-group atom that occurs once among the ligands is gone after the rewrite, unless it is written back. */
  lemma SingleOccurrenceGone(xs: seq<AtomId>, x: AtomId, y: AtomId)
    requires multiset(xs)[x] == 1 && y != x
    ensures x !in ReplaceFirst(xs, x, y)
  {
    ReplaceFirstSwapsOne(xs, x, y);
    assert multiset(ReplaceFirst(xs, x, y))[x] == 0;
  }

  // ---------------------------------------------------------------------------
  // Which elements are rebuilt, and what comes back
  // ---------------------------------------------------------------------------

  /** An element is rebuilt when it contains the R-group atom and is a tetrahedral centre. */
  predicate Selected(e: StereoElement, rGroup: AtomId) {
    Contains(e, rGroup) && e.Tetrahedral?
  }

  /** The rebuilt centre: same chiral atom and parity, the R-group's first ligand position now `atom1`. */
  function Rebuilt(e: StereoElement, rGroup: AtomId, atom1: AtomId): (r: StereoElement)
    requires e.Tetrahedral?
    ensures r.Tetrahedral? && r.chiralAtom == e.chiralAtom && r.parity == e.parity
    ensures |r.ligands| == |e.ligands|
    ensures rGroup in e.ligands ==> r.ligands[IndexOf(e.ligands, rGroup)] == atom1
    ensures forall j :: 0 <= j < |e.ligands| && e.ligands[j] != rGroup ==> r.ligands[j] == e.ligands[j]
    ensures rGroup !in e.ligands ==> r == e
  {
    Tetrahedral(e.chiralAtom, ReplaceFirst(e.ligands, rGroup, atom1), e.parity)
  }

  /** The position of the last selected element, if any. */
  function LastSelected(es: seq<StereoElement>, rGroup: AtomId): (r: Option<nat>)
    decreases |es|
    ensures r.Some? ==> r.value < |es| && Selected(es[r.value], rGroup)
    ensures r.Some? ==> forall j :: r.value < j < |es| ==> !Selected(es[j], rGroup)
    ensures r.None? <==> forall j :: 0 <= j < |es| ==> !Selected(es[j], rGroup)
  {
    if |es| == 0 then None
    else if Selected(es[|es| - 1], rGroup) then Some(|es| - 1)
    else LastSelected(es[..|es| - 1], rGroup)
  }

  /** The element handed back: the last selected element, rebuilt; none when no element is selected. */
  function ElementToAdd(es: seq<StereoElement>, rGroup: AtomId, atom1: AtomId): Option<StereoElement> {
    match LastSelected(es, rGroup)
    case None => None
    case Some(k) => Some(Rebuilt(es[k], rGroup, atom1))
  }

  /** Some selected element has the R-group atom among its ligands (not only as its chiral atom). */
  predicate HasLigandSite(es: seq<StereoElement>, rGroup: AtomId) {
    exists j :: 0 <= j < |es| && Selected(es[j], rGroup) && rGroup in es[j].ligands
  }

  /** The stereo flag of the R-group atom's first bond; absent when it has no bond. */
  function FirstBondStereo(rGroupBonds: seq<Bond>): Option<BondStereo> {
    if |rGroupBonds| == 0 then None else rGroupBonds[0].stereo
  }

  /** The bond handed back: `atom1`-`atom2`, single, with the R-group bond's flag, when a ligand was rewritten. */
  function BondToAdd(es: seq<StereoElement>, rGroup: AtomId, atom1: AtomId, atom2: AtomId, st: Option<BondStereo>)
    : Option<Bond>
  {
    if HasLigandSite(es, rGroup) then Some(Bond(atom1, atom2, Single, st)) else None
  }

  /** What the transfer hands back: the rebuilt element and the bond to add, each possibly absent. */
  datatype TransferredStereo = TransferredStereo(element: Option<StereoElement>, bond: Option<Bond>)

  // ---------------------------------------------------------------------------
  // The scan
  // ---------------------------------------------------------------------------

  /** A fresh array holding `xs`, as the ligand getter hands out a copy. */
  method LigandArray(xs: seq<AtomId>) returns (a: array<AtomId>)
    ensures fresh(a) && a[..] == xs
  {
    a := new AtomId[|xs|](i requires 0 <= i < |xs| => xs[i]);
  }

  /** Overwrites the first `rGroup` in the array with `atom1`, reporting whether there was one. */
  method OverwriteFirst(ligands: array<AtomId>, rGroup: AtomId, atom1: AtomId) returns (found: bool)
    modifies ligands
    ensures found == (rGroup in old(ligands[..]))
    ensures ligands[..] == ReplaceFirst(old(ligands[..]), rGroup, atom1)
  {
    ghost var before := ligands[..];
    var i := 0;
    found := false;
    while i < ligands.Length
      invariant 0 <= i <= ligands.Length
      invariant ligands[..] == before
      invariant forall j :: 0 <= j < i ==> before[j] != rGroup
      decreases ligands.Length - i
    {
      if ligands[i] == rGroup {
        assert IndexOf(before, rGroup) == i by {
          IndexOfIsFirst(before, rGroup, i);
        }
        ligands[i] := atom1;
        found := true;
        break;
      }
      i := i + 1;
    }
    if found {
      assert forall j :: 0 <= j < ligands.Length ==> ligands[j] == ReplaceFirst(before, rGroup, atom1)[j];
    } else {
      assert rGroup !in before by {
        forall j | 0 <= j < |before| ensures before[j] != rGroup { }
      }
    }
  }

  /** A position holding `x` with no `x` before it is the first position of `x`. */
  lemma IndexOfIsFirst(xs: seq<AtomId>, x: AtomId, i: nat)
    requires i < |xs| && xs[i] == x && forall j :: 0 <= j < i ==> xs[j] != x
    ensures IndexOf(xs, x) == i
  {
  }

  /**
   * Scans the stereo elements of `molecule`. Every tetrahedral element containing
   * the R-group atom is rebuilt from a copy of its ligands in which the first
   * R-group position is overwritten with `atom1`, and the bond to add is set when
   * that position exists; the last rebuilt element and the last bond set come back.
   */
  method GetStereoInformation(
    molecule: Molecule, rGroup: AtomId, rGroupBonds: seq<Bond>, atom1: AtomId, atom2: AtomId)
    returns (r: TransferredStereo)
    ensures r.element == ElementToAdd(molecule.stereoElements, rGroup, atom1)
    ensures r.bond == BondToAdd(molecule.stereoElements, rGroup, atom1, atom2, FirstBondStereo(rGroupBonds))
  {
    var es := molecule.stereoElements;
    var elementToAdd: Option<StereoElement> := None;
    var bondToAdd: Option<Bond> := None;
    for k := 0 to |es|
      invariant elementToAdd == ElementToAdd(es[..k], rGroup, atom1)
      invariant bondToAdd == BondToAdd(es[..k], rGroup, atom1, atom2, FirstBondStereo(rGroupBonds))
    {
      var element := es[k];
      if Contains(element, rGroup) {
        if element.Tetrahedral? {
          var atomArray := LigandArray(element.ligands);
          var found := OverwriteFirst(atomArray, rGroup, atom1);
          if found {
            bondToAdd := Some(Bond(atom1, atom2, Single, FirstBondStereo(rGroupBonds)));
          }
          elementToAdd := Some(Tetrahedral(element.chiralAtom, atomArray[..], element.parity));
        }
      }
      ScanStep(es, k, rGroup, atom1, atom2, FirstBondStereo(rGroupBonds));
    }
    assert es[..|es|] == es;
    r := TransferredStereo(elementToAdd, bondToAdd);
  }

  /** How the element and the bond to add change when the scan takes one more element. */
  lemma ScanStep(es: seq<StereoElement>, k: nat, rGroup: AtomId, atom1: AtomId, atom2: AtomId, st: Option<BondStereo>)
    requires k < |es|
    ensures Selected(es[k], rGroup) ==>
      ElementToAdd(es[..k + 1], rGroup, atom1) == Some(Rebuilt(es[k], rGroup, atom1))
    ensures !Selected(es[k], rGroup) ==>
      ElementToAdd(es[..k + 1], rGroup, atom1) == ElementToAdd(es[..k], rGroup, atom1)
    ensures Selected(es[k], rGroup) && rGroup in es[k].ligands ==>
      BondToAdd(es[..k + 1], rGroup, atom1, atom2, st) == Some(Bond(atom1, atom2, Single, st))
    ensures !(Selected(es[k], rGroup) && rGroup in es[k].ligands) ==>
      BondToAdd(es[..k + 1], rGroup, atom1, atom2, st) == BondToAdd(es[..k], rGroup, atom1, atom2, st)
  {
    var pre, cur := es[..k], es[..k + 1];
    assert cur[..k] == pre;
    assert cur[k] == es[k];
    if HasLigandSite(cur, rGroup) && !(Selected(es[k], rGroup) && rGroup in es[k].ligands) {
      var j :| 0 <= j < |cur| && Selected(cur[j], rGroup) && rGroup in cur[j].ligands;
      assert j < k && cur[j] == pre[j];
    }
    if HasLigandSite(pre, rGroup) {
      var j :| 0 <= j < |pre| && Selected(pre[j], rGroup) && rGroup in pre[j].ligands;
      assert cur[j] == pre[j];
    }
  }

  // ---------------------------------------------------------------------------
  // What the scan promises
  // ---------------------------------------------------------------------------

  /**
   * Nothing comes back when no tetrahedral element contains the R-group atom;
   * otherwise the element is the last such element, with its chiral atom, its
   * parity and the length of its ligand list kept.
   */
  lemma TransferOutcome(es: seq<StereoElement>, rGroup: AtomId, atom1: AtomId)
    ensures ElementToAdd(es, rGroup, atom1).None? <==> forall j :: 0 <= j < |es| ==> !Selected(es[j], rGroup)
    ensures ElementToAdd(es, rGroup, atom1).Some? ==>
      exists k :: 0 <= k < |es| && Selected(es[k], rGroup) &&
        (forall j :: k < j < |es| ==> !Selected(es[j], rGroup)) &&
        var e := ElementToAdd(es, rGroup, atom1).value;
        e.Tetrahedral? && e.chiralAtom == es[k].chiralAtom && e.parity == es[k].parity &&
        |e.ligands| == |es[k].ligands|
  {
    match LastSelected(es, rGroup)
    case None =>
    case Some(k) =>
      assert Selected(es[k], rGroup);
  }

  /** A bond comes back exactly when some selected element has the R-group atom among its ligands. */
  lemma BondOutcome(es: seq<StereoElement>, rGroup: AtomId, atom1: AtomId, atom2: AtomId, rGroupBonds: seq<Bond>)
    ensures BondToAdd(es, rGroup, atom1, atom2, FirstBondStereo(rGroupBonds)).Some? <==>
      exists j :: 0 <= j < |es| && es[j].Tetrahedral? && rGroup in es[j].ligands
    ensures BondToAdd(es, rGroup, atom1, atom2, FirstBondStereo(rGroupBonds)).Some? ==>
      var b := BondToAdd(es, rGroup, atom1, atom2, FirstBondStereo(rGroupBonds)).value;
      b.begin == atom1 && b.end == atom2 && b.order == Single &&
      (|rGroupBonds| > 0 ==> b.stereo == rGroupBonds[0].stereo) &&
      (|rGroupBonds| == 0 ==> b.stereo.None?)
  {
    if exists j :: 0 <= j < |es| && es[j].Tetrahedral? && rGroup in es[j].ligands {
      var j :| 0 <= j < |es| && es[j].Tetrahedral? && rGroup in es[j].ligands;
      assert Selected(es[j], rGroup);
    }
  }

  /**
   * A ligand list [P, L2, L3, L4] around a clockwise centre becomes [Q, L2, L3, L4],
   * still clockwise, when P is replaced by Q.
   */
  lemma ClockwiseCentreExample()
    ensures ElementToAdd([Tetrahedral(5, [1, 2, 3, 4], Clockwise)], 1, 9)
         == Some(Tetrahedral(5, [9, 2, 3, 4], Clockwise))
  {
    var e := Tetrahedral(5, [1, 2, 3, 4], Clockwise);
    assert Selected(e, 1) && LastSelected([e], 1) == Some(0);
    assert [1, 2, 3, 4][1..] == [2, 3, 4];
    assert ReplaceFirst([1, 2, 3, 4], 1, 9) == [9, 2, 3, 4];
  }
}
