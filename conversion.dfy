/**
 * Turning a SMILES string or a molfile into an atom container: the rejection of
 * disconnected SMILES before parsing, and the pass that relabels every pseudo-atom
 * as "R" afterwards. The SMILES parser with its 2-D layout, and the molfile reader
 * with atom typing and aromaticity, are library code and enter as function
 * parameters that either yield the parsed atoms or fail.
 */
module Conversion {
  import opened Outcomes
  import opened ExtendedSmiles

  /** An atom of a parsed molecule: its symbol, and whether it is a pseudo-atom (an R-group). */
  datatype Atom = Atom(symbol: string, pseudo: bool)

  /** The symbol every pseudo-atom is given after parsing. */
  const RGroupSymbol: string := "R"

  /**
   * `after` is `before` with every pseudo-atom renamed "R": same atoms in the same
   * order, pseudo-atoms keep their kind and get the symbol "R", all other atoms are
   * untouched.
   */
  ghost predicate RelabelledFrom(before: seq<Atom>, after: seq<Atom>) {
    |after| == |before| &&
    forall i :: 0 <= i < |before| ==>
      (before[i].pseudo ==> after[i] == Atom(RGroupSymbol, true)) &&
      (!before[i].pseudo ==> after[i] == before[i])
  }

  /** The relabel pass over the atoms of a molecule, in place. */
  method RelabelPseudoAtoms(atoms: array<Atom>)
    modifies atoms
    ensures RelabelledFrom(old(atoms[..]), atoms[..])
  {
    for i := 0 to atoms.Length
      invariant RelabelledFrom(old(atoms[..])[..i], atoms[..i])
      invariant atoms[i..] == old(atoms[..])[i..]
    {
      if atoms[i].pseudo {
        atoms[i] := atoms[i].(symbol := RGroupSymbol);
      }
    }
    assert atoms[..atoms.Length] == atoms[..];
    assert old(atoms[..])[..atoms.Length] == old(atoms[..]);
  }

  /** Relabelling is deterministic: a molecule has one relabelled form. */
  lemma RelabelledFormIsUnique(before: seq<Atom>, a: seq<Atom>, b: seq<Atom>)
    requires RelabelledFrom(before, a) && RelabelledFrom(before, b)
    ensures a == b
  {
    assert forall i :: 0 <= i < |a| ==> a[i] == b[i];
  }

  /** A relabelled molecule is left as it is by a second pass. */
  lemma RelabelIsIdempotent(before: seq<Atom>, after: seq<Atom>)
    requires RelabelledFrom(before, after)
    ensures RelabelledFrom(after, after)
  {
    forall i | 0 <= i < |after| ensures after[i].pseudo == before[i].pseudo {
    }
  }

  /** A fresh array holding `xs`. */
  method ToArray(xs: seq<Atom>) returns (a: array<Atom>)
    ensures fresh(a) && a[..] == xs
  {
    a := new Atom[|xs|](i requires 0 <= i < |xs| => xs[i]);
  }

  /**
   * A molecule from (extended) SMILES: the chemical part with its placeholders
   * renamed after `groups`; a string with '.' is rejected as not connected before
   * parsing; a parse failure is reported; otherwise the parsed atoms come back
   * with every pseudo-atom relabelled "R".
   */
  method GetIAtomContainer(
    smiles: string, sep: string, groups: seq<string>, parseAndLayout: string -> Option<seq<Atom>>)
    returns (r: Result<seq<Atom>>)
    requires |sep| > 0
    ensures SubstitutedSmiles(smiles, sep, groups).Failure? ==>
      r == Failure(SubstitutedSmiles(smiles, sep, groups).error)
    ensures SubstitutedSmiles(smiles, sep, groups).Success? ==>
      var s := SubstitutedSmiles(smiles, sep, groups).value;
      ('.' in s ==> r == Failure(NotConnected)) &&
      ('.' !in s && parseAndLayout(s).None? ==> r == Failure(ParseFailure)) &&
      ('.' !in s && parseAndLayout(s).Some? ==> r.Success? && RelabelledFrom(parseAndLayout(s).value, r.value))
  {
    var normalized := NormalizeGroups(smiles, sep, groups);
    if normalized.Failure? {
      return Failure(normalized.error);
    }
    var s := normalized.value;
    if '.' in s {
      return Failure(NotConnected);
    }
    var parsed := parseAndLayout(s);
    if parsed.None? {
      return Failure(ParseFailure);
    }
    var atoms := ToArray(parsed.value);
    RelabelPseudoAtoms(atoms);
    r := Success(atoms[..]);
  }

  /** A molecule from a molfile: a read failure is reported, otherwise every pseudo-atom is relabelled "R". */
  method GetIAtomContainerFromMolFile(molfile: string, read: string -> Option<seq<Atom>>)
    returns (r: Result<seq<Atom>>)
    ensures read(molfile).None? ==> r == Failure(ParseFailure)
    ensures read(molfile).Some? ==> r.Success? && RelabelledFrom(read(molfile).value, r.value)
  {
    var parsed := read(molfile);
    if parsed.None? {
      return Failure(ParseFailure);
    }
    var atoms := ToArray(parsed.value);
    RelabelPseudoAtoms(atoms);
    r := Success(atoms[..]);
  }
}
