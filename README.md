# CDK manipulator core, modelled in Dafny

This project models the part of the HELM chemistry toolkit's CDK manipulator
(`CDKManipulator.java`) that does its own work rather than handing the molecule
to the CDK library:

- **Extended-SMILES normalisation** (`extended_smiles.dfy`). `normalize(smiles)`
  keeps the chemical part before the extension separator, with Java's
  `String.split` semantics written out. `normalize(smiles, groups)` scans the
  chemical part left to right for the placeholder atoms `[*]`, `[*:n]` and
  `[word:n]`. Their syntax is modelled on the wildcard and atom-class syntax of
  OpenSMILES, sections 3.1.6 and 3.1.7. The scan replaces them, in order, with `[label]`.
  The scan is a `while` loop proved against a recursive specification. That
  specification is then characterised by a reading of the string as
  placeholder-free gaps alternating with placeholder tokens.
- **Molecule construction** (`conversion.dfy`). A normalised SMILES containing
  '.' is rejected before parsing. After parsing, and after reading a molfile,
  an in-place loop over the atom array renames every pseudo-atom "R".
- **The molecule graph** (`molecule_graph.dfy`). Atoms are integer identities.
  The model has bonds with an order and an optional stereo flag, tetrahedral
  stereo elements with ordered ligands and a parity, and a `Molecule` class
  whose bond list is extended in place.
- **Stereo transfer** (`stereo_transfer.dfy`). `getStereoInformation` scans the
  stereo elements. It rebuilds every tetrahedral element that contains the
  R-group atom, putting `atom1` in the R-group's first ligand position. The last
  rebuilt element is returned, together with an `atom1`-`atom2` bond that
  carries the stereo flag of the R-group's first bond.
- **Bond creation and the fallback join** (`binding.dfy`). This covers
  `bindAtoms` and `setStereoInformation`.

Failures are values of `Outcomes.Result` (`outcomes.dfy`). Each Java exception
the code can end in is an `Outcomes.Error` constructor.

A label list that is non-empty but shorter than the number of placeholders
makes `groups.get(index)` run past the end of the list, which throws
`IndexOutOfBoundsException`. `NormalizeGroups` fails with `IndexOutOfBounds` in
that case.

## Model

| member | source | states |
|---|---|---|
| ExtendedSmiles.Normalize | src/main/java/org/helm/chemtoolkit/cdk/CDKManipulator.java:113-119 | Fails with an index error exactly when the string is one or more separators and nothing else, because split leaves no component 0. Otherwise the result is the prefix of the string up to the first separator, or the whole string when there is none. |
| ExtendedSmiles.Split | src/main/java/org/helm/chemtoolkit/cdk/CDKManipulator.java:115 | `String.split` with limit 0 returns no components exactly when the string is a run of separators. Otherwise its first component is the text before the first separator, and when the separator occurs the last component is non-empty, because trailing empty pieces are dropped. |
| ExtendedSmiles.PiecesAllEmpty | src/main/java/org/helm/chemtoolkit/cdk/CDKManipulator.java:115-116 | Every piece of the split is empty if and only if the string is empty or a run of separators. Split with limit 0 returns no components when, in addition, the separator occurs, that is exactly for a run of separators; the empty string splits into itself. |
| ExtendedSmiles.NormalizeWithoutSeparator | src/main/java/org/helm/chemtoolkit/cdk/CDKManipulator.java:113-119 | A string in which the separator never occurs comes back unchanged. |
| ExtendedSmiles.NormalizeWithoutSeparatorStart | src/main/java/org/helm/chemtoolkit/cdk/CDKManipulator.java:113-119 | In particular, a string that never holds the separator's first character comes back unchanged. |
| ExtendedSmiles.PlaceholderAlternatives | src/main/java/org/helm/chemtoolkit/cdk/CDKManipulator.java:134 | A string is a placeholder exactly when it is `[*]`, or `[name:n]` where the name is `*` or a non-empty run of ASCII word characters (letters, digits, `_`) and `n` is a decimal without a leading zero. These are the three alternatives of the pattern. |
| ExtendedSmiles.ClassTokenIsPlaceholder | src/main/java/org/helm/chemtoolkit/cdk/CDKManipulator.java:134 | Every `[*:n]` and `[word:n]` token matches the placeholder test. |
| ExtendedSmiles.PlaceholderShape | src/main/java/org/helm/chemtoolkit/cdk/CDKManipulator.java:134 | Every placeholder token opens with '[', closes with ']', and holds no bracket in between. |
| ExtendedSmiles.PlaceholderEndUnique | src/main/java/org/helm/chemtoolkit/cdk/CDKManipulator.java:134 | Two placeholders that start at the same position end at the same position, so the token matched at a position is unique. |
| ExtendedSmiles.FindFrom | src/main/java/org/helm/chemtoolkit/cdk/CDKManipulator.java:140 | One `find` step returns a placeholder span at or after the cursor, with no placeholder starting between the cursor and it. When it finds nothing, no placeholder lies at or after the cursor. |
| ExtendedSmiles.ReplaceAllWithoutTarget | src/main/java/org/helm/chemtoolkit/cdk/CDKManipulator.java:142 | `String.replace` with a literal target leaves a string in which the target never occurs unchanged. |
| ExtendedSmiles.ReplaceAllOfSuffix | src/main/java/org/helm/chemtoolkit/cdk/CDKManipulator.java:142 | `String.replace` on a string whose only occurrence of the target is its suffix replaces exactly that suffix. |
| ExtendedSmiles.ReplaceTouchesOnlyTheMatch | src/main/java/org/helm/chemtoolkit/cdk/CDKManipulator.java:141-142 | Replacing every occurrence of the matched token in the segment from the cursor to the match's end changes only the match. |
| ExtendedSmiles.Substitute | src/main/java/org/helm/chemtoolkit/cdk/CDKManipulator.java:140-151 | The loop's reference definition from a cursor: it fails only with an index error, and only when the label list is non-empty. |
| ExtendedSmiles.NormalizeGroups | src/main/java/org/helm/chemtoolkit/cdk/CDKManipulator.java:130-154 | The loop with its `start` and `index` cursors and the tail append computes the left-to-right substitution, including the index error when the labels run out. |
| ExtendedSmiles.Decompose | src/main/java/org/helm/chemtoolkit/cdk/CDKManipulator.java:134-140 | Every string reads as placeholder-free gaps alternating with placeholder tokens, as the scan finds them. |
| ExtendedSmiles.DecompositionHead | src/main/java/org/helm/chemtoolkit/cdk/CDKManipulator.java:140-146 | The first gap and token of such a reading sit at the front of the string, and what follows them reads on. |
| ExtendedSmiles.FindsTokenAfterGap | src/main/java/org/helm/chemtoolkit/cdk/CDKManipulator.java:140 | After a placeholder-free gap, `find` stops at exactly the token that follows it. |
| ExtendedSmiles.FindsNothingInFreeText | src/main/java/org/helm/chemtoolkit/cdk/CDKManipulator.java:140 | In placeholder-free text `find` finds nothing. |
| ExtendedSmiles.SubstituteFillsInOrder | src/main/java/org/helm/chemtoolkit/cdk/CDKManipulator.java:140-151 | From any position, the loop replaces the i-th remaining placeholder with the i-th remaining label in brackets and keeps every gap. If fewer labels remain than placeholders, it fails with an index error. |
| ExtendedSmiles.NormalizeGroupsFillsPlaceholders | src/main/java/org/helm/chemtoolkit/cdk/CDKManipulator.java:130-154 | With no labels, the result is `normalize(smiles)`. With at least as many labels as placeholders, the i-th placeholder becomes `[groups[i]]` and all other text is kept in order. With some labels but fewer than placeholders, it fails. |
| ExtendedSmiles.NoPlaceholdersNoChange | src/main/java/org/helm/chemtoolkit/cdk/CDKManipulator.java:130-154 | A chemical part without placeholders comes back unchanged, whatever the labels. |
| ExtendedSmiles.TwoPlaceholdersExample | src/main/java/org/helm/chemtoolkit/cdk/CDKManipulator.java:130-154 | `[*:1]CC[*:2]` with labels R1, R2 becomes `[R1]CC[R2]`. |
| Conversion.RelabelPseudoAtoms | src/main/java/org/helm/chemtoolkit/cdk/CDKManipulator.java:475-479 | The in-place pass leaves the atoms in order. Every pseudo-atom now has symbol "R", and every other atom is untouched. |
| Conversion.RelabelledFormIsUnique | src/main/java/org/helm/chemtoolkit/cdk/CDKManipulator.java:475-479 | The relabelled form of a molecule is determined by it. |
| Conversion.RelabelIsIdempotent | src/main/java/org/helm/chemtoolkit/cdk/CDKManipulator.java:475-479 | A second relabel pass changes nothing. |
| Conversion.GetIAtomContainer | src/main/java/org/helm/chemtoolkit/cdk/CDKManipulator.java:458-485 | A normalisation failure propagates, and a normalised string with '.' is rejected as not connected before parsing. A parse or layout failure is reported. Otherwise the parsed atoms come back relabelled. |
| Conversion.GetIAtomContainerFromMolFile | src/main/java/org/helm/chemtoolkit/cdk/CDKManipulator.java:258-291 | A read failure is reported. Otherwise the atoms read come back relabelled. |
| MoleculeGraph.Molecule.AddBond | src/main/java/org/helm/chemtoolkit/cdk/CDKManipulator.java:611 | Adding a bond appends it to the bond list and leaves the stereo elements as they were. |
| StereoTransfer.IndexOf | src/main/java/org/helm/chemtoolkit/cdk/CDKManipulator.java:524-526 | The position the inner loop stops at holds the R-group atom, and no earlier position does. |
| StereoTransfer.ReplaceFirst | src/main/java/org/helm/chemtoolkit/cdk/CDKManipulator.java:524-539 | The rewritten ligand list keeps its length. The first R-group position holds the new atom and every other position is unchanged. Without the R-group, the list is unchanged. |
| StereoTransfer.ReplaceFirstSwapsOne | src/main/java/org/helm/chemtoolkit/cdk/CDKManipulator.java:537 | The rewrite takes one R-group atom out of the ligands and puts one `atom1` in. |
| StereoTransfer.SingleOccurrenceGone | src/main/java/org/helm/chemtoolkit/cdk/CDKManipulator.java:537 | An R-group atom that occurs once among the ligands no longer occurs after the rewrite. |
| StereoTransfer.Rebuilt | src/main/java/org/helm/chemtoolkit/cdk/CDKManipulator.java:544-545 | The rebuilt centre has the same chiral atom, parity and ligand count, with `atom1` in the R-group's first position. An element that holds the R-group atom only as its chiral atom is rebuilt unchanged. |
| StereoTransfer.LastSelected | src/main/java/org/helm/chemtoolkit/cdk/CDKManipulator.java:520-522 | It picks the last tetrahedral element that contains the R-group atom, and picks none exactly when there is no such element. |
| StereoTransfer.OverwriteFirst | src/main/java/org/helm/chemtoolkit/cdk/CDKManipulator.java:524-540 | The inner loop with its `break` overwrites the first R-group position in the ligand array and reports whether there was one. |
| StereoTransfer.GetStereoInformation | src/main/java/org/helm/chemtoolkit/cdk/CDKManipulator.java:515-553 | The scan returns the last selected element, rebuilt. It returns the `atom1`-`atom2` bond when some selected element has the R-group atom as a ligand. |
| StereoTransfer.ScanStep | src/main/java/org/helm/chemtoolkit/cdk/CDKManipulator.java:520-548 | Taking one more element replaces the element to add exactly when that element is selected. It sets the bond exactly when the element's ligands hold the R-group atom. |
| StereoTransfer.TransferOutcome | src/main/java/org/helm/chemtoolkit/cdk/CDKManipulator.java:518-552 | Nothing comes back if and only if no tetrahedral element contains the R-group atom. Otherwise the element is rebuilt from the last one that does, with its chiral atom, parity and ligand count kept. |
| StereoTransfer.BondOutcome | src/main/java/org/helm/chemtoolkit/cdk/CDKManipulator.java:527-535 | A bond comes back if and only if some tetrahedral element has the R-group atom as a ligand. The bond is single, runs from `atom1` to `atom2`, and carries the stereo of the R-group's first bond, or none when it has no bond. |
| StereoTransfer.ClockwiseCentreExample | src/main/java/org/helm/chemtoolkit/cdk/CDKManipulator.java:515-553 | Ligands [P, L2, L3, L4] around a clockwise centre become [Q, L2, L3, L4], still clockwise. |
| Binding.BindAtomsAsWritten | src/main/java/org/helm/chemtoolkit/cdk/CDKManipulator.java:487-501 | As the guard is written, a non-library first atom is refused as invalid, a foreign second atom fails on the cast, and a null one fails on the dereference. |
| Binding.BindAtoms | src/main/java/org/helm/chemtoolkit/cdk/CDKManipulator.java:487-501 | The join succeeds if and only if both atoms are library atoms, giving a single bond with no stereo between them. Otherwise it fails as "invalid atoms". |
| Binding.GuardDifference | src/main/java/org/helm/chemtoolkit/cdk/CDKManipulator.java:490 | The written and the intended guard differ exactly on a library first atom paired with a non-library second atom. |
| Binding.ForeignSecondAtom | src/main/java/org/helm/chemtoolkit/cdk/CDKManipulator.java:490-492 | A library atom joined to a foreign atom gives a cast failure as written and "invalid atoms" as intended. |
| Binding.SetStereoInformation | src/main/java/org/helm/chemtoolkit/cdk/CDKManipulator.java:604-613 | When the inherited stereo join reports false, exactly one plain bond between the atoms is appended to the first fragment and the result is false. A refused pair of atoms leaves the fragment unchanged. When the inherited join reports true, this method adds nothing and the result is true. |

## Left out

- The extension separator is an inherited regular-expression constant that is not part of this model. It is modelled as a literal, non-empty separator string passed as a parameter.
- `getRGroupsFromExtendedSmiles` and the inherited `setStereoInformation` are not part of this model. Their results enter as parameters: the label list, and the boolean the inherited join returns. The other arguments of the inherited join (the R-groups and the second container) are therefore dropped.
- The SMILES parser with structure-diagram layout, and the molfile reader with atom typing and aromaticity, are library code. They enter as functions that return the parsed atoms or nothing. All of their exceptions become the single failure `ParseFailure`.
- Logging of the normalised string, and the stack trace printed when the R-group has no bond, are left out.
- Casts from the toolkit's abstract molecule and atom types to the CDK ones in `getStereoInformation` are left out; the model's parameters already have the concrete types.
- StereoTransfer.GetStereoInformation: the R-group atom's bonds are a parameter, because `getIBond` is not part of this model. An R-group without a bond gives an absent stereo flag, as when the caught exception leaves `st` null.
- StereoTransfer.GetStereoInformation: the ligand array is overwritten in place, but the method changes nothing in the molecule. This rests on the chemistry library's ligand getter handing out a copy of the element's ligands. That is library behaviour and is not visible in this file.
- Binding.SetStereoInformation: it joins through the corrected `Binding.BindAtoms` (see Findings). A library first atom with a foreign or null second atom therefore gives `InvalidAtoms` rather than the cast or null-pointer failure of the code as written.
- Binding.SetStereoInformation: the inherited stereo join enters only as the boolean it returns. Whatever that join itself changes in the first fragment is not modelled.
- StereoTransfer.GetStereoInformation: stereo elements other than tetrahedral centres are only tested for containing the R-group atom. Their kinds and contents are not modelled.
- Rendering, molfile and SMILES writing, `convert`/`convertMolecule`, `canonicalize`, `validateSMILES`, `getMoleculeInfo`, `getPolymer` and the other conversion wrappers are left out. They are I/O, floating-point mass computation, or direct calls into the chemistry library.
- Atoms in the relabel pass are values in an array. The model does not capture aliasing between atom objects shared with other structures.

## Findings

| source | as written | input that shows it | evidently intended | confidence | as-written member | corrected member |
|---|---|---|---|---|---|---|
| src/main/java/org/helm/chemtoolkit/cdk/CDKManipulator.java:490 | The guard tests `atom1 instanceof CDKAtom` twice and never tests `atom2`. | A CDK first atom with a non-CDK second atom fails with ClassCastException at the cast on :492. A CDK first atom with a null second atom fails with NullPointerException. | Both atoms are tested, and anything but two CDK atoms is refused with "invalid atoms". | not executed | Binding.BindAtomsAsWritten (shown by Binding.ForeignSecondAtom) | Binding.BindAtoms |
