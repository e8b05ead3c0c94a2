/**
 * Normalisation of extended SMILES: dropping the extension block that follows the
 * separator, and rewriting the placeholder atoms `[*]`, `[*:n]` and `[name:n]`,
 * modelled on the wildcard and atom-class syntax of OpenSMILES (sections 3.1.6
 * and 3.1.7), into R-group labels, in order of appearance.
 */
module ExtendedSmiles {
  import opened Outcomes

  // ---------------------------------------------------------------------------
  // Literal occurrences of a separator, and String.split with limit 0
  // ---------------------------------------------------------------------------

  /** `t` occurs in `s` starting at position `p`. */
  predicate OccursAt(s: string, t: string, p: nat) {
    p + |t| <= |s| && s[p..p + |t|] == t
  }

  /** The leftmost occurrence of `t` in `s` at or after `from`. */
  function FirstOccurrence(s: string, t: string, from: nat): (r: Option<nat>)
    requires |t| > 0 && from <= |s|
    decreases |s| - from
    ensures r.Some? ==> from <= r.value && OccursAt(s, t, r.value)
    ensures r.Some? ==> forall q :: from <= q < r.value ==> !OccursAt(s, t, q)
    ensures r.None? ==> forall q :: from <= q ==> !OccursAt(s, t, q)
  {
    if from + |t| > |s| then None
    else if OccursAt(s, t, from) then Some(from)
    else FirstOccurrence(s, t, from + 1)
  }

  /** The pieces between successive leftmost, non-overlapping occurrences of `sep`. */
  function Pieces(s: string, sep: string): (r: seq<string>)
    requires |sep| > 0
    decreases |s|
    ensures |r| > 0
  {
    match FirstOccurrence(s, sep, 0)
    case None => [s]
    case Some(p) => [s[..p]] + Pieces(s[p + |sep|..], sep)
  }

  /** Drops the trailing empty strings, as String.split does with limit 0. */
  function DropTrailingEmpty(xs: seq<string>): (r: seq<string>)
    decreases |xs|
    ensures r <= xs
    ensures |r| == 0 <==> AllEmpty(xs)
    ensures |r| > 0 ==> r[|r| - 1] != ""
  {
    if |xs| > 0 && xs[|xs| - 1] == "" then DropTrailingEmpty(xs[..|xs| - 1]) else xs
  }

  /** String.split with a literal separator: a string without the separator splits into itself. */
  function Split(s: string, sep: string): (r: seq<string>)
    requires |sep| > 0
    ensures |r| == 0 <==> IsSeparatorRun(s, sep)
    ensures |r| > 0 ==> r[0] == Pieces(s, sep)[0]
    ensures FirstOccurrence(s, sep, 0).Some? && |r| > 0 ==> r[|r| - 1] != ""
  {
    PiecesAllEmpty(s, sep);
    if FirstOccurrence(s, sep, 0).None? then [s] else DropTrailingEmpty(Pieces(s, sep))
  }

  /** `s` is one or more copies of `sep` and nothing else. */
  predicate IsSeparatorRun(s: string, sep: string)
    requires |sep| > 0
    decreases |s|
  {
    OccursAt(s, sep, 0) && (|s| == |sep| || IsSeparatorRun(s[|sep|..], sep))
  }

  /** Every string of `xs` is empty. */
  predicate AllEmpty(xs: seq<string>) {
    forall i :: 0 <= i < |xs| ==> xs[i] == ""
  }

  /** Every piece of the split is empty exactly when the string is empty or a run of separators. */
  lemma {:induction false} PiecesAllEmpty(s: string, sep: string)
    requires |sep| > 0
    decreases |s|
    ensures AllEmpty(Pieces(s, sep)) <==> (s == "" || IsSeparatorRun(s, sep))
  {
    var ps := Pieces(s, sep);
    var first := FirstOccurrence(s, sep, 0);
    if first.None? {
      assert ps == [s] && ps[0] == s;
      assert !OccursAt(s, sep, 0) && !IsSeparatorRun(s, sep);
      if s == "" {
        assert AllEmpty(ps);
      } else {
        assert !AllEmpty(ps);
      }
    } else {
      var p := first.value;
      var rest := s[p + |sep|..];
      PiecesAllEmpty(rest, sep);
      var qs := Pieces(rest, sep);
      assert ps == [s[..p]] + qs && ps[0] == s[..p];
      if p == 0 {
        assert rest == s[|sep|..];
        assert OccursAt(s, sep, 0);
        if AllEmpty(qs) {
          forall i | 0 <= i < |ps| ensures ps[i] == "" {
            if i > 0 { assert ps[i] == qs[i - 1]; }
          }
        } else {
          var j :| 0 <= j < |qs| && qs[j] != "";
          assert ps[j + 1] == qs[j];
        }
      } else {
        assert !OccursAt(s, sep, 0);
        assert |ps[0]| > 0;
      }
    }
  }

  /**
   * The chemical part of an extended SMILES: the first component of splitting at
   * the separator. When the string is nothing but separators, split returns an
   * empty array and taking its first component throws.
   */
  function Normalize(smiles: string, sep: string): (r: Result<string>)
    requires |sep| > 0
    ensures r.Failure? <==> IsSeparatorRun(smiles, sep)
    ensures r.Failure? ==> r.error == IndexOutOfBounds
    ensures r.Success? ==> |r.value| <= |smiles| && r.value == smiles[..|r.value|]
    ensures r.Success? ==> forall q :: 0 <= q < |r.value| ==> !OccursAt(smiles, sep, q)
    ensures r.Success? ==> |r.value| == |smiles| || OccursAt(smiles, sep, |r.value|)
  {
    PiecesAllEmpty(smiles, sep);
    var components := Split(smiles, sep);
    if |components| == 0 then Failure(IndexOutOfBounds) else Success(components[0])
  }

  /** A string in which the separator never occurs is its own chemical part. */
  lemma NormalizeWithoutSeparator(smiles: string, sep: string)
    requires |sep| > 0
    requires forall q :: !OccursAt(smiles, sep, q)
    ensures Normalize(smiles, sep) == Success(smiles)
  {
    assert !OccursAt(smiles, sep, 0);
  }

  /** In particular, a string that never contains the separator's first character. */
  lemma NormalizeWithoutSeparatorStart(smiles: string, sep: string)
    requires |sep| > 0
    requires forall i :: 0 <= i < |smiles| ==> smiles[i] != sep[0]
    ensures Normalize(smiles, sep) == Success(smiles)
  {
    forall q | 0 <= q ensures !OccursAt(smiles, sep, q) {
      if q + |sep| <= |smiles| { assert smiles[q..q + |sep|][0] == smiles[q]; }
    }
    NormalizeWithoutSeparator(smiles, sep);
  }

  // ---------------------------------------------------------------------------
  // Placeholder atoms: \[\*\] | \[\*:[1-9]\d*\] | \[\w+:[1-9]\d*\]
  // ---------------------------------------------------------------------------

  /** A character of the regular-expression class \w (ASCII letters, digits, underscore). */
  predicate IsWordChar(c: char) {
    'a' <= c <= 'z' || 'A' <= c <= 'Z' || '0' <= c <= '9' || c == '_'
  }

  predicate IsWord(w: string) {
    |w| > 0 && forall i :: 0 <= i < |w| ==> IsWordChar(w[i])
  }

  /** A decimal atom class without a leading zero. */
  predicate IsAtomClass(n: string) {
    |n| > 0 && '1' <= n[0] <= '9' && forall i :: 0 <= i < |n| ==> '0' <= n[i] <= '9'
  }

  /** The position of the first ':' in `t` at or after `i`, or |t| when there is none. */
  function FirstColon(t: string, i: nat): (k: nat)
    requires i <= |t|
    decreases |t| - i
    ensures i <= k <= |t|
    ensures k < |t| ==> t[k] == ':'
    ensures forall j :: i <= j < k ==> t[j] != ':'
  {
    if i == |t| then |t| else if t[i] == ':' then i else FirstColon(t, i + 1)
  }

  /**
   * `[*]`, or `[*:n]` / `[word:n]` with an atom class n. Neither a word nor an
   * atom class holds a colon, so the name ends at the first colon.
   */
  predicate IsPlaceholder(t: string) {
    t == "[*]" ||
    (5 <= |t| && t[0] == '[' && t[|t| - 1] == ']' &&
     var k := FirstColon(t, 1);
     k < |t| - 2 && (t[1..k] == "*" || IsWord(t[1..k])) && IsAtomClass(t[k + 1..|t| - 1]))
  }

  /** `t` is `[name:n]` with `name` either `*` or a word, and `n` an atom class. */
  predicate IsClassToken(t: string, name: string, n: string) {
    t == "[" + name + ":" + n + "]" && (name == "*" || IsWord(name)) && IsAtomClass(n)
  }

  /** The placeholders are exactly the three alternatives of the pattern. */
  lemma PlaceholderAlternatives(t: string)
    ensures IsPlaceholder(t) <==> t == "[*]" || exists name, n :: IsClassToken(t, name, n)
  {
    if IsPlaceholder(t) && t != "[*]" {
      var k := FirstColon(t, 1);
      var name, n := t[1..k], t[k + 1..|t| - 1];
      assert t == "[" + name + ":" + n + "]";
      assert IsClassToken(t, name, n);
    }
    if t != "[*]" && exists name, n :: IsClassToken(t, name, n) {
      var name, n :| IsClassToken(t, name, n);
      ClassTokenIsPlaceholder(t, name, n);
    }
  }

  /** A `[name:n]` token: its name ends at the first colon, so the pattern's test reads it back. */
  lemma ClassTokenIsPlaceholder(t: string, name: string, n: string)
    requires IsClassToken(t, name, n)
    ensures IsPlaceholder(t)
  {
    var k := |name| + 1;
    forall j | 1 <= j < k ensures t[j] != ':' {
      assert t[j] == name[j - 1];
    }
    assert t[k] == ':';
    FirstColonAt(t, 1, k);
    assert t[1..k] == name;
    assert t[k + 1..|t| - 1] == n;
  }

  /** The first colon from `i` is at `k` when `k` holds one and no position before it does. */
  lemma {:induction false} FirstColonAt(t: string, i: nat, k: nat)
    requires i <= k < |t| && t[k] == ':' && forall j :: i <= j < k ==> t[j] != ':'
    ensures FirstColon(t, i) == k
    decreases k - i
  {
    if i < k {
      FirstColonAt(t, i + 1, k);
    }
  }

  /** A placeholder opens with '[', closes with ']', and has no bracket in between. */
  lemma PlaceholderShape(t: string)
    ensures IsPlaceholder(t) ==>
      3 <= |t| && t[0] == '[' && t[|t| - 1] == ']' &&
      forall i :: 0 < i < |t| - 1 ==> t[i] != '[' && t[i] != ']'
  {
    if IsPlaceholder(t) && t != "[*]" {
      var k := FirstColon(t, 1);
      forall i | 0 < i < |t| - 1 ensures t[i] != '[' && t[i] != ']' {
        if i < k {
          assert t[i] == t[1..k][i - 1];
        } else if k < i {
          assert t[i] == t[k + 1..|t| - 1][i - k - 1];
        }
      }
    }
  }

  /** No string with an opening bracket past its first character is a placeholder. */
  lemma NotPlaceholderWithInnerBracket(t: string, i: nat)
    requires 0 < i < |t| && t[i] == '['
    ensures !IsPlaceholder(t)
  {
    PlaceholderShape(t);
  }

  /** Two placeholders starting at the same position end at the same position. */
  lemma PlaceholderEndUnique(s: string, p: nat, e1: nat, e2: nat)
    requires p <= e1 <= |s| && p <= e2 <= |s|
    requires IsPlaceholder(s[p..e1]) && IsPlaceholder(s[p..e2])
    ensures e1 == e2
  {
    if e1 < e2 {
      ClosedBefore(s, p, e1, e2);
      assert false;
    } else if e2 < e1 {
      ClosedBefore(s, p, e2, e1);
      assert false;
    }
  }

  /** A placeholder cannot run on past the ']' that closes a shorter one. */
  lemma ClosedBefore(s: string, p: nat, e1: nat, e2: nat)
    requires p <= e1 < e2 <= |s| && IsPlaceholder(s[p..e1])
    ensures !IsPlaceholder(s[p..e2])
  {
    PlaceholderShape(s[p..e1]);
    PlaceholderShape(s[p..e2]);
    assert s[p..e2][e1 - 1 - p] == s[p..e1][e1 - 1 - p];
  }

  /** A slice of a slice is a slice of the whole. */
  lemma SliceOfSlice(s: string, a: nat, b: nat, i: nat, j: nat)
    requires a <= b <= |s| && i <= j <= b - a
    ensures s[a..b][i..j] == s[a + i..a + j]
  {
    assert |s[a..b][i..j]| == |s[a + i..a + j]|;
    forall k | 0 <= k < j - i ensures s[a..b][i..j][k] == s[a + i..a + j][k] {
    }
  }

  /** A start and an end position in the string (end exclusive). */
  datatype Span = Span(start: nat, end: nat)

  /** An end `e >= q` such that `s[p..e]` is a placeholder, searching upward from `q`. */
  function MatchEnd(s: string, p: nat, q: nat): (r: Option<nat>)
    requires p <= q <= |s|
    decreases |s| - q
    ensures r.Some? ==> q <= r.value <= |s| && IsPlaceholder(s[p..r.value])
    ensures r.None? ==> forall e {:trigger IsPlaceholder(s[p..e])} :: q <= e <= |s| ==> !IsPlaceholder(s[p..e])
  {
    if IsPlaceholder(s[p..q]) then Some(q)
    else if q == |s| then None
    else MatchEnd(s, p, q + 1)
  }

  /** The leftmost placeholder starting at or after `pos`: one step of Matcher.find. */
  function FindFrom(s: string, pos: nat): (r: Option<Span>)
    requires pos <= |s|
    decreases |s| - pos
    ensures r.Some? ==> pos <= r.value.start < r.value.end <= |s|
    ensures r.Some? ==> IsPlaceholder(s[r.value.start..r.value.end])
    ensures r.Some? ==> forall p, e {:trigger IsPlaceholder(s[p..e])} ::
      pos <= p < r.value.start && p <= e <= |s| ==> !IsPlaceholder(s[p..e])
    ensures r.None? ==> forall p, e {:trigger IsPlaceholder(s[p..e])} :: pos <= p <= e <= |s| ==> !IsPlaceholder(s[p..e])
  {
    PlaceholderShape([]);
    if pos == |s| then None
    else match MatchEnd(s, pos, pos)
      case Some(e) => PlaceholderShape(s[pos..e]); Some(Span(pos, e))
      case None => FindFrom(s, pos + 1)
  }

  // ---------------------------------------------------------------------------
  // String.replace on the scanned segment
  // ---------------------------------------------------------------------------

  /** String.replace with a literal target: every occurrence, left to right, without overlap. */
  function ReplaceAll(s: string, target: string, replacement: string): string
    requires |target| > 0
    decreases |s|
  {
    if |s| < |target| then s
    else if s[..|target|] == target then replacement + ReplaceAll(s[|target|..], target, replacement)
    else [s[0]] + ReplaceAll(s[1..], target, replacement)
  }

  /** A string in which the target never occurs is left as it is. */
  lemma {:induction false} ReplaceAllWithoutTarget(s: string, target: string, replacement: string)
    requires |target| > 0
    requires forall q :: !OccursAt(s, target, q)
    ensures ReplaceAll(s, target, replacement) == s
    decreases |s|
  {
    if |target| <= |s| {
      assert !OccursAt(s, target, 0);
      forall q: nat ensures !OccursAt(s[1..], target, q) {
        if q + |target| <= |s| - 1 {
          OccursAfterFirst(s, target, q);
        }
      }
      ReplaceAllWithoutTarget(s[1..], target, replacement);
      assert s == [s[0]] + s[1..];
    }
  }

  /** When the target occurs only as the suffix of `s`, replacing all occurrences replaces the suffix. */
  lemma {:induction false} ReplaceAllOfSuffix(s: string, target: string, replacement: string)
    requires 0 < |target| <= |s|
    requires OccursAt(s, target, |s| - |target|)
    requires forall q :: 0 <= q < |s| - |target| ==> !OccursAt(s, target, q)
    ensures ReplaceAll(s, target, replacement) == s[..|s| - |target|] + replacement
    decreases |s|
  {
    if |s| == |target| {
      assert s[..|target|] == target && s[|target|..] == [];
      assert ReplaceAll([], target, replacement) == [];
    } else {
      var t := s[1..];
      ReplaceAllSkip(s, target, replacement);
      forall q | 0 <= q <= |t| - |target| ensures OccursAt(t, target, q) == OccursAt(s, target, q + 1) {
        OccursAfterFirst(s, target, q);
      }
      ReplaceAllOfSuffix(t, target, replacement);
      assert s[..|s| - |target|] == [s[0]] + t[..|t| - |target|];
    }
  }

  /** Where the target does not start, the first character is copied and the scan moves on. */
  lemma ReplaceAllSkip(s: string, target: string, replacement: string)
    requires 0 < |target| <= |s| && !OccursAt(s, target, 0)
    ensures ReplaceAll(s, target, replacement) == [s[0]] + ReplaceAll(s[1..], target, replacement)
  {
    assert s[0..|target|] == s[..|target|];
  }

  /** Dropping the first character shifts every occurrence one place to the left. */
  lemma OccursAfterFirst(s: string, t: string, q: nat)
    requires 0 < |s| && q + |t| <= |s| - 1
    ensures OccursAt(s[1..], t, q) == OccursAt(s, t, q + 1)
  {
    assert s[1..][q..q + |t|] == s[q + 1..q + 1 + |t|];
  }

  /**
   * In the segment from the scan position to the end of the leftmost match, the
   * matched text occurs nowhere but at the match, so replacing all its occurrences
   * replaces just the match.
   */
  lemma ReplaceTouchesOnlyTheMatch(smiles: string, start: nat, m: Span, replacement: string)
    requires start <= |smiles| && FindFrom(smiles, start) == Some(m)
    ensures ReplaceAll(smiles[start..m.end], smiles[m.start..m.end], replacement)
         == smiles[start..m.start] + replacement
  {
    var segment := smiles[start..m.end];
    var token := smiles[m.start..m.end];
    SliceOfSlice(smiles, start, m.end, m.start - start, m.end - start);
    assert segment[|segment| - |token|..|segment|] == token;
    forall q | 0 <= q < |segment| - |token| ensures !OccursAt(segment, token, q) {
      NoEarlierOccurrence(smiles, start, m, q);
    }
    ReplaceAllOfSuffix(segment, token, replacement);
    SliceOfSlice(smiles, start, m.end, 0, m.start - start);
    assert segment[..|segment| - |token|] == segment[0..m.start - start];
  }

  /** Before the leftmost match, the matched token does not occur in the segment. */
  lemma NoEarlierOccurrence(smiles: string, start: nat, m: Span, q: nat)
    requires start <= |smiles| && FindFrom(smiles, start) == Some(m)
    requires q < m.start - start
    ensures !OccursAt(smiles[start..m.end], smiles[m.start..m.end], q)
  {
    var token := smiles[m.start..m.end];
    SliceOfSlice(smiles, start, m.end, q, q + |token|);
    assert !IsPlaceholder(smiles[start + q..start + q + |token|]);
  }

  // ---------------------------------------------------------------------------
  // normalize(extendedSmiles, groups)
  // ---------------------------------------------------------------------------

  /** The atom written for an R-group label. */
  function Bracket(group: string): string {
    "[" + group + "]"
  }

  /**
   * The text produced from position `start` on by the substitution loop, with
   * `index` labels already used. An empty label list leaves the loop at once; a
   * placeholder met once the labels are used up makes `groups.get` throw.
   */
  function Substitute(smiles: string, start: nat, groups: seq<string>, index: nat): (r: Result<string>)
    requires start <= |smiles|
    decreases |smiles| - start
    ensures r.Failure? ==> r.error == IndexOutOfBounds && 0 < |groups|
  {
    match FindFrom(smiles, start)
    case None => Success(smiles[start..])
    case Some(m) =>
      if |groups| == 0 then Success(smiles[start..])
      else if index >= |groups| then Failure(IndexOutOfBounds)
      else Prefixed(smiles[start..m.start] + Bracket(groups[index]), Substitute(smiles, m.end, groups, index + 1))
  }

  /** `prefix` put in front of a successful result; failures pass through. */
  function Prefixed(prefix: string, r: Result<string>): Result<string> {
    match r
    case Success(v) => Success(prefix + v)
    case Failure(e) => Failure(e)
  }

  lemma PrefixedEmpty(r: Result<string>)
    ensures Prefixed("", r) == r
  {
    if r.Success? {
      assert "" + r.value == r.value;
    }
  }

  lemma PrefixedTwice(a: string, b: string, r: Result<string>)
    ensures Prefixed(a, Prefixed(b, r)) == Prefixed(a + b, r)
  {
    if r.Success? {
      assert a + (b + r.value) == (a + b) + r.value;
    }
  }

  /** One turn of the substitution loop at a placeholder, with a label left to take. */
  lemma SubstituteStep(s: string, start: nat, m: Span, groups: seq<string>, index: nat)
    requires start <= |s| && FindFrom(s, start) == Some(m)
    requires index < |groups|
    ensures Substitute(s, start, groups, index)
         == Prefixed(s[start..m.start] + Bracket(groups[index]), Substitute(s, m.end, groups, index + 1))
  {
  }

  /** One turn of the loop keeps the text built so far in front of what the rest of the loop produces. */
  lemma LoopStep(
    smiles: string, start: nat, m: Span, groups: seq<string>, index: nat, sb: string, whole: Result<string>)
    requires start <= |smiles| && FindFrom(smiles, start) == Some(m) && index < |groups|
    requires Prefixed(sb, Substitute(smiles, start, groups, index)) == whole
    ensures Prefixed(sb + ReplaceAll(smiles[start..m.end], smiles[m.start..m.end], Bracket(groups[index])),
                     Substitute(smiles, m.end, groups, index + 1)) == whole
  {
    var segment := ReplaceAll(smiles[start..m.end], smiles[m.start..m.end], Bracket(groups[index]));
    ReplaceTouchesOnlyTheMatch(smiles, start, m, Bracket(groups[index]));
    SubstituteStep(smiles, start, m, groups, index);
    PrefixedTwice(sb, segment, Substitute(smiles, m.end, groups, index + 1));
  }

  /** A placeholder met with every label of a non-empty list used throws. */
  lemma SubstituteRunsOut(s: string, start: nat, groups: seq<string>, index: nat)
    requires start <= |s| && FindFrom(s, start).Some?
    requires 0 < |groups| <= index
    ensures Substitute(s, start, groups, index) == Failure(IndexOutOfBounds)
  {
  }

  /** With no placeholder left, or no labels at all, the rest of the text is kept. */
  lemma SubstituteAtEnd(s: string, start: nat, groups: seq<string>, index: nat)
    requires start <= |s| && (FindFrom(s, start).None? || |groups| == 0)
    ensures Substitute(s, start, groups, index) == Success(s[start..])
  {
  }

  /** What normalize(extendedSmiles, groups) returns or throws. */
  function SubstitutedSmiles(extendedSmiles: string, sep: string, groups: seq<string>): Result<string>
    requires |sep| > 0
  {
    match Normalize(extendedSmiles, sep)
    case Failure(e) => Failure(e)
    case Success(smiles) => Substitute(smiles, 0, groups, 0)
  }

  /**
   * The substitution loop: it finds placeholders left to right, replaces each, in
   * its segment, by the next label in brackets, and appends the rest of the text.
   */
  method NormalizeGroups(extendedSmiles: string, sep: string, groups: seq<string>) returns (r: Result<string>)
    requires |sep| > 0
    ensures r == SubstitutedSmiles(extendedSmiles, sep, groups)
  {
    var core := Normalize(extendedSmiles, sep);
    if core.Failure? {
      return Failure(core.error);
    }
    var smiles := core.value;
    ghost var whole := Substitute(smiles, 0, groups, 0);
    var sb := "";
    var start := 0;
    var index := 0;
    var found := FindFrom(smiles, start);
    PrefixedEmpty(whole);
    while found.Some? && |groups| > 0
      invariant start <= |smiles|
      invariant found == FindFrom(smiles, start)
      invariant Prefixed(sb, Substitute(smiles, start, groups, index)) == whole
      decreases |smiles| - start
    {
      var m := found.value;
      if index >= |groups| {
        SubstituteRunsOut(smiles, start, groups, index);
        return Failure(IndexOutOfBounds);
      }
      var segment := smiles[start..m.end];
      segment := ReplaceAll(segment, smiles[m.start..m.end], Bracket(groups[index]));
      LoopStep(smiles, start, m, groups, index, sb, whole);
      sb := sb + segment;
      index := index + 1;
      start := m.end;
      found := FindFrom(smiles, start);
    }
    SubstituteAtEnd(smiles, start, groups, index);
    if start < |smiles| {
      sb := sb + smiles[start..];
    } else {
      assert sb + smiles[start..] == sb;
    }
    r := Success(sb);
  }

  // ---------------------------------------------------------------------------
  // What the substitution means: labels fill the placeholders in order
  // ---------------------------------------------------------------------------

  /** No substring of `g` is a placeholder. */
  predicate PlaceholderFree(g: string) {
    forall i, j {:trigger IsPlaceholder(g[i..j])} :: 0 <= i <= j <= |g| ==> !IsPlaceholder(g[i..j])
  }

  /** gaps[0] + tokens[0] + gaps[1] + ... + tokens[k-1] + gaps[k]. */
  function Join(gaps: seq<string>, tokens: seq<string>): string
    requires |gaps| == |tokens| + 1
    decreases |tokens|
  {
    if |tokens| == 0 then gaps[0] else gaps[0] + tokens[0] + Join(gaps[1..], tokens[1..])
  }

  /** gaps[0] + [labels[0]] + gaps[1] + ... + [labels[k-1]] + gaps[k]. */
  function JoinLabels(gaps: seq<string>, labels: seq<string>): string
    requires |gaps| == |labels| + 1
    decreases |labels|
  {
    if |labels| == 0 then gaps[0] else gaps[0] + Bracket(labels[0]) + JoinLabels(gaps[1..], labels[1..])
  }

  /** `s` reads as placeholder-free gaps alternating with placeholder tokens. */
  predicate IsDecomposition(s: string, gaps: seq<string>, tokens: seq<string>) {
    |gaps| == |tokens| + 1 && Join(gaps, tokens) == s &&
    (forall i :: 0 <= i < |tokens| ==> IsPlaceholder(tokens[i])) &&
    (forall i :: 0 <= i < |gaps| ==> PlaceholderFree(gaps[i]))
  }

  /** A stretch in which no placeholder starts is placeholder-free. */
  lemma StretchIsFree(s: string, from: nat, to: nat)
    requires from <= to <= |s|
    requires forall p, e {:trigger IsPlaceholder(s[p..e])} :: from <= p < to && p <= e <= |s| ==> !IsPlaceholder(s[p..e])
    ensures PlaceholderFree(s[from..to])
  {
    PlaceholderShape([]);
    forall i, j | 0 <= i <= j <= to - from ensures !IsPlaceholder(s[from..to][i..j]) {
      SliceOfSlice(s, from, to, i, j);
    }
  }

  /** No placeholder starts inside a free gap that is followed by a placeholder. */
  lemma NoPlaceholderStartsInGap(s: string, pos: nat, gap: string, token: string, p: nat, e: nat)
    requires pos + |gap| + |token| <= |s|
    requires s[pos..pos + |gap|] == gap && s[pos + |gap|..pos + |gap| + |token|] == token
    requires PlaceholderFree(gap) && IsPlaceholder(token)
    requires pos <= p < pos + |gap| && p <= e <= |s|
    ensures !IsPlaceholder(s[p..e])
  {
    var a := pos + |gap|;
    if e <= a {
      SliceOfSlice(s, pos, pos + |gap|, p - pos, e - pos);
    } else {
      PlaceholderShape(token);
      assert s[a] == token[0];
      assert s[p..e][a - p] == s[a];
      NotPlaceholderWithInnerBracket(s[p..e], a - p);
    }
  }

  /** After a free gap, the scan finds exactly the placeholder token that follows it. */
  lemma FindsTokenAfterGap(s: string, pos: nat, gap: string, token: string)
    requires pos + |gap| + |token| <= |s|
    requires s[pos..pos + |gap|] == gap && s[pos + |gap|..pos + |gap| + |token|] == token
    requires PlaceholderFree(gap) && IsPlaceholder(token)
    ensures FindFrom(s, pos) == Some(Span(pos + |gap|, pos + |gap| + |token|))
  {
    var a := pos + |gap|;
    var b := a + |token|;
    forall p, e | pos <= p < a && p <= e <= |s| ensures !IsPlaceholder(s[p..e]) {
      NoPlaceholderStartsInGap(s, pos, gap, token, p, e);
    }
    var m := FindFrom(s, pos).value;
    assert m.start == a;
    PlaceholderEndUnique(s, a, m.end, b);
  }

  /** A free rest of the string holds no placeholder for the scan to find. */
  lemma FindsNothingInFreeText(s: string, pos: nat)
    requires pos <= |s| && PlaceholderFree(s[pos..])
    ensures FindFrom(s, pos) == None
  {
    var r := FindFrom(s, pos);
    if r.Some? {
      FreeSuffixSlice(s, pos, r.value.start, r.value.end);
    }
  }

  /** Every slice of a free suffix is free of placeholders. */
  lemma FreeSuffixSlice(s: string, pos: nat, p: nat, e: nat)
    requires pos <= p <= e <= |s| && PlaceholderFree(s[pos..])
    ensures !IsPlaceholder(s[p..e])
  {
    assert s[pos..] == s[pos..|s|];
    SliceOfSlice(s, pos, |s|, p - pos, e - pos);
    assert s[pos..][p - pos..e - pos] == s[p..e];
  }

  /** The gaps and tokens the scan walks through from `pos` on: every string has such a reading. */
  function Decompose(s: string, pos: nat): (r: (seq<string>, seq<string>))
    requires pos <= |s|
    decreases |s| - pos
    ensures IsDecomposition(s[pos..], r.0, r.1)
  {
    match FindFrom(s, pos)
    case None =>
      StretchIsFree(s, pos, |s|);
      assert s[pos..] == s[pos..|s|];
      ([s[pos..]], [])
    case Some(m) =>
      var rest := Decompose(s, m.end);
      StretchIsFree(s, pos, m.start);
      var gaps := [s[pos..m.start]] + rest.0;
      var tokens := [s[m.start..m.end]] + rest.1;
      assert gaps[1..] == rest.0 && tokens[1..] == rest.1;
      assert s[pos..] == s[pos..m.start] + s[m.start..m.end] + s[m.end..];
      (gaps, tokens)
  }

  /** The first gap and token of a reading, and the reading of what follows them. */
  lemma DecompositionHead(s: string, start: nat, gaps: seq<string>, tokens: seq<string>)
    requires start <= |s| && IsDecomposition(s[start..], gaps, tokens) && |tokens| > 0
    ensures start + |gaps[0]| + |tokens[0]| <= |s|
    ensures s[start..start + |gaps[0]|] == gaps[0]
    ensures s[start + |gaps[0]|..start + |gaps[0]| + |tokens[0]|] == tokens[0]
    ensures IsDecomposition(s[start + |gaps[0]| + |tokens[0]|..], gaps[1..], tokens[1..])
  {
    var g, t := gaps[0], tokens[0];
    var rest := Join(gaps[1..], tokens[1..]);
    var a := start + |g|;
    var b := a + |t|;
    assert s[start..] == g + t + rest;
    SliceOfSlice(s, start, |s|, 0, |g|);
    SliceOfSlice(s, start, |s|, |g|, |g| + |t|);
    SliceOfSlice(s, start, |s|, |g| + |t|, |s| - start);
    assert (g + t + rest)[..|g|] == g;
    assert (g + t + rest)[|g|..|g| + |t|] == t;
    assert (g + t + rest)[|g| + |t|..] == rest;
    assert s[start..][0..|g|] == s[start..][..|g|];
    assert s[start..][|g| + |t|..|s| - start] == s[start..][|g| + |t|..];
    assert s[b..] == s[b..|s|];
  }

  /**
   * With a non-empty label list, the loop from `start` on fills the placeholders
   * in order with the labels from `index` on, keeping every gap, or throws when
   * the labels run out.
   */
  lemma {:induction false} SubstituteFillsInOrder(
    s: string, start: nat, gaps: seq<string>, tokens: seq<string>, groups: seq<string>, index: nat)
    requires start <= |s| && IsDecomposition(s[start..], gaps, tokens)
    requires 0 < |groups| && index <= |groups|
    ensures index + |tokens| <= |groups| ==>
      Substitute(s, start, groups, index) == Success(JoinLabels(gaps, groups[index..index + |tokens|]))
    ensures |groups| < index + |tokens| ==>
      Substitute(s, start, groups, index) == Failure(IndexOutOfBounds)
    decreases |tokens|
  {
    if |tokens| == 0 {
      FindsNothingInFreeText(s, start);
      assert groups[index..index] == [];
    } else {
      DecompositionHead(s, start, gaps, tokens);
      var a := start + |gaps[0]|;
      var b := a + |tokens[0]|;
      FindsTokenAfterGap(s, start, gaps[0], tokens[0]);
      if index < |groups| {
        SubstituteStep(s, start, Span(a, b), groups, index);
        SubstituteFillsInOrder(s, b, gaps[1..], tokens[1..], groups, index + 1);
        if index + |tokens| <= |groups| {
          JoinLabelsStep(gaps, groups, index, |tokens|);
        }
      }
    }
  }

  /** The labels from `index` on, placed in the gaps, start with the label at `index`. */
  lemma JoinLabelsStep(gaps: seq<string>, groups: seq<string>, index: nat, k: nat)
    requires 0 < k && |gaps| == k + 1 && index + k <= |groups|
    ensures JoinLabels(gaps, groups[index..index + k])
         == gaps[0] + Bracket(groups[index]) + JoinLabels(gaps[1..], groups[index + 1..index + k])
  {
    var labels := groups[index..index + k];
    assert labels[0] == groups[index];
    assert labels[1..] == groups[index + 1..index + k];
  }

  /**
   * normalize(extendedSmiles, groups) in terms of the chemical part's reading as
   * gaps and placeholders: with no labels it is the chemical part unchanged; with
   * at least as many labels as placeholders the i-th placeholder becomes the i-th
   * label in brackets and all other text is kept in order; with some labels but
   * fewer than placeholders it throws.
   */
  lemma NormalizeGroupsFillsPlaceholders(
    extendedSmiles: string, sep: string, groups: seq<string>, gaps: seq<string>, tokens: seq<string>)
    requires |sep| > 0
    requires Normalize(extendedSmiles, sep).Success?
    requires IsDecomposition(Normalize(extendedSmiles, sep).value, gaps, tokens)
    ensures |groups| == 0 ==> SubstitutedSmiles(extendedSmiles, sep, groups) == Normalize(extendedSmiles, sep)
    ensures 0 < |groups| && |tokens| <= |groups| ==>
      SubstitutedSmiles(extendedSmiles, sep, groups) == Success(JoinLabels(gaps, groups[..|tokens|]))
    ensures 0 < |groups| < |tokens| ==>
      SubstitutedSmiles(extendedSmiles, sep, groups) == Failure(IndexOutOfBounds)
  {
    var smiles := Normalize(extendedSmiles, sep).value;
    assert smiles[0..] == smiles;
    if 0 < |groups| {
      SubstituteFillsInOrder(smiles, 0, gaps, tokens, groups, 0);
      if |tokens| <= |groups| {
        assert groups[0..|tokens|] == groups[..|tokens|];
      }
    } else {
      assert smiles[0..] == smiles;
    }
  }

  /** A chemical part without placeholders is returned as it is, whatever the labels. */
  lemma NoPlaceholdersNoChange(extendedSmiles: string, sep: string, groups: seq<string>)
    requires |sep| > 0
    requires Normalize(extendedSmiles, sep).Success?
    requires PlaceholderFree(Normalize(extendedSmiles, sep).value)
    ensures SubstitutedSmiles(extendedSmiles, sep, groups) == Normalize(extendedSmiles, sep)
  {
    var smiles := Normalize(extendedSmiles, sep).value;
    NormalizeGroupsFillsPlaceholders(extendedSmiles, sep, groups, [smiles], []);
  }

  /** A string without '[' contains no placeholder. */
  lemma NoBracketIsFree(g: string)
    requires forall i :: 0 <= i < |g| ==> g[i] != '['
    ensures PlaceholderFree(g)
  {
    forall i, j | 0 <= i <= j <= |g| ensures !IsPlaceholder(g[i..j]) {
      PlaceholderShape(g[i..j]);
      if i < j { assert g[i..j][0] == g[i]; }
    }
  }

  /** "[*:1]CC[*:2]" with labels R1, R2 becomes "[R1]CC[R2]". */
  lemma TwoPlaceholdersExample()
    ensures SubstitutedSmiles("[*:1]CC[*:2]", "|", ["R1", "R2"]) == Success("[R1]CC[R2]")
  {
    var s := "[*:1]CC[*:2]";
    NormalizeWithoutSeparatorStart(s, "|");
    var gaps, tokens := ["", "CC", ""], ["[*:1]", "[*:2]"];
    ExampleReading(gaps, tokens);
    NormalizeGroupsFillsPlaceholders(s, "|", ["R1", "R2"], gaps, tokens);
    assert ["R1", "R2"][..|tokens|] == ["R1", "R2"];
    ExampleLabels(gaps);
  }

  /** "[*:n]" with a one-digit class n is a placeholder. */
  lemma AnonymousPlaceholder(t: string)
    requires |t| == 5 && t[0] == '[' && t[1] == '*' && t[2] == ':' && '1' <= t[3] <= '9' && t[4] == ']'
    ensures IsPlaceholder(t)
  {
    assert FirstColon(t, 1) == 2;
    assert t[1..2] == "*";
  }

  /** "[*:1]CC[*:2]" reads as the gaps "", "CC", "" around two placeholders. */
  lemma ExampleReading(gaps: seq<string>, tokens: seq<string>)
    requires gaps == ["", "CC", ""] && tokens == ["[*:1]", "[*:2]"]
    ensures IsDecomposition("[*:1]CC[*:2]", gaps, tokens)
  {
    AnonymousPlaceholder(tokens[0]);
    AnonymousPlaceholder(tokens[1]);
    NoBracketIsFree("");
    NoBracketIsFree("CC");
    assert gaps[1..] == ["CC", ""] && tokens[1..] == ["[*:2]"];
    assert gaps[1..][1..] == [""] && tokens[1..][1..] == [];
    assert Join([""], []) == "";
  }

  /** The labels R1, R2 in the example's gaps. */
  lemma ExampleLabels(gaps: seq<string>)
    requires gaps == ["", "CC", ""]
    ensures JoinLabels(gaps, ["R1", "R2"]) == "[R1]CC[R2]"
  {
    assert gaps[1..] == ["CC", ""] && gaps[1..][1..] == [""];
    assert ["R1", "R2"][1..] == ["R2"] && ["R2"][1..] == [];
    assert JoinLabels([""], []) == "";
    assert Bracket("R1") == "[R1]" && Bracket("R2") == "[R2]";
  }
}
