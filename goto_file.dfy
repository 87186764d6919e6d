/** The order in which "Go to File" lists the registered file types in its
    filter: the file-type comparator and the list of filter values it sorts. */
module GotoFile {

  /** A registered file type. `id` stands for the object's identity, so two
      records are the same file type exactly when they are equal; `isUnknown`
      marks the one UNKNOWN file type of the registry. */
  datatype FileType = FileType(id: nat, isUnknown: bool, isBinary: bool, name: string)

  /** The UNKNOWN file type is a single object: no two distinct file types are
      both unknown. */
  predicate UnknownUnique(s: seq<FileType>) {
    forall x, y :: x in s && y in s && x.isUnknown && y.isUnknown ==> x == y
  }

  /** The pair form of UnknownUnique. */
  predicate UnknownPair(a: FileType, b: FileType) {
    a.isUnknown && b.isUnknown ==> a == b
  }

  // ---------------------------------------------------------------------
  // Case-insensitive name comparison
  // ---------------------------------------------------------------------

  /** Case folding of one character: ASCII upper-case letters become lower-case,
      every other character is left as it is. */
  function Fold(c: char): (f: char)
    ensures !('A' <= f <= 'Z')
    ensures ('A' <= c <= 'Z' || 'a' <= c <= 'z') <==> 'a' <= f <= 'z'
  {
    if 'A' <= c <= 'Z' then (c as int + 32) as char else c
  }

  /** Two characters fold alike exactly when they are equal or are the same
      ASCII letter in its two cases. */
  lemma FoldSame(c: char, d: char)
    ensures Fold(c) == Fold(d) <==>
      c == d ||
      ('A' <= c <= 'Z' && d as int == c as int + 32) ||
      ('A' <= d <= 'Z' && c as int == d as int + 32)
  {
  }

  /** A whole string, case-folded character by character. */
  function FoldAll(s: string): (r: string)
    ensures |r| == |s|
    ensures forall i :: 0 <= i < |s| ==> r[i] == Fold(s[i])
  {
    if s == [] then [] else [Fold(s[0])] + FoldAll(s[1..])
  }

  /** String.compareToIgnoreCase: the difference of the first pair of
      characters that differ after folding, or else the difference of the
      lengths. */
  function CompareIgnoreCase(s: string, t: string): int
  {
    if |s| == 0 || |t| == 0 then |s| - |t|
    else if Fold(s[0]) != Fold(t[0]) then Fold(s[0]) as int - Fold(t[0]) as int
    else CompareIgnoreCase(s[1..], t[1..])
  }

  /** Swapping the arguments negates the name comparison. */
  lemma {:induction false} CompareIgnoreCaseAntisymmetric(s: string, t: string)
    ensures CompareIgnoreCase(s, t) == -CompareIgnoreCase(t, s)
  {
    if |s| > 0 && |t| > 0 && Fold(s[0]) == Fold(t[0]) {
      CompareIgnoreCaseAntisymmetric(s[1..], t[1..]);
    }
  }

  /** The name comparison is zero exactly when the names are equal ignoring case. */
  lemma {:induction false} CompareIgnoreCaseZeroIff(s: string, t: string)
    ensures CompareIgnoreCase(s, t) == 0 <==> FoldAll(s) == FoldAll(t)
  {
    if |s| > 0 && |t| > 0 {
      CompareIgnoreCaseZeroIff(s[1..], t[1..]);
      var fs, ft := FoldAll(s), FoldAll(t);
      assert fs == [Fold(s[0])] + FoldAll(s[1..]);
      assert ft == [Fold(t[0])] + FoldAll(t[1..]);
      if Fold(s[0]) != Fold(t[0]) {
        assert fs[0] != ft[0];
      } else if FoldAll(s[1..]) != FoldAll(t[1..]) {
        assert fs[1..] == FoldAll(s[1..]);
        assert ft[1..] == FoldAll(t[1..]);
      }
    }
  }

  /** "Not greater" under the name comparison is transitive. */
  lemma {:induction false} CompareIgnoreCaseTransitive(s: string, t: string, u: string)
    requires CompareIgnoreCase(s, t) <= 0 && CompareIgnoreCase(t, u) <= 0
    ensures CompareIgnoreCase(s, u) <= 0
  {
    if |s| > 0 && |t| > 0 && |u| > 0 && Fold(s[0]) == Fold(t[0]) == Fold(u[0]) {
      CompareIgnoreCaseTransitive(s[1..], t[1..], u[1..]);
    }
  }

  // ---------------------------------------------------------------------
  // FileTypeComparator
  // ---------------------------------------------------------------------

  /** FileTypeComparator.compare: the same file type compares equal; the
      UNKNOWN file type is greatest; a text file type is less than a binary
      one; otherwise the names decide, ignoring case. */
  function Compare(a: FileType, b: FileType): int
  {
    if a == b then 0
    else if a.isUnknown then 1
    else if b.isUnknown then -1
    else if a.isBinary && !b.isBinary then 1
    else if !a.isBinary && b.isBinary then -1
    else CompareIgnoreCase(a.name, b.name)
  }

  /** A file type compares equal to itself. */
  lemma CompareReflexive(t: FileType)
    ensures Compare(t, t) == 0
  {
  }

  /** Rule 1: the UNKNOWN file type is strictly greatest. */
  lemma UnknownIsGreatest(u: FileType, t: FileType)
    requires u.isUnknown && !t.isUnknown
    ensures Compare(u, t) > 0 && Compare(t, u) < 0
  {
  }

  /** Rule 2: among known file types, a binary one is strictly greater than a
      text one, whatever their names. */
  lemma TextBeforeBinary(text: FileType, binary: FileType)
    requires !text.isUnknown && !binary.isUnknown
    requires !text.isBinary && binary.isBinary
    ensures Compare(text, binary) < 0 && Compare(binary, text) > 0
  {
  }

  /** Rule 3: two distinct known file types of the same kind are ordered by
      their names, ignoring case. */
  lemma SameKindByName(a: FileType, b: FileType)
    requires a != b && !a.isUnknown && !b.isUnknown && a.isBinary == b.isBinary
    ensures Compare(a, b) == CompareIgnoreCase(a.name, b.name)
  {
  }

  /** Swapping the arguments negates the result, so the signs are opposite. */
  lemma CompareAntisymmetric(a: FileType, b: FileType)
    requires UnknownPair(a, b)
    ensures Compare(a, b) == -Compare(b, a)
  {
    CompareIgnoreCaseAntisymmetric(a.name, b.name);
  }

  /** Two file types compare equal exactly when they are the same file type, or
      are two known file types of the same kind whose names agree ignoring case. */
  lemma CompareZeroIff(a: FileType, b: FileType)
    ensures Compare(a, b) == 0 <==>
      a == b ||
      (!a.isUnknown && !b.isUnknown && a.isBinary == b.isBinary && FoldAll(a.name) == FoldAll(b.name))
  {
    CompareIgnoreCaseZeroIff(a.name, b.name);
  }

  /** "Not greater" under the comparator is transitive. */
  lemma CompareTransitive(a: FileType, b: FileType, c: FileType)
    requires UnknownPair(a, b) && UnknownPair(b, c) && UnknownPair(a, c)
    requires Compare(a, b) <= 0 && Compare(b, c) <= 0
    ensures Compare(a, c) <= 0
  {
    if a != b && b != c && a != c && !a.isUnknown && !b.isUnknown && !c.isUnknown
      && a.isBinary == b.isBinary == c.isBinary
    {
      CompareIgnoreCaseTransitive(a.name, b.name, c.name);
    }
  }

  // ---------------------------------------------------------------------
  // GotoFileFilter.getAllFilterValues
  // ---------------------------------------------------------------------

  /** Every element is not greater than every element after it. */
  predicate Sorted(s: seq<FileType>) {
    forall i, j :: 0 <= i < j < |s| ==> Compare(s[i], s[j]) <= 0
  }

  /** Every element of s[..n] is not greater than its successor. */
  predicate OrderedPrefix(s: seq<FileType>, n: nat)
    requires n <= |s|
  {
    forall k :: 0 < k < n ==> Compare(s[k - 1], s[k]) <= 0
  }

  /** Because the comparator is transitive, ordered neighbours give a sorted sequence. */
  lemma {:induction false} AdjacentSortedIsSorted(s: seq<FileType>)
    requires UnknownUnique(s)
    requires OrderedPrefix(s, |s|)
    ensures Sorted(s)
  {
    if |s| > 1 {
      var t := s[..|s| - 1];
      assert UnknownUnique(t) by {
        forall x | x in t ensures x in s {
        }
      }
      AdjacentSortedIsSorted(t);
      var last := s[|s| - 1];
      forall i, j | 0 <= i < j < |s| ensures Compare(s[i], s[j]) <= 0 {
        if j < |s| - 1 {
          assert s[i] == t[i] && s[j] == t[j];
        } else if i < |s| - 2 {
          assert s[i] == t[i] && s[|s| - 2] == t[|s| - 2];
          CompareTransitive(s[i], s[|s| - 2], last);
        }
      }
    }
  }

  /** In a sorted sequence with one UNKNOWN file type, nothing but UNKNOWN
      itself follows UNKNOWN. */
  lemma UnknownLast(s: seq<FileType>)
    requires UnknownUnique(s)
    requires Sorted(s)
    ensures forall i, j :: 0 <= i < j < |s| && s[i].isUnknown ==> s[j] == s[i]
  {
    forall i, j | 0 <= i < j < |s| && s[i].isUnknown ensures s[j] == s[i] {
      assert s[j] in s;
      assert Compare(s[i], s[j]) <= 0;
    }
  }

  /** GotoFileFilter.getAllFilterValues: copy the registered file types into a
      fresh list and sort it with the comparator.  The result holds exactly the
      registered file types, each as often as registered, in non-decreasing
      order, with UNKNOWN only at the end. */
  method GetAllFilterValues(registered: seq<FileType>) returns (elements: seq<FileType>)
    requires UnknownUnique(registered)
    ensures multiset(elements) == multiset(registered)
    ensures Sorted(elements)
    ensures forall i, j :: 0 <= i < j < |elements| && elements[i].isUnknown ==> elements[j] == elements[i]
  {
    var n := |registered|;
    var a := new FileType[n](k requires 0 <= k < n => registered[k]);
    assert a[..] == registered;
    var i := 0;
    while i < n
      invariant 0 <= i <= n
      invariant OrderedPrefix(a[..], i)
      invariant multiset(a[..]) == multiset(registered)
    {
      InsertLast(a, i, registered);
      i := i + 1;
    }
    elements := a[..];
    assert UnknownUnique(elements) by {
      forall x | x in elements ensures x in registered {
        assert x in multiset(elements);
      }
    }
    AdjacentSortedIsSorted(elements);
    UnknownLast(elements);
  }

  /** The state of one insertion step: the element being moved sits at `j`;
      every neighbouring pair of s[..i+1] is in order except the one ending at
      `j`, and the neighbours of `j` are in order with each other. */
  predicate Inserting(s: seq<FileType>, i: nat, j: nat)
    requires j <= i < |s|
  {
    (forall k :: 0 < k <= i && k != j ==> Compare(s[k - 1], s[k]) <= 0) &&
    (0 < j < i ==> Compare(s[j - 1], s[j + 1]) <= 0)
  }

  /** Swapping the moved element with a greater left neighbour keeps the
      insertion state, one place further left. */
  lemma SwapStep(s: seq<FileType>, i: nat, j: nat)
    requires 0 < j <= i < |s|
    requires Inserting(s, i, j)
    requires Compare(s[j - 1], s[j]) > 0
    requires UnknownPair(s[j - 1], s[j])
    ensures Inserting(s[j - 1 := s[j]][j := s[j - 1]], i, j - 1)
  {
    CompareAntisymmetric(s[j - 1], s[j]);
    var t := s[j - 1 := s[j]][j := s[j - 1]];
    forall k | 0 < k <= i && k != j - 1 ensures Compare(t[k - 1], t[k]) <= 0 {
      if k == j {
      } else if k == j + 1 {
        assert t[k - 1] == s[j - 1] && t[k] == s[j + 1];
      } else {
        assert t[k - 1] == s[k - 1] && t[k] == s[k];
      }
    }
    if 0 < j - 1 {
      assert t[j - 2] == s[j - 2] && t[j] == s[j - 1];
    }
  }

  /** Swapping two neighbours keeps the elements. */
  lemma SwapKeepsMultiset(s: seq<FileType>, j: nat)
    requires 0 < j < |s|
    ensures multiset(s[j - 1 := s[j]][j := s[j - 1]]) == multiset(s)
  {
  }

  /** Swapping two neighbours inside s[..i+1] keeps the elements of s[..i+1]. */
  lemma SwapKeepsPrefix(s: seq<FileType>, i: nat, j: nat)
    requires 0 < j <= i < |s|
    ensures multiset(s[j - 1 := s[j]][j := s[j - 1]][..i + 1]) == multiset(s[..i + 1])
  {
    var t := s[j - 1 := s[j]][j := s[j - 1]];
    assert t[..i + 1] == s[..i + 1][j - 1 := s[j]][j := s[j - 1]];
    SwapKeepsMultiset(s[..i + 1], j);
  }

  /** The insertion state at the start of a step. */
  lemma InsertStart(s: seq<FileType>, i: nat)
    requires i < |s| && OrderedPrefix(s, i)
    ensures Inserting(s, i, i)
  {
  }

  /** The insertion state once the moved element stops: s[..i+1] is ordered. */
  lemma InsertDone(s: seq<FileType>, i: nat, j: nat)
    requires j <= i < |s| && Inserting(s, i, j)
    requires j == 0 || Compare(s[j - 1], s[j]) <= 0
    ensures OrderedPrefix(s, i + 1)
  {
  }

  /** One step of the sort: moves a[i] down past every greater neighbour, so
      that a[..i+1] becomes ordered when a[..i] was. */
  method InsertLast(a: array<FileType>, i: nat, registered: seq<FileType>)
    requires i < a.Length
    requires UnknownUnique(registered)
    requires multiset(a[..]) == multiset(registered)
    requires OrderedPrefix(a[..], i)
    modifies a
    ensures multiset(a[..]) == multiset(registered)
    ensures OrderedPrefix(a[..], i + 1)
    ensures multiset(a[..i + 1]) == multiset(old(a[..i + 1]))
    ensures a[i + 1..] == old(a[i + 1..])
  {
    var j := i;
    InsertStart(a[..], i);
    while j > 0 && Compare(a[j - 1], a[j]) > 0
      invariant 0 <= j <= i
      invariant Inserting(a[..], i, j)
      invariant multiset(a[..]) == multiset(registered)
      invariant multiset(a[..i + 1]) == multiset(old(a[..i + 1]))
      invariant a[i + 1..] == old(a[i + 1..])
    {
      SwapDown(a, i, j, registered);
      j := j - 1;
    }
    InsertDone(a[..], i, j);
  }

  /** Swaps the moved element a[j] with its greater left neighbour. */
  method SwapDown(a: array<FileType>, i: nat, j: nat, ghost registered: seq<FileType>)
    requires 0 < j <= i < a.Length
    requires UnknownUnique(registered)
    requires multiset(a[..]) == multiset(registered)
    requires Inserting(a[..], i, j)
    requires Compare(a[j - 1], a[j]) > 0
    modifies a
    ensures a[..] == old(a[..])[j - 1 := old(a[j])][j := old(a[j - 1])]
    ensures multiset(a[..]) == multiset(registered)
    ensures multiset(a[..i + 1]) == multiset(old(a[..i + 1]))
    ensures Inserting(a[..], i, j - 1)
  {
    ghost var s := a[..];
    InRegistry(s, registered, j - 1);
    InRegistry(s, registered, j);
    SwapStep(s, i, j);
    SwapKeepsMultiset(s, j);
    SwapKeepsPrefix(s, i, j);
    a[j - 1], a[j] := a[j], a[j - 1];
    assert a[..] == s[j - 1 := s[j]][j := s[j - 1]];
  }

  /** An element of a permutation of the registry is one of the registered
      file types, so two such elements satisfy UnknownPair. */
  lemma InRegistry(s: seq<FileType>, registered: seq<FileType>, k: nat)
    requires multiset(s) == multiset(registered)
    requires k < |s|
    ensures s[k] in registered
  {
    assert s[k] in multiset(s);
  }
}
