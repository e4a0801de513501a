/**
 * The list reconciliation shared by both scripts: splitting the local file
 * names into the ones the modlist still expects and the ones to delete, the
 * self-check that re-counts the kept names, the union of two manifests' names
 * and the removal of the names flagged for deletion.
 *
 * Membership is exact string equality (Python's `in` on a list of `str`).
 */
module Reconcile {

  // ---------------------------------------------------------------------------
  // Partition of the local names
  // ---------------------------------------------------------------------------

  /** The names of `local`, in their order, whose membership in `expected` is
      `present`: `Kept` and `Deleted` below are its two instances. */
  function Select(local: seq<string>, expected: seq<string>, present: bool): (r: seq<string>)
    ensures |r| <= |local|
  {
    if local == [] then []
    else
      var last := local[|local| - 1];
      Select(local[..|local| - 1], expected, present) + (if (last in expected) == present then [last] else [])
  }

  /** The local names that the modlist expects. */
  function Kept(expected: seq<string>, local: seq<string>): (r: seq<string>)
    ensures forall x :: x in r <==> x in local && x in expected
  {
    SelectMembersAll(local, expected, true);
    Select(local, expected, true)
  }

  /** The local names that the modlist does not expect. */
  function Deleted(expected: seq<string>, local: seq<string>): (r: seq<string>)
    ensures forall x :: x in r <==> x in local && x !in expected
  {
    SelectMembersAll(local, expected, false);
    Select(local, expected, false)
  }

  /** One more name appended to the scanned list adds at most that name. */
  lemma SelectAppend(s: seq<string>, x: string, expected: seq<string>, present: bool)
    ensures Select(s + [x], expected, present)
            == Select(s, expected, present) + (if (x in expected) == present then [x] else [])
  {
  }

  /** A name is selected exactly when it is local and its membership in
      `expected` is the one asked for. */
  lemma {:induction false} SelectMembers(local: seq<string>, expected: seq<string>, present: bool, x: string)
    ensures x in Select(local, expected, present) <==> x in local && (x in expected) == present
  {
    if local != [] {
      var p := local[..|local| - 1];
      SelectMembers(p, expected, present, x);
      assert local == p + [local[|local| - 1]];
    }
  }

  lemma SelectMembersAll(local: seq<string>, expected: seq<string>, present: bool)
    ensures forall x :: x in Select(local, expected, present) <==> x in local && (x in expected) == present
  {
    forall x {
      SelectMembers(local, expected, present, x);
    }
  }

  /** Every occurrence of a selected name is kept, and no other name occurs. */
  lemma {:induction false} SelectCount(local: seq<string>, expected: seq<string>, present: bool, x: string)
    ensures multiset(Select(local, expected, present))[x]
            == if (x in expected) == present then multiset(local)[x] else 0
  {
    if local != [] {
      var p := local[..|local| - 1];
      SelectCount(p, expected, present, x);
      assert local == p + [local[|local| - 1]];
    }
  }

  /** `r` is obtained from `s` by dropping some of its elements. */
  ghost predicate IsSubsequence(r: seq<string>, s: seq<string>)
    decreases |s|
  {
    r == [] ||
    (s != [] &&
     ((r[|r| - 1] == s[|s| - 1] && IsSubsequence(r[..|r| - 1], s[..|s| - 1])) ||
      IsSubsequence(r, s[..|s| - 1])))
  }

  /** The selected names keep their local order. */
  lemma {:induction false} SelectIsSubsequence(local: seq<string>, expected: seq<string>, present: bool)
    ensures IsSubsequence(Select(local, expected, present), local)
  {
    if local != [] {
      var p := local[..|local| - 1];
      var last := local[|local| - 1];
      SelectIsSubsequence(p, expected, present);
      var r := Select(local, expected, present);
      if (last in expected) == present {
        assert r == Select(p, expected, present) + [last];
        assert r[..|r| - 1] == Select(p, expected, present);
        assert r[|r| - 1] == local[|local| - 1];
      } else {
        assert r == Select(p, expected, present);
      }
    }
  }

  /** Each local name lands in exactly one of the two lists. */
  lemma Partition(expected: seq<string>, local: seq<string>)
    ensures multiset(Kept(expected, local)) + multiset(Deleted(expected, local)) == multiset(local)
    ensures |Kept(expected, local)| + |Deleted(expected, local)| == |local|
    ensures forall x :: x in Kept(expected, local) ==> x !in Deleted(expected, local)
  {
    forall x
      ensures (multiset(Kept(expected, local)) + multiset(Deleted(expected, local)))[x] == multiset(local)[x]
    {
      SelectCount(local, expected, true, x);
      SelectCount(local, expected, false, x);
    }
    assert multiset(Kept(expected, local)) + multiset(Deleted(expected, local)) == multiset(local);
    assert |multiset(Kept(expected, local)) + multiset(Deleted(expected, local))| == |multiset(local)|;
    forall x | x in Kept(expected, local)
      ensures x !in Deleted(expected, local)
    {
      SelectMembers(local, expected, true, x);
      SelectMembers(local, expected, false, x);
    }
  }

  /** Reconciling an already reconciled list changes nothing. */
  lemma {:induction false} SelectIdempotent(local: seq<string>, expected: seq<string>, present: bool)
    ensures Select(Select(local, expected, present), expected, present) == Select(local, expected, present)
  {
    if local != [] {
      var p := local[..|local| - 1];
      var last := local[|local| - 1];
      SelectIdempotent(p, expected, present);
      var sp := Select(p, expected, present);
      if (last in expected) == present {
        assert Select(local, expected, present) == sp + [last];
        SelectAppend(sp, last, expected, present);
        assert Select(sp + [last], expected, present) == Select(sp, expected, present) + [last];
        assert Select(sp, expected, present) == sp;
        assert Select(Select(local, expected, present), expected, present) == sp + [last];
      } else {
        assert Select(local, expected, present) == sp;
      }
    }
  }

  // ---------------------------------------------------------------------------
  // The self-check of sanity_check
  // ---------------------------------------------------------------------------

  /** What the self-check decides. `readBack` stands for writing the kept names
      to the kept-names text file, one per line, and reading the file back line
      by line with surrounding whitespace stripped; the check counts the lines
      that are still expected and compares the count with the kept names.
      When the file gives back the kept names unchanged, the check passes; when
      it gives back fewer lines than names were kept, the check fails. */
  function SanityHolds(expected: seq<string>, local: seq<string>, readBack: seq<string> -> seq<string>): (r: bool)
    ensures readBack(Kept(expected, local)) == Kept(expected, local) ==> r
    ensures |readBack(Kept(expected, local))| < |Kept(expected, local)| ==> !r
  {
    SelectIdempotent(local, expected, true);
    |Kept(expected, readBack(Kept(expected, local)))| == |Kept(expected, local)|
  }

  /** The check only counts: a file that gives back a different expected name
      for every kept one still passes. */
  lemma SanityMissesSubstitution()
    ensures SanityHolds(["a.zip", "b.zip"], ["a.zip"], _ => ["b.zip"])
  {
  }

  /** The worked example: expected a.zip and b.zip, local a.zip and c.zip. */
  lemma ReconcileExample()
    ensures Kept(["a.zip", "b.zip"], ["a.zip", "c.zip"]) == ["a.zip"]
    ensures Deleted(["a.zip", "b.zip"], ["a.zip", "c.zip"]) == ["c.zip"]
  {
  }

  // ---------------------------------------------------------------------------
  // Names without repetition
  // ---------------------------------------------------------------------------

  ghost predicate NoDuplicates(s: seq<string>)
  {
    forall i, j :: 0 <= i < j < |s| ==> s[i] != s[j]
  }

  lemma AppendNoDuplicates(s: seq<string>, x: string)
    requires NoDuplicates(s) && x !in s
    ensures NoDuplicates(s + [x])
  {
  }

  /** Dropping names from a list without repetitions leaves one. */
  lemma {:induction false} SelectNoDuplicates(local: seq<string>, expected: seq<string>, present: bool)
    requires NoDuplicates(local)
    ensures NoDuplicates(Select(local, expected, present))
  {
    if local != [] {
      var p := local[..|local| - 1];
      var last := local[|local| - 1];
      assert NoDuplicates(p);
      SelectNoDuplicates(p, expected, present);
      SelectMembers(p, expected, present, last);
      if (last in expected) == present {
        AppendNoDuplicates(Select(p, expected, present), last);
      }
    }
  }

  // ---------------------------------------------------------------------------
  // Union of two manifests (merge script)
  // ---------------------------------------------------------------------------

  /** The merge script's union: the names of the second manifest appended one
      at a time to the first, each one skipped when the growing list already
      holds it (the list extended is the same list the membership test reads). */
  function Merged(first: seq<string>, second: seq<string>): (r: seq<string>)
    ensures first <= r
    decreases |second|
  {
    if second == [] then first
    else
      var u := Merged(first, second[..|second| - 1]);
      var x := second[|second| - 1];
      if x in u then u else u + [x]
  }

  /** The elements of `s` at the positions where they occur for the first time. */
  function FirstOccurrences(s: seq<string>): (r: seq<string>)
    ensures |r| <= |s|
  {
    if s == [] then []
    else
      var p := s[..|s| - 1];
      var last := s[|s| - 1];
      FirstOccurrences(p) + (if last in p then [] else [last])
  }

  lemma {:induction false} FirstOccurrencesMembers(s: seq<string>, x: string)
    ensures x in FirstOccurrences(s) <==> x in s
  {
    if s != [] {
      var p := s[..|s| - 1];
      FirstOccurrencesMembers(p, x);
      assert s == p + [s[|s| - 1]];
    }
  }

  lemma {:induction false} FirstOccurrencesNoDuplicates(s: seq<string>)
    ensures NoDuplicates(FirstOccurrences(s))
  {
    if s != [] {
      var p := s[..|s| - 1];
      var last := s[|s| - 1];
      FirstOccurrencesNoDuplicates(p);
      if last !in p {
        FirstOccurrencesMembers(p, last);
        AppendNoDuplicates(FirstOccurrences(p), last);
      }
    }
  }

  /** The union is the first manifest, its own repetitions included, followed
      by the first occurrence of every name of the second manifest that the
      first does not hold. */
  lemma MergedIsFirstThenNewNames(first: seq<string>, second: seq<string>)
    ensures Merged(first, second) == first + FirstOccurrences(Deleted(first, second))
  {
    MergedIsFirstThenUnselected(first, second);
  }

  lemma {:induction false} MergedIsFirstThenUnselected(first: seq<string>, second: seq<string>)
    ensures Merged(first, second) == first + FirstOccurrences(Select(second, first, false))
  {
    if second != [] {
      var p := second[..|second| - 1];
      var x := second[|second| - 1];
      MergedIsFirstThenUnselected(first, p);
      var d := Select(p, first, false);
      var u := Merged(first, p);
      assert p + [x] == second;
      SelectAppend(p, x, first, false);
      if x in first {
        assert Select(second, first, false) == d;
      } else {
        MergedStepOnNewName(first, x, d, u);
      }
    }
  }

  /** One step of the union for a name the first manifest lacks. */
  lemma MergedStepOnNewName(first: seq<string>, x: string, d: seq<string>, u: seq<string>)
    requires x !in first && u == first + FirstOccurrences(d)
    ensures (if x in u then u else u + [x]) == first + FirstOccurrences(d + [x])
  {
    FirstOccurrencesAppend(d, x);
    FirstOccurrencesMembers(d, x);
    if x in d {
      MergedStepSeen(first, x, FirstOccurrences(d), u);
    } else {
      MergedStepUnseen(first, x, FirstOccurrences(d), u);
    }
  }

  lemma MergedStepSeen(first: seq<string>, x: string, f: seq<string>, u: seq<string>)
    requires x in f && u == first + f
    ensures x in u
  {
  }

  lemma MergedStepUnseen(first: seq<string>, x: string, f: seq<string>, u: seq<string>)
    requires x !in first && x !in f && u == first + f
    ensures x !in u && u + [x] == first + (f + [x])
  {
  }

  lemma FirstOccurrencesAppend(s: seq<string>, x: string)
    ensures FirstOccurrences(s + [x]) == FirstOccurrences(s) + (if x in s then [] else [x])
  {
  }

  /** A name is in the union exactly when some manifest holds it. */
  lemma {:induction false} MergedMembers(first: seq<string>, second: seq<string>, x: string)
    ensures x in Merged(first, second) <==> x in first || x in second
  {
    MergedIsFirstThenNewNames(first, second);
    FirstOccurrencesMembers(Deleted(first, second), x);
    SelectMembers(second, first, false, x);
  }

  /** The names the union adds are new and appear once each. */
  lemma {:induction false} MergedAddsNewNamesOnce(first: seq<string>, second: seq<string>)
    ensures NoDuplicates(Merged(first, second)[|first|..])
    ensures forall x :: x in Merged(first, second)[|first|..] ==> x !in first
  {
    MergedIsFirstThenNewNames(first, second);
    var tail := FirstOccurrences(Deleted(first, second));
    assert Merged(first, second)[|first|..] == tail;
    FirstOccurrencesNoDuplicates(Deleted(first, second));
    forall x | x in tail
      ensures x !in first
    {
      FirstOccurrencesMembers(Deleted(first, second), x);
      SelectMembers(second, first, false, x);
    }
  }

  lemma MergedExample()
    ensures Merged(["a", "b"], ["b", "c"]) == ["a", "b", "c"]
  {
  }

  // ---------------------------------------------------------------------------
  // Removal of the flagged names (delete_old_mods)
  // ---------------------------------------------------------------------------

  function Elems(s: seq<string>): set<string>
  {
    set x | x in s
  }

  /** Removing `names` one after another from `dir` never meets a name that is
      not (or no longer) there: exactly when every name is in `dir` and no
      name repeats. */
  ghost predicate Removable(names: seq<string>, dir: set<string>)
    ensures Removable(names, dir) <==> NoDuplicates(names) && forall x :: x in names ==> x in dir
  {
    NewAtEachStepIffNoDuplicates(names);
    forall i :: 0 <= i < |names| ==> names[i] in dir && names[i] !in names[..i]
  }

  lemma NewAtEachStepIffNoDuplicates(names: seq<string>)
    ensures (forall i :: 0 <= i < |names| ==> names[i] !in names[..i]) <==> NoDuplicates(names)
  {
    if forall i :: 0 <= i < |names| ==> names[i] !in names[..i] {
      forall i, j | 0 <= i < j < |names|
        ensures names[i] != names[j]
      {
        assert names[..j][i] == names[i];
      }
    }
  }

  /** Deleting the unexpected names of a directory listing succeeds and leaves
      exactly the kept names. */
  lemma DeletingUnexpectedLeavesKept(expected: seq<string>, local: seq<string>, dir: set<string>)
    requires NoDuplicates(local) && Elems(local) == dir
    ensures Removable(Deleted(expected, local), dir)
    ensures dir - Elems(Deleted(expected, local)) == Elems(Kept(expected, local))
  {
    var d := Deleted(expected, local);
    SelectNoDuplicates(local, expected, false);
    forall i | 0 <= i < |d|
      ensures d[i] in dir && d[i] !in d[..i]
    {
      SelectMembers(local, expected, false, d[i]);
    }
    forall x
      ensures x in dir - Elems(d) <==> x in Elems(Kept(expected, local))
    {
      SelectMembers(local, expected, false, x);
      SelectMembers(local, expected, true, x);
    }
  }
}
