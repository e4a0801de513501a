/**
 * The merge script: reconciles a local downloads directory against the union
 * of two modlists' expected file names.
 */
module MergeWjDownloads {
  import opened Wrappers
  import opened Reconcile
  import opened Ordering
  import opened Manifest
  import opened Cli

  const USAGE := "Usage: \n\t$ python merge_wj_downloads.py <wabbajack file 1> <wabbajack file 2>"

  /** `to_delete`: the local names the merged modlist does not expect. */
  method ToDelete(sortedWabbajackMods: seq<string>, sortedLocalMods: seq<string>)
    returns (mergedToBeDeleted: seq<string>)
    ensures mergedToBeDeleted == Deleted(sortedWabbajackMods, sortedLocalMods)
  {
    mergedToBeDeleted := [];
    for i := 0 to |sortedLocalMods|
      invariant mergedToBeDeleted == Deleted(sortedWabbajackMods, sortedLocalMods[..i])
    {
      var item := sortedLocalMods[i];
      assert sortedLocalMods[..i + 1] == sortedLocalMods[..i] + [item];
      SelectAppend(sortedLocalMods[..i], item, sortedWabbajackMods, false);
      if item !in sortedWabbajackMods {
        mergedToBeDeleted := mergedToBeDeleted + [item];
      }
    }
    assert sortedLocalMods[..|sortedLocalMods|] == sortedLocalMods;
  }

  /** `sanity_check`: splits the local names into the ones to keep and the
      ones to delete (the two lists it writes out), then re-counts the kept
      names as `readBack` gives them back from the kept-names file. */
  method SanityCheck(sortedWabbajackMods: seq<string>, sortedLocalMods: seq<string>,
                     readBack: seq<string> -> seq<string>)
    returns (inSync: bool, mergedToBeKept: seq<string>, mergedToBeDeleted: seq<string>)
    ensures mergedToBeKept == Kept(sortedWabbajackMods, sortedLocalMods)
    ensures mergedToBeDeleted == Deleted(sortedWabbajackMods, sortedLocalMods)
    ensures inSync == SanityHolds(sortedWabbajackMods, sortedLocalMods, readBack)
  {
    mergedToBeDeleted, mergedToBeKept := [], [];
    for i := 0 to |sortedLocalMods|
      invariant mergedToBeKept == Select(sortedLocalMods[..i], sortedWabbajackMods, true)
      invariant mergedToBeDeleted == Select(sortedLocalMods[..i], sortedWabbajackMods, false)
    {
      var item := sortedLocalMods[i];
      assert sortedLocalMods[..i + 1] == sortedLocalMods[..i] + [item];
      SelectAppend(sortedLocalMods[..i], item, sortedWabbajackMods, true);
      SelectAppend(sortedLocalMods[..i], item, sortedWabbajackMods, false);
      if item !in sortedWabbajackMods {
        mergedToBeDeleted := mergedToBeDeleted + [item];
      } else {
        mergedToBeKept := mergedToBeKept + [item];
      }
    }
    assert sortedLocalMods[..|sortedLocalMods|] == sortedLocalMods;

    var lines := readBack(mergedToBeKept);
    var mergedToBeKeptByLines := [];
    for i := 0 to |lines|
      invariant mergedToBeKeptByLines == Select(lines[..i], sortedWabbajackMods, true)
    {
      var item := lines[i];
      assert lines[..i + 1] == lines[..i] + [item];
      SelectAppend(lines[..i], item, sortedWabbajackMods, true);
      if item in sortedWabbajackMods {
        mergedToBeKeptByLines := mergedToBeKeptByLines + [item];
      }
    }
    assert lines[..|lines|] == lines;
    inSync := |mergedToBeKeptByLines| == |mergedToBeKept|;
  }

  /** `delete_old_mods`: removes the names from the directory one after
      another; the first name that is not there aborts the rest, and
      `failedAt` is its index. */
  method DeleteOldMods(mergedToBeDeleted: seq<string>, localModsDir: set<string>)
    returns (remaining: set<string>, failedAt: Option<nat>)
    ensures failedAt.None? <==> Removable(mergedToBeDeleted, localModsDir)
    ensures failedAt.None? ==> remaining == localModsDir - Elems(mergedToBeDeleted)
    ensures failedAt.Some? ==>
              var k := failedAt.value;
              k < |mergedToBeDeleted| &&
              Removable(mergedToBeDeleted[..k], localModsDir) &&
              (mergedToBeDeleted[k] !in localModsDir || mergedToBeDeleted[k] in mergedToBeDeleted[..k]) &&
              remaining == localModsDir - Elems(mergedToBeDeleted[..k])
  {
    remaining := localModsDir;
    for i := 0 to |mergedToBeDeleted|
      invariant Removable(mergedToBeDeleted[..i], localModsDir)
      invariant remaining == localModsDir - Elems(mergedToBeDeleted[..i])
    {
      var item := mergedToBeDeleted[i];
      if item !in remaining {
        return remaining, Some(i);
      }
      assert mergedToBeDeleted[..i + 1] == mergedToBeDeleted[..i] + [item];
      remaining := remaining - {item};
    }
    assert mergedToBeDeleted[..|mergedToBeDeleted|] == mergedToBeDeleted;
    failedAt := None;
  }

  /** Lines 94-98 and 99-103 of `main`: one container's expected names, one
      per `Archives` record and in that order. */
  method ExtractNames(c: Container) returns (r: Result<seq<string>, ArchiveFormatError>)
    ensures r == ManifestNames(c)
  {
    if c.modlist.None? {
      return Err(MissingModlistEntry);
    }
    var modlistJson := c.modlist.value;
    if modlistJson.archives.None? {
      return Err(MissingArchivesKey);
    }
    var records := modlistJson.archives.value;
    var files := [];
    for i := 0 to |records|
      invariant |files| == i
      invariant forall j :: 0 <= j < i ==> records[j].name.Some? && files[j] == records[j].name.value
    {
      if records[i].name.None? {
        return Err(MissingName(i));
      }
      files := files + [records[i].name.value];
    }
    assert RecordNames(records).Ok?;
    assert files == RecordNames(records).value;
    return Ok(files);
  }

  /** Lines 104-105 of `main`: `full_modlist` is the first list itself, so
      every name taken from the second list is tested against the names
      appended before it as well. */
  method MergeModlists(modlist1Files: seq<string>, modlist2Files: seq<string>)
    returns (fullModlist: seq<string>)
    ensures fullModlist == Merged(modlist1Files, modlist2Files)
  {
    fullModlist := modlist1Files;
    for i := 0 to |modlist2Files|
      invariant fullModlist == Merged(modlist1Files, modlist2Files[..i])
    {
      var x := modlist2Files[i];
      assert modlist2Files[..i + 1][..i] == modlist2Files[..i];
      if x !in fullModlist {
        fullModlist := fullModlist + [x];
      }
    }
    assert modlist2Files[..|modlist2Files|] == modlist2Files;
  }

  /** Lines 90-106 of `main`: the sorted union of both containers' names, or
      the first container's failure, or else the second's. */
  method ExpectedMods(modlist1: Container, modlist2: Container)
    returns (r: Result<seq<string>, ArchiveFormatError>)
    ensures ManifestNames(modlist1).Err? ==> r == Err(ManifestNames(modlist1).error)
    ensures ManifestNames(modlist1).Ok? && ManifestNames(modlist2).Err? ==>
              r == Err(ManifestNames(modlist2).error)
    ensures ManifestNames(modlist1).Ok? && ManifestNames(modlist2).Ok? ==>
              r == Ok(SortNames(Merged(ManifestNames(modlist1).value, ManifestNames(modlist2).value)))
  {
    var files1 := ExtractNames(modlist1);
    if files1.Err? {
      return Err(files1.error);
    }
    var files2 := ExtractNames(modlist2);
    if files2.Err? {
      return Err(files2.error);
    }
    var fullModlist := MergeModlists(files1.value, files2.value);
    return Ok(SortNames(fullModlist));
  }

  /** The expected names are those of either manifest, sorted, each name of
      the second manifest only once and only when the first lacks it. */
  lemma ExpectedModsMembers(modlist1Files: seq<string>, modlist2Files: seq<string>, x: string)
    ensures IsSorted(SortNames(Merged(modlist1Files, modlist2Files)))
    ensures multiset(SortNames(Merged(modlist1Files, modlist2Files)))
            == multiset(modlist1Files) + multiset(FirstOccurrences(Deleted(modlist1Files, modlist2Files)))
    ensures x in SortNames(Merged(modlist1Files, modlist2Files)) <==> x in modlist1Files || x in modlist2Files
  {
    MergedIsFirstThenNewNames(modlist1Files, modlist2Files);
    SortNamesMembers(Merged(modlist1Files, modlist2Files), x);
    MergedMembers(modlist1Files, modlist2Files, x);
  }

  /** The `__main__` block: help, a missing argument, a first argument
      without the suffix (the second is then never looked at), a second
      argument without the suffix, or two containers to merge. */
  function ClassifyArgs(argv: seq<string>): (r: Invocation)
    ensures r.Proceed? <==> 3 <= |argv| && EndsWith(argv[1], ARCHIVE_SUFFIX) && EndsWith(argv[2], ARCHIVE_SUFFIX)
    ensures r.Proceed? ==> r.containers == argv[1..3]
    ensures r == Exit(USAGE, 0) <==> 2 <= |argv| && IsHelpFlag(argv[1])
    ensures r == Exit(USAGE, 1) <==> |argv| < 2 || (|argv| == 2 && EndsWith(argv[1], ARCHIVE_SUFFIX))
    ensures r == Exit(NOT_AN_ARCHIVE, 0) <==>
              2 <= |argv| && !IsHelpFlag(argv[1]) &&
              (!EndsWith(argv[1], ARCHIVE_SUFFIX) || (3 <= |argv| && !EndsWith(argv[2], ARCHIVE_SUFFIX)))
  {
    if |argv| < 2 then Exit(USAGE, 1)
    else if IsHelpFlag(argv[1]) then Exit(USAGE, 0)
    else if !EndsWith(argv[1], ARCHIVE_SUFFIX) then Exit(NOT_AN_ARCHIVE, 0)
    else if |argv| < 3 then Exit(USAGE, 1)
    else if EndsWith(argv[2], ARCHIVE_SUFFIX) then Proceed([argv[1], argv[2]])
    else Exit(NOT_AN_ARCHIVE, 0)
  }

  /** Only the first two arguments matter, and when the first is neither a
      help flag nor a container the second is not looked at. */
  lemma ClassifyArgsReadsOnlyWhatItNeeds(argv: seq<string>, other: seq<string>)
    requires 2 <= |argv| && 2 <= |other| && argv[1] == other[1]
    requires !EndsWith(argv[1], ARCHIVE_SUFFIX)
             || ((3 <= |argv|) == (3 <= |other|) && (3 <= |argv| ==> argv[2] == other[2]))
    ensures ClassifyArgs(argv) == ClassifyArgs(other)
  {
  }
}
