/**
 * The single-modlist script: reconciles a local downloads directory against
 * one modlist's expected file names.
 */
module CleanWjDownloads {
  import opened Wrappers
  import opened Reconcile
  import opened Ordering
  import opened Manifest
  import opened Cli

  const USAGE := "Usage: \n\t$ python modstokeep.py <wabbajack file>"

  /** `to_delete`: the local names the modlist does not expect. */
  method ToDelete(sortedWabbajackMods: seq<string>, sortedLocalMods: seq<string>)
    returns (toBeDeleted: seq<string>)
    ensures toBeDeleted == Deleted(sortedWabbajackMods, sortedLocalMods)
  {
    toBeDeleted := [];
    for i := 0 to |sortedLocalMods|
      invariant toBeDeleted == Deleted(sortedWabbajackMods, sortedLocalMods[..i])
    {
      var item := sortedLocalMods[i];
      assert sortedLocalMods[..i + 1] == sortedLocalMods[..i] + [item];
      SelectAppend(sortedLocalMods[..i], item, sortedWabbajackMods, false);
      if item !in sortedWabbajackMods {
        toBeDeleted := toBeDeleted + [item];
      }
    }
    assert sortedLocalMods[..|sortedLocalMods|] == sortedLocalMods;
  }

  /** `sanity_check`: splits the local names into the ones to keep and the
      ones to delete (the two lists it writes out), then re-counts the kept
      names as `readBack` gives them back from the kept-names file. */
  method SanityCheck(sortedWabbajackMods: seq<string>, sortedLocalMods: seq<string>,
                     readBack: seq<string> -> seq<string>)
    returns (inSync: bool, toBeKept: seq<string>, toBeDeleted: seq<string>)
    ensures toBeKept == Kept(sortedWabbajackMods, sortedLocalMods)
    ensures toBeDeleted == Deleted(sortedWabbajackMods, sortedLocalMods)
    ensures inSync == SanityHolds(sortedWabbajackMods, sortedLocalMods, readBack)
  {
    toBeDeleted, toBeKept := [], [];
    for i := 0 to |sortedLocalMods|
      invariant toBeKept == Select(sortedLocalMods[..i], sortedWabbajackMods, true)
      invariant toBeDeleted == Select(sortedLocalMods[..i], sortedWabbajackMods, false)
    {
      var item := sortedLocalMods[i];
      assert sortedLocalMods[..i + 1] == sortedLocalMods[..i] + [item];
      SelectAppend(sortedLocalMods[..i], item, sortedWabbajackMods, true);
      SelectAppend(sortedLocalMods[..i], item, sortedWabbajackMods, false);
      if item !in sortedWabbajackMods {
        toBeDeleted := toBeDeleted + [item];
      } else {
        toBeKept := toBeKept + [item];
      }
    }
    assert sortedLocalMods[..|sortedLocalMods|] == sortedLocalMods;

    var lines := readBack(toBeKept);
    var toBeKeptByLines := [];
    for i := 0 to |lines|
      invariant toBeKeptByLines == Select(lines[..i], sortedWabbajackMods, true)
    {
      var item := lines[i];
      assert lines[..i + 1] == lines[..i] + [item];
      SelectAppend(lines[..i], item, sortedWabbajackMods, true);
      if item in sortedWabbajackMods {
        toBeKeptByLines := toBeKeptByLines + [item];
      }
    }
    assert lines[..|lines|] == lines;
    inSync := |toBeKeptByLines| == |toBeKept|;
  }

  /** `delete_old_mods`: removes the names from the directory one after
      another; the first name that is not there aborts the rest, and
      `failedAt` is its index. */
  method DeleteOldMods(toBeDeleted: seq<string>, localModsDir: set<string>)
    returns (remaining: set<string>, failedAt: Option<nat>)
    ensures failedAt.None? <==> Removable(toBeDeleted, localModsDir)
    ensures failedAt.None? ==> remaining == localModsDir - Elems(toBeDeleted)
    ensures failedAt.Some? ==>
              var k := failedAt.value;
              k < |toBeDeleted| &&
              Removable(toBeDeleted[..k], localModsDir) &&
              (toBeDeleted[k] !in localModsDir || toBeDeleted[k] in toBeDeleted[..k]) &&
              remaining == localModsDir - Elems(toBeDeleted[..k])
  {
    remaining := localModsDir;
    for i := 0 to |toBeDeleted|
      invariant Removable(toBeDeleted[..i], localModsDir)
      invariant remaining == localModsDir - Elems(toBeDeleted[..i])
    {
      var item := toBeDeleted[i];
      if item !in remaining {
        return remaining, Some(i);
      }
      assert toBeDeleted[..i + 1] == toBeDeleted[..i] + [item];
      remaining := remaining - {item};
    }
    assert toBeDeleted[..|toBeDeleted|] == toBeDeleted;
    failedAt := None;
  }

  /** Lines 91-99 of `main`: the container's expected names, one per
      `Archives` record and in that order. */
  method ExtractNames(c: Container) returns (r: Result<seq<string>, ArchiveFormatError>)
    ensures r == ManifestNames(c)
  {
    if c.modlist.None? {
      return Err(MissingModlistEntry);
    }
    var modlistJson := c.modlist.value;
    if modlistJson.archives.None? {
      return Err(MissingArchivesKey);
    }
    var records := modlistJson.archives.value;
    var modlist := [];
    for i := 0 to |records|
      invariant |modlist| == i
      invariant forall j :: 0 <= j < i ==> records[j].name.Some? && modlist[j] == records[j].name.value
    {
      if records[i].name.None? {
        return Err(MissingName(i));
      }
      modlist := modlist + [records[i].name.value];
    }
    assert RecordNames(records).Ok?;
    assert modlist == RecordNames(records).value;
    return Ok(modlist);
  }

  /** Lines 89-100 of `main`: the container's names, sorted. */
  method ExpectedMods(wabbajackMods: Container) returns (r: Result<seq<string>, ArchiveFormatError>)
    ensures ManifestNames(wabbajackMods).Err? ==> r == Err(ManifestNames(wabbajackMods).error)
    ensures ManifestNames(wabbajackMods).Ok? ==> r == Ok(SortNames(ManifestNames(wabbajackMods).value))
  {
    var modlist := ExtractNames(wabbajackMods);
    if modlist.Err? {
      return Err(modlist.error);
    }
    return Ok(SortNames(modlist.value));
  }

  /** The `__main__` block: help, a missing argument, an argument without
      the suffix, or one container to clean against. */
  function ClassifyArgs(argv: seq<string>): (r: Invocation)
    ensures r.Proceed? <==> 2 <= |argv| && EndsWith(argv[1], ARCHIVE_SUFFIX)
    ensures r.Proceed? ==> r.containers == argv[1..2]
    ensures r == Exit(USAGE, 0) <==> 2 <= |argv| && IsHelpFlag(argv[1])
    ensures r == Exit(USAGE, 1) <==> |argv| < 2
    ensures r == Exit(NOT_AN_ARCHIVE, 0) <==>
              2 <= |argv| && !IsHelpFlag(argv[1]) && !EndsWith(argv[1], ARCHIVE_SUFFIX)
  {
    if |argv| < 2 then Exit(USAGE, 1)
    else if IsHelpFlag(argv[1]) then Exit(USAGE, 0)
    else if EndsWith(argv[1], ARCHIVE_SUFFIX) then Proceed([argv[1]])
    else Exit(NOT_AN_ARCHIVE, 0)
  }
}
