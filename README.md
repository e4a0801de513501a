# clean-wj-downloads, modelled in Dafny

The repository holds two scripts that tidy a directory of downloaded mod
archives against a Wabbajack modlist. `clean_wj_downloads.py` reads the
expected archive names from one `.wabbajack` container. `merge_wj_downloads.py`
reads them from two containers and unions them. Both scripts then split the
local file names into names to keep and names to delete. They perform a
count-based self-check, and on confirmation remove the unexpected files.

This project models that list logic and proves what it guarantees.

- `reconcile.dfy` (module `Reconcile`): the partition of the local names
  (`Select`, which `Kept` and `Deleted` instantiate). It also holds the
  self-check's verdict (`SanityHolds`), the merge script's union (`Merged`)
  with an independent description of it (`FirstOccurrences`), and the
  condition under which removing a list of names from a directory succeeds
  (`Removable`).
- `ordering.dfy` (module `Ordering`): Python's ordering on `str`
  (lexicographic by code point) and an insertion sort that stands for
  `sorted`.
- `manifest.dfy` (module `Manifest`): a container as the decoded `modlist`
  entry, its `Archives` records and their `Name` fields, and the `KeyError`
  paths as `ArchiveFormatError`.
- `cli.dfy` (module `Cli`): the `.wabbajack` suffix, Python's `endswith`, the
  help flags and the shape of the entry point's decision.
- `merge_wj_downloads.dfy` and `clean_wj_downloads.dfy` (modules
  `MergeWjDownloads`, `CleanWjDownloads`): one module per script. Each
  function the script builds with `append` loops is a method with the same
  loop, proved equal to the specification functions above. The argument
  handling is a function.

Modelling choices:

- The write-then-read round trip through the kept-names text file is a
  parameter `readBack`. It maps the kept names to the stripped lines that
  reading the file gives back. The contract of `SanityHolds` shows that the
  check passes when the round trip returns the names unchanged.
- In the merge script, `full_modlist` is the same list object as
  `modlist1_files`. `list.extend` consumes its generator one item at a time,
  so each membership test also sees the names appended before it.
  `MergeModlists` therefore tests membership against the growing sequence.
  `MergedIsFirstThenNewNames` proves that the result is manifest 1 (its own
  repetitions kept) followed by the first occurrence of each name from
  manifest 2 that manifest 1 lacks.
- The directory that `delete_old_mods` works on is a set of file names.
  `os.remove` of a name that is not there (also a name already removed earlier
  in the same list) raises, which aborts the remaining removals.
  `DeleteOldMods` returns the index of that name.
- The merge script's expected list is not fully deduplicated: repetitions
  inside the first manifest survive the union.
- `sys.argv[1] == None` is never true for a string and is not a separate case.

## Model

| member | source | states |
|---|---|---|
| `Reconcile.Select` | merge_wj_downloads.py:18-22 | the filtered list is never longer than the local list |
| `Reconcile.Kept` | merge_wj_downloads.py:48-49 | the kept list holds exactly the local names that are in the expected list |
| `Reconcile.Deleted` | merge_wj_downloads.py:19-21 | the delete list holds exactly the local names that are not in the expected list |
| `Reconcile.SelectMembers` | merge_wj_downloads.py:19-21 | a name is in the filtered list iff it is local and its membership in the expected list is the one selected (not in it for `to_delete`, in it for the kept list) |
| `Reconcile.SelectCount` | clean_wj_downloads.py:42-50 | each selected name keeps all of its local occurrences and every other name has none |
| `Reconcile.SelectIsSubsequence` | clean_wj_downloads.py:18-20 | the filtered list is a subsequence of the local list, so local order is kept |
| `Reconcile.Partition` | merge_wj_downloads.py:43-51 | kept and deleted together are the local list as a multiset, their lengths sum to the local length, and no name is in both |
| `Reconcile.SelectIdempotent` | clean_wj_downloads.py:17-21 | filtering an already filtered list again changes nothing |
| `Reconcile.ReconcileExample` | clean_wj_downloads.py:42-50 | expected a.zip, b.zip and local a.zip, c.zip give kept [a.zip] and deleted [c.zip] |
| `Reconcile.SanityHolds` | merge_wj_downloads.py:53-61 | the self-check's verdict: True if reading the kept-names file back yields the kept names, False if fewer lines come back than names were kept |
| `Reconcile.SanityMissesSubstitution` | clean_wj_downloads.py:55-57 | the check only counts: lines that differ from the kept names but are still expected pass it |
| `Reconcile.SelectNoDuplicates` | merge_wj_downloads.py:109 | filtering a listing without repeated names gives a list without repeated names |
| `Reconcile.Merged` | merge_wj_downloads.py:104-105 | manifest 1 is a prefix of the union |
| `Reconcile.MergedIsFirstThenNewNames` | merge_wj_downloads.py:104-105 | the union is manifest 1 followed by the first occurrence of every manifest-2 name that manifest 1 lacks |
| `Reconcile.MergedMembers` | merge_wj_downloads.py:104-105 | a name is in the union iff it is in manifest 1 or in manifest 2 |
| `Reconcile.MergedAddsNewNamesOnce` | merge_wj_downloads.py:105 | the appended names are pairwise distinct and none of them is in manifest 1 |
| `Reconcile.MergedExample` | merge_wj_downloads.py:104-105 | union(["a","b"], ["b","c"]) is ["a","b","c"] |
| `Reconcile.FirstOccurrencesMembers` | merge_wj_downloads.py:105 | taking first occurrences keeps exactly the names of the list |
| `Reconcile.FirstOccurrencesNoDuplicates` | merge_wj_downloads.py:105 | the first occurrences have no repetitions |
| `Reconcile.Removable` | merge_wj_downloads.py:75-76 | removing the names one by one never meets an absent name exactly when every name is in the directory and no name repeats |
| `Reconcile.DeletingUnexpectedLeavesKept` | merge_wj_downloads.py:120-121 | for a listing of the directory without repetitions, removing the `to_delete` names never fails and leaves exactly the kept names |
| `Ordering.LexLeq` | merge_wj_downloads.py:106 | `a <= b` holds exactly when `a` is a prefix of `b` or `a` has the smaller code point at the first position where they differ |
| `Ordering.LexLeqTotal` | merge_wj_downloads.py:106 | any two strings are comparable |
| `Ordering.LexLeqTransitive` | merge_wj_downloads.py:106 | the string order is transitive |
| `Ordering.LexLeqAntisymmetric` | merge_wj_downloads.py:106 | strings ordered both ways are equal |
| `Ordering.Insert` | clean_wj_downloads.py:100 | inserting into a sorted list gives a sorted list with one more occurrence of the name |
| `Ordering.SortNames` | clean_wj_downloads.py:100 | the result is sorted and a permutation of the input |
| `Ordering.SortedIsUnique` | clean_wj_downloads.py:100 | two sorted permutations of the same names are equal, so the result is what `sorted` returns |
| `Ordering.SortNamesMembers` | merge_wj_downloads.py:106 | sorting keeps exactly the names it was given |
| `Cli.EndsWith` | merge_wj_downloads.py:144 | `s.endswith(suffix)` holds exactly when `s` is some string followed by `suffix` |
| `Manifest.RecordNames` | merge_wj_downloads.py:97-98 | one name per `Archives` record, in order, when every record has a name; otherwise the first record without one is reported |
| `Manifest.ManifestNames` | clean_wj_downloads.py:91-99 | a missing `modlist` entry or `Archives` key is an error; otherwise the records' names as in `RecordNames` |
| `MergeWjDownloads.ToDelete` | merge_wj_downloads.py:7-22 | returns exactly `Deleted(expected, local)` |
| `MergeWjDownloads.SanityCheck` | merge_wj_downloads.py:25-61 | the keep and delete lists are `Kept` and `Deleted` of the inputs; the result is True iff the expected re-read lines number as many as the kept names |
| `MergeWjDownloads.DeleteOldMods` | merge_wj_downloads.py:64-76 | succeeds iff every name is present when its turn comes, leaving the directory without those names; otherwise stops at the first absent name, having removed only the names before it |
| `MergeWjDownloads.ExtractNames` | merge_wj_downloads.py:94-98 | returns `ManifestNames` of the container |
| `MergeWjDownloads.MergeModlists` | merge_wj_downloads.py:104-105 | the growing-list union equals `Merged` of the two name lists |
| `MergeWjDownloads.ExpectedMods` | merge_wj_downloads.py:90-106 | the sorted union of both manifests' names, or the first manifest's error, or else the second's |
| `MergeWjDownloads.ExpectedModsMembers` | merge_wj_downloads.py:104-106 | the expected list is sorted, is manifest 1 plus the new manifest-2 names as a multiset, and holds exactly the names of either manifest |
| `MergeWjDownloads.ClassifyArgs` | merge_wj_downloads.py:137-152 | help gives usage and status 0; no first argument, or a container first argument and no second, gives usage and status 1; a wrong suffix on either gives the error message and status 0; two containers proceed |
| `MergeWjDownloads.ClassifyArgsReadsOnlyWhatItNeeds` | merge_wj_downloads.py:144 | only argv[1] and argv[2] matter, and argv[2] is not read when argv[1] lacks the suffix |
| `CleanWjDownloads.ToDelete` | clean_wj_downloads.py:6-21 | returns exactly `Deleted(expected, local)` |
| `CleanWjDownloads.SanityCheck` | clean_wj_downloads.py:24-60 | the keep and delete lists are `Kept` and `Deleted` of the inputs; the result is True iff the expected re-read lines number as many as the kept names |
| `CleanWjDownloads.DeleteOldMods` | clean_wj_downloads.py:63-75 | succeeds iff every name is present when its turn comes, leaving the directory without those names; otherwise stops at the first absent name, having removed only the names before it |
| `CleanWjDownloads.ExtractNames` | clean_wj_downloads.py:91-99 | returns `ManifestNames` of the container |
| `CleanWjDownloads.ExpectedMods` | clean_wj_downloads.py:89-100 | the container's names sorted, or its error |
| `CleanWjDownloads.ClassifyArgs` | clean_wj_downloads.py:136-148 | help gives usage and status 0; no argument gives usage and status 1; a wrong suffix gives the error message and status 0; a container proceeds |

## Left out

- Opening the zip container, extracting `modlist` to disk and removing it again (clean script), and decoding JSON are library I/O. A container is given by its decoded `modlist` entry; malformed JSON and non-string `Name` values are not modelled.
- The diagnostic text files (`sorted_wabbajack_mods.txt`, `sorted_local_mods.txt`, the keep and delete lists) are plain file I/O. The self-check's own round trip is the `readBack` parameter, and how line splitting and `strip` would alter names containing newlines or surrounding whitespace is not modelled.
- The rest of `main` (merge_wj_downloads.py:107-133, clean_wj_downloads.py:101-133) is not modelled: the directory prompt, `os.path.exists`, `os.listdir`, sorting the local names, the yes/no prompts, the messages and the removal of support files. These steps are console and filesystem glue around the modelled operations.
- DeleteOldMods: the only `os.remove` failure modelled is a missing name. Any other `OSError` on an existing entry (a subdirectory, a permission error, a file in use) is not modelled, and for such an entry the model reports success.
- Python's `sorted` is a library call. `SortNames` is an insertion sort in the same order, and `SortedIsUnique` shows that any correct sort gives the same list.
- The guard that exits when a script is imported (merge_wj_downloads.py:155-157, clean_wj_downloads.py:151-153) is process control.
