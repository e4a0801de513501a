/**
 * The manifest inside a `.wabbajack` container, as both scripts read it: the
 * container's `modlist` entry is a JSON document whose `Archives` array holds
 * one object per expected download, each naming its file under `Name`.
 * Opening the zip file and decoding the JSON are not modelled; a container is
 * given here by what decoding its `modlist` entry yields.
 */
module Manifest {
  import opened Wrappers

  /** One element of `Archives`: its `Name` field, `None` when it has none. */
  datatype ArchiveRecord = ArchiveRecord(name: Option<string>)

  /** The decoded `modlist` document: its `Archives` array, `None` when the
      document has no such key. */
  datatype ModlistDocument = ModlistDocument(archives: Option<seq<ArchiveRecord>>)

  /** A container archive: its decoded `modlist` entry, `None` when the
      archive holds no entry of that name. */
  datatype Container = Container(modlist: Option<ModlistDocument>)

  /** The lookups that fail with a `KeyError` and end the run. */
  datatype ArchiveFormatError =
    | MissingModlistEntry
    | MissingArchivesKey
    | MissingName(index: nat)

  /** Everything the record list can yield: the names in record order, or the
      first record without a name. */
  function RecordNames(records: seq<ArchiveRecord>): (r: Result<seq<string>, ArchiveFormatError>)
    ensures r.Ok? <==> forall i :: 0 <= i < |records| ==> records[i].name.Some?
    ensures r.Ok? ==> |r.value| == |records| &&
                      forall i :: 0 <= i < |records| ==> r.value[i] == records[i].name.value
    ensures r.Err? ==> r.error.MissingName? && r.error.index < |records| &&
                       records[r.error.index].name.None? &&
                       forall i :: 0 <= i < r.error.index ==> records[i].name.Some?
  {
    if records == [] then Ok([])
    else
      var last := records[|records| - 1];
      match RecordNames(records[..|records| - 1])
      case Err(e) => Err(e)
      case Ok(names) =>
        if last.name.None? then Err(MissingName(|records| - 1)) else Ok(names + [last.name.value])
  }

  /** The expected file names a container declares, one per `Archives`
      element and in that order, or the first lookup that fails. */
  function ManifestNames(c: Container): (r: Result<seq<string>, ArchiveFormatError>)
    ensures c.modlist.None? ==> r == Err(MissingModlistEntry)
    ensures c.modlist.Some? && c.modlist.value.archives.None? ==> r == Err(MissingArchivesKey)
    ensures c.modlist.Some? && c.modlist.value.archives.Some? ==>
              r == RecordNames(c.modlist.value.archives.value)
  {
    match c.modlist
    case None => Err(MissingModlistEntry)
    case Some(doc) =>
      match doc.archives
      case None => Err(MissingArchivesKey)
      case Some(records) => RecordNames(records)
  }
}
