/** Record file names. Both engines name a record's file `<id>.<format>` and
    recover the id from a file name by dropping its extension; the two engines
    carry identical copies of this code. */
module Names {
  import opened Strings
  import opened Order

  /** The only encoding the engines support. */
  const Yaml: string := "yaml"

  /** idToFilename: `<id>.<format>`. */
  function IdToFilename(id: string, format: string): (r: string)
    ensures |r| == |id| + 1 + |format| && r[..|id|] == id
    ensures HasSuffix(r, "." + format)
  {
    id + "." + format
  }

  /** filenameToId: the file name without its extension. */
  function FilenameToId(filename: string): (r: string)
    ensures r + Ext(filename) == filename
  {
    TrimSuffix(filename, Ext(filename))
  }

  /** A format name is usable as an extension when it holds no '.' and no '/'. */
  predicate PlainFormat(format: string) {
    forall k :: 0 <= k < |format| ==> format[k] != '.' && format[k] != '/'
  }

  /** Stripping the extension of the name built for `id` gives back `id`, for
      every id: the last '.' of the last path element of `<id>.<format>` is the
      one that was appended. */
  lemma FilenameRoundTrip(id: string, format: string)
    requires PlainFormat(format)
    ensures FilenameToId(IdToFilename(id, format)) == id
  {
    ExtOfAppended(id, format);
    var f := IdToFilename(id, format);
    assert HasSuffix(f, "." + format);
  }

  /** An id whose record file is one path element below unsorted/. */
  predicate PlainId(id: string) {
    '/' !in id
  }

  /** A name the engine itself produces for some record: a single path element
      ending in `.<format>`. */
  predicate IsRecordFile(filename: string, format: string) {
    '/' !in filename && HasSuffix(filename, "." + format)
  }

  /** Every name in `names` is a record file name. */
  predicate RecordFiles(names: set<string>, format: string) {
    forall f :: f in names ==> IsRecordFile(f, format)
  }

  /** A record file is `<id>.<format>` for the id filenameToId gives, and that
      id is a plain id. */
  lemma RecordFileId(filename: string, format: string)
    requires PlainFormat(format) && IsRecordFile(filename, format)
    ensures IdToFilename(FilenameToId(filename), format) == filename
    ensures PlainId(FilenameToId(filename))
  {
    var id := filename[..|filename| - |format| - 1];
    assert filename == id + ("." + format);
    assert IdToFilename(id, format) == filename;
    FilenameRoundTrip(id, format);
    assert forall k :: 0 <= k < |id| ==> id[k] == filename[k];
  }

  lemma RecordFileOfId(id: string, format: string)
    requires PlainFormat(format) && PlainId(id)
    ensures IsRecordFile(IdToFilename(id, format), format)
  {
    var f := IdToFilename(id, format);
    assert f == id + ("." + format);
    assert '/' !in f;
  }

  /** filenameToId applied to every name of a directory listing. */
  function FilenamesToIds(names: seq<string>): seq<string> {
    seq(|names|, i requires 0 <= i < |names| => FilenameToId(names[i]))
  }

  /** The loop `files[idx] = o.filenameToId(files[idx])`, which rewrites a
      listing in place. */
  method StripExtensions(files: array<string>)
    modifies files
    ensures files[..] == FilenamesToIds(old(files[..]))
  {
    var idx := 0;
    while idx < files.Length
      invariant 0 <= idx <= files.Length
      invariant forall k :: 0 <= k < idx ==> files[k] == FilenameToId(old(files[k]))
      invariant forall k :: idx <= k < files.Length ==> files[k] == old(files[k])
    {
      files[idx] := FilenameToId(files[idx]);
      idx := idx + 1;
    }
  }

  /** A directory listing of record files, with the extensions stripped, has
      one entry per record, the record's id. */
  lemma ListingIds(names: seq<string>, files: set<string>)
    requires NoDuplicates(names) && Elems(names) == files
    requires RecordFiles(files, Yaml)
    ensures NoDuplicates(FilenamesToIds(names))
    ensures forall id :: id in FilenamesToIds(names) <==> IdToFilename(id, Yaml) in files
  {
    var ids := FilenamesToIds(names);
    forall i, j | 0 <= i < j < |ids| ensures ids[i] != ids[j] {
      DistinctIds(names, files, i, j);
    }
    forall id ensures id in ids <==> IdToFilename(id, Yaml) in files {
      ListedId(names, files, id);
    }
  }

  /** Two different record files have different ids. */
  lemma DistinctIds(names: seq<string>, files: set<string>, i: nat, j: nat)
    requires NoDuplicates(names) && Elems(names) == files
    requires RecordFiles(files, Yaml)
    requires i < j < |names|
    ensures FilenameToId(names[i]) != FilenameToId(names[j])
  {
    assert names[i] in Elems(names) && names[j] in Elems(names);
    RecordFileId(names[i], Yaml);
    RecordFileId(names[j], Yaml);
  }

  /** An id is listed exactly when its record file is in the directory. */
  lemma ListedId(names: seq<string>, files: set<string>, id: string)
    requires Elems(names) == files
    requires RecordFiles(files, Yaml)
    ensures id in FilenamesToIds(names) <==> IdToFilename(id, Yaml) in files
  {
    if IdToFilename(id, Yaml) in files {
      FileListed(names, id);
    }
    if id in FilenamesToIds(names) {
      ListedFile(names, files, id);
    }
  }

  lemma FileListed(names: seq<string>, id: string)
    requires IdToFilename(id, Yaml) in Elems(names)
    ensures id in FilenamesToIds(names)
  {
    var i :| 0 <= i < |names| && names[i] == IdToFilename(id, Yaml);
    FilenameRoundTrip(id, Yaml);
    assert FilenamesToIds(names)[i] == id;
  }

  lemma ListedFile(names: seq<string>, files: set<string>, id: string)
    requires Elems(names) == files
    requires RecordFiles(files, Yaml)
    requires id in FilenamesToIds(names)
    ensures IdToFilename(id, Yaml) in files
  {
    var ids := FilenamesToIds(names);
    var i :| 0 <= i < |ids| && ids[i] == id;
    var f := names[i];
    assert f in files by {
      assert f in Elems(names);
    }
    RecordFileIn(f, files);
    assert FilenameToId(f) == id;
  }

  lemma RecordFileIn(f: string, files: set<string>)
    requires f in files && RecordFiles(files, Yaml)
    ensures IdToFilename(FilenameToId(f), Yaml) == f
  {
    RecordFileId(f, Yaml);
  }
}
