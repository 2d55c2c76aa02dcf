/** The v2 storage engine. A repository is a directory holding the marker file
    `.oniontree`, the record store `unsorted/<id>.yaml` and the tag index
    `tagged/<tag>/<id>.yaml` (links back into the store). The handle
    `OnionTree` only names the directory; `Repository` is the directory's
    content as the handle's operations see and change it. */
module OnionTreeV2 {
  import opened Common
  import opened Strings
  import opened Order
  import opened Names
  import opened Paths
  import opened TagIndex
  import FileIO

  datatype Error =
    | ErrNotOnionTree  // no marker file within the search depth
    | ErrIdExists
    | ErrIdNotExists
    | ErrTagNotExists
    | ErrDecode        // the codec rejected a record file
    | ErrFs            // a file-system call failed (a directory is missing)

  datatype PublicKey = PublicKey(id: string, userId: string, fingerprint: string, description: string, value: string)

  datatype Service = Service(id: string, name: string, description: string, urls: seq<string>, publicKeys: seq<PublicKey>)

  datatype TagInfo = TagInfo(id: string, services: seq<string>)

  /** The value Get decodes a record into: only the id is set. */
  function Blank(id: string): Service {
    Service(id, "", "", [], [])
  }

  /** A codec that gives back every field it wrote; the id is not part of the
      encoding and comes from the value decoded into. */
  ghost predicate Faithful(codec: Codec<Service>) {
    forall s: Service, id: string :: codec.unmarshal(codec.marshal(s), Blank(id)) == Some(s.(id := id))
  }

  function Decoded(o: Option<Service>): Result<Service, Error> {
    match o
    case Some(s) => Ok(s)
    case None => Err(ErrDecode)
  }

  // ---------------------------------------------------------------------
  // Opening a repository

  datatype OnionTree = OnionTree(dir: Dir, format: string)

  /** New names `dir` as a repository without looking at it. */
  function New(dir: Dir): OnionTree {
    OnionTree(dir, Yaml)
  }

  const MaxDepth: nat := 255

  /** filepath.Rel(cwd, dir) for the directory holding a marker. The working
      directory is absolute, so a relative `dir` cannot be made relative to
      it and Rel fails. */
  function RelFromCwd(cwd: Path, dir: Dir): (r: Result<Dir, Error>)
    ensures r.Ok? <==> dir.absolute
    ensures r.Ok? ==> !r.value.absolute && Resolve(cwd, r.value) == dir.segs
    ensures r.Err? ==> r.error == ErrFs
  {
    RelToResolves(cwd, dir.segs);
    if dir.absolute then Ok(RelTo(cwd, dir.segs)) else Err(ErrFs)
  }

  /** findRootDir as a recursion: try `d`, then its parent, at most `fuel`
      times. `markers` is the set of locations holding a `.oniontree` file. */
  function Search(d: Dir, cwd: Path, markers: set<Path>, fuel: nat): (r: Result<Dir, Error>)
    ensures r.Ok? ==> !r.value.absolute && Resolve(cwd, r.value) in markers
    ensures r.Err? ==> r.error == ErrNotOnionTree || (r.error == ErrFs && !d.absolute)
    decreases fuel
  {
    if fuel == 0 then Err(ErrNotOnionTree)
    else if Resolve(cwd, d) in markers then RelFromCwd(cwd, d)
    else Search(Parent(d), cwd, markers, fuel - 1)
  }

  /** findRootDir: walk up from `dir` for at most MaxDepth candidates. */
  method FindRootDir(dir: Dir, cwd: Path, markers: set<Path>) returns (r: Result<Dir, Error>)
    ensures r == Search(dir, cwd, markers, MaxDepth)
  {
    var d := dir;
    var i := 0;
    while i < MaxDepth
      invariant 0 <= i <= MaxDepth
      invariant Search(dir, cwd, markers, MaxDepth) == Search(d, cwd, markers, MaxDepth - i)
    {
      if Resolve(cwd, d) in markers {
        return RelFromCwd(cwd, d);
      }
      d := Parent(d);
      i := i + 1;
    }
    return Err(ErrNotOnionTree);
  }

  /** Open: the handle of the repository found from `dir`. */
  method Open(dir: Dir, cwd: Path, markers: set<Path>) returns (r: Result<OnionTree, Error>)
    ensures r.Ok? <==> Search(dir, cwd, markers, MaxDepth).Ok?
    ensures r.Ok? ==> r.value == OnionTree(Search(dir, cwd, markers, MaxDepth).value, Yaml)
    ensures r.Err? ==> r.error == Search(dir, cwd, markers, MaxDepth).error
  {
    var root := FindRootDir(dir, cwd, markers);
    if root.Err? {
      return Err(root.error);
    }
    return Ok(OnionTree(root.value, Yaml));
  }

  /** None of the first `n` candidates from `d` holds a marker. */
  predicate NoneMarked(d: Dir, cwd: Path, markers: set<Path>, n: nat) {
    forall k :: 0 <= k < n ==> Resolve(cwd, Ancestor(d, k)) !in markers
  }

  /** The search reports ErrNotOnionTree exactly when none of its candidates
      holds a marker. */
  lemma {:induction false} SearchNotFound(d: Dir, cwd: Path, markers: set<Path>, fuel: nat)
    ensures Search(d, cwd, markers, fuel) == Err(ErrNotOnionTree) <==> NoneMarked(d, cwd, markers, fuel)
    decreases fuel
  {
    if fuel > 0 {
      assert Ancestor(d, 0) == d;
      if Resolve(cwd, d) !in markers {
        SearchNotFound(Parent(d), cwd, markers, fuel - 1);
        if NoneMarked(Parent(d), cwd, markers, fuel - 1) {
          forall k | 0 < k < fuel ensures Resolve(cwd, Ancestor(d, k)) !in markers {
            AncestorShift(d, k - 1);
          }
        }
        if NoneMarked(d, cwd, markers, fuel) {
          forall k | 0 <= k < fuel - 1 ensures Resolve(cwd, Ancestor(Parent(d), k)) !in markers {
            AncestorShift(d, k);
            assert Resolve(cwd, Ancestor(d, k + 1)) !in markers;
          }
        }
      }
    }
  }

  /** The search stops at its first marked candidate. */
  lemma {:induction false} SearchFinds(d: Dir, cwd: Path, markers: set<Path>, fuel: nat, k: nat)
    requires k < fuel && Resolve(cwd, Ancestor(d, k)) in markers
    requires forall j :: 0 <= j < k ==> Resolve(cwd, Ancestor(d, j)) !in markers
    ensures Search(d, cwd, markers, fuel) == RelFromCwd(cwd, Ancestor(d, k))
    decreases k
  {
    assert Ancestor(d, 0) == d;
    if k > 0 {
      forall j | 0 <= j < k
        ensures Ancestor(Parent(d), j) == Ancestor(d, j + 1)
      {
        AncestorShift(d, j);
      }
      SearchFinds(Parent(d), cwd, markers, fuel - 1, k - 1);
    }
  }

  /** Open never succeeds from a relative directory: the marker may be found,
      but it cannot be made relative to the absolute working directory. */
  lemma {:induction false} SearchRelative(d: Dir, cwd: Path, markers: set<Path>, fuel: nat)
    requires !d.absolute
    ensures Search(d, cwd, markers, fuel).Err?
    decreases fuel
  {
    if fuel > 0 && Resolve(cwd, d) !in markers {
      SearchRelative(Parent(d), cwd, markers, fuel - 1);
    }
  }

  /** From an absolute directory Open finds the nearest marked ancestor (the
      directory itself first) among the first MaxDepth, and returns a path
      from the working directory to it. With k == 0 this is the directory New
      would name. */
  lemma OpenFindsNearest(dir: Dir, cwd: Path, markers: set<Path>, k: nat)
    requires dir.absolute && k < MaxDepth
    requires Up(dir.segs, k) in markers
    requires forall j :: 0 <= j < k ==> Up(dir.segs, j) !in markers
    ensures Search(dir, cwd, markers, MaxDepth).Ok?
    ensures Resolve(cwd, Search(dir, cwd, markers, MaxDepth).value) == Up(dir.segs, k)
  {
    forall j | 0 <= j <= k
      ensures Resolve(cwd, Ancestor(dir, j)) == Up(dir.segs, j) && Ancestor(dir, j).absolute
    {
      ResolveAncestor(cwd, dir, j);
    }
    SearchFinds(dir, cwd, markers, MaxDepth, k);
    RelToResolves(cwd, Ancestor(dir, k).segs);
  }

  /** For a directory fewer than MaxDepth elements below "/" the depth bound
      covers every ancestor: Open reports ErrNotOnionTree exactly when no
      ancestor holds a marker. */
  lemma OpenNotFound(dir: Dir, cwd: Path, markers: set<Path>)
    requires dir.absolute && |dir.segs| < MaxDepth
    ensures Search(dir, cwd, markers, MaxDepth) == Err(ErrNotOnionTree)
        <==> forall j :: 0 <= j <= |dir.segs| ==> Up(dir.segs, j) !in markers
  {
    SearchNotFound(dir, cwd, markers, MaxDepth);
    var n := |dir.segs|;
    forall k | 0 <= k < MaxDepth
      ensures Resolve(cwd, Ancestor(dir, k)) == Up(dir.segs, k)
    {
      ResolveAncestor(cwd, dir, k);
    }
    if forall j :: 0 <= j <= n ==> Up(dir.segs, j) !in markers {
      forall k | 0 <= k < MaxDepth ensures Resolve(cwd, Ancestor(dir, k)) !in markers {
        if k > n {
          assert Up(dir.segs, k) == Up(dir.segs, n);
        }
      }
    }
  }

  // ---------------------------------------------------------------------
  // The hash payload

  /** Every id has its record file in `files`. */
  predicate Covers(ids: seq<string>, files: map<string, Bytes>) {
    forall i :: 0 <= i < |ids| ==> IdToFilename(ids[i], Yaml) in files
  }

  /** The buffer Hash digests: the digests of the records, in the order of
      `ids`, one after the other. */
  function Payload(ids: seq<string>, files: map<string, Bytes>, sha256: Bytes -> Digest): (p: Bytes)
    requires Covers(ids, files)
    ensures |p| == DigestSize * |ids|
    decreases |ids|
  {
    if |ids| == 0 then []
    else
      var init := ids[..|ids| - 1];
      assert forall i :: 0 <= i < |init| ==> init[i] == ids[i];
      Payload(init, files, sha256) + sha256(files[IdToFilename(ids[|ids| - 1], Yaml)])
  }

  /** Block `i` of the payload is the digest of the record of `ids[i]`: the
      payload fixes every record's digest, and the records' order. */
  lemma {:induction false} PayloadBlocks(ids: seq<string>, files: map<string, Bytes>, sha256: Bytes -> Digest, i: nat)
    requires Covers(ids, files) && i < |ids|
    ensures Payload(ids, files, sha256)[DigestSize * i..DigestSize * (i + 1)] == sha256(files[IdToFilename(ids[i], Yaml)])
    decreases |ids|
  {
    var n := |ids| - 1;
    var init := ids[..n];
    assert forall j :: 0 <= j < |init| ==> init[j] == ids[j];
    var p := Payload(ids, files, sha256);
    var q := Payload(init, files, sha256);
    assert p == q + sha256(files[IdToFilename(ids[n], Yaml)]);
    if i < n {
      PayloadBlocks(init, files, sha256, i);
      assert p[DigestSize * i..DigestSize * (i + 1)] == q[DigestSize * i..DigestSize * (i + 1)];
      assert init[i] == ids[i];
    } else {
      assert p[DigestSize * n..DigestSize * (n + 1)] == sha256(files[IdToFilename(ids[n], Yaml)]);
    }
  }

  /** Two repositories whose listings give the same payload have records with
      the same digests, id by id. */
  lemma PayloadDeterminesDigests(ids: seq<string>, a: map<string, Bytes>, b: map<string, Bytes>, sha256: Bytes -> Digest)
    requires Covers(ids, a) && Covers(ids, b)
    requires Payload(ids, a, sha256) == Payload(ids, b, sha256)
    ensures forall i :: 0 <= i < |ids| ==>
      sha256(a[IdToFilename(ids[i], Yaml)]) == sha256(b[IdToFilename(ids[i], Yaml)])
  {
    forall i | 0 <= i < |ids|
      ensures sha256(a[IdToFilename(ids[i], Yaml)]) == sha256(b[IdToFilename(ids[i], Yaml)])
    {
      PayloadBlocks(ids, a, sha256, i);
      PayloadBlocks(ids, b, sha256, i);
    }
  }

  /** Hash's loop, iteration `idx`: a buffer holding the payload of
      ids[..idx] followed by the digest of record ids[idx] holds the payload of
      ids[..idx + 1]. */
  lemma PayloadStep(ids: seq<string>, files: map<string, Bytes>, sha256: Bytes -> Digest, idx: nat, p: seq<Byte>)
    requires Covers(ids, files) && idx < |ids|
    requires |p| >= DigestSize * (idx + 1)
    requires p[..DigestSize * idx] == Payload(ids[..idx], files, sha256)
    requires p[DigestSize * idx..DigestSize * idx + DigestSize] == sha256(files[IdToFilename(ids[idx], Yaml)])
    ensures p[..DigestSize * (idx + 1)] == Payload(ids[..idx + 1], files, sha256)
  {
    assert ids[..idx + 1][..idx] == ids[..idx];
    assert p[..DigestSize * (idx + 1)] == p[..DigestSize * idx] + p[DigestSize * idx..DigestSize * idx + DigestSize];
  }

  // ---------------------------------------------------------------------
  // Listings

  /** Sorting a listing keeps its elements and makes it strictly sorted when
      it has no duplicates. */
  lemma SortedListing(s: seq<string>)
    requires NoDuplicates(s)
    ensures StrictlySorted(SortStrings(s))
    ensures forall x :: x in SortStrings(s) <==> x in s
  {
    var r := SortStrings(s);
    SortedDistinctIsStrict(r);
    forall x ensures x in r <==> x in s {
      assert x in r <==> x in multiset(r);
      assert x in s <==> x in multiset(s);
    }
  }

  /** What List and GetTag do with a directory of record files: list it,
      strip the extensions in place, sort. */
  method ReadIds(entries: set<string>) returns (ids: seq<string>)
    requires RecordFiles(entries, Yaml)
    ensures StrictlySorted(ids)
    ensures forall id :: id in ids <==> IdToFilename(id, Yaml) in entries
  {
    var names := FileIO.ReadDirNames(entries);
    var files := new string[|names|](i requires 0 <= i < |names| => names[i]);
    assert files[..] == names;
    StripExtensions(files);
    ListingIds(names, entries);
    SortedListing(files[..]);
    ids := SortStrings(files[..]);
  }

  /** The inner loop of GetServiceTags: whether `x` is among `s`, stopping at
      the first match. */
  method Find(s: seq<string>, x: string) returns (found: bool)
    ensures found <==> x in s
  {
    found := false;
    var j := 0;
    while j < |s|
      invariant 0 <= j <= |s|
      invariant x !in s[..j]
    {
      if s[j] == x {
        found := true;
        break;
      }
      j := j + 1;
    }
    if !found {
      assert s[..j] == s;
    }
  }

  /** The inner loop of Hash: copy a digest into the payload at `at`. */
  method CopyDigest(payload: array<Byte>, at: nat, hash: Digest)
    requires at + DigestSize <= payload.Length
    modifies payload
    ensures payload[..at] == old(payload[..at])
    ensures payload[at..at + DigestSize] == hash
    ensures payload[at + DigestSize..] == old(payload[at + DigestSize..])
  {
    var i := 0;
    while i < DigestSize
      invariant 0 <= i <= DigestSize
      invariant payload[..at] == old(payload[..at])
      invariant payload[at + DigestSize..] == old(payload[at + DigestSize..])
      invariant payload[at..at + i] == hash[..i]
    {
      payload[at + i] := hash[i];
      i := i + 1;
    }
  }

  // ---------------------------------------------------------------------
  // The repository

  class Repository {
    const tree: OnionTree
    const codec: Codec<Service>
    /** unsorted/ exists */
    var unsortedDir: bool
    /** tagged/ exists */
    var taggedDir: bool
    /** .oniontree exists */
    var marker: bool
    /** the record files of unsorted/, by file name */
    var unsorted: map<string, Bytes>
    /** the tag directories of tagged/ and the links in each */
    var tagged: TagMap

    /** Files exist only in existing directories; the store holds only record
        files; the tag index is consistent with the store. */
    ghost predicate Valid()
      reads this
    {
      && tree.format == Yaml
      && (unsorted != map[] ==> unsortedDir)
      && (tagged != map[] ==> taggedDir)
      && RecordFiles(unsorted.Keys, Yaml)
      && Consistent(unsorted.Keys, tagged)
    }

    /** The record file name of `id`, which is also the name of its links. */
    function Link(id: string): string {
      IdToFilename(id, tree.format)
    }

    /** The ids of the stored records. */
    ghost function Ids(): set<string>
      reads this
    {
      set f | f in unsorted :: FilenameToId(f)
    }

    /** What List returns: the ids, sorted. */
    ghost function Listing(): seq<string>
      reads this
    {
      SortedOf(Ids())
    }

    /** The content of an empty directory named by `tree`. */
    constructor (tree: OnionTree, codec: Codec<Service>)
      requires tree.format == Yaml
      ensures Valid()
      ensures this.tree == tree && this.codec == codec
      ensures !unsortedDir && !taggedDir && !marker && unsorted == map[] && tagged == map[]
    {
      this.tree := tree;
      this.codec := codec;
      unsortedDir, taggedDir, marker := false, false, false;
      unsorted, tagged := map[], map[];
    }

    /** In a valid repository the id of a stored record names that record. */
    lemma IdOfRecord(f: string)
      requires Valid() && f in unsorted
      ensures Link(FilenameToId(f)) == f && PlainId(FilenameToId(f))
    {
      RecordFileId(f, Yaml);
    }

    lemma ListingMembers()
      requires Valid()
      ensures forall id :: id in Ids() <==> Link(id) in unsorted
    {
      forall id ensures id in Ids() <==> Link(id) in unsorted {
        if Link(id) in unsorted {
          FilenameRoundTrip(id, Yaml);
        }
        if id in Ids() {
          var f :| f in unsorted && FilenameToId(f) == id;
          IdOfRecord(f);
        }
      }
    }

    /** Init: create tagged/ and unsorted/ (existing ones are kept) and an
        empty marker file. Records and tags are untouched. */
    method Init() returns (err: Option<Error>)
      requires Valid()
      modifies this
      ensures Valid() && err == None
      ensures unsortedDir && taggedDir && marker
      ensures unsorted == old(unsorted) && tagged == old(tagged)
    {
      taggedDir := true;
      unsortedDir := true;
      marker := true;
      return None;
    }

    /** Add: write a new record; an existing one is never overwritten. */
    method Add(id: string, s: Service) returns (err: Option<Error>)
      requires Valid() && PlainId(id)
      modifies this
      ensures Valid()
      ensures err == (if Link(id) in old(unsorted) then Some(ErrIdExists)
                      else if !unsortedDir then Some(ErrFs)
                      else None)
      ensures unsorted == (if err == None then old(unsorted)[Link(id) := codec.marshal(s)] else old(unsorted))
      ensures tagged == old(tagged)
      ensures unsortedDir == old(unsortedDir) && taggedDir == old(taggedDir) && marker == old(marker)
    {
      var pth := Link(id);
      if pth in unsorted {
        return Some(ErrIdExists);
      }
      if !unsortedDir {
        // os.Create below a missing directory
        return Some(ErrFs);
      }
      var data := codec.marshal(s);
      RecordFileOfId(id, Yaml);
      unsorted := unsorted[pth := data];
      return None;
    }

    /** Update: replace the content of an existing record. */
    method Update(id: string, s: Service) returns (err: Option<Error>)
      requires Valid() && PlainId(id)
      modifies this
      ensures Valid()
      ensures err == (if Link(id) !in old(unsorted) then Some(ErrIdNotExists) else None)
      ensures unsorted == (if err == None then old(unsorted)[Link(id) := codec.marshal(s)] else old(unsorted))
      ensures tagged == old(tagged)
      ensures unsortedDir == old(unsortedDir) && taggedDir == old(taggedDir) && marker == old(marker)
    {
      var pth := Link(id);
      if pth !in unsorted {
        return Some(ErrIdNotExists);
      }
      var data := codec.marshal(s);
      unsorted := unsorted[pth := data];
      assert unsorted.Keys == old(unsorted).Keys;
      return None;
    }

    /** Tag: link the record into the directory of every (trimmed) tag,
        creating directories as needed. The record's existence is checked per
        tag, so an empty tag list succeeds for any id. */
    method Tag(id: string, tags: seq<string>) returns (err: Option<Error>)
      requires Valid() && PlainId(id)
      requires forall i :: 0 <= i < |tags| ==> PlainTag(TrimSpace(tags[i]))
      modifies this
      ensures Valid()
      ensures err == (if |tags| == 0 then None
                      else if Link(id) !in old(unsorted) then Some(ErrIdNotExists)
                      else if !old(taggedDir) then Some(ErrFs)
                      else None)
      ensures tagged == (if err == None then WithTags(old(tagged), Trimmed(tags), Link(id)) else old(tagged))
      ensures unsorted == old(unsorted)
      ensures unsortedDir == old(unsortedDir) && taggedDir == old(taggedDir) && marker == old(marker)
    {
      var link := Link(id);
      var m;
      err, m := TagLinks(tagged, tags, link, link in unsorted, taggedDir, ErrIdNotExists, ErrFs);
      if err == None && |tags| > 0 {
        TrimmedPlain(tags);
        WithTagsConsistent(unsorted.Keys, tagged, Trimmed(tags), link);
      }
      tagged := m;
    }

    /** Untag: remove the record's link from the directory of every (trimmed)
        tag, and remove a tag directory left empty. Tags not holding the link
        are no error. */
    method Untag(id: string, tags: seq<string>) returns (err: Option<Error>)
      requires Valid() && PlainId(id)
      requires forall i :: 0 <= i < |tags| ==> PlainTag(TrimSpace(tags[i]))
      modifies this
      ensures Valid()
      ensures err == (if |tags| > 0 && Link(id) !in old(unsorted) then Some(ErrIdNotExists) else None)
      ensures tagged == (if err == None then WithoutTags(old(tagged), Trimmed(tags), Link(id)) else old(tagged))
      ensures unsorted == old(unsorted)
      ensures unsortedDir == old(unsortedDir) && taggedDir == old(taggedDir) && marker == old(marker)
    {
      var link := Link(id);
      var m;
      err, m := UntagLinks(tagged, tags, link, link in unsorted, ErrIdNotExists);
      WithoutTagsConsistent(unsorted.Keys, tagged, Trimmed(tags), link);
      tagged := m;
    }

    /** Remove: untag the record from every tag holding it, then delete it. */
    method Remove(id: string) returns (err: Option<Error>)
      requires Valid() && PlainId(id)
      modifies this
      ensures Valid()
      ensures err == (if Link(id) !in old(unsorted) then Some(ErrIdNotExists)
                      else if !old(taggedDir) then Some(ErrFs)
                      else None)
      ensures err == None ==> unsorted == old(unsorted) - {Link(id)}
      ensures err == None ==> tagged == WithoutTags(old(tagged), old(tagged).Keys, Link(id))
      ensures err != None ==> unsorted == old(unsorted) && tagged == old(tagged)
      ensures unsortedDir == old(unsortedDir) && taggedDir == old(taggedDir) && marker == old(marker)
    {
      var link := Link(id);
      if link !in unsorted {
        return Some(ErrIdNotExists);
      }
      var tags := GetServiceTags(id);
      if tags.Err? {
        return Some(tags.error);
      }
      var ts := tags.value;
      forall i | 0 <= i < |ts| ensures PlainTag(TrimSpace(ts[i])) && TrimSpace(ts[i]) == ts[i] {
        assert ts[i] in ts;
        assert Holds(tagged, ts[i], link);
      }
      forall t | Holds(tagged, t, link) ensures t in Trimmed(ts) {
        var i :| 0 <= i < |ts| && ts[i] == t;
      }
      WithoutTagsCovering(tagged, Trimmed(ts), link);
      err := Untag(id, ts);
      RemoveLinkConsistent(unsorted.Keys, old(tagged), link);
      unsorted := unsorted - {link};
      return None;
    }

    /** GetRaw: the bytes of the record file, read to the end. */
    method GetRaw(id: string) returns (r: Result<Bytes, Error>)
      requires Valid()
      ensures Link(id) !in unsorted ==> r == Err(ErrIdNotExists)
      ensures Link(id) in unsorted ==> r == Ok(unsorted[Link(id)])
    {
      var pth := Link(id);
      if pth !in unsorted {
        return Err(ErrIdNotExists);
      }
      var data := FileIO.ReadAll(unsorted[pth]);
      return Ok(data);
    }

    /** Get: the record decoded into a value whose id is `id`. */
    method Get(id: string) returns (r: Result<Service, Error>)
      requires Valid()
      ensures Link(id) !in unsorted ==> r == Err(ErrIdNotExists)
      ensures Link(id) in unsorted ==> r == Decoded(codec.unmarshal(unsorted[Link(id)], Blank(id)))
    {
      var data := GetRaw(id);
      if data.Err? {
        return Err(data.error);
      }
      var s := codec.unmarshal(data.value, Blank(id));
      if s.None? {
        return Err(ErrDecode);
      }
      return Ok(s.value);
    }

    /** GetTag: the ids linked from the tag's directory, sorted. */
    method GetTag(id: string) returns (r: Result<TagInfo, Error>)
      requires Valid() && PlainTag(id)
      ensures id !in tagged ==> r == Err(ErrTagNotExists)
      ensures id in tagged ==> r.Ok? && r.value.id == id && StrictlySorted(r.value.services)
      ensures id in tagged ==> forall s :: s in r.value.services <==> Holds(tagged, id, Link(s))
    {
      if id !in tagged {
        return Err(ErrTagNotExists);
      }
      var services := ReadIds(tagged[id]);
      return Ok(TagInfo(id, services));
    }

    /** List: the ids of all records, sorted. */
    method List() returns (r: Result<seq<string>, Error>)
      requires Valid()
      ensures r.Err? <==> !unsortedDir
      ensures r.Err? ==> r.error == ErrFs
      ensures r.Ok? ==> StrictlySorted(r.value) && forall id :: id in r.value <==> Link(id) in unsorted
      ensures r.Ok? ==> r.value == Listing()
    {
      if !unsortedDir {
        return Err(ErrFs);
      }
      var ids := ReadIds(unsorted.Keys);
      ListingMembers();
      StrictlySortedUnique(ids, Listing());
      return Ok(ids);
    }

    /** ListTags: the names of all tag directories, sorted. */
    method ListTags() returns (r: Result<seq<string>, Error>)
      requires Valid()
      ensures r.Err? <==> !taggedDir
      ensures r.Err? ==> r.error == ErrFs
      ensures r.Ok? ==> StrictlySorted(r.value) && Elems(r.value) == tagged.Keys
      ensures r.Ok? ==> r.value == SortedOf(tagged.Keys)
    {
      if !taggedDir {
        return Err(ErrFs);
      }
      var names := FileIO.ReadDirNames(tagged.Keys);
      SortedListing(names);
      var sorted := SortStrings(names);
      assert Elems(sorted) == tagged.Keys;
      StrictlySortedUnique(sorted, SortedOf(tagged.Keys));
      return Ok(sorted);
    }

    /** GetServiceTags: the tags whose directory links the record, sorted. */
    method GetServiceTags(id: string) returns (r: Result<seq<string>, Error>)
      requires Valid()
      ensures r.Err? <==> !taggedDir
      ensures r.Err? ==> r.error == ErrFs
      ensures r.Ok? ==> StrictlySorted(r.value) && forall t :: t in r.value <==> Holds(tagged, t, Link(id))
    {
      var tags := ListTags();
      if tags.Err? {
        return Err(tags.error);
      }
      var ts := tags.value;
      assert forall k :: 0 <= k < |ts| ==> ts[k] in tagged by {
        forall k | 0 <= k < |ts| ensures ts[k] in tagged {
          assert ts[k] in Elems(ts);
        }
      }
      var matching := MatchTags(ts, id);
      FilterProperties(ts, Holding(id));
      return Ok(matching);
    }

    /** The tags whose directory links the record of `id`. */
    ghost function Holding(id: string): set<string>
      reads this
    {
      set t | t in tagged && Link(id) in tagged[t]
    }

    /** The loop of GetServiceTags: of the tags `ts`, the ones whose listing
        GetTag returns holds `id`, in the order of `ts`. */
    method MatchTags(ts: seq<string>, id: string) returns (matching: seq<string>)
      requires Valid()
      requires forall k :: 0 <= k < |ts| ==> ts[k] in tagged
      ensures matching == Filter(ts, Holding(id))
    {
      matching := [];
      var i := 0;
      while i < |ts|
        invariant 0 <= i <= |ts|
        invariant matching == Filter(ts[..i], Holding(id))
      {
        var tag := GetTag(ts[i]);
        // every listed tag has a directory, so GetTag cannot fail here
        assert tag.Ok?;
        var found := Find(tag.value.services, id);
        assert found <==> ts[i] in Holding(id);
        assert ts[..i + 1][..i] == ts[..i];
        if found {
          matching := matching + [tag.value.id];
        }
        i := i + 1;
      }
      assert ts[..|ts|] == ts;
    }

    /** The loop of Hash: the digest of each listed record, read with GetRaw,
        copied into its block of the payload buffer. */
    method DigestRecords(ids: seq<string>, sha256: Bytes -> Digest) returns (payload: array<Byte>)
      requires Valid() && Covers(ids, unsorted)
      ensures fresh(payload)
      ensures payload[..] == Payload(ids, unsorted, sha256)
    {
      payload := new Byte[|ids| * DigestSize];
      var idx := 0;
      while idx < |ids|
        invariant 0 <= idx <= |ids|
        invariant payload.Length == DigestSize * |ids|
        invariant payload[..DigestSize * idx] == Payload(ids[..idx], unsorted, sha256)
      {
        var b := GetRaw(ids[idx]);
        // every listed id has a record file, so GetRaw cannot fail here
        assert b.Ok?;
        var hash := sha256(b.value);
        CopyDigest(payload, DigestSize * idx, hash);
        PayloadStep(ids, unsorted, sha256, idx, payload[..]);
        idx := idx + 1;
      }
      assert ids[..|ids|] == ids;
      assert payload[..] == payload[..DigestSize * |ids|];
    }

    /** Hash: the digest of the concatenated digests of all records, taken in
        the order of List. */
    method Hash(sha256: Bytes -> Digest) returns (r: Result<Digest, Error>)
      requires Valid()
      ensures r.Err? <==> !unsortedDir
      ensures r.Err? ==> r.error == ErrFs
      ensures r.Ok? ==> Covers(Listing(), unsorted) && r.value == sha256(Payload(Listing(), unsorted, sha256))
    {
      var services := List();
      if services.Err? {
        return Err(services.error);
      }
      var ids := services.value;
      assert Covers(ids, unsorted) by {
        forall i | 0 <= i < |ids| ensures IdToFilename(ids[i], Yaml) in unsorted {
          assert ids[i] in ids;
        }
      }
      var payload := DigestRecords(ids, sha256);
      return Ok(sha256(payload[..]));
    }
  }

  /** A record written to a fresh repository is read back as written, and
      cannot be added a second time. */
  method StoreScenario(codec: Codec<Service>, id: string, s: Service)
    returns (again: Option<Error>, got: Result<Service, Error>)
    requires Faithful(codec) && PlainId(id)
    ensures again == Some(ErrIdExists)
    ensures got == Ok(s.(id := id))
  {
    var repo := new Repository(New(Dir(true, 0, ["srv", "repository"])), codec);
    var e := repo.Init();
    e := repo.Add(id, s);
    again := repo.Add(id, s);
    got := repo.Get(id);
  }

  /** A tagged record is the one member of its tag; removing the record
      removes the tag with it and leaves the repository empty. */
  method TagScenario(codec: Codec<Service>, id: string, s: Service, tag: string)
    returns (members: Result<TagInfo, Error>, tagsAfter: Result<seq<string>, Error>, idsAfter: Result<seq<string>, Error>)
    requires PlainId(id) && PlainTag(tag) && TrimSpace(tag) == tag
    ensures members == Ok(TagInfo(tag, [id]))
    ensures tagsAfter == Ok([]) && idsAfter == Ok([])
  {
    var repo := new Repository(New(Dir(true, 0, ["srv", "repository"])), codec);
    var e := repo.Init();
    e := repo.Add(id, s);
    assert [tag][..0] == [];
    e := repo.Tag(id, [tag]);
    members := repo.GetTag(tag);
    forall x ensures x in members.value.services <==> x in [id] {
      FilenameRoundTrip(x, Yaml);
      FilenameRoundTrip(id, Yaml);
    }
    assert Elems(members.value.services) == Elems([id]);
    StrictlySortedUnique(members.value.services, [id]);
    e := repo.Remove(id);
    tagsAfter := repo.ListTags();
    ElemsOfNonEmpty(tagsAfter.value);
    idsAfter := repo.List();
    ElemsOfNonEmpty(idsAfter.value);
  }
}
