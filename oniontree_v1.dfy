/** The v1 storage engine. Its handle names a directory; every operation first
    walks up from that directory to the nearest one holding the marker file
    `.oniontree` (the search ends at "/") and then works in that repository's
    `unsorted/` and `tagged/` directories. Listings are not sorted.

    The handle and the file system it works on are one object here,
    `OnionTree`: `dir` is the handle's directory, the other fields are the
    parts of the file system the engine looks at. Locations are absolute
    paths, as sequences of path elements below "/". */
module OnionTreeV1 {
  import opened Common
  import opened Strings
  import opened Order
  import opened Names
  import opened Paths
  import opened TagIndex
  import FileIO

  datatype Error =
    | ErrCairnNotFound  // no directory from `dir` up to "/" holds a marker
    | ErrIdExists
    | ErrIdNotExists
    | ErrDecode         // the codec rejected a record file
    | ErrFs             // a file-system call failed (a directory is missing)

  /** The record type of pkg/types/service/service.go. */
  datatype Service = Service(name: string, description: string, urls: seq<string>, publicKey: string)

  /** The value Get decodes into: the zero value. */
  const Blank: Service := Service("", "", [], "")

  /** A codec that gives back every field it wrote. */
  ghost predicate Faithful(codec: Codec<Service>) {
    forall s: Service :: codec.unmarshal(codec.marshal(s), Blank) == Some(s)
  }

  // ---------------------------------------------------------------------
  // Finding the repository

  /** findRootDir as a recursion: the first of `d`, its parent, its
      grandparent, ... up to and including "/" that holds a marker. */
  function RootDir(d: Path, markers: set<Path>): (r: Result<Path, Error>)
    ensures r.Ok? ==> r.value in markers && |r.value| <= |d| && r.value == d[..|r.value|]
    ensures r.Err? ==> r == Err(ErrCairnNotFound)
    decreases |d|
  {
    if d in markers then Ok(d)
    else if d == [] then Err(ErrCairnNotFound)
    else RootDir(d[..|d| - 1], markers)
  }

  /** No prefix of `d` longer than `n` elements holds a marker. */
  predicate UnmarkedAbove(d: Path, markers: set<Path>, n: nat) {
    forall k :: n < k <= |d| ==> d[..k] !in markers
  }

  /** The search finds the deepest marked ancestor of `d` (`d` itself
      included), and fails exactly when no ancestor up to "/" is marked. */
  lemma {:induction false} RootDirSpec(d: Path, markers: set<Path>)
    ensures RootDir(d, markers).Ok? ==>
      var r := RootDir(d, markers).value;
      |r| <= |d| && r == d[..|r|] && r in markers && UnmarkedAbove(d, markers, |r|)
    ensures RootDir(d, markers).Err? <==> d[..0] !in markers && UnmarkedAbove(d, markers, 0)
    ensures RootDir(d, markers).Err? ==> RootDir(d, markers).error == ErrCairnNotFound
    decreases |d|
  {
    if d in markers {
      assert d[..|d|] == d;
      if |d| == 0 {
        assert d[..0] == d;
      } else {
        assert !UnmarkedAbove(d, markers, 0) by { assert d[..|d|] in markers; }
      }
    } else if d == [] {
      assert d[..0] == d;
    } else {
      var p := d[..|d| - 1];
      RootDirSpec(p, markers);
      assert forall k :: 0 <= k <= |p| ==> p[..k] == d[..k];
      assert d[..|d|] == d;
      assert p[..0] == d[..0];
      if RootDir(p, markers).Ok? {
        var r := RootDir(p, markers).value;
        forall k | |r| < k <= |d| ensures d[..k] !in markers {
          if k <= |p| {
            assert d[..k] == p[..k];
          }
        }
      } else {
        forall k | 0 < k <= |d| ensures d[..k] !in markers {
          if k <= |p| {
            assert d[..k] == p[..k];
          }
        }
      }
    }
  }

  /** findRootDir: test `dir/.oniontree`, stop after "/", else go to `dir/..`. */
  method FindRootDir(dir: Path, markers: set<Path>) returns (r: Result<Path, Error>)
    ensures r == RootDir(dir, markers)
  {
    var d := dir;
    while true
      invariant RootDir(d, markers) == RootDir(dir, markers)
      decreases |d|
    {
      if d in markers {
        return Ok(d);
      }
      if d == [] {
        break;
      }
      d := d[..|d| - 1];
    }
    return Err(ErrCairnNotFound);
  }

  /** path.Join(root, name) for a successful search; a failed search stays
      failed. */
  function Below(root: Result<Path, Error>, name: string): Result<Path, Error> {
    if root.Ok? then Ok(root.value + [name]) else root
  }

  // ---------------------------------------------------------------------
  // The directories of all repositories

  type Stores = map<Path, map<string, Bytes>>

  type Indexes = map<Path, TagMap>

  /** The record files in the directory at `p`, none if it does not exist. */
  function Records(unsorted: Stores, p: Path): map<string, Bytes> {
    if p in unsorted then unsorted[p] else map[]
  }

  /** The entry `name` of the directory that holds `p`. */
  function Sibling(p: Path, name: string): Path {
    Up(p, 1) + [name]
  }

  /** Every unsorted/ directory holds only record files. */
  ghost predicate StoresValid(unsorted: Stores) {
    forall p :: p in unsorted ==> RecordFiles(unsorted[p].Keys, Yaml)
  }

  /** Every tagged/ directory is consistent with the unsorted/ beside it. */
  ghost predicate IndexesValid(unsorted: Stores, tagged: Indexes) {
    forall p :: p in tagged ==> Consistent(Records(unsorted, Sibling(p, "unsorted")).Keys, tagged[p])
  }

  /** Writing a record file into an existing unsorted/ directory keeps both
      invariants. */
  lemma StoreRecordValid(unsorted: Stores, tagged: Indexes, u: Path, f: string, data: Bytes)
    requires StoresValid(unsorted) && IndexesValid(unsorted, tagged)
    requires u in unsorted && IsRecordFile(f, Yaml)
    ensures StoresValid(unsorted[u := unsorted[u][f := data]])
    ensures IndexesValid(unsorted[u := unsorted[u][f := data]], tagged)
  {
    var after := unsorted[u := unsorted[u][f := data]];
    forall p | p in tagged
      ensures Consistent(Records(after, Sibling(p, "unsorted")).Keys, tagged[p])
    {
      var q := Sibling(p, "unsorted");
      assert Records(unsorted, q).Keys <= Records(after, q).Keys;
      ConsistentGrow(Records(unsorted, q).Keys, Records(after, q).Keys, tagged[p]);
    }
  }

  /** Tagging a record of the repository at `root` keeps the invariant. */
  lemma TagRecordValid(unsorted: Stores, tagged: Indexes, root: Path, ts: set<string>, link: string)
    requires IndexesValid(unsorted, tagged)
    requires root + ["tagged"] in tagged
    requires link in Records(unsorted, root + ["unsorted"])
    requires forall t :: t in ts ==> PlainTag(t) && TrimSpace(t) == t
    ensures IndexesValid(unsorted, tagged[root + ["tagged"] := WithTags(tagged[root + ["tagged"]], ts, link)])
  {
    var t := root + ["tagged"];
    assert Sibling(t, "unsorted") == root + ["unsorted"] by {
      assert Up(t, 1) == root;
    }
    WithTagsConsistent(Records(unsorted, root + ["unsorted"]).Keys, tagged[t], ts, link);
  }

  /** Creating an empty unsorted/ or tagged/ directory keeps both invariants:
      a tagged/ directory without an unsorted/ beside it is empty. */
  lemma CreateDirsValid(unsorted: Stores, tagged: Indexes, u: Path, t: Path)
    requires StoresValid(unsorted) && IndexesValid(unsorted, tagged)
    ensures var u' := if u in unsorted then unsorted else unsorted[u := map[]];
            var t' := if t in tagged then tagged else tagged[t := map[]];
            StoresValid(u') && IndexesValid(u', t')
  {
    var u' := if u in unsorted then unsorted else unsorted[u := map[]];
    var t' := if t in tagged then tagged else tagged[t := map[]];
    forall q ensures Records(u', q).Keys == Records(unsorted, q).Keys {
    }
    forall p | p in t' ensures Consistent(Records(u', Sibling(p, "unsorted")).Keys, t'[p]) {
      if p !in tagged {
        assert t'[p] == map[];
      }
    }
  }

  // ---------------------------------------------------------------------
  // Init's loop

  /** The directories Init creates, in order: the repository directory itself,
      then its unsorted/ and tagged/. */
  const Subdirs: seq<string> := [".", "unsorted", "tagged"]

  /** The loop of Init: create every directory of Subdirs that is not in
      `present`, an existing one being no error. The repository directory can
      only be created when its parent exists; the other two are created in
      it. */
  method MakeSubdirs(present: set<string>, parentExists: bool) returns (err: Option<Error>, made: set<string>)
    ensures err == (if "." !in present && !parentExists then Some(ErrFs) else None)
    ensures made == (if err == None then present + {".", "unsorted", "tagged"} else present)
  {
    made := present;
    var i := 0;
    while i < |Subdirs|
      invariant 0 <= i <= |Subdirs|
      invariant i > 0 ==> "." in made && ("." in present || parentExists)
      invariant made == present + set k | 0 <= k < i :: Subdirs[k]
    {
      var sub := Subdirs[i];
      if sub !in made {
        var parentOk := if sub == "." then parentExists else "." in made;
        if !parentOk {
          // os.Mkdir below a missing directory
          return Some(ErrFs), present;
        }
        made := made + {sub};
      }
      i := i + 1;
    }
    assert (set k | 0 <= k < 3 :: Subdirs[k]) == {".", "unsorted", "tagged"} by {
      assert Subdirs[0] == "." && Subdirs[1] == "unsorted" && Subdirs[2] == "tagged";
    }
    return None, made;
  }

  // ---------------------------------------------------------------------
  // The handle and the file system

  class OnionTree {
    /** the directory the handle names */
    const dir: Path
    const codec: Codec<Service>
    /** the existing directories other than unsorted/, tagged/ and what they hold */
    var dirs: set<Path>
    /** the directories holding a `.oniontree` file */
    var markers: set<Path>
    /** the existing unsorted/ directories, by path, and their record files */
    var unsorted: Stores
    /** the existing tagged/ directories, by path, and their tag directories */
    var tagged: Indexes

    /** "/" exists, markers are in existing directories, and the records and
        tags of every repository are as the engine writes them. */
    ghost predicate Valid()
      reads this
    {
      && [] in dirs
      && markers <= dirs
      && StoresValid(unsorted)
      && IndexesValid(unsorted, tagged)
    }

    /** The record file name of `id`, which is also the name of its links. */
    function Link(id: string): string {
      IdToFilename(id, Yaml)
    }

    /** Where getUnsortedDir points: unsorted/ of the repository found from `dir`. */
    function UnsortedPath(): Result<Path, Error>
      reads this
    {
      Below(RootDir(dir, markers), "unsorted")
    }

    /** Where getTaggedDir points. */
    function TaggedPath(): Result<Path, Error>
      reads this
    {
      Below(RootDir(dir, markers), "tagged")
    }

    /** New: a handle on `dir`, over a file system in the given state. */
    constructor (dir: Path, codec: Codec<Service>, dirs: set<Path>, markers: set<Path>, unsorted: Stores, tagged: Indexes)
      requires [] in dirs && markers <= dirs
      requires StoresValid(unsorted) && IndexesValid(unsorted, tagged)
      ensures Valid()
      ensures this.dir == dir && this.codec == codec
      ensures this.dirs == dirs && this.markers == markers && this.unsorted == unsorted && this.tagged == tagged
    {
      this.dir := dir;
      this.codec := codec;
      this.dirs := dirs;
      this.markers := markers;
      this.unsorted := unsorted;
      this.tagged := tagged;
    }

    /** getUnsortedDir. */
    method GetUnsortedDir() returns (r: Result<Path, Error>)
      ensures r == UnsortedPath()
    {
      var root := FindRootDir(dir, markers);
      if root.Err? {
        return Err(root.error);
      }
      return Ok(root.value + ["unsorted"]);
    }

    /** getTaggedDir. */
    method GetTaggedDir() returns (r: Result<Path, Error>)
      ensures r == TaggedPath()
    {
      var root := FindRootDir(dir, markers);
      if root.Err? {
        return Err(root.error);
      }
      return Ok(root.value + ["tagged"]);
    }

    /** Init: make `dir` a repository, where it is, without searching: create
        `dir`, `dir/unsorted` and `dir/tagged` where missing, then the marker.
        Existing records and tags are kept, so running Init again succeeds and
        changes nothing. */
    method Init() returns (err: Option<Error>)
      requires Valid()
      modifies this
      ensures Valid()
      ensures err == (if dir !in old(dirs) && Up(dir, 1) !in old(dirs) then Some(ErrFs) else None)
      ensures err == None ==> dirs == old(dirs) + {dir} && markers == old(markers) + {dir}
      ensures err == None ==> unsorted == (var u := dir + ["unsorted"]; if u in old(unsorted) then old(unsorted) else old(unsorted)[u := map[]])
      ensures err == None ==> tagged == (var t := dir + ["tagged"]; if t in old(tagged) then old(tagged) else old(tagged)[t := map[]])
      ensures err != None ==> dirs == old(dirs) && markers == old(markers) && unsorted == old(unsorted) && tagged == old(tagged)
    {
      var u, t := dir + ["unsorted"], dir + ["tagged"];
      var present := (if dir in dirs then {"."} else {}) + (if u in unsorted then {"unsorted"} else {})
                     + (if t in tagged then {"tagged"} else {});
      var made;
      err, made := MakeSubdirs(present, Up(dir, 1) in dirs);
      if err != None {
        return err;
      }
      CreateDirsValid(unsorted, tagged, u, t);
      dirs := dirs + {dir};
      if u !in unsorted {
        unsorted := unsorted[u := map[]];
      }
      if t !in tagged {
        tagged := tagged[t := map[]];
      }
      // os.Create of the marker file
      markers := markers + {dir};
      return None;
    }

    /** Add: write a new record into the repository found from `dir`; an
        existing one is never overwritten. */
    method Add(id: string, s: Service) returns (err: Option<Error>)
      requires Valid() && PlainId(id)
      modifies this
      ensures Valid()
      ensures dirs == old(dirs) && markers == old(markers) && tagged == old(tagged)
      ensures err == (if UnsortedPath().Err? then Some(UnsortedPath().error)
                      else if Link(id) in Records(old(unsorted), UnsortedPath().value) then Some(ErrIdExists)
                      else if UnsortedPath().value !in old(unsorted) then Some(ErrFs)
                      else None)
      ensures unsorted == (if err == None then var u := UnsortedPath().value; old(unsorted)[u := old(unsorted)[u][Link(id) := codec.marshal(s)]]
                           else old(unsorted))
    {
      var u := GetUnsortedDir();
      if u.Err? {
        return Some(u.error);
      }
      var pth := Link(id);
      if pth in Records(unsorted, u.value) {
        return Some(ErrIdExists);
      }
      if u.value !in unsorted {
        // os.Create below a missing directory
        return Some(ErrFs);
      }
      var data := codec.marshal(s);
      RecordFileOfId(id, Yaml);
      StoreRecordValid(unsorted, tagged, u.value, pth, data);
      unsorted := unsorted[u.value := unsorted[u.value][pth := data]];
      return None;
    }

    /** Edit: replace the content of an existing record. */
    method Edit(id: string, s: Service) returns (err: Option<Error>)
      requires Valid() && PlainId(id)
      modifies this
      ensures Valid()
      ensures dirs == old(dirs) && markers == old(markers) && tagged == old(tagged)
      ensures err == (if UnsortedPath().Err? then Some(UnsortedPath().error)
                      else if Link(id) !in Records(old(unsorted), UnsortedPath().value) then Some(ErrIdNotExists)
                      else None)
      ensures unsorted == (if err == None then var u := UnsortedPath().value; old(unsorted)[u := old(unsorted)[u][Link(id) := codec.marshal(s)]]
                           else old(unsorted))
    {
      var u := GetUnsortedDir();
      if u.Err? {
        return Some(u.error);
      }
      var pth := Link(id);
      if pth !in Records(unsorted, u.value) {
        return Some(ErrIdNotExists);
      }
      var data := codec.marshal(s);
      RecordFileOfId(id, Yaml);
      StoreRecordValid(unsorted, tagged, u.value, pth, data);
      unsorted := unsorted[u.value := unsorted[u.value][pth := data]];
      return None;
    }

    /** Tag: link the record into the directory of every (trimmed) tag,
        creating directories as needed; existing directories and links are no
        error. The repository is looked up even for an empty tag list. */
    method Tag(id: string, tags: seq<string>) returns (err: Option<Error>)
      requires Valid() && PlainId(id)
      requires forall i :: 0 <= i < |tags| ==> PlainTag(TrimSpace(tags[i]))
      modifies this
      ensures Valid()
      ensures dirs == old(dirs) && markers == old(markers) && unsorted == old(unsorted)
      ensures err == (if RootDir(dir, markers).Err? then Some(RootDir(dir, markers).error)
                      else if |tags| == 0 then None
                      else if Link(id) !in Records(unsorted, UnsortedPath().value) then Some(ErrIdNotExists)
                      else if TaggedPath().value !in old(tagged) then Some(ErrFs)
                      else None)
      ensures tagged == (if err == None && |tags| > 0 then var t := TaggedPath().value; old(tagged)[t := WithTags(old(tagged)[t], Trimmed(tags), Link(id))]
                         else old(tagged))
    {
      var u := GetUnsortedDir();
      if u.Err? {
        return Some(u.error);
      }
      var t := GetTaggedDir();
      if t.Err? {
        // the second search sees the same markers and finds the same root
        assert false;
      }
      var link := Link(id);
      var m0 := if t.value in tagged then tagged[t.value] else map[];
      var m;
      err, m := TagLinks(m0, tags, link, link in Records(unsorted, u.value), t.value in tagged, ErrIdNotExists, ErrFs);
      if err == None && |tags| > 0 {
        TrimmedPlain(tags);
        TagRecordValid(unsorted, tagged, RootDir(dir, markers).value, Trimmed(tags), link);
        tagged := tagged[t.value := m];
      }
    }

    /** GetRaw: the bytes of the record file, read to the end. */
    method GetRaw(id: string) returns (r: Result<Bytes, Error>)
      requires Valid()
      ensures UnsortedPath().Err? ==> r == Err(UnsortedPath().error)
      ensures UnsortedPath().Ok? ==> r == (var files := Records(unsorted, UnsortedPath().value);
                                           if Link(id) in files then Ok(files[Link(id)]) else Err(ErrIdNotExists))
    {
      var u := GetUnsortedDir();
      if u.Err? {
        return Err(u.error);
      }
      var pth := Link(id);
      var files := Records(unsorted, u.value);
      if pth !in files {
        return Err(ErrIdNotExists);
      }
      var data := FileIO.ReadAll(files[pth]);
      return Ok(data);
    }

    /** Get: the record decoded into the zero value. */
    method Get(id: string) returns (r: Result<Service, Error>)
      requires Valid()
      ensures UnsortedPath().Err? ==> r == Err(UnsortedPath().error)
      ensures UnsortedPath().Ok? ==> r == (var files := Records(unsorted, UnsortedPath().value);
                                           if Link(id) !in files then Err(ErrIdNotExists)
                                           else if codec.unmarshal(files[Link(id)], Blank).None? then Err(ErrDecode)
                                           else Ok(codec.unmarshal(files[Link(id)], Blank).value))
    {
      var data := GetRaw(id);
      if data.Err? {
        return Err(data.error);
      }
      var s := codec.unmarshal(data.value, Blank);
      if s.None? {
        return Err(ErrDecode);
      }
      return Ok(s.value);
    }

    /** List: the ids of the records, one per record file, in the order the
        directory listing gives. */
    method List() returns (r: Result<seq<string>, Error>)
      requires Valid()
      ensures UnsortedPath().Err? ==> r == Err(UnsortedPath().error)
      ensures UnsortedPath().Ok? && UnsortedPath().value !in unsorted ==> r == Err(ErrFs)
      ensures UnsortedPath().Ok? && UnsortedPath().value in unsorted ==> r.Ok?
      ensures r.Ok? ==> NoDuplicates(r.value)
      ensures r.Ok? ==> forall id :: id in r.value <==> Link(id) in Records(unsorted, UnsortedPath().value)
    {
      var u := GetUnsortedDir();
      if u.Err? {
        return Err(u.error);
      }
      if u.value !in unsorted {
        // os.Open of a missing directory
        return Err(ErrFs);
      }
      var entries := unsorted[u.value].Keys;
      var names := FileIO.ReadDirNames(entries);
      var files := new string[|names|](i requires 0 <= i < |names| => names[i]);
      assert files[..] == names;
      StripExtensions(files);
      ListingIds(names, entries);
      return Ok(files[..]);
    }

    /** ListTags: the names of the tag directories, in the order the directory
        listing gives. */
    method ListTags() returns (r: Result<seq<string>, Error>)
      requires Valid()
      ensures TaggedPath().Err? ==> r == Err(TaggedPath().error)
      ensures TaggedPath().Ok? && TaggedPath().value !in tagged ==> r == Err(ErrFs)
      ensures TaggedPath().Ok? && TaggedPath().value in tagged ==>
        r.Ok? && NoDuplicates(r.value) && Elems(r.value) == tagged[TaggedPath().value].Keys
    {
      var t := GetTaggedDir();
      if t.Err? {
        return Err(t.error);
      }
      if t.value !in tagged {
        // os.Open of a missing directory
        return Err(ErrFs);
      }
      var names := FileIO.ReadDirNames(tagged[t.value].Keys);
      return Ok(names);
    }
  }

  /** The file system of the scenarios: "/srv" exists and holds nothing. */
  method EmptyRepository(codec: Codec<Service>) returns (repo: OnionTree)
    ensures fresh(repo) && repo.Valid()
    ensures repo.dir == ["srv", "repo"] && repo.codec == codec
    ensures repo.markers == {["srv", "repo"]}
    ensures repo.unsorted == map[["srv", "repo", "unsorted"] := map[]]
    ensures repo.tagged == map[["srv", "repo", "tagged"] := map[]]
  {
    repo := new OnionTree(["srv", "repo"], codec, {[], ["srv"]}, {}, map[], map[]);
    assert Up(["srv", "repo"], 1) == ["srv"];
    assert ["srv", "repo"] + ["unsorted"] == ["srv", "repo", "unsorted"];
    assert ["srv", "repo"] + ["tagged"] == ["srv", "repo", "tagged"];
    var e := repo.Init();
  }

  /** A repository made with Init stores a record, refuses to add it again,
      gives it back, and keeps it through a second Init. */
  method StoreScenario(codec: Codec<Service>, id: string, s: Service)
    returns (first: Option<Error>, again: Option<Error>, got: Result<Service, Error>,
             reinit: Option<Error>, kept: Result<Service, Error>)
    requires Faithful(codec) && PlainId(id)
    ensures first == None && again == Some(ErrIdExists) && got == Ok(s)
    ensures reinit == None && kept == Ok(s)
  {
    var repo := EmptyRepository(codec);
    assert RootDir(["srv", "repo"], repo.markers) == Ok(["srv", "repo"]);
    assert ["srv", "repo"] + ["unsorted"] == ["srv", "repo", "unsorted"];
    assert repo.UnsortedPath() == Ok(["srv", "repo", "unsorted"]);
    first := repo.Add(id, s);
    again := repo.Add(id, s);
    got := repo.Get(id);
    reinit := repo.Init();
    kept := repo.Get(id);
  }

  /** Tagging a record creates the tag directory; ListTags then shows it. */
  method TagScenario(codec: Codec<Service>, id: string, s: Service, tag: string)
    returns (tagged: Option<Error>, tags: Result<seq<string>, Error>)
    requires PlainId(id) && PlainTag(tag) && TrimSpace(tag) == tag
    ensures tagged == None && tags == Ok([tag])
  {
    var repo := EmptyRepository(codec);
    assert RootDir(["srv", "repo"], repo.markers) == Ok(["srv", "repo"]);
    assert ["srv", "repo"] + ["unsorted"] == ["srv", "repo", "unsorted"];
    assert repo.UnsortedPath() == Ok(["srv", "repo", "unsorted"]);
    var e := repo.Add(id, s);
    assert e == None;
    assert repo.Link(id) in Records(repo.unsorted, ["srv", "repo", "unsorted"]);
    assert ["srv", "repo"] + ["tagged"] == ["srv", "repo", "tagged"];
    assert repo.TaggedPath() == Ok(["srv", "repo", "tagged"]);
    assert [tag][..0] == [];
    assert Trimmed([tag]) == {tag};
    tagged := repo.Tag(id, [tag]);
    assert repo.tagged[["srv", "repo", "tagged"]].Keys == {tag};
    tags := repo.ListTags();
    OnlyElement(tags.value, tag);
  }
}
