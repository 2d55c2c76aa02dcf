# OnionTree storage engines, modelled in Dafny

OnionTree keeps a registry of onion-service records in a directory tree:

- `unsorted/<id>.yaml` holds one YAML file per record;
- `tagged/<tag>/<id>.yaml` holds one symbolic link per (tag, record) pair, pointing back into `unsorted/`;
- an empty `.oniontree` file (the "cairn") marks the repository root.

This project models the two storage engines that manage such a tree and the linter's aggregate error:

- **v2** (`pkg/oniontree/v2/oniontree.go`):
  - `Open` finds the root by walking up at most 255 directories and returns it relative to the working directory. `filepath.Rel` cannot relate a relative directory to the absolute working directory, so `Open` on a relative path fails even when a cairn is found (`OnionTreeV2.SearchRelative`).
  - It provides Init, Add, Update, Remove, Tag, Untag, Get, GetRaw, GetTag, List, ListTags and GetServiceTags.
  - Tag directories are removed once nothing is tagged with them.
  - Listings are sorted.
  - `Hash` is a SHA-256 over the SHA-256 digests of all records, in id order.
- **v1** (`pkg/oniontree/oniontree.go`): every call except `Init` first walks up from the handle's directory to the nearest cairn, stopping at "/". It provides Init, Add, Edit, Tag, Get, GetRaw, List and ListTags, and its listings are not sorted.
- **linter error** (`pkg/oniontree/v2/linter/error.go`): the messages of the wrapped errors joined by newlines.

## Layout

| file | module | contents |
|---|---|---|
| common.dfy | Common | `Option`, `Result`, bytes, 32-byte digests, the record codec |
| strings.dfy | Strings | `strings.TrimSpace` (Go's `unicode.IsSpace`), `TrimSuffix`, `filepath.Ext`, `strings.Join` and its inverse `Split` |
| order.dfy | Order | Go's string order, `sort.Strings` as insertion sort, the unique sorted enumeration of a set, order-keeping filtering |
| names.dfy | Names | `idToFilename` / `filenameToId` (identical in both engines), record file names, the extension-stripping loop |
| fileio.dfy | FileIO | `Readdirnames` and the buffered read loop of GetRaw |
| paths.dfy | Paths | cleaned slash paths, `path.Join(d, "..")`, resolution against the working directory, `filepath.Rel` |
| tagindex.dfy | TagIndex | the tag index as a map from tag to link names, closed forms of tagging and untagging, the Tag and Untag loops |
| oniontree_v2.dfy | OnionTreeV2 | root discovery, `Open`, the payload of `Hash`, class `Repository` with every v2 operation |
| oniontree_v1.dfy | OnionTreeV1 | v1 root discovery, class `OnionTree` (handle plus file system) with every v1 operation |
| linter_error.dfy | Linter | `LinterError.Error` |

State is abstract.

- v2: `Repository` has flags for the existence of `unsorted/`, `tagged/` and the cairn. It also has a map from record file name to content and a map from tag to the set of link names.
- v1: `OnionTree` holds the existing directories and the set of directories holding a cairn. It also maps every `unsorted/` directory, by path, to its records and every `tagged/` directory to its tag index, because each call may land in a different repository.
- Both keep one invariant, `Valid()`: the store holds only record files, no tag directory is empty, and every link names an existing record.

YAML encoding and SHA-256 are parameters. A file-system call (`os.Create`, `os.Open`, `os.Mkdir`, `os.Symlink`) on a missing `unsorted/` or `tagged/` directory fails with `ErrFs`, which stands for the `os` error Go would return. Operations that check for the record or the tag first give ErrIdNotExists or ErrTagNotExists instead, and Untag with no `tagged/` has nothing to remove. `ErrFs` also stands for the error `filepath.Rel` returns in the v2 search.

## Model

| member | source | states |
|---|---|---|
| Strings.TrimLeftSpec | pkg/oniontree/v2/oniontree.go:106 | the left-trimmed string is a suffix of the input, all that was dropped is white space, and it does not start with white space |
| Strings.TrimRightSpec | pkg/oniontree/v2/oniontree.go:106 | the right-trimmed string is a prefix of the input, all that was dropped is white space, and it does not end with white space |
| Strings.TrimSpace | pkg/oniontree/v2/oniontree.go:106 | trimming never lengthens a tag name; TrimSpaceIsTrim gives its exact result |
| Strings.TrimSpaceIsTrim | pkg/oniontree/v2/oniontree.go:106 | TrimSpace yields a contiguous slice of the input that neither starts nor ends with white space, with only white space around it |
| Strings.TrimSpaceIdempotent | pkg/oniontree/v2/oniontree.go:134 | trimming a trimmed tag name changes nothing |
| Strings.TrimSuffix | pkg/oniontree/v2/oniontree.go:329 | when the name ends with the suffix, the result followed by the suffix is the name; otherwise the name is unchanged |
| Strings.Ext | pkg/oniontree/v2/oniontree.go:328-330 | the extension is a '.'-led suffix of the name with no further '.' or '/', so it starts at the last '.' of the last path element; it is empty only when no '.' follows the last '/' |
| Strings.ExtOfAppended | pkg/oniontree/v2/oniontree.go:324-330 | the extension of `p + "." + x` is `"." + x` for any `p` when `x` holds no '.' or '/' |
| Strings.Join | pkg/oniontree/v2/linter/error.go:14 | strings.Join: the parts with the separator between each two neighbours; JoinLength and SplitJoin are proved about it |
| Strings.JoinLength | pkg/oniontree/v2/linter/error.go:14 | a join is as long as its parts plus one separator between each two neighbours |
| Strings.SplitJoin | pkg/oniontree/v2/linter/error.go:14 | splitting a join at its one-character separator gives back the parts when no part holds the separator |
| Order.LessEqTotal | pkg/oniontree/v2/oniontree.go:231 | any two strings are comparable in the order sort.Strings uses |
| Order.LessEqAntisymmetric | pkg/oniontree/v2/oniontree.go:231 | strings ordered both ways are equal |
| Order.LessEqTransitive | pkg/oniontree/v2/oniontree.go:231 | the order is transitive |
| Order.Insert | pkg/oniontree/v2/oniontree.go:231 | inserting adds exactly one copy of the element and puts it first or keeps the first element |
| Order.InsertSorted | pkg/oniontree/v2/oniontree.go:231 | inserting into a sorted sequence keeps it sorted |
| Order.InsertNoDuplicates | pkg/oniontree/v2/oniontree.go:231 | inserting a new element into a duplicate-free sequence keeps it duplicate-free |
| Order.SortStrings | pkg/oniontree/v2/oniontree.go:231 | the result of sort.Strings is sorted and a permutation of the input, and duplicate-free when the input is |
| Order.StrictlySortedUnique | pkg/oniontree/v2/oniontree.go:218-233 | two strictly sorted sequences with the same elements are equal, so a sorted listing is determined by the directory's content |
| Order.SortedOf | pkg/oniontree/v2/oniontree.go:218-233 | every finite set of names has a strictly sorted enumeration |
| Order.OnlyElement | pkg/oniontree/oniontree.go:189-204 | a duplicate-free listing of a one-element directory is that element |
| Order.FilterProperties | pkg/oniontree/v2/oniontree.go:253-272 | filtering keeps exactly the elements that pass and keeps a strictly sorted sequence strictly sorted |
| Names.IdToFilename | pkg/oniontree/v2/oniontree.go:324-326 | the file name starts with the id and ends with "." and the format, and is one character longer than both |
| Names.FilenameToId | pkg/oniontree/v2/oniontree.go:328-330 | the id followed by the name's extension is the file name again |
| Names.FilenameRoundTrip | pkg/oniontree/v2/oniontree.go:324-330 | filenameToId(idToFilename(id)) == id for every id |
| Names.RecordFileId | pkg/oniontree/v2/oniontree.go:324-330 | a record file name is the file name of the id filenameToId gives, and that id holds no '/' |
| Names.RecordFileOfId | pkg/oniontree/v2/oniontree.go:324-326 | the file name of an id without '/' is a record file name |
| Names.StripExtensions | pkg/oniontree/oniontree.go:183-185 | the in-place loop leaves every array entry replaced by filenameToId of its old value |
| Names.ListingIds | pkg/oniontree/oniontree.go:169-187 | a listing of record files with the extensions stripped is duplicate-free and holds exactly the ids whose record file is listed |
| FileIO.ReadDirNames | pkg/oniontree/v2/oniontree.go:224 | Readdirnames lists every entry exactly once |
| FileIO.ReadAll | pkg/oniontree/v2/oniontree.go:179-191 | the chunked read loop returns the whole file content, in order |
| Paths.AncestorShift | pkg/oniontree/v2/oniontree.go:350 | stepping up once and then `i` times is stepping up `i + 1` times |
| Paths.ParentResolves | pkg/oniontree/v2/oniontree.go:350 | joining ".." to a directory names the parent of the location it named, and keeps it absolute or relative |
| Paths.ResolveAncestor | pkg/oniontree/v2/oniontree.go:339-351 | candidate `i` of the upward search names the `i`-th ancestor of the start directory, and relative stays relative |
| Paths.CommonPrefix | pkg/oniontree/v2/oniontree.go:343 | the longest common leading part of two paths: shared, and not extendable |
| Paths.RelToResolves | pkg/oniontree/v2/oniontree.go:343 | the path filepath.Rel computes is relative and leads from the working directory back to the target |
| TagIndex.Trimmed | pkg/oniontree/v2/oniontree.go:105-106 | the tags a loop over `tags` visits include the trimmed form of every tag |
| TagIndex.TrimmedOnly | pkg/oniontree/v2/oniontree.go:105-106 | every element of the visited set is the trimmed form of some tag in the list, so the loops visit nothing else |
| TagIndex.TrimmedPlain | pkg/oniontree/v2/oniontree.go:106 | the trimmed tag names are plain names and already trimmed |
| TagIndex.WithTags | pkg/oniontree/v2/oniontree.go:104-129 | after tagging, a tag holds a link iff it held it before or is one of the tags and the link is the record's |
| TagIndex.WithoutTags | pkg/oniontree/v2/oniontree.go:132-153 | after untagging, a tag directory remains iff it was there and was not left empty, and holds the old links less the record's |
| TagIndex.WithTagsCompose | pkg/oniontree/v2/oniontree.go:104-129 | tagging in two steps is tagging with the union |
| TagIndex.WithTagsIdempotent | pkg/oniontree/v2/oniontree.go:109-127 | tagging twice with the same tags is tagging once, since existing directories and links are no error |
| TagIndex.WithTagsNone | pkg/oniontree/v2/oniontree.go:104-129 | tagging with no tags changes nothing |
| TagIndex.WithoutTagsCompose | pkg/oniontree/v2/oniontree.go:132-153 | untagging in two steps is untagging with the union |
| TagIndex.WithoutTagsNone | pkg/oniontree/v2/oniontree.go:132-153 | untagging with no tags changes nothing |
| TagIndex.WithTagsConsistent | pkg/oniontree/v2/oniontree.go:104-129 | tagging an existing record with plain trimmed names keeps every link pointing at a record and no tag directory empty |
| TagIndex.WithoutTagsConsistent | pkg/oniontree/v2/oniontree.go:132-153 | untagging keeps the tag index consistent |
| TagIndex.RemoveLinkConsistent | pkg/oniontree/v2/oniontree.go:68-81 | removing a record after untagging it from every tag leaves no link to it |
| TagIndex.WithoutTagsCovering | pkg/oniontree/v2/oniontree.go:68-81 | untagging from the tags that hold the record is untagging from all tags |
| TagIndex.UntagUndoesTag | pkg/oniontree/v2/oniontree.go:104-153 | Untag undoes Tag for tags that did not hold the record, including removing the tag directories Tag created |
| TagIndex.TagStep | pkg/oniontree/v2/oniontree.go:112-125 | one iteration (mkdir unless present, link unless present) is tagging with that one tag |
| TagIndex.UntagStep | pkg/oniontree/v2/oniontree.go:139-151 | one iteration (remove the link if present, the directory if empty) is untagging with that one tag |
| TagIndex.TagLinks | pkg/oniontree/v2/oniontree.go:104-129 | the Tag loop: no tags is success without checks; otherwise a missing record or tagged/ fails at the first iteration with nothing changed, else the index is WithTags of the trimmed names |
| TagIndex.UntagLinks | pkg/oniontree/v2/oniontree.go:132-153 | the Untag loop: a missing record with a non-empty list fails with nothing changed, else the index is WithoutTags of the trimmed names |
| OnionTreeV2.New | pkg/oniontree/v2/oniontree.go:357-362 | a handle on `dir` with format yaml, made without looking at the file system |
| OnionTreeV2.RelFromCwd | pkg/oniontree/v2/oniontree.go:343-347 | Rel succeeds iff the found directory is absolute, and then gives a relative path that leads from the working directory back to it; otherwise ErrFs |
| OnionTreeV2.Search | pkg/oniontree/v2/oniontree.go:334-353 | a found root is a relative path naming a location that holds a cairn; a failure is ErrNotOnionTree, or ErrFs from Rel and only for a relative start |
| OnionTreeV2.FindRootDir | pkg/oniontree/v2/oniontree.go:334-353 | the bounded loop computes the recursive search over MaxDepth = 255 candidates |
| OnionTreeV2.Open | pkg/oniontree/v2/oniontree.go:366-374 | Open succeeds exactly when findRootDir does, with the handle on the found root, and otherwise passes its error on |
| OnionTreeV2.SearchNotFound | pkg/oniontree/v2/oniontree.go:334-353 | the search reports ErrNotOnionTree iff none of its candidates holds a cairn |
| OnionTreeV2.SearchFinds | pkg/oniontree/v2/oniontree.go:340-348 | the search stops at the first candidate holding a cairn |
| OnionTreeV2.SearchRelative | pkg/oniontree/v2/oniontree.go:343-345 | from a relative directory, the search fails, because filepath.Rel against the absolute working directory fails |
| OnionTreeV2.OpenFindsNearest | pkg/oniontree/v2/oniontree.go:366-374 | from an absolute directory, Open finds the nearest ancestor holding a cairn within 255 levels |
| OnionTreeV2.OpenNotFound | pkg/oniontree/v2/oniontree.go:366-374 | for a directory less than 255 levels deep, Open fails with ErrNotOnionTree iff no ancestor holds a cairn |
| OnionTreeV2.Payload | pkg/oniontree/v2/oniontree.go:282 | the payload has 32 bytes per listed record |
| OnionTreeV2.PayloadBlocks | pkg/oniontree/v2/oniontree.go:283-292 | block `i` of the payload is the digest of the record of the `i`-th listed id |
| OnionTreeV2.PayloadDeterminesDigests | pkg/oniontree/v2/oniontree.go:277-294 | equal payloads over one listing mean equal record digests, id by id |
| OnionTreeV2.PayloadStep | pkg/oniontree/v2/oniontree.go:283-292 | one iteration of Hash's loop extends the payload of the ids so far by the next id's digest |
| OnionTreeV2.SortedListing | pkg/oniontree/v2/oniontree.go:231 | sorting a duplicate-free listing gives a strictly sorted one with the same names |
| OnionTreeV2.ReadIds | pkg/oniontree/v2/oniontree.go:206-213 | listing, stripping and sorting a directory of record files gives the strictly sorted ids of exactly its records |
| OnionTreeV2.Find | pkg/oniontree/v2/oniontree.go:264-269 | the inner loop of GetServiceTags finds `id` iff it is among the tag's services |
| OnionTreeV2.CopyDigest | pkg/oniontree/v2/oniontree.go:289-291 | the copy loop puts the digest at its block and leaves the earlier blocks unchanged |
| OnionTreeV2.Repository.constructor | pkg/oniontree/v2/oniontree.go:357-362 | a handle on `tree` whose directory holds nothing yet: no unsorted/, no tagged/, no cairn, no records and no tags |
| OnionTreeV2.Repository.IdOfRecord | pkg/oniontree/v2/oniontree.go:324-330 | the id of a stored record file names that file and holds no '/' |
| OnionTreeV2.Repository.ListingMembers | pkg/oniontree/v2/oniontree.go:218-233 | an id is among the stored ids iff its record file is stored |
| OnionTreeV2.Repository.Init | pkg/oniontree/v2/oniontree.go:33-45 | Init always succeeds here, creates tagged/, unsorted/ and the cairn, and keeps records and tags |
| OnionTreeV2.Repository.Add | pkg/oniontree/v2/oniontree.go:48-65 | an existing record gives ErrIdExists and nothing changes; otherwise exactly `marshal(s)` is stored under `<id>.yaml` and nothing else changes |
| OnionTreeV2.Repository.Update | pkg/oniontree/v2/oniontree.go:84-101 | an absent record gives ErrIdNotExists; otherwise its content is replaced by `marshal(s)` and no other record or tag changes |
| OnionTreeV2.Repository.Tag | pkg/oniontree/v2/oniontree.go:104-129 | an empty tag list succeeds for any id; otherwise an absent record gives ErrIdNotExists with nothing changed, else the record is linked from every trimmed tag |
| OnionTreeV2.Repository.Untag | pkg/oniontree/v2/oniontree.go:132-153 | an absent record with a non-empty list gives ErrIdNotExists; otherwise links present are removed and emptied tag directories with them, the rest is unchanged |
| OnionTreeV2.Repository.Remove | pkg/oniontree/v2/oniontree.go:68-81 | an absent record gives ErrIdNotExists; otherwise the record file is deleted and its link removed from every tag, emptied tags included |
| OnionTreeV2.Repository.GetRaw | pkg/oniontree/v2/oniontree.go:169-192 | an absent record gives ErrIdNotExists; otherwise its stored bytes, whole |
| OnionTreeV2.Repository.Get | pkg/oniontree/v2/oniontree.go:156-166 | an absent record gives ErrIdNotExists; otherwise the codec's decoding of its bytes into a value whose id is `id`, or ErrDecode |
| OnionTreeV2.Repository.GetTag | pkg/oniontree/v2/oniontree.go:195-215 | a missing tag directory gives ErrTagNotExists; otherwise the tag's strictly sorted services are exactly the ids it links |
| OnionTreeV2.Repository.List | pkg/oniontree/v2/oniontree.go:218-233 | the strictly sorted ids of exactly the stored records, a function of the store's content alone |
| OnionTreeV2.Repository.ListTags | pkg/oniontree/v2/oniontree.go:236-248 | the strictly sorted names of exactly the tag directories |
| OnionTreeV2.Repository.GetServiceTags | pkg/oniontree/v2/oniontree.go:253-272 | the tags linking the record, each once, in ListTags order (so strictly sorted) |
| OnionTreeV2.Repository.MatchTags | pkg/oniontree/v2/oniontree.go:259-270 | the outer loop keeps the listed tags whose services include the id, in order |
| OnionTreeV2.Repository.DigestRecords | pkg/oniontree/v2/oniontree.go:282-292 | the loop fills a fresh buffer with exactly the payload of the listed ids |
| OnionTreeV2.Repository.Hash | pkg/oniontree/v2/oniontree.go:277-294 | the hash is sha256 of the payload of the sorted listing, and fails only when unsorted/ is missing |
| OnionTreeV2.StoreScenario | pkg/oniontree/v2/oniontree.go:48-65 | in a fresh repository, adding twice gives ErrIdExists and Get returns the stored record with its id |
| OnionTreeV2.TagScenario | pkg/oniontree/v2/oniontree.go:68-81 | a tagged record is its tag's only member; removing it leaves no tags and no records |
| OnionTreeV1.RootDir | pkg/oniontree/oniontree.go:250-266 | a found root holds a cairn and is the start directory or one of its ancestors; the only failure is ErrCairnNotFound |
| OnionTreeV1.RootDirSpec | pkg/oniontree/oniontree.go:250-266 | the search finds the deepest ancestor of the directory holding a cairn, and fails with ErrCairnNotFound iff none up to "/" does |
| OnionTreeV1.FindRootDir | pkg/oniontree/oniontree.go:250-266 | the loop up to "/" computes the recursive search |
| OnionTreeV1.StoreRecordValid | pkg/oniontree/oniontree.go:47-91 | writing a record file keeps every repository's invariant |
| OnionTreeV1.TagRecordValid | pkg/oniontree/oniontree.go:93-126 | tagging an existing record keeps the invariant |
| OnionTreeV1.CreateDirsValid | pkg/oniontree/oniontree.go:30-45 | creating missing unsorted/ and tagged/ directories keeps the invariant |
| OnionTreeV1.MakeSubdirs | pkg/oniontree/oniontree.go:31-38 | the Init loop fails only when the repository directory and its parent are missing, and otherwise leaves all three directories present |
| OnionTreeV1.OnionTree.constructor | pkg/oniontree/oniontree.go:268-270 | New: a handle on the directory, over the file system as it is, with no check |
| OnionTreeV1.OnionTree.GetUnsortedDir | pkg/oniontree/oniontree.go:206-212 | unsorted/ of the root found from the handle's directory, or the search's error |
| OnionTreeV1.OnionTree.GetTaggedDir | pkg/oniontree/oniontree.go:214-220 | tagged/ of the root found from the handle's directory, or the search's error |
| OnionTreeV1.OnionTree.Init | pkg/oniontree/oniontree.go:30-45 | Init creates the directory (when its parent exists), unsorted/, tagged/ and the cairn, keeping what exists, so running it again succeeds and changes no record |
| OnionTreeV1.OnionTree.Add | pkg/oniontree/oniontree.go:47-68 | a failed search is passed on before anything changes; an existing record gives ErrIdExists; otherwise exactly `marshal(s)` is stored in the found repository |
| OnionTreeV1.OnionTree.Edit | pkg/oniontree/oniontree.go:70-91 | a failed search is passed on; an absent record gives ErrIdNotExists; otherwise its content is replaced, nothing else changes |
| OnionTreeV1.OnionTree.Tag | pkg/oniontree/oniontree.go:93-126 | a failed search is passed on even for an empty tag list; otherwise the record is linked from every trimmed tag, as TagLinks does |
| OnionTreeV1.OnionTree.GetRaw | pkg/oniontree/oniontree.go:140-167 | a failed search is passed on; an absent record gives ErrIdNotExists; otherwise the stored bytes, whole |
| OnionTreeV1.OnionTree.Get | pkg/oniontree/oniontree.go:128-138 | GetRaw's error, or the codec's decoding of the bytes into the zero value, or ErrDecode |
| OnionTreeV1.OnionTree.List | pkg/oniontree/oniontree.go:169-187 | one id per record file, with no duplicates and in no promised order: exactly the ids of the stored records |
| OnionTreeV1.OnionTree.ListTags | pkg/oniontree/oniontree.go:189-204 | the names of exactly the tag directories, each once, unsorted |
| OnionTreeV1.EmptyRepository | pkg/oniontree/oniontree.go:30-45 | Init in an existing parent directory creates an empty repository marked by its cairn |
| OnionTreeV1.StoreScenario | pkg/oniontree/oniontree.go:47-68 | adding twice gives ErrIdExists, Get returns the record, and a second Init succeeds and keeps it |
| OnionTreeV1.TagScenario | pkg/oniontree/oniontree.go:93-126 | tagging a stored record succeeds and ListTags then lists just that tag |
| Linter.Error | pkg/oniontree/v2/linter/error.go:9-15 | the message is the wrapped messages joined by "\n": empty for none, the one message for one, with n - 1 separators in total length |

## Left out

- YAML encoding: `marshal`/`unmarshal` are a parameter (`Codec`). Marshalling is taken never to fail. The scenarios assume a codec that gives back what it wrote (`Faithful`). No property of YAML itself is proved.
- SHA-256 is a parameter returning 32 bytes. Collision resistance, and so any claim that different content gives a different hash, is not modelled.
- The `format` switch: only "yaml" exists, and any other format panics. v2 `Repository` requires `format == "yaml"`, and v1 fixes it.
- File-system failures other than a missing `unsorted/`, `tagged/` or parent directory are not modelled: permissions, full disks, I/O errors during a read, failures between Mkdir and Symlink. The check-then-create races between processes are not modelled either.
- Symbolic links are names in a tag's set. Their targets (`filepath.Rel(pthTag, pth)` in Tag) are not computed, and `isSymlink`/`isFile`/`isDir`/`isEmptyDir`, which are defined outside the modelled files, are taken to mean what their names say (`isEmptyDir` is false for a missing directory).
- The working directory (`os.Getwd`) is a parameter of the v2 search.
- The v1 handle's directory is an absolute path. From a relative start the v1 search ends only when a cairn lies on the way up: `path.Join` of ".." never yields "/", so without a cairn the source loops for ever.
- v1 `findRootDir` goes through `filepath.Glob`. The model treats directory names as literal, with no glob metacharacters, so Glob's pattern-syntax error never happens.
- The 15535-byte buffer of GetRaw is kept as the chunk size of the read loop. A read is taken to fill the buffer whenever that many bytes remain, which Go's `Read` does not promise.
- OnionTreeV2.Repository.Add, Update, Tag, Untag and Remove require `PlainId(id)` (no '/' in the id). An id with '/' names a file in a subdirectory of `unsorted/`, which the model's flat store does not represent.
- OnionTreeV2.Repository.Tag and Untag, and OnionTreeV1.OnionTree.Tag, require every trimmed tag to be a plain name: not empty, not "." or "..", and without '/'. With "" or "." the source's Tag puts the link straight into `tagged/`, so ListTags then reports a tag named `<id>.yaml`, and Untag of "" removes `tagged/` itself once it is empty. ".." addresses the repository root. "a/b" addresses a directory nested inside tag `a`, or fails when `a` is missing. The model's one-level tag index represents none of these. Such tags are reachable from the command line, where a trailing comma in the tag list gives "".
- OnionTreeV2.Repository.GetTag requires a plain tag name for the same reason.
- OnionTreeV2.Repository.GetRaw: an id with '/' gives ErrIdNotExists in the model. The source reads the file that `unsorted/<id>.yaml` names, which for "../x" is `<root>/x.yaml`, outside the store.
- OnionTreeV2.Repository.Get: an id with '/' gives GetRaw's ErrIdNotExists, where the source decodes whatever file the joined path names.
- OnionTreeV1.OnionTree.GetRaw: an id with '/' gives ErrIdNotExists, where the source reads the file the joined path names, as in v2.
- OnionTreeV1.OnionTree.Get: an id with '/' gives ErrIdNotExists, where the source decodes whatever file the joined path names.
- OnionTreeV1.OnionTree.Add, Edit and Tag require `PlainId(id)` for the same reason as v2.
- OnionTreeV2.Repository.Init: v2 uses `os.MkdirAll`, which is taken always to succeed. Its two-iteration loop over tagged/ and unsorted/ is written as two assignments.
- v1 `Init` checks only the parent of the handle's directory, because it creates that directory with a single `os.Mkdir`.
- Public-key parsing (`pkg/types/service/publickey.go`, `pkg/oniontree/v2/publickey.go`) delegates to a foreign OpenPGP library. Public keys are opaque fields of the record types.
- `pkg/oniontree/v2/linter/linter.go` is a wrapper over a JSON-schema validator whose schema is not part of this model. `Linter` models only the aggregate error. Each wrapped error is represented by its message, so the error values' own `Error` methods are not modelled.
- Go strings are byte strings. The model's strings are sequences of characters, so names that are not valid UTF-8 cannot be expressed, and the order of `sort.Strings` (byte order) is taken to be the order of code points, which agrees with it on valid UTF-8.
- The `cmd/*` programs (flag parsing, process exit, templates) are callers of the engines, not part of them.
- v1 `Tag` runs the root search twice. Both searches see the same file system, so the second cannot fail after the first succeeded. Its failure branch is unreachable in the model.
- The loops of Tag, Untag, List, GetTag, GetServiceTags and Hash work on values (a tag map, a directory's name set, a listing) in helper methods. Each helper is proved against the same closed form the operation's contract uses.
