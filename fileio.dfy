/** The two file-system reads both engines perform: listing a directory and
    reading a whole file through a fixed-size buffer. */
module FileIO {
  import opened Common
  import opened Order

  /** Readdirnames(0): every entry name of a directory exactly once, in an order
      the file system chooses. */
  method ReadDirNames(entries: set<string>) returns (names: seq<string>)
    ensures NoDuplicates(names) && Elems(names) == entries
  {
    names := [];
    var rest := entries;
    while rest != {}
      invariant Elems(names) + rest == entries && Elems(names) !! rest
      invariant NoDuplicates(names)
      decreases |rest|
    {
      var n :| n in rest;
      assert n !in names by { assert n !in Elems(names); }
      names := names + [n];
      rest := rest - {n};
    }
  }

  /** Size of the buffer GetRaw reads through. */
  const ReadBufferSize: nat := 15535

  /** The read loop of GetRaw: `file.Read(buff)` returns the next chunk of at
      most ReadBufferSize bytes, and io.EOF once nothing is left; the chunks
      are appended to `data`. The result is the whole content, in order. */
  method ReadAll(content: Bytes) returns (data: Bytes)
    ensures data == content
  {
    data := [];
    var offset := 0;
    while true
      invariant 0 <= offset <= |content|
      invariant data == content[..offset]
      decreases |content| - offset
    {
      var num := if |content| - offset < ReadBufferSize then |content| - offset else ReadBufferSize;
      if num == 0 {
        break;
      }
      data := data + content[offset..offset + num];
      offset := offset + num;
    }
  }
}
