/**
 * `BufferedReadWriteFile` (Geometry.h): a file written sequentially, then
 * rewound with `reset` and read back sequentially. The file is modelled as
 * the sequence of records written so far plus the current read position;
 * the in-memory `_buffer`, its flushing and the `FILE*` are not modelled.
 */
module BufferedFile {
  import opened Wrappers

  /** The default of the constructor's `bufferSize` argument: `1<<20`. */
  const DefaultBufferSize: nat := 0x10_0000

  /** One `read` of `size` records at `pos`: all of them, or failure. */
  function ReadAt<R>(contents: seq<R>, pos: nat, size: nat): (r: Option<seq<R>>)
    ensures r.Some? <==> pos + size <= |contents|
    ensures r.Some? ==> |r.value| == size
    ensures r.Some? ==> forall k :: 0 <= k < size ==> r.value[k] == contents[pos + k]
  {
    if pos + size <= |contents| then Some(contents[pos..pos + size]) else None
  }

  /** What successive `write` calls leave in the file. */
  function Concat<R>(chunks: seq<seq<R>>): seq<R>
  {
    if chunks == [] then [] else chunks[0] + Concat(chunks[1..])
  }

  function Sizes<R>(chunks: seq<seq<R>>): (sizes: seq<nat>)
    ensures |sizes| == |chunks|
  {
    if chunks == [] then [] else [|chunks[0]|] + Sizes(chunks[1..])
  }

  /** Successive `read` calls of the given sizes, from position `pos`;
      `None` as soon as one of them fails. */
  function ReadChunks<R>(contents: seq<R>, pos: nat, sizes: seq<nat>): (r: Option<seq<seq<R>>>)
    ensures r.Some? ==> |r.value| == |sizes|
    ensures r.Some? ==> forall k :: 0 <= k < |sizes| ==> |r.value[k]| == sizes[k]
    ensures sizes != [] && ReadAt(contents, pos, sizes[0]).None? ==> r.None?
    decreases sizes
  {
    if sizes == [] then Some([])
    else match ReadAt(contents, pos, sizes[0])
      case None => None
      case Some(chunk) =>
        match ReadChunks(contents, pos + sizes[0], sizes[1..])
        case None => None
        case Some(rest) => Some([chunk] + rest)
  }

  /** Reads that start where earlier writes end get back the later writes. */
  lemma {:induction false} ReadBackFrom<R>(prefix: seq<R>, chunks: seq<seq<R>>)
    decreases chunks
    ensures ReadChunks(prefix + Concat(chunks), |prefix|, Sizes(chunks)) == Some(chunks)
  {
    if chunks != [] {
      var all := prefix + Concat(chunks);
      assert all == (prefix + chunks[0]) + Concat(chunks[1..]);
      assert all[|prefix|..|prefix| + |chunks[0]|] == chunks[0];
      ReadBackFrom(prefix + chunks[0], chunks[1..]);
      assert [chunks[0]] + chunks[1..] == chunks;
    }
  }

  /** Data passed to successive `write` calls, followed by `reset`, is
      returned by `read` calls of the same sizes, in the same order. */
  lemma WriteResetRead<R>(chunks: seq<seq<R>>)
    ensures ReadChunks(Concat(chunks), 0, Sizes(chunks)) == Some(chunks)
  {
    ReadBackFrom([], chunks);
    assert [] + Concat(chunks) == Concat(chunks);
  }

  class BufferedReadWriteFile<R> {
    /** Whether the file is an anonymous temporary (no name was given). */
    const tempFile: bool
    const bufferSize: nat
    /** The records written so far. */
    var contents: seq<R>
    /** The index of the next record `read` returns. */
    var position: nat

    ghost predicate Valid()
      reads this
    {
      position <= |contents|
    }

    constructor (fileName: Option<string>, bufferSize: nat := DefaultBufferSize)
      ensures Valid() && tempFile == fileName.None? && this.bufferSize == bufferSize
      ensures contents == [] && position == 0
    {
      tempFile := fileName.None?;
      this.bufferSize := bufferSize;
      contents := [];
      position := 0;
    }

    /** Appends `data` to the file. */
    method Write(data: seq<R>) returns (ok: bool)
      requires Valid()
      modifies this
      ensures Valid() && ok
      ensures contents == old(contents) + data && position == old(position)
    {
      contents := contents + data;
      ok := true;
    }

    /** Reads the next `size` records, or fails and leaves the position. */
    method Read(size: nat) returns (ok: bool, data: seq<R>)
      requires Valid()
      modifies this
      ensures Valid() && contents == old(contents)
      ensures (if ok then Some(data) else None) == ReadAt(old(contents), old(position), size)
      ensures position == if ok then old(position) + size else old(position)
    {
      if position + size <= |contents| {
        data := contents[position..position + size];
        position := position + size;
        ok := true;
      } else {
        data := [];
        ok := false;
      }
    }

    /** Rewinds: the next `read` starts at the first record. */
    method Reset()
      requires Valid()
      modifies this
      ensures Valid() && contents == old(contents) && position == 0
    {
      position := 0;
    }
  }
}
