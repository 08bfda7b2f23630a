/** Reading chunk files back as one stream (internal/statesync/streamer.go). */
module ChunkStreamer {
  import opened Wrappers
  import opened TableModel
  import opened SnapshotChunks

  /** `current` is the unread part of the open chunk file. */
  class Streamer {
    const files: seq<Bytes>
    var current: Option<Bytes>
    var currentChunkIndex: nat

    ghost predicate Valid()
      reads this
    {
      currentChunkIndex <= |files|
    }

    constructor (files: seq<Bytes>)
      ensures Valid() && this.files == files && Remaining() == Concat(files)
      ensures AtEnd() <==> files == []
    {
      this.files := files;
      current, currentChunkIndex := None, 0;
    }

    /** Everything not yet delivered. */
    ghost function Remaining(): Bytes
      reads this
      requires Valid()
    {
      (if current.Some? then current.value else []) + Concat(files[currentChunkIndex..])
    }

    /** The next Read reports EOF. */
    ghost predicate AtEnd()
      reads this
      requires Valid()
    {
      current == None && currentChunkIndex == |files|
    }

    method Next() returns (eof: bool)
      requires Valid() && current == None
      modifies this
      ensures Valid() && Remaining() == old(Remaining())
      ensures eof <==> old(currentChunkIndex) == |files|
      ensures !eof ==> current.Some? && currentChunkIndex == old(currentChunkIndex) + 1
      ensures eof ==> current == None && currentChunkIndex == old(currentChunkIndex)
    {
      if currentChunkIndex >= |files| { return true; }
      assert files[currentChunkIndex..][1..] == files[currentChunkIndex + 1..];
      current := Some(files[currentChunkIndex]);
      currentChunkIndex := currentChunkIndex + 1;
      return false;
    }

    /** Reads at most `p` bytes; a file may return fewer than asked. At the end of the last chunk
        the call reports neither data nor an error; EOF comes with the call after it. */
    method Read(p: nat) returns (data: Bytes, eof: bool)
      requires Valid()
      modifies this
      ensures Valid() && |data| <= p
      ensures data + Remaining() == old(Remaining())
      ensures eof <==> old(AtEnd())
      ensures eof ==> data == [] && AtEnd()
      ensures p > 0 && data == [] ==> old(Remaining()) == [] && AtEnd()
      ensures data != [] ==> !AtEnd()
      decreases |files| - currentChunkIndex, current.Some?
    {
      if current == None {
        eof := Next();
        if eof {
          assert files[currentChunkIndex..] == [];
          return [], true;
        }
      }
      var chunk := current.value;
      if p == 0 { return [], false; }
      if chunk == [] {
        current := None;
        if currentChunkIndex < |files| {
          data, eof := Read(p);
          return;
        }
        assert files[currentChunkIndex..] == [];
        return [], false;
      }
      var n :| 1 <= n <= |chunk| && n <= p;
      data, eof := chunk[..n], false;
      current := Some(chunk[n..]);
      assert chunk == chunk[..n] + chunk[n..];
    }
  }

  /** A reader such as gzip's: buffers of any positive sizes, until EOF. */
  method Drain(s: Streamer, sizes: nat -> nat) returns (data: Bytes)
    requires s.Valid() && forall i :: 0 < sizes(i)
    modifies s
    ensures s.Valid() && s.AtEnd() && data == old(s.Remaining())
  {
    data := [];
    var i := 0;
    var eof := false;
    while !eof
      invariant s.Valid() && data + s.Remaining() == old(s.Remaining())
      invariant eof ==> s.AtEnd()
      decreases !eof, |s.Remaining()|, !s.AtEnd()
    {
      var part;
      part, eof := s.Read(sizes(i));
      data, i := data + part, i + 1;
    }
    assert s.files[s.currentChunkIndex..] == [];
  }
}
