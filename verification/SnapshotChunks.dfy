/** Splitting a compressed dump into chunk files (splitDumpIntoChunks in
    internal/statesync/snapshotter.go). */
module SnapshotChunks {
  import opened TableModel

  /** SHA-256, modelled as injective: the digest is its preimage. */
  datatype Digest = Sha256(data: Bytes)

  datatype Snapshot = Snapshot(
    height: nat, format: nat, chunkCount: nat, chunkHashes: seq<Digest>, snapshotHash: Digest, snapshotSize: nat)

  /** Full chunks followed by one shorter, possibly empty, last chunk. */
  function Split(file: Bytes, size: nat): (chunks: seq<Bytes>)
    requires 0 < size
    ensures chunks != []
    decreases |file|
  {
    if |file| < size then [file] else [file[..size]] + Split(file[size..], size)
  }

  function Concat(chunks: seq<Bytes>): Bytes
  {
    if chunks == [] then [] else chunks[0] + Concat(chunks[1..])
  }

  function Hashes(chunks: seq<Bytes>): seq<Digest>
  {
    seq(|chunks|, i requires 0 <= i < |chunks| => Sha256(chunks[i]))
  }

  /** Chunks put back together are the file; all but the last are full, the last is not. */
  lemma {:induction false} SplitRoundTrip(file: Bytes, size: nat)
    requires 0 < size
    ensures Concat(Split(file, size)) == file
    ensures var chunks := Split(file, size);
            forall i :: 0 <= i < |chunks| ==> if i < |chunks| - 1 then |chunks[i]| == size else |chunks[i]| < size
    decreases |file|
  {
    var chunks := Split(file, size);
    if |file| < size {
      assert chunks[1..] == [];
    } else {
      SplitRoundTrip(file[size..], size);
      assert chunks[1..] == Split(file[size..], size);
      assert file == file[..size] + file[size..];
    }
  }

  method SplitDumpIntoChunks(height: nat, format: nat, file: Bytes, sqlDumpHash: Digest, chunkSize: nat)
    returns (snapshot: Snapshot, chunks: seq<Bytes>)
    requires 0 < chunkSize
    ensures chunks == Split(file, chunkSize)
    ensures snapshot == Snapshot(height, format, |chunks|, Hashes(chunks), sqlDumpHash, |file|)
  {
    hide Split;
    var pos := 0;
    var done := false;
    var hashes: seq<Digest> := [];
    chunks := [];
    assert file[0..] == file;
    while !done
      invariant 0 <= pos <= |file|
      invariant hashes == Hashes(chunks)
      invariant !done ==> Split(file, chunkSize) == chunks + Split(file[pos..], chunkSize)
      invariant done ==> pos == |file| && Split(file, chunkSize) == chunks
      decreases if done then 0 else 1 + |file| - pos
    {
      var written := if |file| - pos < chunkSize then |file| - pos else chunkSize;
      var chunk := file[pos..pos + written];
      SplitStep(file, pos, chunkSize);
      chunks := chunks + [chunk];
      hashes := hashes + [Sha256(chunk)];
      pos := pos + written;
      done := written < chunkSize;
    }
    snapshot := Snapshot(height, format, |chunks|, hashes, sqlDumpHash, pos);
  }

  lemma SplitStep(file: Bytes, pos: nat, size: nat)
    requires 0 < size && pos <= |file|
    ensures Split(file[pos..], size) ==
            if |file| - pos < size then [file[pos..|file|]]
            else [file[pos..pos + size]] + Split(file[pos + size..], size)
  {
    assert file[pos..|file|] == file[pos..];
    if |file| - pos >= size {
      assert file[pos..][..size] == file[pos..pos + size] && file[pos..][size..] == file[pos + size..];
    }
  }
}
