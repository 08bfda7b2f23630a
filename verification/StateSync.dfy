/** Receiving a snapshot (internal/statesync/statesync.go) and the way from a dump on one node to
    the restored stream on another. */
module StateSync {
  import opened Wrappers
  import opened TableModel
  import opened SnapshotChunks
  import opened ChunkStreamer

  datatype SyncError =
    | InProgress | NotInProgress | UnsupportedFormat | InvalidSnapshot
    | RejectChunk | RefetchChunk | RejectSnapshot

  const DEFAULT_FORMAT := 0
  const TWO_TO_32 := 0x1_0000_0000

  /** What the receiver remembers: the accepted header, the chunk indexes received, and the chunk
      files written. */
  datatype Sync = Sync(snapshot: Option<Snapshot>, chunks: set<nat>, disk: map<nat, Bytes>)

  const IDLE := Sync(None, {}, map[])

  datatype Delivery = Delivery(chunk: Bytes, index: nat)

  /** What a delivery does. `Restore` carries the stream handed to the database restore. */
  datatype Outcome = Failed(error: SyncError) | Duplicate | Stored | Restore(stream: Bytes)

  // ---------------------------------------------------------------------
  // Steps
  // ---------------------------------------------------------------------

  /** Offered headers are checked for consistency; `verified` is the answer of the trusted
      providers. */
  function OfferError(s: Sync, snapshot: Snapshot, verified: bool): Option<SyncError>
  {
    if s.snapshot.Some? then Some(InProgress)
    else if snapshot.format != DEFAULT_FORMAT then Some(UnsupportedFormat)
    else if snapshot.height == 0 || snapshot.chunkCount == 0 ||
            snapshot.chunkCount != |snapshot.chunkHashes| % TWO_TO_32 then Some(InvalidSnapshot)
    else if !verified then Some(InvalidSnapshot)
    else None
  }

  ghost predicate ValidSync(s: Sync)
  {
    match s.snapshot
    case None => s.chunks == {}
    case Some(h) =>
      && h.chunkCount <= |h.chunkHashes| && |s.chunks| < h.chunkCount
      && forall i :: i in s.chunks ==> i < h.chunkCount && i in s.disk && Sha256(s.disk[i]) == h.chunkHashes[i]
  }

  function FilesOf(disk: map<nat, Bytes>, count: nat): seq<Bytes>
    requires forall i :: 0 <= i < count ==> i in disk
  {
    seq(count, i requires 0 <= i < count && i in disk => disk[i])
  }

  function Indexes(n: nat): (r: set<nat>)
    ensures |r| == n && forall i :: i in r <==> 0 <= i < n
  {
    if n == 0 then {} else Indexes(n - 1) + {n - 1}
  }

  lemma FullSet(s: set<nat>, n: nat)
    requires |s| == n && forall i :: i in s ==> i < n
    ensures s == Indexes(n)
  {
    var rest := Indexes(n) - s;
    assert s + rest == Indexes(n) && |s + rest| == |s| + |rest|;
  }

  /** A new chunk whose bytes have the announced hash. */
  ghost predicate Fresh(s: Sync, d: Delivery)
    requires ValidSync(s) && s.snapshot.Some?
  {
    && d.index !in s.chunks && d.index < s.snapshot.value.chunkCount
    && Sha256(d.chunk) == s.snapshot.value.chunkHashes[d.index]
  }

  /** The files on disk once the last chunk is in. */
  ghost function Assembled(s: Sync, d: Delivery): seq<Bytes>
    requires ValidSync(s) && s.snapshot.Some? && Fresh(s, d)
    requires |s.chunks| + 1 == s.snapshot.value.chunkCount
  {
    FullSet(s.chunks + {d.index}, s.snapshot.value.chunkCount);
    FilesOf(s.disk[d.index := d.chunk], s.snapshot.value.chunkCount)
  }

  lemma StoredFacts(s: Sync, d: Delivery)
    requires ValidSync(s) && s.snapshot.Some? && Fresh(s, d)
    ensures var count, disk := s.snapshot.value.chunkCount, s.disk[d.index := d.chunk];
            && |s.chunks + {d.index}| == |s.chunks| + 1 <= count
            && (|s.chunks| + 1 < count ==> ValidSync(Sync(s.snapshot, s.chunks + {d.index}, disk)))
            && (|s.chunks| + 1 == count ==>
                  (forall i :: 0 <= i < count ==> i in disk) && FilesOf(disk, count) == Assembled(s, d))
  {
    if |s.chunks| + 1 == s.snapshot.value.chunkCount {
      FullSet(s.chunks + {d.index}, s.snapshot.value.chunkCount);
    }
  }

  /** The receiver after a delivery. A restore ends the session whatever its result. */
  ghost function Applied(s: Sync, d: Delivery): (r: (Sync, Outcome))
    requires ValidSync(s)
    ensures ValidSync(r.0)
  {
    if s.snapshot.None? then (s, Failed(NotInProgress))
    else if d.index in s.chunks then (s, Duplicate)
    else if d.index >= s.snapshot.value.chunkCount then (s, Failed(RejectChunk))
    else if !Fresh(s, d) then (s, Failed(RefetchChunk))
    else if |s.chunks| + 1 == s.snapshot.value.chunkCount then
      (Sync(None, {}, s.disk[d.index := d.chunk]), Restore(Concat(Assembled(s, d))))
    else (Sync(s.snapshot, s.chunks + {d.index}, s.disk[d.index := d.chunk]), Stored)
  }

  // ---------------------------------------------------------------------
  // The object
  // ---------------------------------------------------------------------

  /** How a restore can end: the stream decompresses or not, and psql accepts it or not. */
  datatype Restorer = Restorer(gunzip: Bytes -> Option<Bytes>, psql: Bytes -> bool)

  predicate RestoreSucceeds(r: Restorer, hash: Digest, stream: Bytes)
  {
    r.gunzip(stream).Some? && Sha256(r.gunzip(stream).value) == hash && r.psql(r.gunzip(stream).value)
  }

  /** Streams the chunk files through the decompressor into the database. */
  method RestoreDB(files: seq<Bytes>, hash: Digest, restorer: Restorer, sizes: nat -> nat) returns (ok: bool)
    requires forall i :: 0 < sizes(i)
    ensures ok == RestoreSucceeds(restorer, hash, Concat(files))
    ensures ok <==> match restorer.gunzip(Concat(files))
                    case None => false
                    case Some(dump) => Sha256(dump) == hash && restorer.psql(dump)
  {
    var streamer := new Streamer(files);
    var stream := Drain(streamer, sizes);
    ok := RestoreSucceeds(restorer, hash, stream);
  }

  class StateSyncer {
    var snapshot: Option<Snapshot>
    var chunks: set<nat>
    var rcvdChunks: nat
    var disk: map<nat, Bytes>

    ghost function State(): Sync
      reads this
    {
      Sync(snapshot, chunks, disk)
    }

    ghost predicate Valid()
      reads this
    {
      ValidSync(State()) && rcvdChunks == |chunks|
    }

    constructor ()
      ensures Valid() && State() == IDLE
    {
      snapshot, chunks, rcvdChunks, disk := None, {}, 0, map[];
    }

    method OfferSnapshot(s: Snapshot, verified: bool) returns (err: Option<SyncError>)
      requires Valid()
      modifies this
      ensures Valid() && err == OfferError(old(State()), s, verified)
      ensures State() == if err == None then Sync(Some(s), {}, old(disk)) else old(State())
    {
      if snapshot.Some? { return Some(InProgress); }
      if s.format != DEFAULT_FORMAT { return Some(UnsupportedFormat); }
      if s.height <= 0 || s.chunkCount <= 0 || s.chunkCount != |s.chunkHashes| % TWO_TO_32 {
        return Some(InvalidSnapshot);
      }
      if !verified { return Some(InvalidSnapshot); }
      snapshot, chunks, rcvdChunks := Some(s), {}, 0;
      return None;
    }

    method Reset()
      modifies this
      ensures Valid() && State() == IDLE
    {
      snapshot, chunks, rcvdChunks, disk := None, {}, 0, map[];
    }

    /** Writes a checked chunk; `complete` when it was the last one. */
    method StoreChunk(chunk: Bytes, index: nat) returns (complete: bool)
      requires Valid() && snapshot.Some? && Fresh(State(), Delivery(chunk, index))
      modifies this
      ensures State() == Sync(old(snapshot), old(chunks) + {index}, old(disk)[index := chunk])
      ensures complete <==> |old(chunks)| + 1 == snapshot.value.chunkCount
      ensures !complete ==> Valid()
      ensures complete ==> forall i :: 0 <= i < snapshot.value.chunkCount ==> i in disk
      ensures complete ==> FilesOf(disk, snapshot.value.chunkCount) == Assembled(old(State()), Delivery(chunk, index))
    {
      StoredFacts(State(), Delivery(chunk, index));
      hide FilesOf, Assembled, Fresh, ValidSync;
      disk := disk[index := chunk];
      chunks, rcvdChunks := chunks + {index}, rcvdChunks + 1;
      complete := rcvdChunks == snapshot.value.chunkCount;
    }

    /** `sizes` are the buffer sizes the decompressor happens to use. */
    method ApplySnapshotChunk(chunk: Bytes, index: nat, restorer: Restorer, sizes: nat -> nat)
      returns (restored: bool, err: Option<SyncError>)
      requires Valid() && forall i :: 0 < sizes(i)
      modifies this
      ensures Valid()
      ensures AppliedAs(Applied(old(State()), Delivery(chunk, index)), old(snapshot), restorer, State(), restored, err)
    {
      hide Concat, RestoreSucceeds, FilesOf, Assembled;
      if snapshot.None? { return false, Some(NotInProgress); }
      if index in chunks { return false, None; }
      var h := snapshot.value;
      if index >= h.chunkCount { return false, Some(RejectChunk); }
      if Sha256(chunk) != h.chunkHashes[index] { return false, Some(RefetchChunk); }
      var complete := StoreChunk(chunk, index);
      if !complete { return false, None; }

      restored := RestoreDB(FilesOf(disk, h.chunkCount), h.snapshotHash, restorer, sizes);
      if !restored {
        Reset();
        return false, Some(RejectSnapshot);
      }
      snapshot, chunks, rcvdChunks := None, {}, 0;
      return true, None;
    }
  }

  /** How a step shows to the caller. A failed restore also wipes the chunk directory. */
  ghost predicate AppliedAs(step: (Sync, Outcome), header: Option<Snapshot>, restorer: Restorer,
                            after: Sync, restored: bool, err: Option<SyncError>)
  {
    match step.1
    case Failed(e) => !restored && err == Some(e) && after == step.0
    case Duplicate => !restored && err == None && after == step.0
    case Stored => !restored && err == None && after == step.0
    case Restore(stream) =>
      && header.Some? && restored == RestoreSucceeds(restorer, header.value.snapshotHash, stream)
      && err == (if restored then None else Some(RejectSnapshot))
      && after == (if restored then step.0 else IDLE)
  }

  // ---------------------------------------------------------------------
  // End to end
  // ---------------------------------------------------------------------

  /** The header a snapshotting node publishes for a file. */
  function HeaderOf(height: nat, file: Bytes, size: nat, dumpHash: Digest): Snapshot
    requires 0 < size
  {
    var chunks := Split(file, size);
    Snapshot(height, DEFAULT_FORMAT, |chunks|, Hashes(chunks), dumpHash, |file|)
  }

  /** The receiver that accepted header `h` after a sequence of deliveries. */
  ghost function Received(h: Snapshot, disk: map<nat, Bytes>, ds: seq<Delivery>): (s: Sync)
    requires 0 < h.chunkCount <= |h.chunkHashes|
    ensures ValidSync(s)
  {
    if ds == [] then Sync(Some(h), {}, disk)
    else Applied(Received(h, disk, ds[..|ds| - 1]), ds[|ds| - 1]).0
  }

  /** The right bytes for chunk `i` are among the deliveries. */
  ghost predicate Delivered(chunks: seq<Bytes>, ds: seq<Delivery>, i: nat)
    requires i < |chunks|
  {
    Delivery(chunks[i], i) in ds
  }

  ghost predicate Complete(chunks: seq<Bytes>, ds: seq<Delivery>)
  {
    forall i :: 0 <= i < |chunks| ==> Delivered(chunks, ds, i)
  }

  /** Until the deliveries are complete, the receiver holds exactly the right chunks it was sent;
      from then on it is idle. */
  ghost predicate Tracks(h: Snapshot, chunks: seq<Bytes>, ds: seq<Delivery>, s: Sync)
  {
    if Complete(chunks, ds) then s.snapshot == None
    else
      && s.snapshot == Some(h)
      && (forall i :: i in s.chunks <==> 0 <= i < |chunks| && Delivered(chunks, ds, i))
      && (forall i :: i in s.chunks ==> i in s.disk && s.disk[i] == chunks[i])
  }

  lemma DeliveredStep(chunks: seq<Bytes>, ds: seq<Delivery>, d: Delivery, i: nat)
    requires i < |chunks|
    ensures Delivered(chunks, ds + [d], i) <==> Delivered(chunks, ds, i) || d == Delivery(chunks[i], i)
  {
  }

  /** A delivery that is not a fresh chunk changes neither side. */
  lemma TracksIgnored(h: Snapshot, chunks: seq<Bytes>, ds: seq<Delivery>, s: Sync, d: Delivery)
    requires ValidSync(s) && h.chunkCount == |chunks| && h.chunkHashes == Hashes(chunks)
    requires Tracks(h, chunks, ds, s) && (s.snapshot.Some? ==> !Fresh(s, d))
    ensures Tracks(h, chunks, ds + [d], s)
    ensures Complete(chunks, ds + [d]) <==> Complete(chunks, ds)
  {
    forall i | 0 <= i < |chunks| ensures Delivered(chunks, ds + [d], i) <==> Delivered(chunks, ds, i) {
      DeliveredStep(chunks, ds, d, i);
      if Complete(chunks, ds) {
        assert Delivered(chunks, ds, i);
      } else if d == Delivery(chunks[i], i) {
        assert i in s.chunks;
      }
    }
  }

  lemma TracksFresh(h: Snapshot, chunks: seq<Bytes>, ds: seq<Delivery>, s: Sync, d: Delivery)
    requires ValidSync(s) && h.chunkCount == |chunks| && h.chunkHashes == Hashes(chunks)
    requires Tracks(h, chunks, ds, s) && s.snapshot.Some? && Fresh(s, d)
    ensures var got := s.chunks + {d.index};
            && !Complete(chunks, ds)
            && (forall i :: i in got <==> 0 <= i < |chunks| && Delivered(chunks, ds + [d], i))
            && (forall i :: i in got ==> i in s.disk[d.index := d.chunk] && s.disk[d.index := d.chunk][i] == chunks[i])
            && (Complete(chunks, ds + [d]) <==> |got| == |chunks|)
  {
    var got := s.chunks + {d.index};
    assert d == Delivery(chunks[d.index], d.index);
    forall i | 0 <= i < |chunks| ensures i in got <==> Delivered(chunks, ds + [d], i) {
      DeliveredStep(chunks, ds, d, i);
    }
    CompleteWhenFull(chunks, ds + [d], got);
  }

  lemma CompleteWhenFull(chunks: seq<Bytes>, ds: seq<Delivery>, got: set<nat>)
    requires forall i :: i in got <==> 0 <= i < |chunks| && Delivered(chunks, ds, i)
    ensures Complete(chunks, ds) <==> |got| == |chunks|
  {
    hide Delivered;
    if |got| == |chunks| {
      FullSet(got, |chunks|);
    }
    if Complete(chunks, ds) {
      assert got == Indexes(|chunks|);
    }
  }

  /** A fresh chunk that completes the set: the stream is the chunks in order. */
  lemma TracksLast(h: Snapshot, chunks: seq<Bytes>, ds: seq<Delivery>, s: Sync, d: Delivery)
    requires ValidSync(s) && h.chunkCount == |chunks| && h.chunkHashes == Hashes(chunks)
    requires Tracks(h, chunks, ds, s) && s.snapshot.Some? && Fresh(s, d) && |s.chunks| + 1 == |chunks|
    ensures Tracks(h, chunks, ds + [d], Applied(s, d).0)
    ensures Complete(chunks, ds + [d]) && !Complete(chunks, ds)
    ensures Applied(s, d).1 == Restore(Concat(chunks))
  {
    hide Delivered, Complete, Concat, Hashes;
    TracksFresh(h, chunks, ds, s, d);
    FullSet(s.chunks + {d.index}, |chunks|);
    assert Assembled(s, d) == chunks;
  }

  /** A fresh chunk that does not. */
  lemma TracksMore(h: Snapshot, chunks: seq<Bytes>, ds: seq<Delivery>, s: Sync, d: Delivery)
    requires ValidSync(s) && h.chunkCount == |chunks| && h.chunkHashes == Hashes(chunks)
    requires Tracks(h, chunks, ds, s) && s.snapshot.Some? && Fresh(s, d) && |s.chunks| + 1 != |chunks|
    ensures Tracks(h, chunks, ds + [d], Applied(s, d).0)
    ensures !Complete(chunks, ds + [d]) && !Applied(s, d).1.Restore?
  {
    hide Delivered, Complete, Concat, Hashes;
    TracksFresh(h, chunks, ds, s, d);
  }

  lemma TracksStep(h: Snapshot, chunks: seq<Bytes>, ds: seq<Delivery>, s: Sync, d: Delivery)
    requires ValidSync(s) && h.chunkCount == |chunks| && h.chunkHashes == Hashes(chunks)
    requires Tracks(h, chunks, ds, s)
    ensures Tracks(h, chunks, ds + [d], Applied(s, d).0)
    ensures Applied(s, d).1.Restore? <==> Complete(chunks, ds + [d]) && !Complete(chunks, ds)
    ensures Applied(s, d).1.Restore? ==> Applied(s, d).1.stream == Concat(chunks)
  {
    if s.snapshot.Some? && Fresh(s, d) {
      hide Delivered, Complete, Concat, Hashes, Tracks, Fresh;
      if |s.chunks| + 1 == |chunks| {
        TracksLast(h, chunks, ds, s, d);
      } else {
        TracksMore(h, chunks, ds, s, d);
      }
    } else {
      hide Delivered, Complete, Concat, Hashes, Tracks;
      TracksIgnored(h, chunks, ds, s, d);
    }
  }

  lemma {:induction false} TracksAlways(h: Snapshot, chunks: seq<Bytes>, disk: map<nat, Bytes>, ds: seq<Delivery>)
    requires chunks != [] && h.chunkCount == |chunks| && h.chunkHashes == Hashes(chunks)
    ensures Tracks(h, chunks, ds, Received(h, disk, ds))
  {
    if ds == [] {
      assert !Delivered(chunks, ds, 0);
    } else {
      var before := ds[..|ds| - 1];
      TracksAlways(h, chunks, disk, before);
      TracksStep(h, chunks, before, Received(h, disk, before), ds[|ds| - 1]);
      assert before + [ds[|ds| - 1]] == ds;
    }
  }

  /** End to end: for every file and every sequence of deliveries, in any order, with duplicates,
      wrong bytes and bad indexes, delivery `n` starts a restore exactly when it completes the
      chunk set, and the stream restored is the original file. */
  lemma EndToEnd(height: nat, file: Bytes, size: nat, dumpHash: Digest, disk: map<nat, Bytes>, ds: seq<Delivery>, n: nat)
    requires 0 < size && n < |ds|
    ensures var h, chunks := HeaderOf(height, file, size, dumpHash), Split(file, size);
            var outcome := Applied(Received(h, disk, ds[..n]), ds[n]).1;
            && (outcome.Restore? <==> Complete(chunks, ds[..n + 1]) && !Complete(chunks, ds[..n]))
            && (outcome.Restore? ==> outcome.stream == file)
  {
    var h, chunks := HeaderOf(height, file, size, dumpHash), Split(file, size);
    TracksAlways(h, chunks, disk, ds[..n]);
    TracksStep(h, chunks, ds[..n], Received(h, disk, ds[..n]), ds[n]);
    assert ds[..n] + [ds[n]] == ds[..n + 1];
    SplitRoundTrip(file, size);
  }

  /** A stream put together, in order, from delivered chunks with the announced hashes. */
  ghost predicate FromDeliveries(h: Snapshot, ds: seq<Delivery>, chunks: seq<Bytes>)
  {
    && |chunks| == h.chunkCount <= |h.chunkHashes|
    && forall i :: 0 <= i < |chunks| ==> Delivery(chunks[i], i) in ds && Sha256(chunks[i]) == h.chunkHashes[i]
  }

  /** What a session for header `h` keeps was delivered in it. */
  ghost predicate KeepsDelivered(h: Snapshot, ds: seq<Delivery>, s: Sync)
  {
    s.snapshot.Some? ==>
      s.snapshot == Some(h) && forall i :: i in s.chunks ==> i in s.disk && Delivery(s.disk[i], i) in ds
  }

  lemma AppliedDelivered(h: Snapshot, ds: seq<Delivery>, s: Sync, d: Delivery)
    requires ValidSync(s) && KeepsDelivered(h, ds, s)
    ensures KeepsDelivered(h, ds + [d], Applied(s, d).0)
  {
    hide Concat, FilesOf;
  }

  lemma {:induction false} ReceivedDelivered(h: Snapshot, disk: map<nat, Bytes>, ds: seq<Delivery>)
    requires 0 < h.chunkCount <= |h.chunkHashes|
    ensures KeepsDelivered(h, ds, Received(h, disk, ds))
  {
    hide Applied, KeepsDelivered;
    if ds == [] {
      assert KeepsDelivered(h, ds, Received(h, disk, ds)) by { NothingKept(h, disk); }
    } else {
      var before := ds[..|ds| - 1];
      ReceivedDelivered(h, disk, before);
      AppliedDelivered(h, before, Received(h, disk, before), ds[|ds| - 1]);
      assert before + [ds[|ds| - 1]] == ds;
    }
  }

  lemma NothingKept(h: Snapshot, disk: map<nat, Bytes>)
    ensures KeepsDelivered(h, [], Sync(Some(h), {}, disk))
  {
  }

  /** Whatever chunk hashes an accepted header carries, and whatever peers deliver: a delivery
      that starts a restore streams delivered chunks with the announced hashes, in order, and a
      restore that succeeds has loaded the very dump whose hash the providers confirmed. */
  lemma RestoredDumpIsTrusted(h: Snapshot, disk: map<nat, Bytes>, ds: seq<Delivery>, n: nat, r: Restorer, dump: Bytes)
    requires 0 < h.chunkCount <= |h.chunkHashes| && h.snapshotHash == Sha256(dump) && n < |ds|
    ensures var outcome := Applied(Received(h, disk, ds[..n]), ds[n]).1;
            outcome.Restore? ==>
              && (exists chunks :: FromDeliveries(h, ds[..n + 1], chunks) && outcome.stream == Concat(chunks))
              && (RestoreSucceeds(r, h.snapshotHash, outcome.stream) ==> r.gunzip(outcome.stream) == Some(dump))
  {
    hide Concat;
    var s, d := Received(h, disk, ds[..n]), ds[n];
    ReceivedDelivered(h, disk, ds[..n]);
    if Applied(s, d).1.Restore? {
      assert ds[..n + 1] == ds[..n] + [d];
      var chunks := Assembled(s, d);
      FullSet(s.chunks + {d.index}, h.chunkCount);
      forall i | 0 <= i < |chunks| ensures Delivery(chunks[i], i) in ds[..n + 1] && Sha256(chunks[i]) == h.chunkHashes[i] {
        assert i in s.chunks + {d.index};
      }
      assert FromDeliveries(h, ds[..n + 1], chunks);
    }
  }

  // ---------------------------------------------------------------------
  // Sessions
  // ---------------------------------------------------------------------

  /** A call: a header with the providers' answer to it, or a chunk. */
  datatype Call = Offer(header: Snapshot, confirmed: bool) | Deliver(d: Delivery)

  /** The receiver after a call. */
  ghost function Called(s: Sync, c: Call, r: Restorer): (s': Sync)
    requires ValidSync(s)
    ensures ValidSync(s')
  {
    match c
    case Offer(h, confirmed) => if OfferError(s, h, confirmed) == None then Sync(Some(h), {}, s.disk) else s
    case Deliver(d) =>
      var (s', outcome) := Applied(s, d);
      if outcome.Restore? && !RestoreSucceeds(r, s.snapshot.value.snapshotHash, outcome.stream) then IDLE else s'
  }

  ghost function Session(calls: seq<Call>, r: Restorer): (s: Sync)
    ensures ValidSync(s)
  {
    if calls == [] then IDLE else Called(Session(calls[..|calls| - 1], r), calls[|calls| - 1], r)
  }

  /** A header that the providers confirmed, of this format, with a height, at least one chunk, and
      as many hashes as chunks (as 32-bit numbers). */
  ghost predicate Confirmed(c: Call, h: Snapshot)
  {
    && c == Offer(h, true)
    && h.format == 0 && h.height > 0 && h.chunkCount > 0 && h.chunkCount == |h.chunkHashes| % 0x1_0000_0000
  }

  /** An offer is taken exactly by an idle receiver and for such a header. */
  lemma OfferExactly(s: Sync, h: Snapshot, confirmed: bool)
    ensures OfferError(s, h, confirmed) == None <==> s.snapshot.None? && Confirmed(Offer(h, confirmed), h)
  {
  }

  /** Why an offer is refused. */
  lemma OfferErrors(s: Sync, h: Snapshot, confirmed: bool)
    ensures OfferError(s, h, confirmed) == Some(InProgress) <==> s.snapshot.Some?
    ensures OfferError(s, h, confirmed) == Some(UnsupportedFormat) <==> s.snapshot.None? && h.format != 0
    ensures OfferError(s, h, confirmed) == Some(InvalidSnapshot) <==>
            s.snapshot.None? && h.format == 0 && !Confirmed(Offer(h, confirmed), h)
  {
  }

  /** What becomes of a delivery: nothing without a session, nothing for a chunk that is already
      there, a rejection for an index outside the header, a new request for bytes with another hash;
      and otherwise the chunk is kept, and a restore starts if it was the last one missing. */
  lemma DeliveryExactly(s: Sync, d: Delivery)
    requires ValidSync(s)
    ensures Applied(s, d).1 == Failed(NotInProgress) <==> s.snapshot.None?
    ensures s.snapshot.Some? ==>
              var h, outcome := s.snapshot.value, Applied(s, d).1;
              && (outcome == Duplicate <==> d.index in s.chunks)
              && (outcome == Failed(RejectChunk) <==> d.index >= h.chunkCount)
              && (outcome == Failed(RefetchChunk) <==>
                    d.index !in s.chunks && d.index < h.chunkCount && Sha256(d.chunk) != h.chunkHashes[d.index])
              && (outcome == Stored || outcome.Restore? <==>
                    d.index !in s.chunks && d.index < h.chunkCount && Sha256(d.chunk) == h.chunkHashes[d.index])
              && (outcome.Restore? ==> OthersReceived(s, h.chunkCount, d.index))
              && (outcome == Stored ==> !OthersReceived(s, h.chunkCount, d.index))
  {
    hide Concat, FilesOf, OthersReceived;
    if s.snapshot.Some? && Fresh(s, d) {
      LastMissing(s, d);
    }
  }

  /** Every chunk of the header but this one is there. */
  ghost predicate OthersReceived(s: Sync, count: nat, index: nat)
  {
    forall i :: 0 <= i < count && i != index ==> i in s.chunks
  }

  lemma LastMissing(s: Sync, d: Delivery)
    requires ValidSync(s) && s.snapshot.Some? && Fresh(s, d)
    ensures |s.chunks| + 1 == s.snapshot.value.chunkCount <==> OthersReceived(s, s.snapshot.value.chunkCount, d.index)
  {
    var count, got := s.snapshot.value.chunkCount, s.chunks + {d.index};
    assert |got| == |s.chunks| + 1;
    if |got| == count {
      FullSet(got, count);
    }
    if OthersReceived(s, count, d.index) {
      assert got == Indexes(count);
    }
  }

  /** In every session, the header being received is one that the providers confirmed. */
  lemma {:induction false} SessionConfirmed(calls: seq<Call>, r: Restorer)
    ensures Session(calls, r).snapshot.Some? ==>
              exists m :: 0 <= m < |calls| && Confirmed(calls[m], Session(calls, r).snapshot.value)
  {
    hide Confirmed, Concat, FilesOf, RestoreSucceeds;
    if calls != [] {
      var n := |calls| - 1;
      var before, s := Session(calls[..n], r), Session(calls, r);
      SessionConfirmed(calls[..n], r);
      if s.snapshot.Some? {
        if before.snapshot.Some? && s.snapshot == before.snapshot {
          var m :| 0 <= m < n && Confirmed(calls[..n][m], before.snapshot.value);
          assert Confirmed(calls[m], s.snapshot.value);
        } else {
          OfferExactly(before, calls[n].header, calls[n].confirmed);
          assert Confirmed(calls[n], s.snapshot.value);
        }
      }
    }
  }

  /** So a restore only ever happens for such a header: whenever a delivery starts one, the hash it
      is checked against is that of a header the providers confirmed in an earlier call. */
  lemma OnlyConfirmedRestored(calls: seq<Call>, n: nat, r: Restorer)
    requires n < |calls| && calls[n].Deliver? && Applied(Session(calls[..n], r), calls[n].d).1.Restore?
    ensures Session(calls[..n], r).snapshot.Some?
    ensures exists m :: 0 <= m < n && Confirmed(calls[m], Session(calls[..n], r).snapshot.value)
  {
    hide Confirmed, Concat, FilesOf, Session;
    SessionConfirmed(calls[..n], r);
    var s := Session(calls[..n], r);
    var m :| 0 <= m < n && Confirmed(calls[..n][m], s.snapshot.value);
    assert calls[..n][m] == calls[m];
  }
}
