/** Which snapshots a node keeps (RegisterSnapshot in internal/statesync/store.go). */
module SnapshotStore {
  import opened Enumerations

  datatype Snapshot = Snapshot(height: nat, id: nat)

  ghost predicate Ascending(s: seq<nat>)
  {
    forall i, j :: 0 <= i < j < |s| ==> s[i] < s[j]
  }

  ghost function Above(all: set<nat>, h: nat): set<nat>
  {
    set g | g in all && g > h
  }

  /** The `n` largest members: those with fewer than `n` members above them. */
  ghost function Largest(all: set<nat>, n: nat): set<nat>
  {
    set h | h in all && |Above(all, h)| < n
  }

  /** Inserts into a sorted list (append followed by slices.Sort). */
  function Inserted(s: seq<nat>, h: nat): seq<nat>
  {
    if s == [] then [h]
    else if s[|s| - 1] < h then s + [h]
    else Inserted(s[..|s| - 1], h) + [s[|s| - 1]]
  }

  lemma {:induction false} InsertedFacts(s: seq<nat>, h: nat)
    requires Ascending(s) && h !in s
    ensures Ascending(Inserted(s, h)) && |Inserted(s, h)| == |s| + 1
    ensures forall x :: x in Inserted(s, h) <==> x in s || x == h
  {
    if s != [] && h < s[|s| - 1] {
      var front, last := s[..|s| - 1], s[|s| - 1];
      InsertedFacts(front, h);
      var r := Inserted(front, h);
      assert Inserted(s, h) == r + [last] && s == front + [last];
      forall i | 0 <= i < |r| ensures r[i] < last {
        assert r[i] in r;
      }
    }
  }

  /** What is kept of everything ever registered. */
  ghost predicate Kept(heights: seq<nat>, ever: set<nat>, max: nat)
  {
    && Ascending(heights) && |heights| <= max
    && (forall h :: h in heights ==> h in ever)
    && (forall h, k :: h in ever && h !in heights && k in heights ==> h < k)
    && (|heights| < max ==> forall h :: h in ever ==> h in heights)
  }

  /** Above a kept height there are only kept heights. */
  lemma AboveKept(heights: seq<nat>, ever: set<nat>, max: nat, i: nat)
    requires Kept(heights, ever, max) && i < |heights|
    ensures |Above(ever, heights[i])| < max
  {
    var h, above := heights[i], heights[i + 1..];
    forall g ensures g in Above(ever, h) <==> g in above {
      if g in Above(ever, h) {
        assert h in heights;
        var j :| 0 <= j < |heights| && heights[j] == g;
        assert above[j - i - 1] == g;
      }
    }
    assert Above(ever, h) == Elements(above);
    DistinctBag(above);
  }

  /** Above a dropped height there are all the kept ones. */
  lemma AboveDropped(heights: seq<nat>, ever: set<nat>, max: nat, h: nat)
    requires Kept(heights, ever, max) && h in ever && h !in heights
    ensures |Above(ever, h)| >= max
  {
    DistinctBag(heights);
    assert Elements(heights) <= Above(ever, h);
    SubsetSize(Elements(heights), Above(ever, h));
  }

  /** A list that keeps everything above its members, full unless nothing was dropped, is
      exactly the largest heights. */
  lemma KeptIsLargest(heights: seq<nat>, ever: set<nat>, max: nat)
    requires Kept(heights, ever, max)
    ensures Elements(heights) == Largest(ever, max)
  {
    hide Above;
    forall h | h in ever ensures h in heights <==> |Above(ever, h)| < max {
      if h in heights {
        var i :| 0 <= i < |heights| && heights[i] == h;
        AboveKept(heights, ever, max, i);
      } else {
        AboveDropped(heights, ever, max, h);
      }
    }
  }

  ghost predicate Extends(r: seq<nat>, heights: seq<nat>, h: nat)
  {
    Ascending(r) && |r| == |heights| + 1 && forall x :: x in r <==> x in heights || x == h
  }

  lemma OldestFirst(r: seq<nat>)
    requires Ascending(r) && r != []
    ensures Ascending(r[1..]) && forall x :: x in r[1..] <==> x in r && r[0] < x
  {
    forall x | x in r && r[0] < x ensures x in r[1..] {
      var i :| 0 <= i < |r| && r[i] == x;
      assert r[1..][i - 1] == x;
    }
  }

  /** With room left nothing is dropped. */
  lemma KeepsAll(heights: seq<nat>, ever: set<nat>, max: nat, h: nat, r: seq<nat>)
    requires Kept(heights, ever, max) && Extends(r, heights, h) && |r| <= max
    ensures Kept(r, ever + {h}, max)
  {
  }

  /** With no room left the oldest goes. */
  lemma DropsOldest(heights: seq<nat>, ever: set<nat>, max: nat, h: nat, r: seq<nat>)
    requires Kept(heights, ever, max) && Extends(r, heights, h) && |r| > max
    ensures Kept(r[1..], ever + {h}, max)
  {
    OldestFirst(r);
    var t := r[1..];
    assert r[0] in r;
    forall g, k | g in ever + {h} && g !in t && k in t ensures g < k {
      if g != r[0] {
        OlderThanAll(heights, ever, max, h, r, g);
      }
    }
  }

  lemma OlderThanAll(heights: seq<nat>, ever: set<nat>, max: nat, h: nat, r: seq<nat>, g: nat)
    requires Kept(heights, ever, max) && Extends(r, heights, h) && |r| > max
    requires g in ever + {h} && g !in r[1..] && g != r[0]
    ensures forall k :: k in r[1..] ==> g < k
  {
    OldestFirst(r);
    assert r == [r[0]] + r[1..];
    assert g !in r && g != h && g in ever && g !in heights;
    assert r[0] in r;
  }

  /** One registration: insert, then trim. */
  lemma RegisterKeeps(heights: seq<nat>, ever: set<nat>, max: nat, h: nat)
    requires Kept(heights, ever, max) && h !in heights
    ensures var r := Inserted(heights, h);
            && Ascending(r) && r != [] && |r| <= max + 1
            && Elements(r) == Elements(heights) + {h}
            && Kept(if |r| > max then r[1..] else r, ever + {h}, max)
  {
    hide Inserted;
    InsertedFacts(heights, h);
    var r := Inserted(heights, h);
    if |r| > max { DropsOldest(heights, ever, max, h, r); } else { KeepsAll(heights, ever, max, h, r); }
  }

  lemma KeptAgain(heights: seq<nat>, ever: set<nat>, max: nat, h: nat)
    requires Kept(heights, ever, max) && h in heights
    ensures Kept(heights, ever + {h}, max)
  {
  }

  class Store {
    const maxSnapshots: nat
    var snapshots: map<nat, Snapshot>
    var snapshotHeights: seq<nat>
    ghost var ever: set<nat>   // every height registered so far

    ghost predicate Valid()
      reads this
    {
      && Kept(snapshotHeights, ever, maxSnapshots)
      && snapshots.Keys == Elements(snapshotHeights)
      && forall h :: h in snapshots ==> snapshots[h].height == h
    }

    constructor (max: nat)
      ensures Valid() && maxSnapshots == max && ever == {}
    {
      maxSnapshots, snapshots, snapshotHeights, ever := max, map[], [], {};
    }

    method DeleteOldestSnapshot()
      modifies this`snapshots, this`snapshotHeights
      ensures old(snapshotHeights) == [] ==> snapshotHeights == [] && snapshots == old(snapshots)
      ensures old(snapshotHeights) != [] ==>
                snapshotHeights == old(snapshotHeights)[1..] && snapshots == old(snapshots) - {old(snapshotHeights)[0]}
    {
      if snapshotHeights == [] { return; }
      snapshots := snapshots - {snapshotHeights[0]};
      snapshotHeights := snapshotHeights[1..];
    }

    /** Deletes the oldest until no more than `maxSnapshots` are left. */
    method Trim()
      requires |snapshotHeights| <= maxSnapshots + 1 && Ascending(snapshotHeights)
      requires snapshots.Keys == Elements(snapshotHeights)
      modifies this`snapshots, this`snapshotHeights
      ensures |old(snapshotHeights)| <= maxSnapshots ==>
                snapshotHeights == old(snapshotHeights) && snapshots == old(snapshots)
      ensures |old(snapshotHeights)| > maxSnapshots ==>
                snapshotHeights == old(snapshotHeights)[1..] && snapshots == old(snapshots) - {old(snapshotHeights)[0]}
      ensures snapshots.Keys == Elements(snapshotHeights)
    {
      ghost var r := snapshotHeights;
      if r != [] {
        OldestFirst(r);
        assert r == [r[0]] + r[1..];
      }
      while |snapshotHeights| > maxSnapshots
        invariant |snapshotHeights| > maxSnapshots ==> snapshotHeights == r && snapshots == old(snapshots)
        invariant |r| <= maxSnapshots ==> snapshotHeights == r && snapshots == old(snapshots)
        invariant |r| > maxSnapshots && |snapshotHeights| <= maxSnapshots ==>
                    snapshotHeights == r[1..] && snapshots == old(snapshots) - {r[0]}
        decreases |snapshotHeights|
      {
        DeleteOldestSnapshot();
      }
    }

    /** After any sequence of registrations the store holds exactly the largest heights ever
        registered, sorted, and a snapshot for each. */
    method RegisterSnapshot(snapshot: Snapshot)
      requires Valid()
      modifies this
      ensures Valid() && ever == old(ever) + {snapshot.height}
      ensures Elements(snapshotHeights) == snapshots.Keys == Largest(ever, maxSnapshots)
      ensures forall h :: h in snapshots ==>
                snapshots[h] == if h in old(snapshots) then old(snapshots)[h] else snapshot
    {
      hide Kept, Inserted, Largest;
      if snapshot.height in snapshots {
        KeptAgain(snapshotHeights, ever, maxSnapshots, snapshot.height);
        ever := ever + {snapshot.height};
        KeptIsLargest(snapshotHeights, ever, maxSnapshots);
        return;
      }
      ghost var before := snapshotHeights;
      RegisterKeeps(before, ever, maxSnapshots, snapshot.height);
      snapshots := snapshots[snapshot.height := snapshot];
      snapshotHeights := Inserted(snapshotHeights, snapshot.height);
      ever := ever + {snapshot.height};
      Trim();
      KeptIsLargest(snapshotHeights, ever, maxSnapshots);
    }
  }
}
