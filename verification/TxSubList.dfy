/** Sorting each sender's transactions in place while a proposal is prepared (txSubList and the
    grouping in prepareBlockTransactions, internal/abci/abci.go).

    Swap exchanges two entries of the sub-list and the parent slots their `i` fields name, but
    never updates those fields. So the parent does not end up as the sorted sub-list: its slots
    hold the inverse of the permutation the sort applied. */
module TxSubList {
  import opened TableModel
  import opened Enumerations
  import opened Bags

  /** An indexedTxn: `i` is its index in the parent list. */
  datatype Item = Item(i: nat, sender: Bytes, nonce: int)

  /** The parent list as prepareBlockTransactions builds it. */
  ghost predicate Indexed(super: seq<Item>)
  {
    forall k :: 0 <= k < |super| ==> super[k].i == k
  }

  /** A sender's transactions, in parent order. */
  function Group(super: seq<Item>, who: Bytes): seq<Item>
  {
    if super == [] then []
    else Group(super[..|super| - 1], who) +
         (if super[|super| - 1].sender == who then [super[|super| - 1]] else [])
  }

  ghost predicate Ascending(g: seq<Item>)
  {
    forall p, q :: 0 <= p < q < |g| ==> g[p].i < g[q].i
  }

  /** Item `x` belongs to the group of `who` in the parent. */
  ghost predicate Belongs(super: seq<Item>, who: Bytes, x: Item)
  {
    x.i < |super| && super[x.i] == x && x.sender == who
  }

  lemma {:induction false} GroupFacts(super: seq<Item>, who: Bytes)
    requires Indexed(super)
    ensures Ascending(Group(super, who))
    ensures forall p :: 0 <= p < |Group(super, who)| ==> Belongs(super, who, Group(super, who)[p])
    ensures forall k :: 0 <= k < |super| && super[k].sender == who ==> super[k] in Group(super, who)
  {
    if super != [] {
      var n := |super| - 1;
      var front, g := super[..n], Group(super[..n], who);
      GroupFacts(front, who);
      var more := if super[n].sender == who then [super[n]] else [];
      assert Group(super, who) == g + more;
      forall p | 0 <= p < |g + more| ensures Belongs(super, who, (g + more)[p]) {
        assert p < |g| ==> Belongs(front, who, g[p]);
      }
      forall k | 0 <= k < |super| && super[k].sender == who ensures super[k] in g + more {
        assert k < n ==> front[k] == super[k] && front[k] in g;
      }
      assert forall p :: 0 <= p < |g| ==> Belongs(front, who, g[p]);
    }
  }

  // ---------------------------------------------------------------------
  // What the parent list becomes
  // ---------------------------------------------------------------------

  /** Nonce order, ties by position: what a stable sort by nonce produces. */
  function Before(): (Item, Item) -> bool
  {
    (a: Item, b: Item) => a.nonce < b.nonce || (a.nonce == b.nonce && a.i <= b.i)
  }

  function Sorted(g: seq<Item>): seq<Item>
  {
    InsertionSort(g, Before())
  }

  function IndexOf(s: seq<Item>, x: Item): (p: nat)
    requires x in s
    ensures p < |s| && s[p] == x
  {
    if s[0] == x then 0 else 1 + IndexOf(s[1..], x)
  }

  lemma SortedFacts(g: seq<Item>)
    ensures multiset(Sorted(g)) == multiset(g) && |Sorted(g)| == |g| && SortedBy(Sorted(g), Before())
    ensures forall x :: x in Sorted(g) <==> x in g
  {
    SortCorrect(g, Before());
    assert |multiset(Sorted(g))| == |multiset(g)|;
    assert forall x :: x in Sorted(g) <==> x in multiset(Sorted(g));
  }

  lemma SortedIs(g: seq<Item>, s: seq<Item>)
    requires multiset(g) == multiset(s) && SortedBy(s, Before()) && (forall p, q :: 0 <= p < q < |g| ==> g[p].i != g[q].i)
    ensures Sorted(g) == s
  {
    hide InsertionSort;
    SortedFacts(g);
    assert forall x :: x in s ==> x in multiset(g);
    SortedUnique(s, Sorted(g), Before());
  }

  /** The item that slot `k` ends up with: where the sort puts the slot's own item, the
      unsorted group has it. */
  function Placed(super: seq<Item>, k: nat): Item
    requires Indexed(super) && k < |super|
  {
    var g := Group(super, super[k].sender);
    GroupFacts(super, super[k].sender);
    SortedFacts(g);
    g[IndexOf(Sorted(g), super[k])]
  }

  function Arranged(super: seq<Item>): seq<Item>
    requires Indexed(super)
  {
    seq(|super|, k requires 0 <= k < |super| => Placed(super, k))
  }

  // ---------------------------------------------------------------------
  // The invariant of Swap
  // ---------------------------------------------------------------------

  function Exchanged(s: seq<Item>, i: nat, j: nat): seq<Item>
    requires i < |s| && j < |s|
  {
    s[i := s[j]][j := s[i]]
  }

  ghost predicate DistinctSlots(sub: seq<Item>)
  {
    forall p, q :: 0 <= p < q < |sub| ==> sub[p].i != sub[q].i
  }

  /** The sub-list is a permutation of the group, and the slot named by its `p`-th entry holds
      the group's original `p`-th item. */
  ghost predicate Mirrors(g: seq<Item>, sub: seq<Item>, super: seq<Item>)
  {
    && |sub| == |g| && multiset(sub) == multiset(g) && DistinctSlots(sub)
    && forall p :: 0 <= p < |sub| ==> sub[p].i < |super| && super[sub[p].i] == g[p]
  }

  lemma ExchangedAt(s: seq<Item>, i: nat, j: nat, p: nat)
    requires i < |s| && j < |s| && p < |s|
    ensures |Exchanged(s, i, j)| == |s|
    ensures Exchanged(s, i, j)[p] == if p == j then s[i] else if p == i then s[j] else s[p]
  {
  }

  lemma ExchangedBag(s: seq<Item>, i: nat, j: nat)
    requires i < |s| && j < |s|
    ensures multiset(Exchanged(s, i, j)) == multiset(s)
  {
  }

  lemma SwapMirrors(g: seq<Item>, sub: seq<Item>, super: seq<Item>, i: nat, j: nat)
    requires Mirrors(g, sub, super) && i < |sub| && j < |sub|
    ensures Mirrors(g, Exchanged(sub, i, j), Exchanged(super, sub[i].i, sub[j].i))
  {
    hide Exchanged;
    var a, b := sub[i].i, sub[j].i;
    var sub', super' := Exchanged(sub, i, j), Exchanged(super, a, b);
    ExchangedBag(sub, i, j);
    ExchangedAt(sub, i, j, 0);
    ExchangedAt(super, a, b, 0);
    forall p | 0 <= p < |sub| ensures sub'[p].i < |super'| && super'[sub'[p].i] == g[p] {
      ExchangedAt(sub, i, j, p);
      ExchangedAt(super, a, b, sub'[p].i);
      assert p != i && p != j ==> sub[p].i != a && sub[p].i != b;
      assert i != j ==> a != b;
    }
    forall p, q | 0 <= p < q < |sub| ensures sub'[p].i != sub'[q].i {
      ExchangedAt(sub, i, j, p);
      ExchangedAt(sub, i, j, q);
    }
  }

  ghost predicate OwnSlots(sub: seq<Item>, who: Bytes, super0: seq<Item>)
  {
    forall p :: 0 <= p < |sub| ==> sub[p].i < |super0| && super0[sub[p].i].sender == who
  }

  /** Swapping inside one sender's group leaves every other group as it was. */
  lemma SwapElsewhere(super0: seq<Item>, g: seq<Item>, sub: seq<Item>, who: Bytes, super: seq<Item>, a: nat, b: nat)
    requires Mirrors(g, sub, super) && OwnSlots(sub, who, super0)
    requires a < |super| && b < |super| && |super| == |super0|
    requires super0[a].sender != who && super0[b].sender != who
    ensures Mirrors(g, sub, Exchanged(super, a, b))
  {
  }

  /** A sorted permutation of a group is its stable sort. */
  lemma SortedPermutation(g: seq<Item>, sub: seq<Item>)
    requires multiset(sub) == multiset(g) && SortedBy(sub, Before()) && DistinctSlots(g)
    ensures sub == Sorted(g)
  {
    hide InsertionSort;
    SortedIs(g, sub);
  }

  /** A sub-list in sorted order, with the parent mirroring it: the group's slots are decided. */
  lemma MirrorsDecides(super0: seq<Item>, who: Bytes, sub: seq<Item>, super: seq<Item>, k: nat)
    requires Indexed(super0) && k < |super0| && super0[k].sender == who && |super| == |super0|
    requires Mirrors(Group(super0, who), sub, super) && SortedBy(sub, Before())
    ensures super[k] == Placed(super0, k)
  {
    hide Group, Sorted, SortedBy;
    var g := Group(super0, who);
    GroupFacts(super0, who);
    SortedFacts(g);
    SortedPermutation(g, sub);
    var p := IndexOf(Sorted(g), super0[k]);
    assert super[sub[p].i] == g[p];
  }

  // ---------------------------------------------------------------------
  // Any interleaving of swaps
  // ---------------------------------------------------------------------

  datatype World = World(super: seq<Item>, subs: map<Bytes, seq<Item>>)

  datatype SwapCall = SwapCall(who: Bytes, i: nat, j: nat)

  function Senders(super: seq<Item>): set<Bytes>
  {
    set x | x in super :: x.sender
  }

  function Grouped(super: seq<Item>): World
  {
    World(super, map who | who in Senders(super) :: Group(super, who))
  }

  ghost predicate Consistent(super0: seq<Item>, w: World)
  {
    && |w.super| == |super0| && w.subs.Keys == Senders(super0)
    && forall who :: who in w.subs ==>
         Mirrors(Group(super0, who), w.subs[who], w.super) && OwnSlots(w.subs[who], who, super0)
  }

  ghost function Called(super0: seq<Item>, w: World, c: SwapCall): World
    requires Consistent(super0, w)
  {
    if c.who !in w.subs || c.i >= |w.subs[c.who]| || c.j >= |w.subs[c.who]| then w
    else
      var sub := w.subs[c.who];
      assert Mirrors(Group(super0, c.who), sub, w.super);
      World(Exchanged(w.super, sub[c.i].i, sub[c.j].i), w.subs[c.who := Exchanged(sub, c.i, c.j)])
  }

  lemma CalledConsistent(super0: seq<Item>, w: World, c: SwapCall)
    requires Consistent(super0, w)
    ensures Consistent(super0, Called(super0, w, c))
  {
    hide Group, Mirrors, Senders;
    var w' := Called(super0, w, c);
    if w' != w {
      var sub := w.subs[c.who];
      forall who | who in w'.subs
        ensures Mirrors(Group(super0, who), w'.subs[who], w'.super) && OwnSlots(w'.subs[who], who, super0)
      {
        assert Mirrors(Group(super0, who), w.subs[who], w.super);
        if who == c.who {
          SwapMirrors(Group(super0, who), sub, w.super, c.i, c.j);
        } else {
          assert OwnSlots(sub, c.who, super0);
          SwapElsewhere(super0, Group(super0, who), w.subs[who], who, w.super, sub[c.i].i, sub[c.j].i);
        }
      }
    }
  }

  /** The lists after any Swap calls on any groups, in any order. */
  ghost function AfterCalls(super0: seq<Item>, calls: seq<SwapCall>): (w: World)
    requires Indexed(super0)
    ensures Consistent(super0, w)
  {
    if calls == [] then
      GroupedConsistent(super0);
      Grouped(super0)
    else
      CalledConsistent(super0, AfterCalls(super0, calls[..|calls| - 1]), calls[|calls| - 1]);
      Called(super0, AfterCalls(super0, calls[..|calls| - 1]), calls[|calls| - 1])
  }

  lemma GroupedConsistent(super0: seq<Item>)
    requires Indexed(super0)
    ensures Consistent(super0, Grouped(super0))
  {
    forall who | who in Senders(super0)
      ensures Mirrors(Group(super0, who), Group(super0, who), super0) && OwnSlots(Group(super0, who), who, super0)
    {
      GroupFacts(super0, who);
    }
  }

  /** Whatever Swap calls were made, slot `k` belongs to its sender and holds the inverse of
      what the sub-list went through: `sub[p] == super0[k]` exactly when the slot holds the
      sender's original `p`-th transaction. */
  lemma SlotsHoldTheInverse(super0: seq<Item>, calls: seq<SwapCall>, k: nat, p: nat)
    requires Indexed(super0) && k < |super0|
    requires p < |Group(super0, super0[k].sender)|
    ensures var who := super0[k].sender; var w := AfterCalls(super0, calls);
            && who in w.subs && p < |w.subs[who]|
            && (w.subs[who][p] == super0[k] <==> w.super[k] == Group(super0, who)[p])
  {
    hide AfterCalls, Group, Senders, Mirrors;
    var who, w := super0[k].sender, AfterCalls(super0, calls);
    assert who in Senders(super0) by { SenderOf(super0, k); }
    assert Mirrors(Group(super0, who), w.subs[who], w.super);
    GroupFacts(super0, who);
    MirrorsInverse(super0, Group(super0, who), w.subs[who], w.super, k, p);
  }

  lemma MirrorsInverse(super0: seq<Item>, g: seq<Item>, sub: seq<Item>, super: seq<Item>, k: nat, p: nat)
    requires Mirrors(g, sub, super) && Ascending(g)
    requires k < |super0| && super0[k].i == k && super0[k] in g && p < |g|
    ensures p < |sub| && k < |super| && (sub[p] == super0[k] <==> super[k] == g[p])
  {
    assert super0[k] in multiset(sub);
    var q :| 0 <= q < |sub| && sub[q] == super0[k];
    assert super[k] == g[q];
    if g[p] == g[q] { assert p == q; }
  }

  lemma SenderOf(super: seq<Item>, k: nat)
    requires k < |super|
    ensures super[k].sender in Senders(super)
  {
    assert super[k] in super;
  }

  /** Once every group is sorted the parent is decided: it depends neither on how each group
      was sorted nor on the order or interleaving of the groups. */
  lemma GroupOrderIsNoise(super0: seq<Item>, calls: seq<SwapCall>)
    requires Indexed(super0)
    requires forall who :: who in AfterCalls(super0, calls).subs ==> SortedBy(AfterCalls(super0, calls).subs[who], Before())
    ensures AfterCalls(super0, calls).super == Arranged(super0)
  {
    hide AfterCalls, Group, Senders, Placed;
    var w := AfterCalls(super0, calls);
    forall k | 0 <= k < |super0| ensures w.super[k] == Arranged(super0)[k] {
      var who := super0[k].sender;
      assert who in Senders(super0) by { SenderOf(super0, k); }
      MirrorsDecides(super0, who, w.subs[who], w.super, k);
    }
  }

  // ---------------------------------------------------------------------
  // What that is worth
  // ---------------------------------------------------------------------

  /** The parent list loses and repeats nothing, and every slot keeps its sender. */
  lemma ArrangedPermutes(super: seq<Item>)
    requires Indexed(super)
    ensures Distinct(Arranged(super)) && forall k :: 0 <= k < |super| ==> Arranged(super)[k].sender == super[k].sender
  {
    hide Group, InsertionSort;
    forall k | 0 <= k < |super| ensures Arranged(super)[k].sender == super[k].sender {
      GroupFacts(super, super[k].sender);
      SortedFacts(Group(super, super[k].sender));
    }
    forall k, l | 0 <= k < l < |super| ensures Arranged(super)[k] != Arranged(super)[l] {
      if super[k].sender == super[l].sender {
        var g := Group(super, super[k].sender);
        GroupFacts(super, super[k].sender);
        SortedFacts(g);
        var p, q := IndexOf(Sorted(g), super[k]), IndexOf(Sorted(g), super[l]);
        assert p != q && g[p].i != g[q].i;
      }
    }
  }

  /** What the comment on txSubList promises of one sender's slots. */
  ghost predicate SlotsSorted(super: seq<Item>, who: Bytes)
    requires Indexed(super)
  {
    var g := Group(super, who);
    forall q :: 0 <= q < |g| && q < |Sorted(g)| && g[q].i < |super| ==> Arranged(super)[g[q].i] == Sorted(g)[q]
  }

  /** The sorting permutation of a group undoes itself. */
  ghost predicate SelfInverse(g: seq<Item>)
  {
    forall p, q :: 0 <= p < |g| && 0 <= q < |g| && p < |Sorted(g)| && q < |Sorted(g)| && Sorted(g)[p] == g[q] ==> Sorted(g)[q] == g[p]
  }

  /** A sender's slots come out in nonce order exactly when the permutation that sorts its
      transactions is its own inverse. */
  lemma SlotsSortedExactly(super: seq<Item>, who: Bytes)
    requires Indexed(super)
    ensures SlotsSorted(super, who) <==> SelfInverse(Group(super, who))
  {
    hide Group, InsertionSort, SortedBy;
    var g := Group(super, who);
    var s := Sorted(g);
    GroupFacts(super, who);
    SortedFacts(g);
    if SlotsSorted(super, who) {
      forall p, q | 0 <= p < |g| && 0 <= q < |g| && s[p] == g[q] ensures s[q] == g[p] {
        InSorted(g, p, q);
        assert Arranged(super)[g[q].i] == s[q];
      }
    }
    if SelfInverse(g) {
      forall q | 0 <= q < |g| ensures Arranged(super)[g[q].i] == s[q] {
        var p := IndexOf(s, g[q]);
        InSorted(g, p, q);
      }
    }
  }

  /** Where a sorted group has an item is where IndexOf finds it. */
  lemma InSorted(g: seq<Item>, p: nat, q: nat)
    requires Ascending(g) && p < |g| && q < |g| && p < |Sorted(g)| && Sorted(g)[p] == g[q]
    ensures g[q] in Sorted(g) && IndexOf(Sorted(g), g[q]) == p
  {
    hide InsertionSort;
    SortedFacts(g);
    var s, r := Sorted(g), IndexOf(Sorted(g), g[q]);
    if r != p {
      if r < p { RepeatedInBag(s, r, p); } else { RepeatedInBag(s, p, r); }
      OnceInBag(g, q);
    }
  }

  lemma OnceInBag(g: seq<Item>, q: nat)
    requires Ascending(g) && q < |g|
    ensures multiset(g)[g[q]] == 1
  {
    assert g == g[..q] + [g[q]] + g[q + 1..];
    assert g[q] !in g[..q] && g[q] !in g[q + 1..];
  }

  lemma PairSorts(x: Item, y: Item)
    requires x.i != y.i
    ensures Sorted([x, y]) == [x, y] || Sorted([x, y]) == [y, x]
  {
    hide InsertionSort;
    assert multiset([x, y]) == multiset([y, x]);
    if Before()(x, y) { SortedIs([x, y], [x, y]); } else { SortedIs([x, y], [y, x]); }
  }

  /** So it is right for senders with at most two transactions... */
  lemma PairsAreSorted(super: seq<Item>, who: Bytes)
    requires Indexed(super) && |Group(super, who)| <= 2
    ensures SlotsSorted(super, who)
  {
    hide Group, InsertionSort, SlotsSorted;
    var g := Group(super, who);
    GroupFacts(super, who);
    if |g| == 2 {
      assert g == [g[0], g[1]];
      PairSorts(g[0], g[1]);
    } else {
      SortedIs(g, g);
    }
    SlotsSortedExactly(super, who);
  }

  /** ...and wrong for the example in the comment on txSubList: {a0, b2, b0, a1, b1} becomes
      {a0, b1, b2, a1, b0}, not {a0, b0, b1, a1, b2}. */
  function Example(a: Bytes, b: Bytes): seq<Item>
  {
    [Item(0, a, 0), Item(1, b, 2), Item(2, b, 0), Item(3, a, 1), Item(4, b, 1)]
  }

  lemma GroupStep(front: seq<Item>, x: Item, who: Bytes)
    ensures Group(front + [x], who) == Group(front, who) + (if x.sender == who then [x] else [])
  {
    assert (front + [x])[..|front|] == front;
  }

  lemma GroupOfFive(v: Item, w: Item, x: Item, y: Item, z: Item, who: Bytes)
    ensures Group([v, w, x, y, z], who) ==
            (if v.sender == who then [v] else []) + (if w.sender == who then [w] else []) +
            (if x.sender == who then [x] else []) + (if y.sender == who then [y] else []) +
            (if z.sender == who then [z] else [])
  {
    hide Group;
    assert Group([], who) == [] by { GroupOfNone(who); }
    GroupStep([], v, who);
    GroupStep([v], w, who);
    GroupStep([v, w], x, who);
    GroupStep([v, w, x], y, who);
    GroupStep([v, w, x, y], z, who);
    assert [] + [v] == [v] && [v] + [w] == [v, w] && [v, w] + [x] == [v, w, x];
    assert [v, w, x] + [y] == [v, w, x, y] && [v, w, x, y] + [z] == [v, w, x, y, z];
  }

  lemma GroupOfNone(who: Bytes)
    ensures Group([], who) == []
  {
  }

  lemma ExampleGroups(a: Bytes, b: Bytes)
    requires a != b
    ensures Group(Example(a, b), a) == [Item(0, a, 0), Item(3, a, 1)]
    ensures Group(Example(a, b), b) == [Item(1, b, 2), Item(2, b, 0), Item(4, b, 1)]
  {
    hide Group;
    var x := Example(a, b);
    GroupOfFive(x[0], x[1], x[2], x[3], x[4], a);
    GroupOfFive(x[0], x[1], x[2], x[3], x[4], b);
  }

  lemma ExampleSorted(b: Bytes)
    ensures Sorted([Item(1, b, 2), Item(2, b, 0), Item(4, b, 1)]) == [Item(2, b, 0), Item(4, b, 1), Item(1, b, 2)]
  {
    hide Sorted;
    var g, s := [Item(1, b, 2), Item(2, b, 0), Item(4, b, 1)], [Item(2, b, 0), Item(4, b, 1), Item(1, b, 2)];
    assert multiset(g) == multiset(s);
    SortedIs(g, s);
  }

  lemma InOrder(x: Item, y: Item)
    requires x.i != y.i && x.nonce < y.nonce
    ensures Sorted([x, y]) == [x, y]
  {
    hide Sorted;
    SortedIs([x, y], [x, y]);
  }

  lemma CommentExample(a: Bytes, b: Bytes)
    requires a != b
    ensures var x := Example(a, b);
            && Indexed(x) && !SlotsSorted(x, b)
            && Arranged(x) == [x[0], x[4], x[1], x[3], x[2]]
  {
    hide Group, Sorted;
    var x := Example(a, b);
    ExampleGroups(a, b);
    ExampleSorted(b);
    InOrder(x[0], x[3]);
    assert Placed(x, 0) == x[0] && Placed(x, 3) == x[3];
    assert Placed(x, 1) == x[4] && Placed(x, 2) == x[1] && Placed(x, 4) == x[2];
    assert Arranged(x)[1] == x[4];
  }

  // ---------------------------------------------------------------------
  // The code
  // ---------------------------------------------------------------------

  /** Slots of other groups are as they were. */
  ghost predicate Untouched(g: seq<Item>, before: seq<Item>, after: seq<Item>)
  {
    && |after| == |before|
    && forall k :: 0 <= k < |before| && (forall p :: 0 <= p < |g| ==> g[p].i != k) ==> after[k] == before[k]
  }

  lemma SwapUntouched(g: seq<Item>, sub: seq<Item>, super: seq<Item>, i: nat, j: nat)
    requires Mirrors(g, sub, super) && i < |sub| && j < |sub|
    ensures Untouched(g, super, Exchanged(super, sub[i].i, sub[j].i))
  {
    assert sub[i] in multiset(g) && sub[j] in multiset(g);
  }

  /** The first `a` entries are sorted, and every entry from `a` on is younger than those before it. */
  ghost predicate Prefix(s: seq<Item>, a: nat)
  {
    && a <= |s| && SortedBy(s[..a], Before())
    && forall p, q :: 0 <= p < q < |s| && a <= q ==> s[p].i < s[q].i
  }

  /** Entry `b` is on its way down from position `a`. */
  ghost predicate Sifting(s: seq<Item>, a: nat, b: nat)
  {
    && b <= a < |s|
    && (forall p, q :: 0 <= p < q <= a && p != b && q != b ==> Before()(s[p], s[q]))
    && (forall q :: b < q <= a ==> s[b].nonce < s[q].nonce)
    && (forall p :: 0 <= p <= a && p != b ==> s[p].i < s[b].i)
    && (forall p, q :: 0 <= p < q < |s| && a < q ==> s[p].i < s[q].i)
  }

  lemma SiftStart(s: seq<Item>, a: nat)
    requires Prefix(s, a) && a < |s|
    ensures Sifting(s, a, a)
  {
    forall p, q | 0 <= p < q < a ensures Before()(s[p], s[q]) {
      assert s[..a][p] == s[p] && s[..a][q] == s[q];
    }
  }

  lemma SiftDown(s: seq<Item>, a: nat, b: nat)
    requires Sifting(s, a, b) && 0 < b && s[b].nonce < s[b - 1].nonce
    ensures Sifting(Exchanged(s, b, b - 1), a, b - 1)
  {
    hide Exchanged;
    var s' := Exchanged(s, b, b - 1);
    ExchangedAt(s, b, b - 1, b);
    ExchangedAt(s, b, b - 1, b - 1);
    forall p | 0 <= p < |s| && p != b && p != b - 1 ensures s'[p] == s[p] { ExchangedAt(s, b, b - 1, p); }
  }

  lemma SiftStop(s: seq<Item>, a: nat, b: nat)
    requires Sifting(s, a, b) && (b == 0 || s[b - 1].nonce <= s[b].nonce)
    ensures Prefix(s, a + 1)
  {
    forall p, q | 0 <= p < q <= a ensures Before()(s[p], s[q]) {
      if q == b && p < b - 1 {
        assert Before()(s[p], s[b - 1]);
      }
    }
  }

  class SubList {
    const sub: array<Item>
    const super: array<Item>

    constructor (sub: array<Item>, super: array<Item>)
      ensures this.sub == sub && this.super == super
    {
      this.sub, this.super := sub, super;
    }

    predicate Less(i: nat, j: nat)
      requires i < sub.Length && j < sub.Length
      reads sub
    {
      sub[i].nonce < sub[j].nonce
    }

    method Swap(i: nat, j: nat, ghost g: seq<Item>)
      requires sub != super && i < sub.Length && j < sub.Length && Mirrors(g, sub[..], super[..])
      modifies sub, super
      ensures sub[..] == Exchanged(old(sub[..]), i, j)
      ensures super[..] == Exchanged(old(super[..]), old(sub[i].i), old(sub[j].i))
      ensures Mirrors(g, sub[..], super[..]) && Untouched(g, old(super[..]), super[..])
    {
      SwapMirrors(g, sub[..], super[..], i, j);
      SwapUntouched(g, sub[..], super[..], i, j);
      sub[i], sub[j] := sub[j], sub[i];
      var ip, jp := sub[i].i, sub[j].i;
      super[ip], super[jp] := super[jp], super[ip];
      assert sub[..] == Exchanged(old(sub[..]), i, j);
      assert super[..] == Exchanged(old(super[..]), old(sub[i].i), old(sub[j].i));
    }

    /** A stable sort through Less and Swap. Go's sort.Stable is this insertion sort on blocks
        of twenty, merged by further swaps; which swaps are made does not matter to the outcome. */
    method Stable(ghost g: seq<Item>)
      requires sub != super && sub[..] == g && Ascending(g) && Mirrors(g, g, super[..])
      modifies sub, super
      ensures Mirrors(g, sub[..], super[..]) && SortedBy(sub[..], Before())
      ensures Untouched(g, old(super[..]), super[..])
    {
      hide Mirrors, Exchanged, Sifting, Untouched;
      UntouchedStart(g, super[..]);
      assert Prefix(sub[..], 0);
      for a := 0 to sub.Length
        invariant Prefix(sub[..], a)
        invariant Mirrors(g, sub[..], super[..]) && Untouched(g, old(super[..]), super[..])
      {
        var b := a;
        SiftStart(sub[..], a);
        while b > 0 && Less(b, b - 1)
          invariant b <= a && Sifting(sub[..], a, b)
          invariant Mirrors(g, sub[..], super[..]) && Untouched(g, old(super[..]), super[..])
        {
          ghost var before := super[..];
          SiftDown(sub[..], a, b);
          Swap(b, b - 1, g);
          UntouchedStep(g, old(super[..]), before, super[..]);
          b := b - 1;
        }
        SiftStop(sub[..], a, b);
      }
      assert sub[..][..sub.Length] == sub[..];
    }
  }

  lemma UntouchedStart(g: seq<Item>, super: seq<Item>)
    ensures Untouched(g, super, super)
  {
  }

  lemma UntouchedStep(g: seq<Item>, a: seq<Item>, b: seq<Item>, c: seq<Item>)
    requires Untouched(g, a, b) && Untouched(g, b, c)
    ensures Untouched(g, a, c)
  {
  }

  /** The parent with the groups of `done` sorted and the others as they came. */
  ghost predicate Partly(super0: seq<Item>, done: set<Bytes>, super: seq<Item>)
    requires Indexed(super0)
  {
    && |super| == |super0|
    && forall k :: 0 <= k < |super0| ==>
         super[k] == if super0[k].sender in done then Arranged(super0)[k] else super0[k]
  }

  lemma GroupSorted(super0: seq<Item>, done: set<Bytes>, who: Bytes, sub: seq<Item>, before: seq<Item>, after: seq<Item>)
    requires Indexed(super0) && Partly(super0, done, before) && who !in done
    requires Mirrors(Group(super0, who), sub, after) && SortedBy(sub, Before())
    requires Untouched(Group(super0, who), before, after)
    ensures Partly(super0, done + {who}, after)
  {
    hide Group, Mirrors, SortedBy, Placed;
    GroupFacts(super0, who);
    forall k | 0 <= k < |super0|
      ensures after[k] == if super0[k].sender in done + {who} then Arranged(super0)[k] else super0[k]
    {
      if super0[k].sender == who {
        MirrorsDecides(super0, who, sub, after, k);
      } else {
        assert forall p :: 0 <= p < |Group(super0, who)| ==> Group(super0, who)[p].i != k;
      }
    }
  }

  lemma GroupReady(super0: seq<Item>, done: set<Bytes>, who: Bytes, super: seq<Item>)
    requires Indexed(super0) && Partly(super0, done, super) && who !in done
    ensures Mirrors(Group(super0, who), Group(super0, who), super) && Ascending(Group(super0, who))
  {
    hide Group, Placed;
    GroupFacts(super0, who);
  }

  method GroupBySender(super: array<Item>) returns (grouped: map<Bytes, seq<Item>>)
    ensures grouped == Grouped(super[..]).subs
  {
    hide Group;
    grouped := map[];
    for i := 0 to super.Length
      invariant grouped.Keys == Senders(super[..i])
      invariant forall who :: who in grouped ==> grouped[who] == Group(super[..i], who)
    {
      var txn := super[i];
      GroupNext(super[..], i, grouped.Keys);
      assert super[..][..i + 1] == super[..i + 1] && super[..][..i] == super[..i];
      var known := if txn.sender in grouped then grouped[txn.sender] else [];
      grouped := grouped[txn.sender := known + [txn]];
    }
    assert super[..super.Length] == super[..];
  }

  /** Sorts one group, in a slice of its own and in the parent. */
  method SortGroup(super: array<Item>, txns: seq<Item>, ghost super0: seq<Item>, ghost done: set<Bytes>, ghost who: Bytes)
    requires Indexed(super0) && Partly(super0, done, super[..]) && who !in done && txns == Group(super0, who)
    modifies super
    ensures Partly(super0, done + {who}, super[..])
  {
    hide Group, Partly, Mirrors, Untouched, SortedBy;
    GroupReady(super0, done, who, super[..]);
    var sub := new Item[|txns|](i requires 0 <= i < |txns| => txns[i]);
    assert sub[..] == txns;
    ghost var before := super[..];
    var list := new SubList(sub, super);
    list.Stable(txns);
    GroupSorted(super0, done, who, sub[..], before, super[..]);
  }

  /** Grouping by sender and sorting every group in place, groups in any order. */
  method SortGroups(super: array<Item>)
    requires Indexed(super[..])
    modifies super
    ensures super[..] == Arranged(old(super[..]))
  {
    hide Placed, Group, Senders;
    ghost var super0 := super[..];
    var grouped := GroupBySender(super);
    var keys := Enumerate(grouped.Keys);
    for n := 0 to |keys|
      invariant Partly(super0, Elements(keys[..n]), super[..])
    {
      hide Partly;
      var who := keys[n];
      assert who in grouped && who !in keys[..n];
      SortGroup(super, grouped[who], super0, Elements(keys[..n]), who);
      assert keys[..n + 1] == keys[..n] + [who];
      ElementsAppend(keys[..n], who);
    }
    assert keys[..|keys|] == keys;
    forall k | 0 <= k < |super0| ensures super0[k].sender in Elements(keys) { SenderOf(super0, k); }
  }

  lemma GroupNext(super: seq<Item>, i: nat, known: set<Bytes>)
    requires i < |super| && known == Senders(super[..i])
    ensures Senders(super[..i + 1]) == known + {super[i].sender}
    ensures forall who :: Group(super[..i + 1], who) ==
              Group(super[..i], who) + (if super[i].sender == who then [super[i]] else [])
    ensures super[i].sender !in known ==> Group(super[..i], super[i].sender) == []
  {
    assert super[..i + 1] == super[..i] + [super[i]];
    assert super[..i + 1][..i] == super[..i];
    if super[i].sender !in known {
      NoneOf(super[..i], super[i].sender);
    }
  }

  lemma {:induction false} NoneOf(super: seq<Item>, who: Bytes)
    requires who !in Senders(super)
    ensures Group(super, who) == []
  {
    if super != [] {
      assert super == super[..|super| - 1] + [super[|super| - 1]];
      assert super[|super| - 1] in super;
      NoneOf(super[..|super| - 1], who);
    }
  }
}
