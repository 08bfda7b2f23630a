/** What the sort of prepareBlockTransactions does to the nonce check that the proposal then has to
    pass (internal/abci/abci.go). */
module ProposalOrder {
  import opened TableModel
  import opened Enumerations
  import opened Bags
  import opened Routes
  import opened Execution
  import opened Proposal
  import L = TxSubList

  function Items(txs: seq<Tx>): (super: seq<L.Item>)
    ensures |super| == |txs| && L.Indexed(super)
  {
    seq(|txs|, k requires 0 <= k < |txs| => L.Item(k, txs[k].sender, txs[k].nonce))
  }

  /** The transaction that slot `k` ends up with, by its index. */
  function Slot(txs: seq<Tx>, k: nat): (j: nat)
    requires k < |txs|
    ensures j < |txs| && L.Placed(Items(txs), k) == Items(txs)[j] && txs[j].sender == txs[k].sender
  {
    hide L.Group, L.Sorted;
    L.GroupFacts(Items(txs), txs[k].sender);
    L.SortedFacts(L.Group(Items(txs), txs[k].sender));
    L.Placed(Items(txs), k).i
  }

  /** The transactions once every sender's group has been sorted in place. */
  function Rearranged(txs: seq<Tx>): (r: seq<Tx>)
    ensures |r| == |txs| && forall k :: 0 <= k < |txs| ==> r[k] == txs[Slot(txs, k)]
  {
    seq(|txs|, k requires 0 <= k < |txs| => txs[Slot(txs, k)])
  }

  /** The slots of one sender, read in order. */
  function Read(txs: seq<Tx>, who: Bytes): (a: seq<L.Item>)
    ensures |a| == |L.Group(Items(txs), who)|
  {
    var g := L.Group(Items(txs), who);
    L.GroupFacts(Items(txs), who);
    seq(|g|, p requires 0 <= p < |g| => L.Placed(Items(txs), g[p].i))
  }

  /** A sender's transactions, by the slots of its group in any list with those senders. */
  lemma {:induction false} OfSenderSlots(super: seq<L.Item>, txs: seq<Tx>, who: Bytes)
    requires L.Indexed(super) && |super| == |txs|
    requires forall k :: 0 <= k < |txs| ==> txs[k].sender == super[k].sender
    ensures |OfSender(txs, who)| == |L.Group(super, who)|
    ensures forall p :: 0 <= p < |L.Group(super, who)| ==>
              L.Group(super, who)[p].i < |txs| && OfSender(txs, who)[p] == txs[L.Group(super, who)[p].i]
  {
    if txs != [] {
      OfSenderSlots(super[..|txs| - 1], txs[..|txs| - 1], who);
    }
  }

  lemma NoncesRead(txs: seq<Tx>, who: Bytes, p: nat)
    ensures |OfSender(Rearranged(txs), who)| == |Read(txs, who)|
    ensures p < |Read(txs, who)| ==> OfSender(Rearranged(txs), who)[p].nonce == Read(txs, who)[p].nonce
  {
    hide L.Group, L.Placed, OfSender;
    var g := L.Group(Items(txs), who);
    L.GroupFacts(Items(txs), who);
    OfSenderSlots(Items(txs), Rearranged(txs), who);
    if p < |g| {
      var j := Slot(txs, g[p].i);
    }
  }

  /** The slots hold the sender's own transactions, each once. */
  lemma ReadPermutes(txs: seq<Tx>, who: Bytes)
    ensures multiset(Read(txs, who)) == multiset(L.Group(Items(txs), who))
  {
    hide L.Group, L.Placed, L.Sorted;
    var super := Items(txs);
    var g, a := L.Group(super, who), Read(txs, who);
    L.GroupFacts(super, who);
    L.ArrangedPermutes(super);
    forall p | 0 <= p < |g| ensures a[p] in g {
      var j := Slot(txs, g[p].i);
      assert super[j].sender == who;
    }
    forall p, q | 0 <= p < q < |g| ensures a[p] != a[q] {
      assert L.Arranged(super)[g[p].i] == a[p] && L.Arranged(super)[g[q].i] == a[q];
    }
    SameBag(a, g);
  }

  lemma SameBag(a: seq<L.Item>, g: seq<L.Item>)
    requires Distinct(a) && Distinct(g) && |a| == |g| && forall x :: x in a ==> x in g
    ensures multiset(a) == multiset(g)
  {
    DistinctBag(a);
    DistinctBag(g);
    SubsetSize(Elements(g) - Elements(a), Elements(g));
    assert Elements(g) == Elements(a) + (Elements(g) - Elements(a));
  }

  /** The sender's nonces, sorted, continue its committed nonce. */
  ghost predicate Consecutive(l: Ledger, txs: seq<Tx>, who: Bytes)
  {
    var s := L.Sorted(L.Group(Items(txs), who));
    forall p :: 0 <= p < |s| ==> s[p].nonce == NonceOf(l, who) + 1 + p
  }

  ghost predicate SlotsFollow(l: Ledger, txs: seq<Tx>, who: Bytes)
  {
    forall p :: 0 <= p < |Read(txs, who)| ==> Read(txs, who)[p].nonce == NonceOf(l, who) + 1 + p
  }

  lemma SlotsSortedMeans(txs: seq<Tx>, who: Bytes)
    ensures L.SlotsSorted(Items(txs), who) <==> Read(txs, who) == L.Sorted(L.Group(Items(txs), who))
  {
    hide L.Group, L.Placed, L.Sorted;
    var g := L.Group(Items(txs), who);
    L.GroupFacts(Items(txs), who);
    L.SortedFacts(g);
    assert forall p :: 0 <= p < |g| ==> L.Arranged(Items(txs))[g[p].i] == Read(txs, who)[p];
  }

  /** The sender's transactions are a run of nonces from its committed one, and the permutation
      that sorts them is its own inverse. */
  ghost predicate SortsWell(l: Ledger, txs: seq<Tx>, who: Bytes)
  {
    Consecutive(l, txs, who) && L.SelfInverse(L.Group(Items(txs), who))
  }

  lemma SlotsFollowExactly(l: Ledger, txs: seq<Tx>, who: Bytes)
    ensures SlotsFollow(l, txs, who) <==> SortsWell(l, txs, who)
  {
    hide L.Group, L.Sorted, Read, L.SelfInverse, L.SlotsSorted;
    var g, a := L.Group(Items(txs), who), Read(txs, who);
    var s := L.Sorted(g);
    L.GroupFacts(Items(txs), who);
    L.SortedFacts(g);
    L.SlotsSortedExactly(Items(txs), who);
    SlotsSortedMeans(txs, who);
    if SlotsFollow(l, txs, who) {
      ReadPermutes(txs, who);
      L.SortedPermutation(g, a);
    }
  }

  /** The sorted proposal passes the nonce check if and only if every sender's group sorts well. */
  lemma RearrangedFollowsExactly(l: Ledger, txs: seq<Tx>)
    ensures NoncesFollow(l, Rearranged(txs)) <==> forall who :: SortsWell(l, txs, who)
  {
    hide L.Group, Rearranged, Read, SortsWell, OfSender;
    forall who ensures SlotsFollow(l, txs, who) <==> SortsWell(l, txs, who) {
      SlotsFollowExactly(l, txs, who);
    }
    if NoncesFollow(l, Rearranged(txs)) {
      forall who ensures SlotsFollow(l, txs, who) {
        forall p | 0 <= p < |Read(txs, who)| ensures Read(txs, who)[p].nonce == NonceOf(l, who) + 1 + p {
          NoncesRead(txs, who, p);
        }
      }
    }
    if forall who :: SlotsFollow(l, txs, who) {
      forall who, p | 0 <= p < |OfSender(Rearranged(txs), who)|
        ensures OfSender(Rearranged(txs), who)[p].nonce == NonceOf(l, who) + 1 + p
      {
        NoncesRead(txs, who, p);
        assert SlotsFollow(l, txs, who);
      }
    }
  }

  /** A list whose groups are in nonce order is left as it is. */
  lemma SortedListStays(txs: seq<Tx>)
    requires forall who :: SortedBy(L.Group(Items(txs), who), L.Before())
    ensures Rearranged(txs) == txs
  {
    hide L.Group, L.Placed, InsertionSort;
    forall k | 0 <= k < |txs| ensures Rearranged(txs)[k] == txs[k] {
      var who := txs[k].sender;
      var g := L.Group(Items(txs), who);
      L.GroupFacts(Items(txs), who);
      L.SortedIs(g, g);
      PlacedInOrder(txs, k);
    }
  }

  lemma PlacedInOrder(txs: seq<Tx>, k: nat)
    requires k < |txs|
    requires var g := L.Group(Items(txs), txs[k].sender); L.Sorted(g) == g
    ensures L.Placed(Items(txs), k) == Items(txs)[k]
  {
    L.GroupFacts(Items(txs), txs[k].sender);
  }

  /** In particular one that passes the nonce check already. */
  lemma FollowingListStays(l: Ledger, txs: seq<Tx>)
    requires NoncesFollow(l, txs)
    ensures Rearranged(txs) == txs && NoncesFollow(l, Rearranged(txs))
  {
    hide L.Group, L.Placed, OfSender;
    forall who ensures SortedBy(L.Group(Items(txs), who), L.Before()) {
      L.GroupFacts(Items(txs), who);
      OfSenderSlots(Items(txs), txs, who);
    }
    SortedListStays(txs);
  }
}
