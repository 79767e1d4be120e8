/**
 * What each queue operation does to the sequence of values held in the
 * queue, head first, stated as functions on sequences, and the properties of
 * those functions that the queue's operations inherit.
 */
module QueueSpec {
  import opened CStrings

  /* ---------------------------------------------------------------------- */
  /* Deleting one position (q_delete_mid)                                    */
  /* ---------------------------------------------------------------------- */

  /** `s` with the element at index `k` taken out and the others kept in order. */
  function DropAt<T>(s: seq<T>, k: nat): (r: seq<T>)
    requires k < |s|
    ensures |r| == |s| - 1
    ensures forall i :: 0 <= i < k ==> r[i] == s[i]
    ensures forall i :: k <= i < |r| ==> r[i] == s[i + 1]
    ensures multiset(r) + multiset{s[k]} == multiset(s)
  {
    assert s == s[..k] + [s[k]] + s[k + 1..];
    s[..k] + s[k + 1..]
  }

  /** Dropping the first element after a prefix keeps the prefix and the rest. */
  lemma DropAtJoin<T>(a: seq<T>, b: seq<T>)
    requires b != []
    ensures DropAt(a + b, |a|) == a + b[1..]
  {
    assert (a + b)[..|a|] == a;
    assert (a + b)[|a| + 1..] == b[1..];
  }

  /* ---------------------------------------------------------------------- */
  /* Swapping adjacent pairs (q_swap)                                        */
  /* ---------------------------------------------------------------------- */

  /** Positions (0,1), (2,3), ... exchanged; a last unpaired element stays. */
  function SwapPairs<T>(s: seq<T>): (r: seq<T>)
    ensures |r| == |s|
    decreases |s|
  {
    if |s| < 2 then s else [s[1], s[0]] + SwapPairs(s[2..])
  }

  /** The index whose element lands at `i` when pairs are swapped in a sequence of length `n`. */
  function PairPartner(i: nat, n: nat): nat {
    if i % 2 == 1 then i - 1 else if i + 1 < n then i + 1 else i
  }

  /** Every position of the result holds the element of its pair partner. */
  lemma {:induction false} SwapPairsExchanges<T>(s: seq<T>)
    ensures forall i :: 0 <= i < |s| ==> PairPartner(i, |s|) < |s| && SwapPairs(s)[i] == s[PairPartner(i, |s|)]
    decreases |s|
  {
    if |s| >= 2 {
      SwapPairsExchanges(s[2..]);
      var r, t := SwapPairs(s), SwapPairs(s[2..]);
      assert r == [s[1], s[0]] + t;
      forall i | 2 <= i < |s|
        ensures SwapPairs(s)[i] == s[PairPartner(i, |s|)]
      {
        assert r[i] == t[i - 2];
        assert (i - 2) % 2 == i % 2;
        assert PairPartner(i - 2, |s| - 2) + 2 == PairPartner(i, |s|);
      }
    }
  }

  /** Swapping pairs twice gives back the original order. */
  lemma {:induction false} SwapPairsInvolution<T>(s: seq<T>)
    ensures SwapPairs(SwapPairs(s)) == s
    decreases |s|
  {
    if |s| >= 2 {
      var r := SwapPairs(s);
      assert r[2..] == SwapPairs(s[2..]);
      SwapPairsInvolution(s[2..]);
      assert s == [s[0], s[1]] + s[2..];
    }
  }

  /** Swapping pairs only reorders: the multiset of values is unchanged. */
  lemma {:induction false} SwapPairsPermutes<T>(s: seq<T>)
    ensures multiset(SwapPairs(s)) == multiset(s)
    decreases |s|
  {
    if |s| >= 2 {
      SwapPairsPermutes(s[2..]);
      assert s == [s[0], s[1]] + s[2..];
    }
  }

  /** Swapping pairs works independently on an even-length prefix and the rest. */
  lemma {:induction false} SwapPairsSplit<T>(s: seq<T>, k: nat)
    requires k <= |s| && k % 2 == 0
    ensures SwapPairs(s) == SwapPairs(s[..k]) + SwapPairs(s[k..])
    decreases k
  {
    if k > 0 {
      SwapPairsSplit(s[2..], k - 2);
      assert s[2..][..k - 2] == s[..k][2..];
      assert s[2..][k - 2..] == s[k..];
    } else {
      assert s[k..] == s;
    }
  }

  /**
   * One step of the pairwise swap: with the pairs before the even index `k`
   * already swapped, exchanging positions `k` and `k + 1` leaves the pairs
   * before `k + 2` swapped.
   */
  lemma SwapPairsStep<T>(s: seq<T>, k: nat)
    requires k % 2 == 0 && k + 2 <= |s|
    ensures (SwapPairs(s[..k]) + s[k..])[k := s[k + 1]][k + 1 := s[k]] == SwapPairs(s[..k + 2]) + s[k + 2..]
  {
    SwapPairsSplit(s[..k + 2], k);
    assert s[..k + 2][..k] == s[..k];
    assert s[..k + 2][k..] == [s[k], s[k + 1]];
  }

  /** The pairs before the even index `k` swapped, the rest untouched: the state of q_swap after `k / 2` steps. */
  function SwappedBelow<T>(s: seq<T>, k: nat): (r: seq<T>)
    requires k % 2 == 0 && k <= |s|
    ensures |r| == |s|
    decreases k
  {
    if k == 0 then s else SwappedBelow(s, k - 2)[k - 2 := s[k - 1]][k - 1 := s[k - 2]]
  }

  lemma {:induction false} SwappedBelowIsSwapPairs<T>(s: seq<T>, k: nat)
    requires k % 2 == 0 && k <= |s|
    ensures SwappedBelow(s, k) == SwapPairs(s[..k]) + s[k..]
    decreases k
  {
    if k == 0 {
      assert s[..0] == [] && s[0..] == s;
    } else {
      SwappedBelowIsSwapPairs(s, k - 2);
      SwapPairsStep(s, k - 2);
    }
  }

  /** One more q_swap step: the elements at `k` and `k + 1` are still the original ones, and swapping them extends the swapped prefix. */
  lemma SwappedBelowStep<T>(s: seq<T>, k: nat)
    requires k % 2 == 0 && k + 2 <= |s|
    ensures SwappedBelow(s, k)[k] == s[k] && SwappedBelow(s, k)[k + 1] == s[k + 1]
    ensures SwappedBelow(s, k)[k := s[k + 1]][k + 1 := s[k]] == SwappedBelow(s, k + 2)
  {
    SwappedBelowIsSwapPairs(s, k);
  }

  /** The pairwise swap of a sequence, read off from the swap of its prefix. */
  lemma SwapPairsDone<T>(s: seq<T>, k: nat)
    requires k % 2 == 0 && k <= |s| <= k + 1
    ensures SwappedBelow(s, k) == SwapPairs(s)
  {
    SwappedBelowIsSwapPairs(s, k);
    SwapPairsSplit(s, k);
  }

  /* ---------------------------------------------------------------------- */
  /* Deleting duplicated strings (q_delete_dup)                              */
  /* ---------------------------------------------------------------------- */

  /** The element at `i` equals the element just before or just after it. */
  predicate HasEqualNeighbour(s: seq<string>, i: nat)
    requires i < |s|
  {
    (i > 0 && s[i - 1] == s[i]) || (i + 1 < |s| && s[i] == s[i + 1])
  }

  /** The elements among the first `k` that have no equal neighbour, in order. */
  function Survivors(s: seq<string>, k: nat): (r: seq<string>)
    requires k <= |s|
    ensures |r| <= k
  {
    if k == 0 then []
    else Survivors(s, k - 1) + (if HasEqualNeighbour(s, k - 1) then [] else [s[k - 1]])
  }

  /**
   * One step of the scan over `s`: position `i` is dropped exactly when it
   * has an equal neighbour, and the survivors grow by its element otherwise.
   */
  lemma SurvivorsStep(s: seq<string>, i: nat)
    requires i < |s|
    ensures HasEqualNeighbour(s, i) ==>
              DropAt(Survivors(s, i) + s[i..], |Survivors(s, i)|) == Survivors(s, i + 1) + s[i + 1..]
    ensures !HasEqualNeighbour(s, i) ==> Survivors(s, i) + s[i..] == Survivors(s, i + 1) + s[i + 1..]
  {
    var kept, rest := Survivors(s, i), s[i..];
    assert rest == [s[i]] + s[i + 1..];
    if HasEqualNeighbour(s, i) {
      assert Survivors(s, i + 1) == kept;
      DropAtJoin(kept, rest);
    } else {
      assert Survivors(s, i + 1) == kept + [s[i]];
      assert kept + rest == kept + [s[i]] + s[i + 1..];
    }
  }

  /**
   * The q_delete_dup scan at position `i` of `s`, with `c` the strings still
   * queued and `k` the survivors so far: comparing the element with its
   * successor, together with the previous comparison, decides exactly
   * whether it has an equal neighbour, and dropping it or stepping over it
   * leaves the queue as the survivors of one more position.
   */
  lemma ScanStep(s: seq<string>, i: nat, c: seq<string>, k: nat, cmp: bool, foundDup: bool)
    requires i < |s| && k == |Survivors(s, i)| && c == Survivors(s, i) + s[i..]
    requires foundDup == (0 < i < |s| && s[i - 1] == s[i])
    requires cmp == (k + 1 < |c| && c[k] == c[k + 1])
    ensures cmp == (i + 1 < |s| && s[i] == s[i + 1])
    ensures (cmp || foundDup) == HasEqualNeighbour(s, i)
    ensures cmp || foundDup ==> DropAt(c, k) == Survivors(s, i + 1) + s[i + 1..] && k == |Survivors(s, i + 1)|
    ensures !(cmp || foundDup) ==> c == Survivors(s, i + 1) + s[i + 1..] && k + 1 == |Survivors(s, i + 1)|
  {
    assert c[k] == s[i];
    if k + 1 < |c| {
      assert c[k + 1] == s[i + 1];
    }
    SurvivorsStep(s, i);
  }

  /** A queue of at most one element has no duplicates to drop. */
  lemma DropDuplicatesShort(s: seq<string>)
    requires |s| <= 1
    ensures DropDuplicates(s) == s
  {
    if |s| == 1 {
      assert Survivors(s, 1) == [s[0]];
    }
  }

  /**
   * The entries of `xs`, one per position of `s`, at those of the first `k`
   * positions where `s` has no equal neighbour, in order: which of the
   * queue's nodes the scan leaves in the ring.
   */
  function Kept<T>(xs: seq<T>, s: seq<string>, k: nat): (r: seq<T>)
    requires k <= |s| == |xs|
    ensures |r| == |Survivors(s, k)|
  {
    if k == 0 then []
    else Kept(xs, s, k - 1) + (if HasEqualNeighbour(s, k - 1) then [] else [xs[k - 1]])
  }

  /** Keeping the values themselves is `Survivors`. */
  lemma {:induction false} KeptValues(s: seq<string>, k: nat)
    requires k <= |s|
    ensures Kept(s, s, k) == Survivors(s, k)
  {
    if k > 0 {
      KeptValues(s, k - 1);
    }
  }

  /**
   * One step of the scan over the entries `xs`: the entry at position `i` is
   * dropped exactly when `s` has an equal neighbour there, and kept otherwise.
   */
  lemma KeptStep<T>(xs: seq<T>, s: seq<string>, i: nat)
    requires i < |s| == |xs|
    ensures HasEqualNeighbour(s, i) ==>
              DropAt(Kept(xs, s, i) + xs[i..], |Kept(xs, s, i)|) == Kept(xs, s, i + 1) + xs[i + 1..]
    ensures !HasEqualNeighbour(s, i) ==> Kept(xs, s, i) + xs[i..] == Kept(xs, s, i + 1) + xs[i + 1..]
  {
    var kept, rest := Kept(xs, s, i), xs[i..];
    assert rest == [xs[i]] + xs[i + 1..];
    if HasEqualNeighbour(s, i) {
      assert Kept(xs, s, i + 1) == kept;
      DropAtJoin(kept, rest);
    } else {
      assert Kept(xs, s, i + 1) == kept + [xs[i]];
      assert kept + rest == kept + [xs[i]] + xs[i + 1..];
    }
  }

  /** Once the scan has passed every position, no entry is left to visit. */
  lemma KeptDone<T>(xs: seq<T>, s: seq<string>, i: nat)
    requires i == |s| == |xs|
    ensures Kept(xs, s, i) + xs[i..] == Kept(xs, s, |xs|)
  {
    assert xs[i..] == [];
  }

  /** With at most one position, every entry is kept. */
  lemma KeptShort<T>(xs: seq<T>, s: seq<string>)
    requires |s| == |xs| <= 1
    ensures Kept(xs, s, |s|) == xs
  {
    if |s| == 1 {
      assert Kept(xs, s, 1) == [xs[0]];
    }
  }

  /** Every member of a run of equal adjacent values deleted, the rest kept in order. */
  function DropDuplicates(s: seq<string>): seq<string> {
    Survivors(s, |s|)
  }

  /** A value survives exactly when it sits at a position with no equal neighbour. */
  lemma {:induction false} SurvivorsMembers(s: seq<string>, k: nat)
    requires k <= |s|
    ensures forall x :: x in Survivors(s, k) <==> exists i :: 0 <= i < k && s[i] == x && !HasEqualNeighbour(s, i)
  {
    if k > 0 {
      SurvivorsMembers(s, k - 1);
    }
  }

  /** Sorted ascending in the order `strcmp` gives. */
  predicate Sorted(s: seq<string>) {
    forall i, j :: 0 <= i < j < |s| ==> StrLe(s[i], s[j])
  }

  /** Sorted ascending with no value repeated. */
  predicate StrictlySorted(s: seq<string>) {
    forall i, j :: 0 <= i < j < |s| ==> StrLe(s[i], s[j]) && s[i] != s[j]
  }

  /** `x` appears in `s` at exactly one position. */
  predicate OccursOnce(s: seq<string>, x: string) {
    (exists i :: 0 <= i < |s| && s[i] == x) &&
    forall i, j :: 0 <= i < |s| && 0 <= j < |s| && s[i] == x && s[j] == x ==> i == j
  }

  /** In a sorted sequence, equal values are adjacent: having no equal neighbour is occurring once. */
  lemma SortedNeighbours(s: seq<string>, i: nat)
    requires Sorted(s) && i < |s|
    ensures !HasEqualNeighbour(s, i) <==> OccursOnce(s, s[i])
  {
    if !HasEqualNeighbour(s, i) {
      forall j | 0 <= j < |s| && s[j] == s[i]
        ensures j == i
      {
        if j > i + 1 {
          StrLeAntisymmetric(s[i], s[i + 1]);
        } else if j + 1 < i {
          StrLeAntisymmetric(s[i - 1], s[i]);
        }
      }
    }
  }

  /** On sorted input the values kept are exactly those that occur once. */
  lemma DropDuplicatesKeepsUnique(s: seq<string>)
    requires Sorted(s)
    ensures forall x :: x in DropDuplicates(s) <==> OccursOnce(s, x)
  {
    SurvivorsMembers(s, |s|);
    forall x
      ensures x in DropDuplicates(s) <==> OccursOnce(s, x)
    {
      if OccursOnce(s, x) {
        var i :| 0 <= i < |s| && s[i] == x;
        SortedNeighbours(s, i);
      }
      if x in DropDuplicates(s) {
        var i :| 0 <= i < |s| && s[i] == x && !HasEqualNeighbour(s, i);
        SortedNeighbours(s, i);
      }
    }
  }

  /** On sorted input the result is strictly ascending: no value is left twice. */
  lemma {:induction false} SurvivorsStrictlySorted(s: seq<string>, k: nat)
    requires Sorted(s) && k <= |s|
    ensures StrictlySorted(Survivors(s, k))
  {
    if k > 0 {
      SurvivorsStrictlySorted(s, k - 1);
      if !HasEqualNeighbour(s, k - 1) {
        var r := Survivors(s, k - 1);
        SurvivorsMembers(s, k - 1);
        SortedNeighbours(s, k - 1);
        forall j | 0 <= j < |r|
          ensures StrLe(r[j], s[k - 1]) && r[j] != s[k - 1]
        {
          assert r[j] in r;
          var i :| 0 <= i < k - 1 && s[i] == r[j] && !HasEqualNeighbour(s, i);
        }
      }
    }
  }

  /** Without equal neighbours nothing is deleted. */
  lemma {:induction false} SurvivorsOfStrict(s: seq<string>, k: nat)
    requires k <= |s|
    requires forall i :: 0 <= i < |s| - 1 ==> s[i] != s[i + 1]
    ensures Survivors(s, k) == s[..k]
  {
    if k > 0 {
      SurvivorsOfStrict(s, k - 1);
      assert s[..k] == s[..k - 1] + [s[k - 1]];
    }
  }

  /** On sorted input, deleting duplicates a second time changes nothing. */
  lemma DropDuplicatesIdempotent(s: seq<string>)
    requires Sorted(s)
    ensures DropDuplicates(DropDuplicates(s)) == DropDuplicates(s)
  {
    var r := DropDuplicates(s);
    SurvivorsStrictlySorted(s, |s|);
    SurvivorsOfStrict(r, |r|);
  }

  /** Without sorted input the second pass can delete more: the order matters. */
  lemma DropDuplicatesNeedsSorted()
    ensures DropDuplicates(["b", "a", "a", "b"]) == ["b", "b"]
    ensures DropDuplicates(DropDuplicates(["b", "a", "a", "b"])) == []
  {
    var s := ["b", "a", "a", "b"];
    assert Survivors(s, 1) == ["b"];
    assert Survivors(s, 3) == ["b"] by {
      assert HasEqualNeighbour(s, 1) && HasEqualNeighbour(s, 2);
    }
    assert Survivors(s, 4) == ["b", "b"];
    assert HasEqualNeighbour(["b", "b"], 0);
    assert HasEqualNeighbour(["b", "b"], 1);
  }
}
