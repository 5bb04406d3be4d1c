/**
 * The brute-force baselines the recall tests compare the index against:
 * linear scans over the training sentences that skip the query's own line.
 * `signCache.get(line)` is the signature of that sentence's tokens, so the
 * cache is modelled by the signature function itself.
 */
module Baselines {
  import opened Outcomes
  import opened Sentences
  import opened Neighbors
  import opened Selection
  import HammingDistance

  /** A caller-owned `List<Neighbor>` that search results are appended to. */
  class NeighborList {
    var items: seq<Neighbor>

    constructor ()
      ensures items == []
    {
      items := [];
    }

    /** `add(x)`: appends at the end. */
    method Add(x: Neighbor)
      modifies this
      ensures items == old(items) + [x]
    {
      items := items + [x];
    }
  }

  /**
   * linearNearest's loop state over the candidates `c` seen so far: no key
   * while there is none, otherwise the record at `at`, nearer than every
   * earlier one and as near as every one seen.
   */
  ghost predicate NearestSoFar(c: seq<Neighbor>, minKey: Option<Sentence>, minDist: Distance, at: int)
  {
    && (minKey.None? <==> c == [])
    && (minKey.None? ==> minDist == MaxValue)
    && (minKey.Some? ==> 0 <= at < |c| && c[at] == Neighbor(minKey, minKey, 0, minDist)
                         && forall t :: 0 <= t < at ==> minDist.Lt(c[t].distance))
    && (forall x :: x in c ==> minDist.Le(x.distance))
  }

  /** A candidate strictly nearer than the minimum so far becomes the minimum. */
  lemma NearestAdmit(c: seq<Neighbor>, minKey: Option<Sentence>, minDist: Distance, at: int, h: Neighbor)
    requires NearestSoFar(c, minKey, minDist, at)
    requires h.key.Some? && h.value == h.key && h.index == 0 && h.distance.Lt(minDist)
    ensures NearestSoFar(c + [h], h.key, h.distance, |c|)
  {
    assert (c + [h])[|c|] == h;
    forall t | 0 <= t < |c| ensures h.distance.Lt((c + [h])[t].distance) {
      assert (c + [h])[t] == c[t] && c[t] in c;
    }
  }

  /** A candidate not strictly nearer than the minimum so far leaves it in place. */
  lemma NearestPass(c: seq<Neighbor>, minKey: Option<Sentence>, minDist: Distance, at: int, h: Neighbor)
    requires NearestSoFar(c, minKey, minDist, at)
    requires h.distance.Finite? && !h.distance.Lt(minDist)
    ensures NearestSoFar(c + [h], minKey, minDist, at)
  {
    if minKey.Some? {
      assert (c + [h])[at] == c[at];
      forall t | 0 <= t < at ensures minDist.Lt((c + [h])[t].distance) {
        assert (c + [h])[t] == c[t];
      }
    }
  }

  /**
   * `linearNearest(q)`: a running minimum over the candidates. The strict `<`
   * keeps the first of several equally near sentences; with no candidate the
   * result has a null key and distance `Double.MAX_VALUE`.
   */
  method LinearNearest(q: Sentence, train: seq<Sentence>, simhash: Signer) returns (r: Neighbor)
    ensures Candidates(q, train, simhash) == [] <==> r == Sentinel
    ensures forall c :: c in Candidates(q, train, simhash) ==> r.distance.Le(c.distance)
    ensures r != Sentinel ==>
      exists j :: 0 <= j < |Candidates(q, train, simhash)| && Candidates(q, train, simhash)[j] == r &&
        forall i :: 0 <= i < j ==> r.distance.Lt(Candidates(q, train, simhash)[i].distance)
  {
    var sign1 := simhash(q.tokens);
    var minDist := MaxValue;
    var minKey: Option<Sentence> := None;
    ghost var at := 0;
    for i := 0 to |train|
      invariant NearestSoFar(Candidates(q, train[..i], simhash), minKey, minDist, at)
    {
      ghost var c := Candidates(q, train[..i], simhash);
      CandidatesStep(q, train, i, simhash);
      var sentence := train[i];
      if sentence.line != q.line {
        var sign2 := simhash(sentence.tokens);
        var distance := Finite(HammingDistance.D(sign1, sign2));
        assert Neighbor(Some(sentence), Some(sentence), 0, distance) == HitOf(q, sentence, simhash);
        assert Candidates(q, train[..i + 1], simhash) == c + [HitOf(q, sentence, simhash)];
        if distance.Lt(minDist) {
          NearestAdmit(c, minKey, minDist, at, HitOf(q, sentence, simhash));
          at := |c|;
          minDist := distance;
          minKey := Some(sentence);
        } else {
          NearestPass(c, minKey, minDist, at, HitOf(q, sentence, simhash));
        }
      } else {
        assert Candidates(q, train[..i + 1], simhash) == c;
      }
    }
    assert train[..|train|] == train;
    r := Neighbor(minKey, minKey, 0, minDist);
    if r != Sentinel {
      assert Candidates(q, train, simhash)[at] == r;
    }
  }

  /**
   * `linearRange(q, d, neighbors)`: appends to the caller's list every
   * candidate whose distance is at most `d`, in training order, after what
   * the list already held.
   */
  method LinearRange(q: Sentence, d: real, neighbors: NeighborList, train: seq<Sentence>, simhash: Signer)
    modifies neighbors
    ensures neighbors.items == old(neighbors.items) + WithinRadius(Candidates(q, train, simhash), d)
  {
    var sign1 := simhash(q.tokens);
    ghost var start := neighbors.items;
    for i := 0 to |train|
      invariant neighbors.items == start + WithinRadius(Candidates(q, train[..i], simhash), d)
    {
      ghost var c := Candidates(q, train[..i], simhash);
      CandidatesStep(q, train, i, simhash);
      var sentence := train[i];
      if sentence.line != q.line {
        var sign2 := simhash(sentence.tokens);
        var distance := HammingDistance.D(sign1, sign2);
        ghost var hit := HitOf(q, sentence, simhash);
        WithinRadiusStep(c, hit, d);
        if distance as real <= d {
          neighbors.Add(Neighbor(Some(sentence), Some(sentence), 0, Finite(distance)));
          assert neighbors.items == start + (WithinRadius(c, d) + [hit]);
        }
        assert Candidates(q, train[..i + 1], simhash) == c + [hit];
      } else {
        assert Candidates(q, train[..i + 1], simhash) == c;
      }
    }
    assert train[..|train|] == train;
  }

  /**
   * The state of linearKNN's scan: the selector `held` holds the records
   * still `kept` plus one placeholder per free slot; kept and `rejected`
   * records together are the candidates `seen` so far; while a placeholder
   * is left nothing was rejected and `hit` counts the records kept; and
   * every kept record is at least as near as every rejected one.
   */
  ghost predicate ScanState(held: multiset<Neighbor>, kept: multiset<Neighbor>, rejected: multiset<Neighbor>,
                            seen: multiset<Neighbor>, k: nat, hit: nat)
  {
    && |kept| <= k
    && held == kept + Sentinels(k - |kept|)
    && kept + rejected == seen
    && (|kept| < k ==> rejected == multiset{} && |kept| == hit)
    && (|kept| == k ==> hit >= k)
    && (forall x :: x in kept ==> x.distance.Finite?)
    && (forall x, y :: x in kept && y in rejected ==> x.distance.Le(y.distance))
  }

  /**
   * What linearKNN promises of its answer `r` over the candidates `cands`:
   * min(k, number of candidates) records, none a placeholder, drawn from the
   * candidates, each as near as every candidate left out, farthest first.
   */
  ghost predicate KnnAnswer(r: seq<Neighbor>, cands: seq<Neighbor>, k: nat)
  {
    && |r| == Min(k, |cands|)
    && (forall i :: 0 <= i < |r| ==> r[i].distance.Finite?)
    && multiset(r) <= multiset(cands)
    && (forall x, y :: x in multiset(r) && y in multiset(cands) - multiset(r) ==> x.distance.Le(y.distance))
    && Descending(r)
  }

  /** The largest record of `held`. */
  ghost predicate IsWorst(held: multiset<Neighbor>, worst: Neighbor)
  {
    worst in held && forall x :: x in held ==> x.distance.Le(worst.distance)
  }

  /** While placeholders remain, the farthest record kept is one, and admitting a candidate replaces it. */
  lemma ScanAdmitFree(held: multiset<Neighbor>, kept: multiset<Neighbor>, rejected: multiset<Neighbor>,
                      seen: multiset<Neighbor>, k: nat, hit: nat, c: Neighbor, worst: Neighbor)
    requires ScanState(held, kept, rejected, seen, k, hit) && |kept| < k
    requires c.distance.Finite? && IsWorst(held, worst) && c.distance.Lt(worst.distance)
    ensures worst == Sentinel
    ensures ScanState(held - multiset{worst} + multiset{c}, kept + multiset{c}, rejected, seen + multiset{c}, k, hit + 1)
  {
    var s := k - |kept|;
    assert Sentinel in held;
    assert Sentinels(s) == Sentinels(s - 1) + multiset{Sentinel};
    var kept' := kept + multiset{c};
    assert held - multiset{worst} + multiset{c} == kept' + Sentinels(k - |kept'|);
  }

  /** Once k records are kept, admitting a candidate evicts the farthest of them into the rejected ones. */
  lemma ScanAdmitFull(held: multiset<Neighbor>, kept: multiset<Neighbor>, rejected: multiset<Neighbor>,
                      seen: multiset<Neighbor>, k: nat, hit: nat, c: Neighbor, worst: Neighbor)
    requires ScanState(held, kept, rejected, seen, k, hit) && |kept| == k
    requires c.distance.Finite? && IsWorst(held, worst) && c.distance.Lt(worst.distance)
    ensures worst in kept
    ensures ScanState(held - multiset{worst} + multiset{c}, kept - multiset{worst} + multiset{c},
                      rejected + multiset{worst}, seen + multiset{c}, k, hit + 1)
  {
    assert Sentinels(0) == multiset{};
    var kept', rejected' := kept - multiset{worst} + multiset{c}, rejected + multiset{worst};
    forall x, y | x in kept' && y in rejected' ensures x.distance.Le(y.distance) {
      if x == c {
        if y != worst { assert worst in kept; }
      } else {
        assert x in kept;
      }
    }
  }

  /** A candidate at least as far as the worst kept record is rejected; the selector is then full. */
  lemma ScanReject(held: multiset<Neighbor>, kept: multiset<Neighbor>, rejected: multiset<Neighbor>,
                   seen: multiset<Neighbor>, k: nat, hit: nat, c: Neighbor, worst: Neighbor)
    requires ScanState(held, kept, rejected, seen, k, hit)
    requires c.distance.Finite? && IsWorst(held, worst) && !c.distance.Lt(worst.distance)
    ensures ScanState(held, kept, rejected + multiset{c}, seen + multiset{c}, k, hit)
  {
    if |kept| < k {
      assert false;
    } else {
      assert Sentinels(0) == multiset{};
    }
  }

  /**
   * What the scan leaves, in any descending arrangement `sorted` of the
   * selector's contents `held` and trimmed to the records, is linearKNN's answer.
   */
  lemma SortedAnswer(sorted: seq<Neighbor>, held: multiset<Neighbor>, kept: multiset<Neighbor>, rejected: multiset<Neighbor>,
                     cands: seq<Neighbor>, k: nat, hit: nat, r: seq<Neighbor>)
    requires ScanState(held, kept, rejected, multiset(cands), k, hit)
    requires multiset(sorted) == held && Descending(sorted) && |sorted| == k
    requires hit < k ==> r == sorted[k - hit..]
    requires hit >= k ==> r == sorted
    ensures KnnAnswer(r, cands, k)
  {
    SentinelsFirst(sorted, kept, k - |kept|);
    assert |multiset(cands)| == |cands|;
    if hit < k {
      DescendingSlice(sorted, k - hit);
    } else {
      assert sorted[0..] == sorted;
    }
    assert multiset(r) == kept;
    Difference(kept, rejected);
    KnnAnswerOf(r, cands, k, kept, rejected);
  }

  /** Taking away one part of a sum of multisets leaves the other. */
  lemma Difference(a: multiset<Neighbor>, b: multiset<Neighbor>)
    ensures (a + b) - a == b
  {
    forall y ensures ((a + b) - a)[y] == b[y] {
    }
  }

  /** The properties of the answer, from the kept records and the rejected candidates. */
  lemma KnnAnswerOf(r: seq<Neighbor>, cands: seq<Neighbor>, k: nat, kept: multiset<Neighbor>, rejected: multiset<Neighbor>)
    requires multiset(r) == kept && kept + rejected == multiset(cands)
    requires |kept| == Min(k, |cands|)
    requires forall i :: 0 <= i < |r| ==> r[i].distance.Finite?
    requires forall x, y :: x in kept && y in rejected ==> x.distance.Le(y.distance)
    requires multiset(cands) - kept == rejected
    requires Descending(r)
    ensures KnnAnswer(r, cands, k)
  {
  }



  /** The copy of the last `hit` slots of `neighbors` into a new array of that length. */
  method ShrinkToFit(neighbors: array<Neighbor>, hit: nat) returns (n2: array<Neighbor>)
    requires hit <= neighbors.Length
    ensures fresh(n2)
    ensures n2.Length == hit && n2[..] == old(neighbors[..])[neighbors.Length - hit..]
  {
    n2 := new Neighbor[hit];
    var start := neighbors.Length - hit;
    for i := 0 to hit
      invariant forall t :: 0 <= t < i ==> n2[t] == neighbors[t + start]
    {
      n2[i] := neighbors[i + start];
    }
  }

  /**
   * The gate of linearKNN's scan: a candidate strictly nearer than the
   * selector's farthest record `worst` takes its place among the kept
   * records `before`; any other candidate leaves them as they were.
   */
  ghost predicate Offered(before: seq<Neighbor>, worst: Neighbor, candidate: Neighbor, after: seq<Neighbor>)
  {
    && (candidate.distance.Lt(worst.distance) ==>
          multiset(after) == multiset(before) - multiset{worst} + multiset{candidate})
    && (!candidate.distance.Lt(worst.distance) ==> after == before)
  }

  /**
   * One step of linearKNN's scan: a candidate strictly nearer than the
   * farthest record the selector keeps is added, evicting that record once
   * the selector is full, and counted in `hit`; any other candidate is
   * dropped. The scan's bookkeeping moves the candidate into the kept or
   * the rejected records.
   */
  method Offer(heap: HeapSelect, candidate: Neighbor, hit: nat,
               ghost kept: multiset<Neighbor>, ghost rejected: multiset<Neighbor>, ghost seen: multiset<Neighbor>)
      returns (hit': nat, ghost kept': multiset<Neighbor>, ghost rejected': multiset<Neighbor>)
    requires heap.Valid() && heap.k > 0 && heap.n == heap.k + hit
    requires candidate.distance.Finite?
    requires ScanState(multiset(heap.Kept()), kept, rejected, seen, heap.k, hit)
    modifies heap, heap.heap
    ensures heap.Valid() && heap.n == heap.k + hit'
    ensures hit' == if candidate.distance.Lt(old(heap.Peek()).distance) then hit + 1 else hit
    ensures Offered(old(heap.Kept()), old(heap.Peek()), candidate, heap.Kept())
    ensures ScanState(multiset(heap.Kept()), kept', rejected', seen + multiset{candidate}, heap.k, hit')
  {
    ghost var held := multiset(heap.Kept());
    ghost var worst := heap.Peek();
    hit', kept', rejected' := hit, kept, rejected;
    if candidate.distance.Lt(heap.Peek().distance) {
      if |kept| < heap.k {
        ScanAdmitFree(held, kept, rejected, seen, heap.k, hit, candidate, worst);
        kept' := kept + multiset{candidate};
      } else {
        ScanAdmitFull(held, kept, rejected, seen, heap.k, hit, candidate, worst);
        kept', rejected' := kept - multiset{worst} + multiset{candidate}, rejected + multiset{worst};
      }
      heap.Add(candidate);
      hit' := hit + 1;
    } else {
      ScanReject(held, kept, rejected, seen, heap.k, hit, candidate, worst);
      rejected' := rejected + multiset{candidate};
    }
  }

  /**
   * linearKNN's loop over the training sentences: each candidate, with its
   * Hamming distance to the query's signature, is offered to the selector.
   */
  method Scan(q: Sentence, train: seq<Sentence>, simhash: Signer, heap: HeapSelect)
      returns (hit: nat, ghost kept: multiset<Neighbor>, ghost rejected: multiset<Neighbor>)
    requires heap.Valid() && heap.k > 0 && heap.n == heap.k
    requires multiset(heap.Kept()) == Sentinels(heap.k)
    modifies heap, heap.heap
    ensures heap.Valid() && heap.n == heap.k + hit
    ensures ScanState(multiset(heap.Kept()), kept, rejected, multiset(Candidates(q, train, simhash)), heap.k, hit)
  {
    var sign1 := simhash(q.tokens);
    hit := 0;
    // The records admitted and still kept, and the candidates dropped or later evicted.
    kept, rejected := multiset{}, multiset{};
    ghost var seen: multiset<Neighbor> := multiset{};
    for i := 0 to |train|
      invariant heap.Valid() && heap.n == heap.k + hit
      invariant seen == multiset(Candidates(q, train[..i], simhash))
      invariant ScanState(multiset(heap.Kept()), kept, rejected, seen, heap.k, hit)
    {
      ghost var c := Candidates(q, train[..i], simhash);
      CandidatesStep(q, train, i, simhash);
      var sentence := train[i];
      if sentence.line != q.line {
        var sign2 := simhash(sentence.tokens);
        var distance := Finite(HammingDistance.D(sign1, sign2));
        var candidate := Neighbor(Some(sentence), Some(sentence), 0, distance);
        assert candidate == HitOf(q, sentence, simhash);
        assert Candidates(q, train[..i + 1], simhash) == c + [candidate];
        hit, kept, rejected := Offer(heap, candidate, hit, kept, rejected, seen);
        seen := seen + multiset{candidate};
      } else {
        assert Candidates(q, train[..i + 1], simhash) == c;
      }
    }
    assert train[..|train|] == train;
  }

  /**
   * The end of linearKNN: sorts the selector and, when fewer than k
   * candidates were admitted, keeps only the last `hit` slots, past the
   * placeholders the descending sort put first.
   */
  method Finish(heap: HeapSelect, hit: nat, ghost kept: multiset<Neighbor>, ghost rejected: multiset<Neighbor>,
                ghost cands: seq<Neighbor>) returns (neighbors: array<Neighbor>)
    requires heap.Valid() && heap.k > 0 && heap.n == heap.k + hit
    requires ScanState(multiset(heap.Kept()), kept, rejected, multiset(cands), heap.k, hit)
    modifies heap, heap.heap
    ensures KnnAnswer(neighbors[..], cands, heap.k)
  {
    ghost var held := multiset(heap.Kept());
    heap.Sort();
    neighbors := heap.heap;
    assert neighbors[..] == neighbors[..heap.Size()];
    ghost var sorted := neighbors[..];
    if hit < heap.k {
      neighbors := ShrinkToFit(neighbors, hit);
    }
    SortedAnswer(sorted, held, kept, rejected, cands, heap.k, hit, neighbors[..]);
  }

  /**
   * `linearKNN(q, k)`: seeds a k-slot selector with k placeholders, offers it
   * every candidate in turn, then sorts and trims it. The result holds
   * min(k, number of candidates) records, none a placeholder, that are as
   * near as every candidate left out, farthest first. A negative k fails
   * when the array is created; with k = 0 the first candidate's `peek()`
   * reads slot 0 of the empty selector.
   */
  method LinearKnn(q: Sentence, k: int, train: seq<Sentence>, simhash: Signer) returns (r: Result<array<Neighbor>>)
    ensures k < 0 ==> r == Failure(NegativeArraySize)
    ensures k == 0 && Candidates(q, train, simhash) != [] ==> r == Failure(IndexOutOfBounds)
    ensures k > 0 || (k == 0 && Candidates(q, train, simhash) == []) ==>
              r.Success? && KnnAnswer(r.value[..], Candidates(q, train, simhash), k)
  {
    if k < 0 {
      return Failure(NegativeArraySize);
    }
    var neighbors := new Neighbor[k];
    if k == 0 {
      for i := 0 to |train|
        invariant Candidates(q, train[..i], simhash) == []
      {
        CandidatesStep(q, train, i, simhash);
        if train[i].line != q.line {
          CandidatesComplete(q, train, simhash, train[i]);
          return Failure(IndexOutOfBounds);
        }
      }
      assert train[..|train|] == train;
      return Success(neighbors);
    }
    var heap := new HeapSelect(neighbors);
    var neighbor := Sentinel;
    for i := 0 to k
      invariant heap.Valid() && heap.heap == neighbors && heap.k == k && heap.n == i
      invariant multiset(heap.Kept()) == Sentinels(i)
    {
      heap.Add(neighbor);
    }
    var hit: nat;
    ghost var kept: multiset<Neighbor>, rejected: multiset<Neighbor>;
    hit, kept, rejected := Scan(q, train, simhash, heap);
    neighbors := Finish(heap, hit, kept, rejected, Candidates(q, train, simhash));
    return Success(neighbors);
  }
}
