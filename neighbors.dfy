/**
 * Search results of the brute-force baselines: distances that may be the
 * `Double.MAX_VALUE` placeholder, `Neighbor` records, and the list of
 * candidates a linear scan over the training sentences meets.
 */
module Neighbors {
  import opened Outcomes
  import opened Sentences
  import HammingDistance

  /** A distance as the test class stores it in a double: a Hamming distance,
      or `Double.MAX_VALUE`, which is larger than any of them. */
  datatype Distance = Finite(bits: nat) | MaxValue
  {
    /** The strict `<` of the two doubles. */
    predicate Lt(other: Distance)
    {
      Finite? && (other.MaxValue? || bits < other.bits)
    }

    /** The `<=` of the two doubles. */
    predicate Le(other: Distance)
    {
      other.MaxValue? || (Finite? && bits <= other.bits)
    }
  }

  /** `Neighbor<K, V>(key, value, index, distance)`; a null key or value is None. */
  datatype Neighbor = Neighbor(key: Option<Sentence>, value: Option<Sentence>, index: int, distance: Distance)

  /** `new Neighbor<>(null, null, 0, Double.MAX_VALUE)`, the placeholder linearKNN seeds its selector with. */
  const Sentinel: Neighbor := Neighbor(None, None, 0, MaxValue)

  /** The signature `simhash64` gives a token list. */
  type Signer = seq<string> -> bv64

  /** The neighbor record the baselines build for training sentence `s`:
      key and value are `s`, and the distance is that of the signatures. */
  function HitOf(q: Sentence, s: Sentence, simhash: Signer): Neighbor
  {
    Neighbor(Some(s), Some(s), 0, Finite(HammingDistance.D(simhash(q.tokens), simhash(s.tokens))))
  }

  /**
   * The records a scan of `train` produces for query `q`, in training order:
   * one per sentence whose line differs from the query's.
   */
  function Candidates(q: Sentence, train: seq<Sentence>, simhash: Signer): (r: seq<Neighbor>)
    ensures |r| <= |train|
  {
    if train == [] then []
    else
      var init, s := train[..|train| - 1], train[|train| - 1];
      assert train == init + [s];
      Candidates(q, init, simhash) + (if s.line == q.line then [] else [HitOf(q, s, simhash)])
  }

  /** Every candidate is the record of a training sentence other than the query's line:
      its key and value are that sentence and its distance is finite and at most 64. */
  lemma CandidatesSound(q: Sentence, train: seq<Sentence>, simhash: Signer, c: Neighbor)
    requires c in Candidates(q, train, simhash)
    ensures exists s :: s in train && s.line != q.line && c == HitOf(q, s, simhash)
    ensures c.key.Some? && c.value == c.key && c.key.value in train && c.key.value.line != q.line
    ensures c.distance.Finite? && c.distance.bits <= 64
    ensures c != Sentinel
  {
    CandidateOrigin(q, train, simhash, c);
    var s :| s in train && s.line != q.line && c == HitOf(q, s, simhash);
  }

  /** The training sentence a candidate comes from. */
  lemma {:induction false} CandidateOrigin(q: Sentence, train: seq<Sentence>, simhash: Signer, c: Neighbor)
    requires c in Candidates(q, train, simhash)
    ensures exists s :: s in train && s.line != q.line && c == HitOf(q, s, simhash)
  {
    var init, s := train[..|train| - 1], train[|train| - 1];
    assert train == init + [s];
    var tail := if s.line == q.line then [] else [HitOf(q, s, simhash)];
    assert Candidates(q, train, simhash) == Candidates(q, init, simhash) + tail;
    if c in Candidates(q, init, simhash) {
      CandidateOrigin(q, init, simhash, c);
      var s' :| s' in init && s'.line != q.line && c == HitOf(q, s', simhash);
      assert s' in train;
    } else {
      assert s in train && c == HitOf(q, s, simhash);
    }
  }


  /** Every training sentence other than the query's line has its record among the candidates. */
  lemma {:induction false} CandidatesComplete(q: Sentence, train: seq<Sentence>, simhash: Signer, s: Sentence)
    requires s in train && s.line != q.line
    ensures HitOf(q, s, simhash) in Candidates(q, train, simhash)
  {
    var init, last := train[..|train| - 1], train[|train| - 1];
    assert train == init + [last];
    if s != last {
      assert s in init;
      CandidatesComplete(q, init, simhash, s);
    }
  }

  /** The candidates for a training prefix one sentence longer. */
  lemma CandidatesStep(q: Sentence, train: seq<Sentence>, i: nat, simhash: Signer)
    requires i < |train|
    ensures Candidates(q, train[..i + 1], simhash)
         == Candidates(q, train[..i], simhash) + (if train[i].line == q.line then [] else [HitOf(q, train[i], simhash)])
  {
    assert train[..i + 1][..i] == train[..i];
  }

  /** Whether the distance of `x` passes `distance <= d` for a double radius `d`. */
  predicate InRadius(x: Neighbor, d: real)
  {
    x.distance.Finite? && x.distance.bits as real <= d
  }

  /** A record is within the radius result exactly when it is a candidate within the radius. */
  lemma {:induction false} WithinRadiusMembers(c: seq<Neighbor>, d: real, x: Neighbor)
    ensures x in WithinRadius(c, d) <==> x in c && InRadius(x, d)
  {
    if c != [] {
      var init, last := c[..|c| - 1], c[|c| - 1];
      assert c == init + [last];
      WithinRadiusMembers(init, d, x);
    }
  }

  lemma WithinRadiusStep(c: seq<Neighbor>, x: Neighbor, d: real)
    ensures WithinRadius(c + [x], d) == WithinRadius(c, d) + (if InRadius(x, d) then [x] else [])
  {
    assert (c + [x])[..|c|] == c;
  }

  /** The candidates within radius `d`, in their order. */
  function WithinRadius(c: seq<Neighbor>, d: real): (r: seq<Neighbor>)
    ensures |r| <= |c|
  {
    if c == [] then []
    else
      var init, x := c[..|c| - 1], c[|c| - 1];
      assert c == init + [x];
      WithinRadius(init, d) + (if InRadius(x, d) then [x] else [])
  }
}
