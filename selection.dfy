/**
 * `smile.sort.HeapSelect` as linearKNN uses it: a selector of capacity k
 * over an array it shares with its caller, keeping the k smallest records
 * added, with the largest of them at index 0, and sorting them into
 * descending order on demand.
 */
module Selection {
  import opened Neighbors

  /** Distances do not increase from left to right. */
  ghost predicate Descending(s: seq<Neighbor>)
  {
    forall i, j :: 0 <= i < j < |s| ==> s[j].distance.Le(s[i].distance)
  }

  /** Inserts `x` into a descending sequence, before the first element not larger than it. */
  function Insert(x: Neighbor, s: seq<Neighbor>): (r: seq<Neighbor>)
    ensures multiset(r) == multiset(s) + multiset{x}
    ensures |r| == |s| + 1
    ensures Descending(s) ==> Descending(r)
  {
    if s == [] then [x]
    else if s[0].distance.Le(x.distance) then [x] + s
    else
      var t := Insert(x, s[1..]);
      assert s == [s[0]] + s[1..];
      InsertBelow(x, s, t);
      [s[0]] + t
  }

  lemma InsertBelow(x: Neighbor, s: seq<Neighbor>, t: seq<Neighbor>)
    requires s != [] && !s[0].distance.Le(x.distance)
    requires multiset(t) == multiset(s[1..]) + multiset{x}
    ensures Descending(s) && Descending(t) ==> Descending([s[0]] + t)
  {
    if Descending(s) && Descending(t) {
      forall y | y in t ensures y.distance.Le(s[0].distance) {
        assert y in multiset(t);
        if y != x {
          assert y in multiset(s[1..]);
          var j :| 0 <= j < |s[1..]| && s[1..][j] == y;
          assert s[j + 1] == y;
        }
      }
      var r := [s[0]] + t;
      forall i, j | 0 <= i < j < |r| ensures r[j].distance.Le(r[i].distance) {
        if i == 0 {
          assert r[j] == t[j - 1] && r[j] in t;
        } else {
          assert r[i] == t[i - 1] && r[j] == t[j - 1];
        }
      }
    }
  }

  /** The elements of `s` in descending order of distance. */
  function SortDescending(s: seq<Neighbor>): (r: seq<Neighbor>)
    ensures multiset(r) == multiset(s)
    ensures |r| == |s|
    ensures Descending(r)
  {
    if s == [] then []
    else
      assert s == [s[0]] + s[1..];
      Insert(s[0], SortDescending(s[1..]))
  }

  /** The multiset of `n` placeholders. */
  function Sentinels(n: nat): multiset<Neighbor>
  {
    multiset{}[Sentinel := n]
  }

  /** Overwriting the first element trades it for the new one. */
  lemma ReplaceFirst(s: seq<Neighbor>, d: Neighbor)
    requires |s| > 0
    ensures multiset(s[0 := d]) == multiset(s) - multiset{s[0]} + multiset{d}
  {
    assert s == [s[0]] + s[1..];
    assert s[0 := d] == [d] + s[1..];
  }

  /** The smaller of two integers. */
  function Min(a: int, b: int): int
  {
    if a < b then a else b
  }

  class HeapSelect {
    /** The array the caller handed over; it holds the selected records. */
    const heap: array<Neighbor>
    /** The capacity, `heap.length`. */
    const k: nat
    /** How many records have been added. */
    var n: nat

    ghost predicate Valid()
      reads this, heap
    {
      k == heap.Length &&
      (n >= k ==> forall i :: 0 <= i < k ==> heap[i].distance.Le(heap[0].distance))
    }

    /** The number of records kept, `min(n, k)`. */
    function Size(): nat
      reads this
    {
      if n < k then n else k
    }

    /** The records kept. */
    ghost function Kept(): seq<Neighbor>
      reads this, heap
      requires Valid()
    {
      heap[..Size()]
    }

    /** `new HeapSelect<>(heap)`: capacity `heap.length`, nothing added yet. */
    constructor (heap: array<Neighbor>)
      ensures this.heap == heap && k == heap.Length && n == 0
      ensures Valid() && Kept() == []
    {
      this.heap := heap;
      k := heap.Length;
      n := 0;
    }

    /** Moves a record of largest distance to index 0, permuting the array. */
    method MoveMaxToFront()
      requires k == heap.Length > 0
      modifies heap
      ensures multiset(heap[..]) == multiset(old(heap[..]))
      ensures forall i :: 0 <= i < k ==> heap[i].distance.Le(heap[0].distance)
    {
      var m := 0;
      for i := 1 to k
        invariant 0 <= m < k
        invariant forall t :: 0 <= t < i ==> heap[t].distance.Le(heap[m].distance)
      {
        if heap[m].distance.Lt(heap[i].distance) {
          m := i;
        }
      }
      heap[0], heap[m] := heap[m], heap[0];
    }

    /**
     * `add(datum)`: while not full the record is stored; once full it
     * replaces the largest kept record when it is strictly smaller than it,
     * and is dropped otherwise.
     */
    method Add(datum: Neighbor)
      requires Valid() && k > 0
      modifies this, heap
      ensures Valid() && n == old(n) + 1
      ensures old(n) < k ==> multiset(Kept()) == multiset(old(Kept())) + multiset{datum}
      ensures old(n) >= k && datum.distance.Lt(old(heap[0]).distance) ==>
                multiset(Kept()) == multiset(old(Kept())) - multiset{old(heap[0])} + multiset{datum}
      ensures old(n) >= k && !datum.distance.Lt(old(heap[0]).distance) ==> Kept() == old(Kept())
    {
      if n < k {
        Store(datum);
      } else {
        n := n + 1;
        if datum.distance.Lt(heap[0].distance) {
          ReplaceMax(datum);
        }
      }
    }

    /** The not-full branch of `add`: stores the record in the next free slot, and heapifies once full. */
    method Store(datum: Neighbor)
      requires Valid() && n < k
      modifies this, heap
      ensures Valid() && n == old(n) + 1
      ensures multiset(Kept()) == multiset(old(Kept())) + multiset{datum}
    {
      ghost var before := heap[..n];
      assert before == Kept();
      heap[n] := datum;
      n := n + 1;
      ghost var stored := heap[..n];
      assert stored == before + [datum];
      if n == k {
        assert heap[..] == stored;
        MoveMaxToFront();
        assert heap[..] == heap[..n] && multiset(heap[..n]) == multiset(stored);
      }
    }

    /** The full branch of `add` for a record smaller than the largest: it takes that record's place. */
    method ReplaceMax(datum: Neighbor)
      requires Valid() && k > 0 && n >= k
      modifies heap
      ensures Valid()
      ensures multiset(Kept()) == multiset(old(Kept())) - multiset{old(heap[0])} + multiset{datum}
    {
      ghost var full := heap[..];
      assert full == heap[..k];
      heap[0] := datum;
      assert heap[..] == full[0 := datum];
      ReplaceFirst(full, datum);
      MoveMaxToFront();
      assert heap[..] == heap[..k];
    }

    /** `peek()`: once full, the largest record kept. */
    function Peek(): (r: Neighbor)
      reads this, heap
      requires Valid() && k > 0
      ensures n >= k ==> r in Kept() && forall x :: x in Kept() ==> x.distance.Le(r.distance)
    {
      heap[0]
    }

    /** `sort()`: the kept records, in descending order of distance, at the front of the array. */
    method Sort()
      requires Valid()
      modifies heap
      ensures Valid()
      ensures multiset(heap[..Size()]) == multiset(old(Kept())) && Descending(heap[..Size()])
      ensures heap[Size()..] == old(heap[Size()..])
    {
      var m := Size();
      var sorted := SortDescending(heap[..m]);
      for i := 0 to m
        invariant forall t :: 0 <= t < i ==> heap[t] == sorted[t]
        invariant forall t :: i <= t < heap.Length ==> heap[t] == old(heap[t])
      {
        heap[i] := sorted[i];
      }
      assert heap[..m] == sorted;
      assert heap[m..] == old(heap[m..]);
      if n >= k && k > 0 {
        forall i | 0 <= i < k
          ensures heap[i].distance.Le(heap[0].distance)
        {
          assert heap[i] == sorted[i] && heap[0] == sorted[0];
        }
      }
    }
  }

  /**
   * After a descending sort of `s` placeholders mixed with finite records,
   * the placeholders are the first `s` entries and the finite records the rest.
   */
  lemma {:induction false} SentinelsFirst(t: seq<Neighbor>, found: multiset<Neighbor>, s: nat)
    requires Descending(t)
    requires multiset(t) == found + Sentinels(s)
    requires forall x :: x in found ==> x.distance.Finite?
    ensures s <= |t|
    ensures multiset(t[s..]) == found
    ensures forall i :: s <= i < |t| ==> t[i].distance.Finite?
  {
    if s == 0 {
      NoSentinels(t, found);
    } else {
      LeadingSentinel(t, found, s);
      DropSentinel(t, found, s);
      DescendingSlice(t, 1);
      SentinelsFirst(t[1..], found, s - 1);
      assert t[1..][s - 1..] == t[s..];
      forall i | s <= i < |t| ensures t[i].distance.Finite? {
        assert t[i] == t[1..][i - 1];
      }
    }
  }

  /** With no placeholder among them, every record of `t` is finite. */
  lemma NoSentinels(t: seq<Neighbor>, found: multiset<Neighbor>)
    requires multiset(t) == found + Sentinels(0)
    requires forall x :: x in found ==> x.distance.Finite?
    ensures multiset(t[0..]) == found
    ensures forall i :: 0 <= i < |t| ==> t[i].distance.Finite?
  {
    assert Sentinels(0) == multiset{};
    assert t[0..] == t;
    forall i | 0 <= i < |t| ensures t[i].distance.Finite? {
      assert t[i] in multiset(t);
    }
  }

  /** A descending sequence holding a placeholder starts with one. */
  lemma LeadingSentinel(t: seq<Neighbor>, found: multiset<Neighbor>, s: nat)
    requires Descending(t) && s > 0
    requires multiset(t) == found + Sentinels(s)
    requires forall x :: x in found ==> x.distance.Finite?
    ensures |t| > 0 && t[0] == Sentinel
  {
    assert Sentinel in multiset(t);
    var j :| 0 <= j < |t| && t[j] == Sentinel;
    assert t[j].distance.Le(t[0].distance);
    assert t[0] in multiset(t);
    assert t[0] !in found;
  }

  /** Removing a leading placeholder leaves one placeholder fewer. */
  lemma DropSentinel(t: seq<Neighbor>, found: multiset<Neighbor>, s: nat)
    requires |t| > 0 && t[0] == Sentinel && s > 0
    requires multiset(t) == found + Sentinels(s)
    ensures multiset(t[1..]) == found + Sentinels(s - 1)
  {
    var rest := found + Sentinels(s - 1);
    assert t == [t[0]] + t[1..];
    assert multiset(t) == multiset(t[1..]) + multiset{Sentinel};
    assert Sentinels(s) == Sentinels(s - 1) + multiset{Sentinel};
    forall y ensures multiset(t[1..])[y] == rest[y] {
      assert (multiset(t[1..]) + multiset{Sentinel})[y] == (rest + multiset{Sentinel})[y];
    }
  }

  /** A suffix of a descending sequence is descending. */
  lemma DescendingSlice(t: seq<Neighbor>, s: nat)
    requires Descending(t) && s <= |t|
    ensures Descending(t[s..])
  {
    forall i, j | 0 <= i < j < |t| - s ensures t[s..][j].distance.Le(t[s..][i].distance) {
      assert t[s..][i] == t[s + i] && t[s..][j] == t[s + j];
    }
  }

}
