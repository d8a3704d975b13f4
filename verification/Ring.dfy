/** Index arithmetic of a single-producer/single-consumer ring of `|buf|` places, one of which
    is always left free.  `out` is the consumer's index, `inn` the producer's. */
module Ring {

  /** An index that has run past the end of the array at most once, brought back into it. */
  function Wrap(x: nat, n: nat): nat {
    if x < n then x else x - n
  }

  lemma WrapIsMod(x: nat, n: nat)
    requires 0 < n && x < 2 * n
    ensures x % n == Wrap(x, n)
  {
  }

  /** The ring stores the queue `q`, oldest item at `out`. */
  ghost predicate Holds<T>(buf: seq<T>, out: nat, inn: nat, q: seq<T>) {
    && |q| < |buf| && out < |buf|
    && inn == Wrap(out + |q|, |buf|)
    && forall k :: 0 <= k < |q| ==> buf[Wrap(out + k, |buf|)] == q[k]
  }

  /** The stored items read off the array as its index pair delimits them. */
  ghost function Contents<T>(buf: seq<T>, out: nat, inn: nat): seq<T>
    requires out < |buf| && inn < |buf|
  {
    if out <= inn then buf[out..inn] else buf[out..] + buf[..inn]
  }

  /** A ring stores one queue only: the slice, or pair of slices, between its indices. */
  lemma HoldsContents<T>(buf: seq<T>, out: nat, inn: nat, q: seq<T>)
    requires out < |buf| && inn < |buf|
    ensures Holds(buf, out, inn, q) <==> q == Contents(buf, out, inn)
  {
    var c := Contents(buf, out, inn);
    assert forall k :: 0 <= k < |c| ==> c[k] == buf[Wrap(out + k, |buf|)];
    if Holds(buf, out, inn, q) {
      assert |q| == |c|;
      assert forall k :: 0 <= k < |c| ==> c[k] == q[k];
    }
  }

  /** How many places a producer may fill without wrapping and without touching a stored item. */
  function FreeRun(n: nat, out: nat, inn: nat): nat
    requires out < n && inn < n
  {
    if inn < out then out - 1 - inn
    else if out > 0 then n - inn
    else n - 1 - inn
  }

  /** How many stored items a consumer may take without wrapping. */
  function StoredRun(n: nat, out: nat, inn: nat): nat
    requires out < n && inn < n
  {
    if inn >= out then inn - out else n - out
  }

  /** Both run lengths reach as far as the array and the ring allow, and vanish exactly on a full, respectively empty,
      ring. */
  lemma RunBounds(n: nat, out: nat, inn: nat, count: nat)
    requires count < n && out < n && inn == Wrap(out + count, n)
    ensures inn + FreeRun(n, out, inn) <= n
    ensures inn + FreeRun(n, out, inn) == n || count + FreeRun(n, out, inn) == n - 1
    ensures count + FreeRun(n, out, inn) <= n - 1
    ensures FreeRun(n, out, inn) == 0 <==> count == n - 1
    ensures out + StoredRun(n, out, inn) <= n
    ensures StoredRun(n, out, inn) <= count
    ensures out + StoredRun(n, out, inn) == n || StoredRun(n, out, inn) == count
    ensures StoredRun(n, out, inn) == 0 <==> count == 0
    ensures Wrap(inn + 1, n) == out <==> count == n - 1
    ensures inn == out <==> count == 0
  {
  }

  /** A consumer that only advances never shrinks the free run. */
  lemma FreeRunGrows(n: nat, out: nat, out': nat, inn: nat, count: nat, count': nat)
    requires count' <= count < n && out < n && out' < n
    requires inn == Wrap(out + count, n) == Wrap(out' + count', n)
    ensures FreeRun(n, out, inn) <= FreeRun(n, out', inn)
  {
  }

  /** A producer that only advances never shrinks the stored run. */
  lemma StoredRunGrows(n: nat, out: nat, inn: nat, inn': nat, count: nat, count': nat)
    requires count <= count' < n && out < n
    requires inn == Wrap(out + count, n) && inn' == Wrap(out + count', n)
    ensures StoredRun(n, out, inn) <= StoredRun(n, out, inn')
  {
  }

  /** A place of the free run can be overwritten without touching a stored item. */
  lemma WriteToFreePlace<T>(buf: seq<T>, out: nat, inn: nat, q: seq<T>, j: nat, x: T)
    requires Holds(buf, out, inn, q)
    requires inn <= j < inn + FreeRun(|buf|, out, inn)
    ensures j < |buf|
    ensures Holds(buf[j := x], out, inn, q)
  {
  }

  /** Publishing the producer's index appends exactly the run just written. */
  lemma Publish<T>(buf: seq<T>, out: nat, inn: nat, q: seq<T>, xs: seq<T>)
    requires Holds(buf, out, inn, q)
    requires |xs| <= FreeRun(|buf|, out, inn) && inn + |xs| <= |buf|
    requires forall i :: 0 <= i < |xs| ==> buf[inn + i] == xs[i]
    ensures Holds(buf, out, (inn + |xs|) % |buf|, q + xs)
  {
    RunBounds(|buf|, out, inn, |q|);
    WrapIsMod(inn + |xs|, |buf|);
    forall k | 0 <= k < |q + xs|
      ensures buf[Wrap(out + k, |buf|)] == (q + xs)[k]
    {
      if k >= |q| && xs != [] {
        assert Wrap(out + k, |buf|) == inn + (k - |q|);
      }
    }
  }

  /** Publishing the consumer's index removes exactly the first n items, and those are the run at `out`. */
  lemma Consume<T>(buf: seq<T>, out: nat, inn: nat, q: seq<T>, n: nat)
    requires Holds(buf, out, inn, q)
    requires n <= StoredRun(|buf|, out, inn)
    ensures out + n <= |buf| && n <= |q|
    ensures forall i :: 0 <= i < n ==> buf[out + i] == q[i]
    ensures Holds(buf, (out + n) % |buf|, inn, q[n..])
  {
    RunBounds(|buf|, out, inn, |q|);
    WrapIsMod(out + n, |buf|);
    forall k | 0 <= k < |q[n..]|
      ensures buf[Wrap(Wrap(out + n, |buf|) + k, |buf|)] == q[n..][k]
    {
      assert Wrap(Wrap(out + n, |buf|) + k, |buf|) == Wrap(out + (n + k), |buf|);
    }
  }

  /** A ring whose producer is idle shows its consumer index `out` again only if nothing was taken:
      at most n - 1 items can leave, one too few for the index to come round. */
  lemma IndexTellsMovement(n: nat, out: nat, out': nat, inn: nat, count: nat, count': nat)
    requires count < n && count' < n && out < n && out' < n
    requires inn == Wrap(out + count, n) == Wrap(out' + count', n)
    ensures out == out' <==> count == count'
  {
  }
}
