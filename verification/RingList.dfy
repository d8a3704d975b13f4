/** Sequences that stand for circular lists: the nodes from the list head round to the head again. */
module RingList {

  /** A ring starts and ends with its head and has no node twice. */
  ghost predicate IsRing<T>(r: seq<T>) {
    && |r| >= 2 && r[0] == r[|r| - 1]
    && (forall i, j :: 0 <= i < j < |r| - 1 ==> r[i] != r[j])
  }

  /** The ring without its place k. */
  ghost function Without<T>(r: seq<T>, k: nat): (t: seq<T>)
    requires k < |r|
    ensures |t| == |r| - 1 && forall i :: 0 <= i < |t| ==> t[i] == r[if i < k then i else i + 1]
  {
    r[..k] + r[k + 1..]
  }

  lemma DropKeepsRing<T>(r: seq<T>, k: nat)
    requires IsRing(r) && 0 < k < |r| - 1
    ensures IsRing(Without(r, k)) && r[k] !in Without(r, k)
    ensures forall a :: a in r && a != r[k] ==> a in Without(r, k)
  {
  }

  // ------------------------------------------------------------------ a walk over a list that changes

  ghost predicate FromPlace<T>(s: seq<T>, k: nat, a: T) {
    exists i :: k <= i < |s| && s[i] == a
  }

  ghost predicate BeforePlace<T>(s: seq<T>, k: nat, a: T) {
    exists i :: 0 <= i < k && i < |s| && s[i] == a
  }

  /** How the list `r0` may have changed while a walk stands at its place p: `r` is the list now, and q the
      place of what followed p.  The rest of the walk has only lost touched nodes; what was walked has only
      lost and gained touched nodes. */
  ghost predicate Walked<T>(r0: seq<T>, p: nat, r: seq<T>, q: nat, touched: set<T>) {
    && 0 < p < |r0| - 1 && 0 < q < |r| && |r| - q <= |r0| - p - 1
    && r[q] == r0[p + 1]
    && (forall i :: q <= i < |r| - 1 ==> r[i] !in touched && FromPlace(r0, p + 1, r[i]))
    && (forall i :: p + 1 <= i < |r0| && r0[i] !in touched ==> FromPlace(r, q, r0[i]))
    && (forall i :: 0 < i < q ==> r[i] in touched || BeforePlace(r0, p + 1, r[i]))
    && (forall i :: 0 <= i < p + 1 && r0[i] !in touched ==> BeforePlace(r, q, r0[i]))
  }

  lemma WalkedStart<T>(r0: seq<T>, p: nat)
    requires 0 < p < |r0| - 1
    ensures Walked(r0, p, r0, p + 1, {})
  {
  }

  lemma WalkedInsert<T>(r0: seq<T>, p: nat, r: seq<T>, q: nat, touched: set<T>, b: T)
    requires Walked(r0, p, r, q, touched) && b !in r
    ensures Walked(r0, p, [r[0], b] + r[1..], q + 1, touched + {b})
  {
    var t := [r[0], b] + r[1..];
    forall i | q + 1 <= i < |t| - 1
      ensures t[i] !in touched + {b} && FromPlace(r0, p + 1, t[i])
    {
      assert t[i] == r[i - 1];
    }
    forall i | 0 < i < q + 1
      ensures t[i] in touched + {b} || BeforePlace(r0, p + 1, t[i])
    {
      if i > 1 {
        assert t[i] == r[i - 1];
      }
    }
    forall j | p + 1 <= j < |r0| && r0[j] !in touched + {b}
      ensures FromPlace(t, q + 1, r0[j])
    {
      var i :| q <= i < |r| && r[i] == r0[j];
      assert t[i + 1] == r0[j];
    }
    forall j | 0 <= j < p + 1 && r0[j] !in touched + {b}
      ensures BeforePlace(t, q + 1, r0[j])
    {
      var i :| 0 <= i < q && i < |r| && r[i] == r0[j];
      assert t[if i == 0 then 0 else i + 1] == r0[j];
    }
  }

  /** The place that place f moves to when place k is taken out. */
  function Moved(f: nat, k: nat): nat
    requires f > 0 || k > 0
  {
    if f < k then f else f - 1
  }

  lemma RemoveAhead<T>(r0: seq<T>, p: nat, r: seq<T>, q: nat, touched: set<T>, k: nat)
    requires Walked(r0, p, r, q, touched) && IsRing(r) && 0 < k < |r| - 1 && k != q
    ensures var t, q' := Without(r, k), if k < q then q - 1 else q;
      && (forall i :: q' <= i < |t| - 1 ==> t[i] !in touched + {r[k]} && FromPlace(r0, p + 1, t[i]))
      && (forall i :: p + 1 <= i < |r0| && r0[i] !in touched + {r[k]} ==> FromPlace(t, q', r0[i]))
  {
    var t, q' := Without(r, k), if k < q then q - 1 else q;
    forall i | q' <= i < |t| - 1
      ensures t[i] !in touched + {r[k]} && FromPlace(r0, p + 1, t[i])
    {
      var f := if i < k then i else i + 1;
      assert t[i] == r[f] && q <= f < |r| - 1 && r[f] != r[k];
    }
    forall j | p + 1 <= j < |r0| && r0[j] !in touched + {r[k]}
      ensures FromPlace(t, q', r0[j])
    {
      var i :| q <= i < |r| && r[i] == r0[j];
      assert t[Moved(i, k)] == r0[j];
    }
  }

  lemma RemoveBehind<T>(r0: seq<T>, p: nat, r: seq<T>, q: nat, touched: set<T>, k: nat)
    requires Walked(r0, p, r, q, touched) && IsRing(r) && 0 < k < |r| - 1 && k != q
    ensures var t, q' := Without(r, k), if k < q then q - 1 else q;
      && (forall i :: 0 < i < q' ==> t[i] in touched + {r[k]} || BeforePlace(r0, p + 1, t[i]))
      && (forall i :: 0 <= i < p + 1 && r0[i] !in touched + {r[k]} ==> BeforePlace(t, q', r0[i]))
  {
    var t, q' := Without(r, k), if k < q then q - 1 else q;
    forall i | 0 < i < q'
      ensures t[i] in touched + {r[k]} || BeforePlace(r0, p + 1, t[i])
    {
      var f := if i < k then i else i + 1;
      assert t[i] == r[f] && f < q;
    }
    forall j | 0 <= j < p + 1 && r0[j] !in touched + {r[k]}
      ensures BeforePlace(t, q', r0[j])
    {
      var i :| 0 <= i < q && i < |r| && r[i] == r0[j];
      assert t[Moved(i, k)] == r0[j];
    }
  }

  lemma WalkedRemove<T>(r0: seq<T>, p: nat, r: seq<T>, q: nat, touched: set<T>, k: nat)
    requires Walked(r0, p, r, q, touched) && IsRing(r) && 0 < k < |r| - 1 && k != q
    ensures Walked(r0, p, Without(r, k), if k < q then q - 1 else q, touched + {r[k]})
  {
    RemoveAhead(r0, p, r, q, touched, k);
    RemoveBehind(r0, p, r, q, touched, k);
  }

  lemma WalkedTouch<T>(r0: seq<T>, p: nat, r: seq<T>, q: nat, touched: set<T>, b: T)
    requires Walked(r0, p, r, q, touched) && b !in r
    ensures Walked(r0, p, r, q, touched + {b})
  {
  }
}
