/** Grouping the values of one colour channel so that fewer colours are needed: the greedy grouping is the best
    possible, and replacing every value by its group's key is stable. */
module ColourMerge {

  ghost predicate Ascending(cs: seq<int>) {
    forall i, j :: 0 <= i < j < |cs| ==> cs[i] < cs[j]
  }

  /** A group of the ascending values: the places of its first value, of its key, and of the value after its last. */
  datatype Span = Span(first: nat, key: nat, end: nat)

  /** The key is the largest value of the group within `dist` of the first one, the last value is within `dist`
      of the key, and the value after the group is not. */
  ghost predicate IsSpan(cs: seq<int>, dist: nat, s: Span) {
    && s.first <= s.key < s.end <= |cs|
    && cs[s.key] - cs[s.first] <= dist
    && (s.key + 1 < s.end ==> cs[s.key + 1] - cs[s.first] > dist)
    && cs[s.end - 1] - cs[s.key] <= dist
    && (s.end < |cs| ==> cs[s.end] - cs[s.key] > dist)
  }

  ghost predicate InBounds(cs: seq<int>, gs: seq<Span>) {
    forall g :: 0 <= g < |gs| ==> gs[g].first <= gs[g].key < gs[g].end <= |cs|
  }

  /** The groups follow each other and make up the values before place `upto`. */
  ghost predicate GroupedUpTo(cs: seq<int>, dist: nat, gs: seq<Span>, upto: nat) {
    && (gs == [] <==> upto == 0)
    && InBounds(cs, gs)
    && (forall g {:trigger IsSpan(cs, dist, gs[g])} :: 0 <= g < |gs| ==> IsSpan(cs, dist, gs[g]))
    && (gs != [] ==> gs[0].first == 0 && gs[|gs| - 1].end == upto)
    && (forall g {:trigger Adjoin(gs, g)} :: 0 <= g < |gs| - 1 ==> Adjoin(gs, g))
  }

  ghost predicate IsGrouping(cs: seq<int>, dist: nat, gs: seq<Span>) {
    GroupedUpTo(cs, dist, gs, |cs|)
  }

  ghost predicate Adjoin(gs: seq<Span>, g: nat)
    requires g + 1 < |gs|
  {
    gs[g].end == gs[g + 1].first
  }

  /** The keys of the first n groups, as colours. */
  ghost function KeysOf(cs: seq<int>, gs: seq<Span>, n: nat): set<int>
    requires n <= |gs| && InBounds(cs, gs)
  {
    if n == 0 then {} else KeysOf(cs, gs, n - 1) + {cs[gs[n - 1].key]}
  }

  /** The palette: the keys of all groups. */
  ghost function Keys(cs: seq<int>, gs: seq<Span>): set<int>
    requires InBounds(cs, gs)
  {
    KeysOf(cs, gs, |gs|)
  }

  lemma {:induction false} KeysAre(cs: seq<int>, gs: seq<Span>, n: nat, x: int)
    requires n <= |gs| && InBounds(cs, gs)
    ensures x in KeysOf(cs, gs, n) <==> exists g :: 0 <= g < n && cs[gs[g].key] == x
  {
    if n > 0 {
      KeysAre(cs, gs, n - 1, x);
    }
  }

  // ------------------------------------------------------------------ the palette is a minimum one

  predicate Near(a: int, b: int, dist: nat) {
    a - b <= dist && b - a <= dist
  }

  /** The colours `c` can stand for every value of `cs`. */
  ghost predicate Covers(c: set<int>, cs: seq<int>, dist: nat) {
    forall i {:trigger Covered(c, cs[i], dist)} :: 0 <= i < |cs| ==> Covered(c, cs[i], dist)
  }

  ghost predicate Covered(c: set<int>, v: int, dist: nat) {
    exists x :: x in c && Near(x, v, dist)
  }

  lemma {:induction false} GroupsAscend(cs: seq<int>, dist: nat, gs: seq<Span>, g: nat, h: nat)
    requires Ascending(cs) && IsGrouping(cs, dist, gs) && g < h < |gs|
    ensures gs[g].end <= gs[h].first
    ensures cs[gs[h].first] > cs[gs[g].key] + dist && cs[gs[h].key] > cs[gs[g].key] + dist
    decreases h - g
  {
    assert Adjoin(gs, g) && IsSpan(cs, dist, gs[g]) && IsSpan(cs, dist, gs[g + 1]);
    if g + 1 < h {
      GroupsAscend(cs, dist, gs, g + 1, h);
    }
  }

  /** Every value lies in a group. */
  lemma {:induction false} GroupOf(cs: seq<int>, dist: nat, gs: seq<Span>, i: nat) returns (g: nat)
    requires IsGrouping(cs, dist, gs) && i < |cs|
    ensures g < |gs| && gs[g].first <= i < gs[g].end
  {
    g := 0;
    while i >= gs[g].end
      invariant g < |gs| && gs[g].first <= i
      decreases |gs| - g
    {
      assert g + 1 < |gs| ==> Adjoin(gs, g);
      g := g + 1;
    }
  }

  /** The keys stand for all values, and are values of the image themselves. */
  lemma {:induction false} KeysCover(cs: seq<int>, dist: nat, gs: seq<Span>)
    requires Ascending(cs) && IsGrouping(cs, dist, gs)
    ensures Covers(Keys(cs, gs), cs, dist)
    ensures forall x :: x in Keys(cs, gs) ==> x in cs
  {
    forall i: nat | i < |cs|
      ensures Covered(Keys(cs, gs), cs[i], dist)
    {
      var g := GroupOf(cs, dist, gs, i);
      assert IsSpan(cs, dist, gs[g]);
      InGroupIsNear(cs, dist, gs[g], i);
      KeysAre(cs, gs, |gs|, cs[gs[g].key]);
    }
    forall x | x in Keys(cs, gs)
      ensures x in cs
    {
      KeysAre(cs, gs, |gs|, x);
    }
  }

  lemma {:induction false} InGroupIsNear(cs: seq<int>, dist: nat, s: Span, i: nat)
    requires Ascending(cs) && IsSpan(cs, dist, s) && s.first <= i < s.end
    ensures Near(cs[s.key], cs[i], dist)
  {
  }

  lemma {:induction false} KeysAreDistinct(cs: seq<int>, dist: nat, gs: seq<Span>, n: nat)
    requires Ascending(cs) && IsGrouping(cs, dist, gs) && n <= |gs|
    ensures |KeysOf(cs, gs, n)| == n
  {
    if n > 0 {
      KeysAreDistinct(cs, dist, gs, n - 1);
      var k := cs[gs[n - 1].key];
      assert k !in KeysOf(cs, gs, n - 1) by {
        KeysAre(cs, gs, n - 1, k);
        forall g | 0 <= g < n - 1
          ensures cs[gs[g].key] != k
        {
          GroupsAscend(cs, dist, gs, g, n - 1);
        }
      }
    }
  }

  /** A cover has a colour that can stand for the first value of a group, and it is at most as large as the key. */
  lemma {:induction false} ColourForFirst(cs: seq<int>, dist: nat, s: Span, c: set<int>) returns (w: int)
    requires Ascending(cs) && IsSpan(cs, dist, s)
    requires Covers(c, cs, dist) && forall x :: x in c ==> x in cs
    ensures w in c && cs[s.first] - dist <= w <= cs[s.key]
  {
    assert Covered(c, cs[s.first], dist);
    w :| w in c && Near(w, cs[s.first], dist);
    LargestWithin(cs, dist, s, w);
  }

  ghost function UpTo(c: set<int>, limit: int): set<int> {
    set x | x in c && x <= limit
  }

  /** Among the colours of any cover at most as large as the n-th key there are at least n. */
  lemma {:induction false} CoverPrefix(cs: seq<int>, dist: nat, gs: seq<Span>, c: set<int>, n: nat)
    requires Ascending(cs) && IsGrouping(cs, dist, gs) && 0 < n <= |gs|
    requires Covers(c, cs, dist) && forall x :: x in c ==> x in cs
    ensures |UpTo(c, cs[gs[n - 1].key])| >= n
  {
    var s := gs[n - 1];
    assert IsSpan(cs, dist, s);
    var w := ColourForFirst(cs, dist, s, c);
    if n == 1 {
      SubsetSize({w}, UpTo(c, cs[s.key]));
    } else {
      CoverPrefix(cs, dist, gs, c, n - 1);
      GroupsAscend(cs, dist, gs, n - 2, n - 1);
      var before := UpTo(c, cs[gs[n - 2].key]);
      assert w !in before;
      SubsetSize(before + {w}, UpTo(c, cs[s.key]));
    }
  }

  /** No value that can stand for a group's first one is larger than the key. */
  lemma {:induction false} LargestWithin(cs: seq<int>, dist: nat, s: Span, w: int)
    requires Ascending(cs) && IsSpan(cs, dist, s)
    requires w in cs && w - cs[s.first] <= dist
    ensures w <= cs[s.key]
  {
  }

  lemma {:induction false} SubsetSize(a: set<int>, b: set<int>)
    requires a <= b
    ensures |a| <= |b|
  {
    assert b == a + (b - a);
  }

  /** The greedy palette is minimum: it can stand for every value, it consists of values of the image, and no
      other such palette has fewer colours. */
  lemma {:induction false} GreedyIsMinimum(cs: seq<int>, dist: nat, gs: seq<Span>, c: set<int>)
    requires Ascending(cs) && IsGrouping(cs, dist, gs)
    ensures Covers(Keys(cs, gs), cs, dist) && (forall x :: x in Keys(cs, gs) ==> x in cs)
    ensures |Keys(cs, gs)| == |gs|
    ensures Covers(c, cs, dist) && (forall x :: x in c ==> x in cs) ==> |gs| <= |c|
  {
    KeysCover(cs, dist, gs);
    KeysAreDistinct(cs, dist, gs, |gs|);
    if Covers(c, cs, dist) && (forall x :: x in c ==> x in cs) && gs != [] {
      CoverPrefix(cs, dist, gs, c, |gs|);
      SubsetSize(UpTo(c, cs[gs[|gs| - 1].key]), c);
    }
  }

  // ------------------------------------------------------------------ replacing values by their keys

  /** The first group from g on that ends after place i. */
  ghost function GroupIndex(gs: seq<Span>, i: nat, g: nat): nat
    requires g <= |gs|
    decreases |gs| - g
  {
    if g < |gs| && i >= gs[g].end then GroupIndex(gs, i, g + 1) else g
  }

  lemma {:induction false} GroupIndexIs(cs: seq<int>, dist: nat, gs: seq<Span>, i: nat, g: nat, from: nat)
    requires Ascending(cs) && IsGrouping(cs, dist, gs)
    requires from <= g < |gs| && gs[g].first <= i < gs[g].end
    ensures GroupIndex(gs, i, from) == g
    decreases g - from
  {
    if from < g {
      GroupsAscend(cs, dist, gs, from, g);
      GroupIndexIs(cs, dist, gs, i, g, from + 1);
    }
  }

  ghost function Place(cs: seq<int>, v: int): nat
    requires v in cs
  {
    var i :| 0 <= i < |cs| && cs[i] == v;
    i
  }

  /** The key of the group of the value v. */
  ghost function Merged(cs: seq<int>, gs: seq<Span>, v: int): int
    requires v in cs && InBounds(cs, gs)
  {
    var g := GroupIndex(gs, Place(cs, v), 0);
    if g < |gs| then cs[gs[g].key] else v
  }

  lemma {:induction false} MergedIs(cs: seq<int>, dist: nat, gs: seq<Span>, g: nat, i: nat)
    requires Ascending(cs) && IsGrouping(cs, dist, gs)
    requires g < |gs| && gs[g].first <= i < gs[g].end
    ensures Merged(cs, gs, cs[i]) == cs[gs[g].key]
  {
    assert Place(cs, cs[i]) == i;
    GroupIndexIs(cs, dist, gs, i, g, 0);
  }

  /** Merging moves a value by at most `dist`, keeps the order of values, sends keys to themselves, and leaves
      different results more than `dist` apart. */
  lemma {:induction false} MergeIsGentle(cs: seq<int>, dist: nat, gs: seq<Span>, v: int, w: int)
    requires Ascending(cs) && IsGrouping(cs, dist, gs) && v in cs && w in cs
    ensures Near(Merged(cs, gs, v), v, dist)
    ensures v <= w ==> Merged(cs, gs, v) <= Merged(cs, gs, w)
    ensures Merged(cs, gs, v) in cs && Merged(cs, gs, Merged(cs, gs, v)) == Merged(cs, gs, v)
    ensures Merged(cs, gs, v) != Merged(cs, gs, w) ==> !Near(Merged(cs, gs, v), Merged(cs, gs, w), dist)
  {
    var g := HomeOf(cs, dist, gs, v);
    var h := HomeOf(cs, dist, gs, w);
    MergedIs(cs, dist, gs, g, gs[g].key);
    OrderOfPlaces(cs, Place(cs, v), Place(cs, w));
    if g < h {
      GroupsAscend(cs, dist, gs, g, h);
    } else if h < g {
      GroupsAscend(cs, dist, gs, h, g);
    }
  }

  /** The group of a value, whose key it becomes. */
  lemma {:induction false} HomeOf(cs: seq<int>, dist: nat, gs: seq<Span>, v: int) returns (g: nat)
    requires Ascending(cs) && IsGrouping(cs, dist, gs) && v in cs
    ensures g < |gs| && gs[g].first <= Place(cs, v) < gs[g].end
    ensures Merged(cs, gs, v) == cs[gs[g].key] && Near(cs[gs[g].key], v, dist)
  {
    var i := Place(cs, v);
    g := GroupOf(cs, dist, gs, i);
    assert IsSpan(cs, dist, gs[g]);
    MergedIs(cs, dist, gs, g, i);
    InGroupIsNear(cs, dist, gs[g], i);
  }

  /** Values more than `dist` apart are not merged: running the merge on its own output changes nothing. */
  lemma {:induction false} MergeOfApart(ks: seq<int>, dist: nat, gs: seq<Span>, v: int)
    requires Ascending(ks) && IsGrouping(ks, dist, gs) && v in ks
    requires forall i, j :: 0 <= i < j < |ks| ==> ks[j] - ks[i] > dist
    ensures Merged(ks, gs, v) == v
  {
    var i := Place(ks, v);
    var g := GroupOf(ks, dist, gs, i);
    MergedIs(ks, dist, gs, g, i);
    assert IsSpan(ks, dist, gs[g]);
    InGroupIsNear(ks, dist, gs[g], i);
  }

  // ------------------------------------------------------------------ the merged channel is determined

  /** Ascending listings of the same values are equal, from place k on if they are equal before it. */
  lemma {:induction false} AscendingIsUnique(cs: seq<int>, ds: seq<int>, k: nat)
    requires Ascending(cs) && Ascending(ds) && forall v :: v in cs <==> v in ds
    requires k <= |cs| && k <= |ds| && cs[..k] == ds[..k]
    ensures cs == ds
    decreases |cs| - k
  {
    if k < |cs| {
      NextIsSame(cs, ds, k);
      AscendingIsUnique(cs, ds, k + 1);
    } else if k < |ds| {
      NextIsSame(ds, cs, k);
    }
  }

  lemma {:induction false} NextIsSame(cs: seq<int>, ds: seq<int>, k: nat)
    requires Ascending(cs) && Ascending(ds) && forall v :: v in cs <==> v in ds
    requires k < |cs| && k <= |ds| && cs[..k] == ds[..k]
    ensures k < |ds| && cs[k] == ds[k]
  {
    assert cs[k] in cs;
    var j :| 0 <= j < |ds| && ds[j] == cs[k];
    assert ds[k] in ds;
    var i :| 0 <= i < |cs| && cs[i] == ds[k];
  }

  lemma {:induction false} SpanIsUnique(cs: seq<int>, dist: nat, s: Span, t: Span)
    requires Ascending(cs) && IsSpan(cs, dist, s) && IsSpan(cs, dist, t) && s.first == t.first
    ensures s == t
  {
    KeyIsLargest(cs, dist, s, t);
    KeyIsLargest(cs, dist, t, s);
  }

  lemma {:induction false} KeyIsLargest(cs: seq<int>, dist: nat, s: Span, t: Span)
    requires Ascending(cs) && IsSpan(cs, dist, s) && IsSpan(cs, dist, t) && s.first == t.first
    ensures t.key <= s.key && (t.key == s.key ==> t.end <= s.end)
  {
    OrderOfPlaces(cs, s.first, s.key);
    if s.key + 1 < |cs| {
      OrderOfPlaces(cs, t.key, s.key + 1);
    }
    if s.end < |cs| {
      OrderOfPlaces(cs, t.end - 1, s.end);
    }
  }

  lemma OrderOfPlaces(cs: seq<int>, i: nat, j: nat)
    requires Ascending(cs) && i < |cs| && j < |cs|
    ensures i < j <==> cs[i] < cs[j]
  {
  }

  /** There is only one grouping of the ascending values. */
  lemma {:induction false} GroupingIsUnique(cs: seq<int>, dist: nat, gs: seq<Span>, hs: seq<Span>, n: nat)
    requires Ascending(cs) && IsGrouping(cs, dist, gs) && IsGrouping(cs, dist, hs)
    requires n <= |gs| && n <= |hs| && gs[..n] == hs[..n]
    ensures gs == hs
    decreases |gs| - n
  {
    if n < |gs| && n < |hs| {
      assert IsSpan(cs, dist, gs[n]) && IsSpan(cs, dist, hs[n]);
      if n > 0 {
        assert gs[..n][n - 1] == hs[..n][n - 1] && Adjoin(gs, n - 1) && Adjoin(hs, n - 1);
      }
      SpanIsUnique(cs, dist, gs[n], hs[n]);
      GroupingIsUnique(cs, dist, gs, hs, n + 1);
    } else if 0 < n < |gs| {
      assert gs[n - 1] == gs[..n][n - 1];
      EndsBefore(cs, dist, gs, n - 1);
    } else if 0 < n < |hs| {
      assert hs[n - 1] == hs[..n][n - 1];
      EndsBefore(cs, dist, hs, n - 1);
    }
  }

  /** Only the last group ends with the values. */
  lemma {:induction false} EndsBefore(cs: seq<int>, dist: nat, gs: seq<Span>, g: nat)
    requires IsGrouping(cs, dist, gs) && g + 1 < |gs|
    ensures gs[g].end < |cs|
  {
    assert Adjoin(gs, g) && IsSpan(cs, dist, gs[g + 1]);
  }

  // ------------------------------------------------------------------ the loop that builds the groups

  lemma {:induction false} AppendSpan(cs: seq<int>, dist: nat, gs: seq<Span>, s: Span)
    requires GroupedUpTo(cs, dist, gs, s.first) && IsSpan(cs, dist, s)
    ensures GroupedUpTo(cs, dist, gs + [s], s.end)
  {
    var t := gs + [s];
    forall g {:trigger IsSpan(cs, dist, t[g])} | 0 <= g < |t|
      ensures IsSpan(cs, dist, t[g])
    {
      assert g < |gs| ==> IsSpan(cs, dist, gs[g]) && t[g] == gs[g];
    }
    forall g {:trigger Adjoin(t, g)} | 0 <= g < |t| - 1
      ensures Adjoin(t, g)
    {
      assert g < |gs| - 1 ==> Adjoin(gs, g);
    }
  }

  /** The state of the loop within a group: its first value and its key, for the values before place i. */
  ghost predicate Filling(cs: seq<int>, dist: nat, first: nat, k: nat, i: nat) {
    && first <= k < i <= |cs|
    && cs[k] - cs[first] <= dist && cs[i - 1] - cs[k] <= dist
    && (k + 1 < i ==> cs[k + 1] - cs[first] > dist)
  }

  /** A channel value with the number of its occurrences. */
  datatype Item = Item(channel: int, count: nat)

  function Channels(items: seq<Item>): (cs: seq<int>)
    ensures |cs| == |items| && forall i :: 0 <= i < |items| ==> cs[i] == items[i].channel
  {
    seq(|items|, i requires 0 <= i < |items| => items[i].channel)
  }

  /** The counts of the items, added up. */
  function CountOf(items: seq<Item>): nat {
    if items == [] then 0 else CountOf(items[..|items| - 1]) + items[|items| - 1].count
  }

  /** A group as the loop builds it. */
  datatype Group = Group(key: int, members: seq<Item>)

  ghost predicate IsGroup(items: seq<Item>, group: Group, s: Span) {
    && s.first <= s.key < s.end <= |items|
    && group.key == items[s.key].channel && group.members == items[s.first..s.end]
  }

  lemma {:induction false} FillNext(cs: seq<int>, dist: nat, first: nat, k: nat, i: nat)
    requires Ascending(cs) && Filling(cs, dist, first, k, i) && i < |cs| && cs[i] - cs[k] <= dist
    ensures Filling(cs, dist, first, if cs[i] - cs[first] <= dist then i else k, i + 1)
  {
  }

  lemma {:induction false} FillEnd(cs: seq<int>, dist: nat, first: nat, k: nat, i: nat)
    requires Filling(cs, dist, first, k, i) && (i < |cs| ==> cs[i] - cs[k] > dist)
    ensures IsSpan(cs, dist, Span(first, k, i))
  {
  }

  /** The groups the loop has closed, as lists and as spans. */
  ghost predicate Built(items: seq<Item>, dist: nat, groups: seq<Group>, gs: seq<Span>, upto: nat) {
    && |groups| == |gs| && GroupedUpTo(Channels(items), dist, gs, upto)
    && forall g {:trigger IsGroup(items, groups[g], gs[g])} :: 0 <= g < |gs| ==> IsGroup(items, groups[g], gs[g])
  }

  lemma {:induction false} CloseGroup(items: seq<Item>, dist: nat, groups: seq<Group>, gs: seq<Span>, group: Group, s: Span)
    requires Built(items, dist, groups, gs, s.first)
    requires IsGroup(items, group, s) && IsSpan(Channels(items), dist, s)
    ensures Built(items, dist, groups + [group], gs + [s], s.end)
  {
    AppendSpan(Channels(items), dist, gs, s);
  }

  lemma {:induction false} Extend<T>(s: seq<T>, a: nat, b: nat)
    requires a <= b < |s|
    ensures s[a..b + 1] == s[a..b] + [s[b]]
    ensures (s[a..b] + [s[b]])[0] == s[a]
  {
  }

  /** Closes the current group if the next channel is too far from its key. */
  method CloseIfFar(items: seq<Item>, dist: nat, groups: seq<Group>, group: seq<Item>, key: int, i: nat,
                    ghost gs: seq<Span>, ghost first: nat, ghost k: nat)
    returns (groups': seq<Group>, group': seq<Item>, ghost gs': seq<Span>, ghost first': nat)
    requires i < |items| && first <= i && group == items[first..i] && (i > 0 ==> first < i)
    requires Built(items, dist, groups, gs, first)
    requires i > 0 ==> Filling(Channels(items), dist, first, k, i) && items[k].channel == key
    ensures Built(items, dist, groups', gs', first')
    ensures if group' == [] then first' == i
            else group' == group && first' == first && items[i].channel - key <= dist
  {
    groups', group', gs', first' := groups, group, gs, first;
    if group != [] && items[i].channel - key > dist {
      FillEnd(Channels(items), dist, first, k, i);
      CloseGroup(items, dist, groups, gs, Group(key, group), Span(first, k, i));
      groups' := groups + [Group(key, group)];
      gs', first' := gs + [Span(first, k, i)], i;
      group' := [];
    }
  }

  /** Adds the next channel to the current group, and makes it the key if it is within `dist` of the first. */
  method Absorb(items: seq<Item>, dist: nat, group: seq<Item>, key: int, i: nat, ghost first: nat, ghost k: nat)
    returns (group': seq<Item>, key': int, ghost k': nat)
    requires Ascending(Channels(items)) && first <= i < |items| && group == items[first..i]
    requires group != [] ==> Filling(Channels(items), dist, first, k, i) && items[k].channel == key
                               && items[i].channel - key <= dist
    ensures group' == items[first..i + 1]
    ensures Filling(Channels(items), dist, first, k', i + 1) && items[k'].channel == key'
  {
    Extend(items, first, i);
    var item := items[i];
    key', k' := key, k;
    group' := group + [item];
    if group != [] {
      FillNext(Channels(items), dist, first, k, i);
    }
    if group == [] || item.channel - group'[0].channel <= dist {
      key' := item.channel;
      k' := i;
    }
  }

  /** The state of the loop before place i: the groups closed so far, and the one being filled. */
  ghost predicate Looping(items: seq<Item>, dist: nat, groups: seq<Group>, group: seq<Item>, key: int, i: nat,
                          gs: seq<Span>, first: nat, k: nat) {
    && i <= |items| && first <= i && group == items[first..i] && (i > 0 ==> first < i)
    && Built(items, dist, groups, gs, first)
    && (i > 0 ==> Filling(Channels(items), dist, first, k, i) && items[k].channel == key)
  }

  /** One turn of the loop. */
  method NextItem(items: seq<Item>, dist: nat, groups: seq<Group>, group: seq<Item>, key: int, i: nat,
                  ghost gs: seq<Span>, ghost first: nat, ghost k: nat)
    returns (groups': seq<Group>, group': seq<Item>, key': int, ghost gs': seq<Span>, ghost first': nat, ghost k': nat)
    requires Ascending(Channels(items)) && i < |items| && Looping(items, dist, groups, group, key, i, gs, first, k)
    ensures Looping(items, dist, groups', group', key', i + 1, gs', first', k')
  {
    groups', group', gs', first' := CloseIfFar(items, dist, groups, group, key, i, gs, first, k);
    group', key', k' := Absorb(items, dist, group', key, i, first', k);
  }

  /** The group that is still open at the end is closed. */
  method CloseLast(items: seq<Item>, dist: nat, before: seq<Group>, group: seq<Item>, key: int,
                   ghost spans: seq<Span>, ghost first: nat, ghost k: nat)
    returns (groups: seq<Group>, ghost gs: seq<Span>)
    requires Ascending(Channels(items)) && Looping(items, dist, before, group, key, |items|, spans, first, k)
    ensures Built(items, dist, groups, gs, |items|)
  {
    groups, gs := before, spans;
    if group != [] {
      FillEnd(Channels(items), dist, first, k, |items|);
      CloseGroup(items, dist, groups, gs, Group(key, group), Span(first, k, |items|));
      groups := groups + [Group(key, group)];
      gs := gs + [Span(first, k, |items|)];
    }
  }

  /** The loop of combine_channels_core over the channels in ascending order. */
  method FormGroups(items: seq<Item>, dist: nat) returns (groups: seq<Group>, ghost gs: seq<Span>)
    requires Ascending(Channels(items))
    ensures Built(items, dist, groups, gs, |items|)
  {
    groups, gs := [], [];
    var group: seq<Item>, key := [], 0;
    ghost var first: nat, k: nat := 0, 0;
    var i: nat := 0;
    while i < |items|
      invariant i <= |items| && Looping(items, dist, groups, group, key, i, gs, first, k)
    {
      groups, group, key, gs, first, k := NextItem(items, dist, groups, group, key, i, gs, first, k);
      i := i + 1;
    }
    groups, gs := CloseLast(items, dist, groups, group, key, gs, first, k);
  }

  // ------------------------------------------------------------------ the whole of combine_channels

  /** A key with the other channels it replaces. */
  datatype Replacement = Replacement(key: int, others: seq<int>)

  /** Some item from place a up to b has the channel v. */
  ghost predicate Has(items: seq<Item>, a: nat, b: nat, v: int)
    requires b <= |items|
  {
    exists i :: a <= i < b && items[i].channel == v
  }

  function Others(members: seq<Item>, key: int): (vs: seq<int>)
    ensures forall v :: v in vs <==> v != key && Has(members, 0, |members|, v)
  {
    if members == [] then []
    else
      assert forall v :: Has(members, 0, |members|, v) <==> members[0].channel == v || Has(members[1..], 0, |members| - 1, v) by {
        HasHead(members);
      }
      (if members[0].channel != key then [members[0].channel] else []) + Others(members[1..], key)
  }

  lemma {:induction false} HasHead(members: seq<Item>)
    requires members != []
    ensures forall v :: Has(members, 0, |members|, v) <==> members[0].channel == v || Has(members[1..], 0, |members| - 1, v)
  {
  }

  /** What combine_channels_core makes of one group: the key stands for the group's total count, and replaces its
      other channels. */
  ghost predicate IsResult(items: seq<Item>, s: Span, r: Replacement, result: map<int, nat>)
    requires s.first <= s.key < s.end <= |items|
  {
    && r.key == items[s.key].channel
    && r.key in result && result[r.key] == CountOf(items[s.first..s.end])
    && (forall v :: v in r.others <==> v != r.key && Has(items, s.first, s.end, v))
  }

  /** What has been made of the first groups: a replacement for each of them, and an entry for each of their keys. */
  ghost predicate Reported(items: seq<Item>, gs: seq<Span>, replacements: seq<Replacement>, result: map<int, nat>)
    requires InBounds(Channels(items), gs)
  {
    && |replacements| <= |gs|
    && result.Keys == KeysOf(Channels(items), gs, |replacements|)
    && forall g :: 0 <= g < |replacements| ==> IsResult(items, gs[g], replacements[g], result)
  }

  method CombineCore(items: seq<Item>, dist: nat)
    returns (result: map<int, nat>, replacements: seq<Replacement>, ghost gs: seq<Span>)
    requires Ascending(Channels(items))
    ensures IsGrouping(Channels(items), dist, gs) && result.Keys == Keys(Channels(items), gs)
    ensures |replacements| == |gs| && forall g :: 0 <= g < |gs| ==> IsResult(items, gs[g], replacements[g], result)
  {
    var groups;
    groups, gs := FormGroups(items, dist);
    result, replacements := map[], [];
    var n := 0;
    while n < |groups|
      invariant 0 <= n <= |groups| && |replacements| == n
      invariant Reported(items, gs, replacements, result)
    {
      var key, members := groups[n].key, groups[n].members;
      assert IsGroup(items, groups[n], gs[n]);
      ReportNext(items, dist, gs, replacements, result, members);
      result := result[key := CountOf(members)];
      replacements := replacements + [Replacement(key, Others(members, key))];
      n := n + 1;
    }
  }

  /** The entry of the next group replaces none of those before. */
  lemma {:induction false} ReportNext(items: seq<Item>, dist: nat, gs: seq<Span>, replacements: seq<Replacement>,
                                      result: map<int, nat>, members: seq<Item>)
    requires Ascending(Channels(items)) && IsGrouping(Channels(items), dist, gs) && |replacements| < |gs|
    requires Reported(items, gs, replacements, result)
    requires var s := gs[|replacements|]; s.end <= |items| && members == items[s.first..s.end]
    ensures var key := items[gs[|replacements|].key].channel;
            Reported(items, gs, replacements + [Replacement(key, Others(members, key))], result[key := CountOf(members)])
  {
    var n := |replacements|;
    var key := items[gs[n].key].channel;
    OtherMembers(items, gs[n], key);
    forall g | 0 <= g < n
      ensures IsResult(items, gs[g], replacements[g], result[key := CountOf(members)])
    {
      GroupsAscend(Channels(items), dist, gs, g, n);
    }
  }

  lemma {:induction false} OtherMembers(items: seq<Item>, s: Span, key: int)
    requires s.first <= s.end <= |items|
    ensures forall v :: v in Others(items[s.first..s.end], key) <==> v != key && Has(items, s.first, s.end, v)
  {
  }

  /** The inner loop of combine_channels: goes through all replacements for one element. */
  method ReplaceOne(el: int, replacements: seq<Replacement>, ghost items: seq<Item>, ghost result: map<int, nat>,
                    ghost dist: nat, ghost gs: seq<Span>) returns (r: int)
    requires Ascending(Channels(items)) && IsGrouping(Channels(items), dist, gs) && el in Channels(items)
    requires |replacements| == |gs| && forall g :: 0 <= g < |gs| ==> IsResult(items, gs[g], replacements[g], result)
    ensures r == Merged(Channels(items), gs, el)
  {
    ghost var cs := Channels(items);
    ghost var p := Place(cs, el);
    ghost var home := GroupOf(cs, dist, gs, p);
    MergedIs(cs, dist, gs, home, p);
    r := el;
    for n := 0 to |replacements|
      invariant r == if n <= home then el else cs[gs[home].key]
    {
      assert IsResult(items, gs[n], replacements[n], result);
      if n < home {
        GroupsAscend(cs, dist, gs, n, home);
      } else if n > home {
        GroupsAscend(cs, dist, gs, home, n);
      }
      if el in replacements[n].others {
        r := replacements[n].key;
      }
    }
  }

  lemma {:induction false} SomeElement<T>(s: set<T>) returns (y: T)
    requires s != {}
    ensures y in s
  {
    y :| y in s;
  }

  ghost predicate IsLeast(s: set<int>, m: int) {
    m in s && forall x :: x in s ==> m <= x
  }

  lemma {:induction false} LeastOf(s: set<int>)
    requires s != {}
    ensures exists m :: IsLeast(s, m)
    decreases |s|
  {
    var y := SomeElement(s);
    var t := s - {y};
    if t == {} {
      forall x | x in s
        ensures x == y
      {
        assert x != y ==> x in t;
      }
      assert IsLeast(s, y);
    } else {
      LeastOf(t);
      var m :| IsLeast(t, m);
      var least := if y < m then y else m;
      forall x | x in s
        ensures least <= x
      {
        assert x == y || x in t;
      }
      assert IsLeast(s, least);
    }
  }

  method Least(s: set<int>) returns (m: int)
    requires s != {}
    ensures IsLeast(s, m)
  {
    LeastOf(s);
    ghost var least :| IsLeast(s, least);
    m :| m in s && forall x :: x in s ==> m <= x;
  }

  /** The items are those of the smallest keys of `counts`, ascending, and `rest` are the other keys. */
  ghost predicate PartlySorted(items: seq<Item>, counts: map<int, nat>, rest: set<int>) {
    && rest <= counts.Keys && Ascending(Channels(items))
    && (forall v :: v in counts <==> v in Channels(items) || v in rest)
    && (forall i :: 0 <= i < |items| ==> items[i].channel in counts && items[i].count == counts[items[i].channel])
    && (items != [] ==> forall x :: x in rest ==> items[|items| - 1].channel < x)
  }

  lemma {:induction false} LeastIsNext(items: seq<Item>, counts: map<int, nat>, rest: set<int>, m: int)
    requires PartlySorted(items, counts, rest) && IsLeast(rest, m)
    ensures PartlySorted(items + [Item(m, counts[m])], counts, rest - {m})
  {
    var more := items + [Item(m, counts[m])];
    assert Channels(more) == Channels(items) + [m];
  }

  /** The items of the dictionary `counts` in ascending order, as Python's sorted() gives them. */
  method SortedItems(counts: map<int, nat>) returns (items: seq<Item>)
    ensures Ascending(Channels(items))
    ensures forall v :: v in counts <==> v in Channels(items)
    ensures forall i :: 0 <= i < |items| ==> items[i].channel in counts && items[i].count == counts[items[i].channel]
  {
    items := [];
    var rest := counts.Keys;
    while rest != {}
      invariant PartlySorted(items, counts, rest)
      decreases |rest|
    {
      var m := Least(rest);
      LeastIsNext(items, counts, rest, m);
      items := items + [Item(m, counts[m])];
      rest := rest - {m};
    }
  }

  /** How often each value occurs, counted in a dictionary. */
  method Counted(lst: array<int>) returns (counts: map<int, nat>)
    ensures forall v :: v in counts <==> v in lst[..]
    ensures forall v :: v in counts ==> counts[v] == multiset(lst[..])[v]
  {
    counts := map[];
    for i := 0 to lst.Length
      invariant forall v :: v in counts <==> v in lst[..i]
      invariant forall v :: v in counts ==> counts[v] == multiset(lst[..i])[v]
    {
      assert lst[..i + 1] == lst[..i] + [lst[i]];
      counts := counts[lst[i] := (if lst[i] in counts then counts[lst[i]] else 0) + 1];
    }
    assert lst[..lst.Length] == lst[..];
  }

  /** The values of the channel in ascending order, each with the number of its occurrences. */
  method CountedItems(lst: array<int>) returns (items: seq<Item>)
    ensures Ascending(Channels(items))
    ensures forall v :: v in lst[..] <==> v in Channels(items)
    ensures forall i :: 0 <= i < |items| ==> items[i].count == multiset(lst[..])[items[i].channel]
  {
    var counts := Counted(lst);
    items := SortedItems(counts);
  }

  /** Rewrites the channel in place, element by element. */
  method ReplaceAll(lst: array<int>, replacements: seq<Replacement>, ghost items: seq<Item>, ghost result: map<int, nat>,
                    ghost dist: nat, ghost gs: seq<Span>)
    requires Ascending(Channels(items)) && IsGrouping(Channels(items), dist, gs)
    requires forall i :: 0 <= i < lst.Length ==> lst[i] in Channels(items)
    requires |replacements| == |gs| && forall g :: 0 <= g < |gs| ==> IsResult(items, gs[g], replacements[g], result)
    modifies lst
    ensures forall i :: 0 <= i < lst.Length ==> lst[i] == Merged(Channels(items), gs, old(lst[i]))
  {
    for i := 0 to lst.Length
      invariant forall j :: i <= j < lst.Length ==> lst[j] == old(lst[j])
      invariant forall j :: 0 <= j < i ==> lst[j] == Merged(Channels(items), gs, old(lst[j]))
    {
      var r := ReplaceOne(lst[i], replacements, items, result, dist, gs);
      lst[i] := r;
    }
  }

  /** combine_channels: replaces every element of the image channel, in place, by the key of its group.  The keys
      are a minimum palette by GreedyIsMinimum. */
  method CombineChannels(lst: array<int>, dist: nat) returns (ghost items: seq<Item>, ghost gs: seq<Span>)
    modifies lst
    ensures Ascending(Channels(items)) && IsGrouping(Channels(items), dist, gs)
    ensures forall v :: v in old(lst[..]) <==> v in Channels(items)
    ensures forall i :: 0 <= i < |items| ==> items[i].count == multiset(old(lst[..]))[items[i].channel]
    ensures IsMergedBy(lst[..], old(lst[..]), dist, Channels(items), gs)
  {
    ghost var was := lst[..];
    var sorted := CountedItems(lst);
    items := sorted;
    var result, replacements;
    result, replacements, gs := CombineCore(sorted, dist);
    forall i | 0 <= i < lst.Length
      ensures lst[i] in Channels(items)
    {
      assert lst[i] == was[i] && was[i] in was;
    }
    ReplaceAll(lst, replacements, items, result, dist, gs);
    assert lst[..] == MergedAll(was, Channels(items), gs);
  }

  // ------------------------------------------------------------------ what merging a whole channel keeps

  ghost predicate Drawn(lst: seq<int>, cs: seq<int>) {
    forall i :: 0 <= i < |lst| ==> lst[i] in cs
  }

  /** The channel as combine_channels leaves it. */
  ghost function MergedAll(lst: seq<int>, cs: seq<int>, gs: seq<Span>): (r: seq<int>)
    requires Drawn(lst, cs) && InBounds(cs, gs)
    ensures |r| == |lst| && forall i :: 0 <= i < |lst| ==> r[i] == Merged(cs, gs, lst[i])
  {
    seq(|lst|, i requires 0 <= i < |lst| => Merged(cs, gs, lst[i]))
  }

  /** The channel `merged` is what merging makes of `lst`, with some grouping of its values. */
  ghost predicate IsMerged(merged: seq<int>, lst: seq<int>, dist: nat) {
    exists cs, gs :: IsMergedBy(merged, lst, dist, cs, gs)
  }

  ghost predicate IsMergedBy(merged: seq<int>, lst: seq<int>, dist: nat, cs: seq<int>, gs: seq<Span>) {
    && Ascending(cs) && IsGrouping(cs, dist, gs) && (forall v :: v in lst <==> v in cs)
    && Drawn(lst, cs) && merged == MergedAll(lst, cs, gs)
  }

  /** The list and the distance determine the merged channel. */
  lemma {:induction false} MergedIsUnique(lst: seq<int>, dist: nat, m: seq<int>, n: seq<int>)
    requires IsMerged(m, lst, dist) && IsMerged(n, lst, dist)
    ensures m == n
  {
    var cs, gs :| IsMergedBy(m, lst, dist, cs, gs);
    var ds, hs :| IsMergedBy(n, lst, dist, ds, hs);
    AscendingIsUnique(cs, ds, 0);
    GroupingIsUnique(cs, dist, gs, hs, 0);
  }

  /** How often the values from place a up to b occur in `m`, all together. */
  ghost function Occurrences(m: multiset<int>, cs: seq<int>, a: nat, b: nat): nat
    requires a <= b <= |cs|
  {
    if a == b then 0 else Occurrences(m, cs, a, b - 1) + m[cs[b - 1]]
  }

  lemma {:induction false} OneMore(m: multiset<int>, cs: seq<int>, a: nat, b: nat, p: nat)
    requires Ascending(cs) && a <= b <= |cs| && p < |cs|
    ensures Occurrences(m + multiset{cs[p]}, cs, a, b) == Occurrences(m, cs, a, b) + if a <= p < b then 1 else 0
  {
    if a < b {
      OneMore(m, cs, a, b - 1, p);
      assert p < b - 1 ==> cs[p] < cs[b - 1];
      assert b - 1 < p ==> cs[b - 1] < cs[p];
    }
  }

  lemma {:induction false} NoneYet(cs: seq<int>, a: nat, b: nat)
    requires a <= b <= |cs|
    ensures Occurrences(multiset{}, cs, a, b) == 0
  {
    if a < b {
      NoneYet(cs, a, b - 1);
    }
  }

  lemma {:induction false} OccurrencesAreCounts(m: multiset<int>, items: seq<Item>, a: nat, b: nat)
    requires a <= b <= |items| && forall i :: 0 <= i < |items| ==> items[i].count == m[items[i].channel]
    ensures Occurrences(m, Channels(items), a, b) == CountOf(items[a..b])
  {
    if a < b {
      OccurrencesAreCounts(m, items, a, b - 1);
      assert items[a..b][..b - a - 1] == items[a..b - 1];
    }
  }

  /** An element becomes the key of a group exactly if it is one of the group. */
  lemma {:induction false} MergedToKey(cs: seq<int>, dist: nat, gs: seq<Span>, g: nat, v: int)
    requires Ascending(cs) && IsGrouping(cs, dist, gs) && g < |gs| && v in cs
    ensures Merged(cs, gs, v) == cs[gs[g].key] <==> gs[g].first <= Place(cs, v) < gs[g].end
  {
    var p := Place(cs, v);
    var home := GroupOf(cs, dist, gs, p);
    MergedIs(cs, dist, gs, home, p);
    if home < g {
      GroupsAscend(cs, dist, gs, home, g);
    } else if g < home {
      GroupsAscend(cs, dist, gs, g, home);
    }
  }

  lemma {:induction false} OccurrencesConserved(lst: seq<int>, cs: seq<int>, dist: nat, gs: seq<Span>, g: nat)
    requires Ascending(cs) && IsGrouping(cs, dist, gs) && g < |gs| && Drawn(lst, cs)
    ensures multiset(MergedAll(lst, cs, gs))[cs[gs[g].key]] == Occurrences(multiset(lst), cs, gs[g].first, gs[g].end)
    decreases |lst|
  {
    if lst == [] {
      NoneYet(cs, gs[g].first, gs[g].end);
    } else {
      var front, x := lst[..|lst| - 1], lst[|lst| - 1];
      assert lst == front + [x];
      OccurrencesConserved(front, cs, dist, gs, g);
      OneMore(multiset(front), cs, gs[g].first, gs[g].end, Place(cs, x));
      MergedToKey(cs, dist, gs, g, x);
      assert MergedAll(lst, cs, gs) == MergedAll(front, cs, gs) + [Merged(cs, gs, x)];
    }
  }

  /** The total counts are conserved: a key occurs in the merged channel as often as combine_channels_core reports
      for its group, which is as often as the values of the group occurred before. */
  lemma {:induction false} CountsConserved(lst: seq<int>, items: seq<Item>, dist: nat, gs: seq<Span>, g: nat)
    requires Ascending(Channels(items)) && IsGrouping(Channels(items), dist, gs) && g < |gs|
    requires Drawn(lst, Channels(items))
    requires forall i :: 0 <= i < |items| ==> items[i].count == multiset(lst)[items[i].channel]
    ensures multiset(MergedAll(lst, Channels(items), gs))[items[gs[g].key].channel] == CountOf(items[gs[g].first..gs[g].end])
  {
    OccurrencesConserved(lst, Channels(items), dist, gs, g);
    OccurrencesAreCounts(multiset(lst), items, gs[g].first, gs[g].end);
  }

  /** Running combine_channels on its own output changes nothing: whatever grouping the second run forms of the
      colours left over, it maps each of them to itself. */
  lemma {:induction false} MergingTwiceChangesNothing(lst: seq<int>, cs: seq<int>, gs: seq<Span>, ks: seq<int>, hs: seq<Span>, dist: nat)
    requires Ascending(cs) && IsGrouping(cs, dist, gs) && Drawn(lst, cs)
    requires Ascending(ks) && IsGrouping(ks, dist, hs) && Drawn(MergedAll(lst, cs, gs), ks)
    requires forall k :: k in ks ==> k in MergedAll(lst, cs, gs)
    ensures MergedAll(MergedAll(lst, cs, gs), ks, hs) == MergedAll(lst, cs, gs)
  {
    var once := MergedAll(lst, cs, gs);
    forall i, j | 0 <= i < j < |ks|
      ensures ks[j] - ks[i] > dist
    {
      assert ks[i] in once && ks[j] in once && ks[i] < ks[j];
      var a :| 0 <= a < |once| && once[a] == ks[i];
      var b :| 0 <= b < |once| && once[b] == ks[j];
      MergeIsGentle(cs, dist, gs, lst[a], lst[b]);
    }
    forall i | 0 <= i < |once|
      ensures Merged(ks, hs, once[i]) == once[i]
    {
      MergeOfApart(ks, dist, hs, once[i]);
    }
  }
}
