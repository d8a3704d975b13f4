/** The heap break, and the slab allocator that the profiler puts on top of it. */
module HeapBreak {
  import opened Words

  const FAILED := 0xFFFF_FFFF
  const SLAB := 1020
  const ENTRY := 12

  /** The linker's bounds, heap_end, and what is left of the current slab. */
  datatype Heap = Heap(start: u32, limit: u32, end: u32, slabPtr: u32, slabSize: nat)

  /** Rounded up to a word boundary, in 32 bits. */
  function Aligned(a: u32): u32 {
    (a + 3) % U32 / 4 * 4
  }

  /** The break moves up to a word boundary even when the request is then refused. */
  function Sbrk(h: Heap, incr: s32): (Heap, u32) {
    var end := Aligned(h.end);
    var next := (end + incr) % U32;
    if next > h.limit then (h.(end := end), FAILED) else (h.(end := next), end)
  }

  // ------------------------------------------------------------------ what was handed out

  datatype Block = Block(addr: u32, size: nat)

  /** An entry and the slab it was cut from; no slab when that slab had been refused. */
  datatype Piece = Piece(part: Block, slab: int)

  /** The heap with all the blocks granted and all the entries cut so far; current is the slab in use. */
  datatype History = History(heap: Heap, blocks: seq<Block>, pieces: seq<Piece>, current: int)

  function Fresh(start: u32, limit: u32): History {
    History(Heap(start, limit, start, 0, 0), [], [], -1)
  }

  function Extended(s: History, incr: s32): History {
    var (h, r) := Sbrk(s.heap, incr);
    s.(heap := h, blocks := if r == FAILED || incr <= 0 then s.blocks else s.blocks + [Block(r, incr)])
  }

  /** Asks for a new slab when the entry does not fit, and uses it without looking whether it was granted. */
  function WithSlab(s: History): History {
    if ENTRY <= s.heap.slabSize then s else
      var t := Extended(s, SLAB);
      var r := Sbrk(s.heap, SLAB).1;
      t.(heap := t.heap.(slabPtr := r, slabSize := SLAB), current := if r == FAILED then -1 else |s.blocks|)
  }

  /** Takes an entry off the front of what is left of the slab. */
  function Cut(t: History): History
    requires ENTRY <= t.heap.slabSize
  {
    t.(heap := t.heap.(slabPtr := (t.heap.slabPtr + ENTRY) % U32, slabSize := t.heap.slabSize - ENTRY),
       pieces := t.pieces + [Piece(Block(t.heap.slabPtr, ENTRY), t.current)])
  }

  function Allocated(s: History): History {
    Cut(WithSlab(s))
  }

  /** A function that is seen first gets an entry; its new arc always gets one. */
  function Recorded(s: History, first: bool): History {
    Allocated(if first then Allocated(s) else s)
  }

  /** A recorded call cuts two entries or one, next to each other while they fit the slab, and asks for at most one new
      slab; no earlier entry or block changes. */
  lemma RecordedCount(s: History, first: bool)
    ensures var t := Recorded(s, first);
      var n := if first then 2 else 1;
      && s.pieces <= t.pieces && |t.pieces| == |s.pieces| + n
      && (forall i :: |s.pieces| <= i < |t.pieces| ==> t.pieces[i].part.size == ENTRY)
      && s.blocks <= t.blocks && |t.blocks| <= |s.blocks| + 1
      && (forall i :: |s.blocks| <= i < |t.blocks| ==> t.blocks[i].size == SLAB)
      && (n * ENTRY <= s.heap.slabSize ==>
            && t.blocks == s.blocks && t.heap.end == s.heap.end
            && forall i :: 0 <= i < n ==> t.pieces[|s.pieces| + i].part.addr == (s.heap.slabPtr + i * ENTRY) % U32)
  {
    var u := Allocated(s);
    assert u.pieces == s.pieces + [u.pieces[|s.pieces|]];
    assert Allocated(u).pieces == u.pieces + [Allocated(u).pieces[|u.pieces|]];
  }

  datatype Call = Extend(incr: s32) | Record(first: bool)

  function Step(s: History, c: Call): History {
    match c
    case Extend(incr) => Extended(s, incr)
    case Record(first) => Recorded(s, first)
  }

  function Run(s: History, calls: seq<Call>): History
    decreases |calls|
  {
    if calls == [] then s else Run(Step(s, calls[0]), calls[1..])
  }

  // ------------------------------------------------------------------ blocks that keep apart

  predicate Apart(a: Block, b: Block) {
    a.addr + a.size <= b.addr || b.addr + b.size <= a.addr
  }

  predicate Inside(p: Block, b: Block) {
    b.addr <= p.addr && p.addr + p.size <= b.addr + b.size
  }

  /** A block is word aligned and inside the heap. */
  predicate Proper(b: Block, start: nat, limit: nat) {
    b.size > 0 && b.addr % 4 == 0 && start <= b.addr && b.addr + b.size <= limit
  }

  /** All blocks are word aligned, inside the heap, and pairwise disjoint. */
  ghost predicate Good(blocks: seq<Block>, start: nat, limit: nat) {
    && (forall i :: 0 <= i < |blocks| ==> Proper(blocks[i], start, limit))
    && (forall i, j :: 0 <= i < j < |blocks| ==> Apart(blocks[i], blocks[j]))
  }

  /** Where the highest block ends, or the heap starts. */
  function Top(start: nat, blocks: seq<Block>): (t: nat)
    ensures start <= t && forall i :: 0 <= i < |blocks| ==> blocks[i].addr + blocks[i].size <= t
  {
    if blocks == [] then start
    else
      var front, last := Top(start, blocks[..|blocks| - 1]), blocks[|blocks| - 1];
      assert forall i :: 0 <= i < |blocks| - 1 ==> blocks[..|blocks| - 1][i] == blocks[i];
      if last.addr + last.size > front then last.addr + last.size else front
  }

  lemma {:induction false} TopIsWithin(start: nat, limit: nat, blocks: seq<Block>)
    requires start <= limit && Good(blocks, start, limit)
    ensures Top(start, blocks) <= limit
  {
    if blocks != [] {
      assert forall i :: 0 <= i < |blocks| - 1 ==> blocks[..|blocks| - 1][i] == blocks[i];
      TopIsWithin(start, limit, blocks[..|blocks| - 1]);
    }
  }

  /** Below the highest block there is no room for another one: every word is taken. */
  ghost predicate Covered(blocks: seq<Block>, start: nat) {
    forall a: nat {:trigger Taken(blocks, a)} :: a % 4 == 0 && start <= a < Top(start, blocks) ==> Taken(blocks, a)
  }

  ghost predicate Taken(blocks: seq<Block>, a: nat) {
    exists i :: 0 <= i < |blocks| && blocks[i].addr <= a < blocks[i].addr + blocks[i].size
  }

  /** The next word boundary. */
  function Up(a: nat): nat {
    (a + 3) / 4 * 4
  }

  lemma UpIsNear(a: nat)
    ensures a <= Up(a) <= a + 3 && Up(a) % 4 == 0 && Up(Up(a)) == Up(a)
  {
  }

  lemma UpIsLeast(a: nat, b: nat)
    requires a <= b && b % 4 == 0
    ensures Up(a) <= b
  {
  }

  lemma AlignedIsUp(a: u32)
    requires a <= 0x8000_0000
    ensures Aligned(a) == Up(a)
  {
  }

  /** A request of any sign is granted exactly if the new break lies between zero and the limit, and then moves the
      break from the next word boundary on; otherwise the break only moves up to that boundary. */
  lemma SbrkIs(h: Heap, incr: s32)
    requires h.limit < 0x8000_0000 && h.end <= 0x8000_0000
    ensures var (g, r) := Sbrk(h, incr);
      var e := Up(h.end);
      if 0 <= e + incr <= h.limit then r == e && g == h.(end := e + incr) else r == FAILED && g == h.(end := e)
  {
    AlignedIsUp(h.end);
    UpIsNear(h.end);
  }

  lemma AddedIsGood(blocks: seq<Block>, start: nat, limit: nat, b: Block)
    requires Good(blocks, start, limit) && Proper(b, start, limit) && Top(start, blocks) <= b.addr
    ensures Good(blocks + [b], start, limit) && Top(start, blocks + [b]) == b.addr + b.size
  {
    assert (blocks + [b])[..|blocks|] == blocks;
  }

  lemma AddedIsCovered(blocks: seq<Block>, start: nat, b: Block)
    requires Covered(blocks, start) && b.addr == Up(Top(start, blocks)) && b.size > 0
    ensures Covered(blocks + [b], start)
  {
    var more := blocks + [b];
    assert more[..|blocks|] == blocks;
    UpIsNear(Top(start, blocks));
    forall a: nat {:trigger Taken(more, a)} | a % 4 == 0 && start <= a < Top(start, more)
      ensures Taken(more, a)
    {
      if a < Top(start, blocks) {
        assert Taken(blocks, a);
        var i :| 0 <= i < |blocks| && blocks[i].addr <= a < blocks[i].addr + blocks[i].size;
        assert more[i] == blocks[i];
      } else {
        UpIsLeast(Top(start, blocks), a);
        assert more[|blocks|].addr <= a;
      }
    }
  }

  // ------------------------------------------------------------------ one request

  function TopOf(s: History): nat {
    Top(s.heap.start, s.blocks)
  }

  ghost predicate GoodBlocks(s: History) {
    Good(s.blocks, s.heap.start, s.heap.limit)
  }

  /** The addresses keep clear of the sign bit, the blocks are good and leave no gap, and the break is not above the
      word boundary after them. */
  ghost predicate Packed(s: History) {
    && s.heap.start <= s.heap.limit < 0x8000_0000
    && s.heap.end <= Up(TopOf(s))
    && GoodBlocks(s) && Covered(s.blocks, s.heap.start)
  }

  /** What a caller has to see to: a request that is granted finds the break at or above all the blocks. */
  predicate OnTop(s: History, incr: s32) {
    var e := Up(s.heap.end);
    0 < incr && e + incr <= s.heap.limit ==> TopOf(s) <= e
  }

  lemma BreakIsLow(s: History)
    requires Packed(s)
    ensures s.heap.end <= 0x8000_0000 && Up(s.heap.end) <= Up(TopOf(s))
    ensures TopOf(s) <= Up(s.heap.end) ==> Up(s.heap.end) == Up(TopOf(s))
  {
    TopIsWithin(s.heap.start, s.heap.limit, s.blocks);
    UpIsNear(TopOf(s));
    UpIsNear(s.heap.end);
    UpIsLeast(s.heap.end, Up(TopOf(s)));
    if TopOf(s) <= Up(s.heap.end) {
      UpIsLeast(TopOf(s), Up(s.heap.end));
    }
  }

  lemma OnTopKeepsPacked(s: History, incr: s32)
    requires Packed(s) && OnTop(s, incr)
    ensures Packed(Extended(s, incr))
  {
    BreakIsLow(s);
    SbrkIs(s.heap, incr);
    var e := Up(s.heap.end);
    if 0 < incr && e + incr <= s.heap.limit {
      UpIsNear(s.heap.end);
      AddedIsGood(s.blocks, s.heap.start, s.heap.limit, Block(e, incr));
      AddedIsCovered(s.blocks, s.heap.start, Block(e, incr));
      UpIsNear(e + incr);
    }
  }

  /** A block that is granted below the top lies outside the heap or overlaps another one. */
  lemma NotOnTopIsBad(s: History, incr: s32)
    requires Packed(s) && !OnTop(s, incr)
    ensures !GoodBlocks(Extended(s, incr))
  {
    BreakIsLow(s);
    SbrkIs(s.heap, incr);
    UpIsNear(s.heap.end);
    var e, n := Up(s.heap.end), |s.blocks|;
    var more := Extended(s, incr).blocks;
    assert more[n] == Block(e, incr);
    if s.heap.start <= e {
      assert Taken(s.blocks, e);
      var i :| 0 <= i < n && s.blocks[i].addr <= e < s.blocks[i].addr + s.blocks[i].size;
      assert more[i] == s.blocks[i] && !Apart(more[i], more[n]);
    } else {
      assert !Proper(more[n], s.heap.start, s.heap.limit);
    }
  }

  // ------------------------------------------------------------------ entries

  ghost predicate PiecesApart(s: History) {
    && (forall i :: 0 <= i < |s.pieces| && s.pieces[i].slab >= 0 ==>
          s.pieces[i].slab < |s.blocks| && s.blocks[s.pieces[i].slab].size == SLAB &&
          Inside(s.pieces[i].part, s.blocks[s.pieces[i].slab]))
    && (forall i, j :: 0 <= i < j < |s.pieces| && s.pieces[i].slab >= 0 && s.pieces[j].slab >= 0 ==>
          Apart(s.pieces[i].part, s.pieces[j].part))
  }

  /** The rest of the current slab lies at its end, behind all the entries cut from it. */
  ghost predicate RestIsFree(s: History) {
    && -1 <= s.current < |s.blocks|
    && s.heap.slabSize <= SLAB
    && (s.current >= 0 ==>
          var slab := s.blocks[s.current];
          slab.size == SLAB && s.heap.slabPtr + s.heap.slabSize == slab.addr + SLAB)
    && (s.current >= 0 ==> forall i :: 0 <= i < |s.pieces| && s.pieces[i].slab == s.current ==>
          s.pieces[i].part.addr + ENTRY <= s.heap.slabPtr)
    && (forall i :: 0 <= i < |s.pieces| ==> s.pieces[i].part.size == ENTRY)
  }

  ghost predicate Inv(s: History) {
    Packed(s) && PiecesApart(s) && RestIsFree(s)
  }

  /** The slab request of an entry that does not fit is one that keeps the blocks apart. */
  predicate EntryOnTop(s: History) {
    ENTRY <= s.heap.slabSize || OnTop(s, SLAB)
  }

  lemma ExtendedKeepsInv(s: History, incr: s32)
    requires Inv(s) && OnTop(s, incr)
    ensures Inv(Extended(s, incr))
  {
    OnTopKeepsPacked(s, incr);
    BlocksGrow(s, incr);
  }

  lemma BlocksGrow(s: History, incr: s32)
    ensures s.blocks <= Extended(s, incr).blocks
    ensures Extended(s, incr).heap == s.heap.(end := Extended(s, incr).heap.end)
  {
  }

  lemma WithSlabKeepsInv(s: History)
    requires Inv(s) && EntryOnTop(s)
    ensures Inv(WithSlab(s)) && WithSlab(s).heap.slabSize >= ENTRY
  {
    if ENTRY > s.heap.slabSize {
      ExtendedKeepsInv(s, SLAB);
      BreakIsLow(s);
      SbrkIs(s.heap, SLAB);
    }
  }

  lemma CutIsApart(t: History, i: nat)
    requires Inv(t) && ENTRY <= t.heap.slabSize && t.current >= 0 && i < |t.pieces| && t.pieces[i].slab >= 0
    ensures Apart(t.pieces[i].part, Block(t.heap.slabPtr, ENTRY))
  {
    var own := t.pieces[i].slab;
    assert Inside(t.pieces[i].part, t.blocks[own]);
    if own < t.current {
      assert Apart(t.blocks[own], t.blocks[t.current]);
    } else if own > t.current {
      assert Apart(t.blocks[t.current], t.blocks[own]);
    }
  }

  lemma CutKeepsApart(t: History)
    requires Inv(t) && ENTRY <= t.heap.slabSize
    ensures PiecesApart(Cut(t))
  {
    forall i | 0 <= i < |t.pieces| && t.pieces[i].slab >= 0 && t.current >= 0
      ensures Apart(t.pieces[i].part, Block(t.heap.slabPtr, ENTRY))
    {
      CutIsApart(t, i);
    }
    assert forall i :: 0 <= i < |t.pieces| ==> Cut(t).pieces[i] == t.pieces[i];
  }

  lemma CutKeepsRest(t: History)
    requires Inv(t) && ENTRY <= t.heap.slabSize
    ensures RestIsFree(Cut(t))
  {
    assert t.current >= 0 ==> Proper(t.blocks[t.current], t.heap.start, t.heap.limit);
    assert forall i :: 0 <= i < |t.pieces| ==> Cut(t).pieces[i] == t.pieces[i];
  }

  lemma CutKeepsInv(t: History)
    requires Inv(t) && ENTRY <= t.heap.slabSize
    ensures Inv(Cut(t))
  {
    CutKeepsApart(t);
    CutKeepsRest(t);
  }

  lemma AllocatedKeepsInv(s: History)
    requires Inv(s) && EntryOnTop(s)
    ensures Inv(Allocated(s))
  {
    WithSlabKeepsInv(s);
    CutKeepsInv(WithSlab(s));
  }

  // ------------------------------------------------------------------ whole runs

  predicate CallOnTop(s: History, c: Call) {
    match c
    case Extend(incr) => OnTop(s, incr)
    case Record(first) => EntryOnTop(s) && (first ==> EntryOnTop(Allocated(s)))
  }

  predicate AllOnTop(s: History, calls: seq<Call>)
    decreases |calls|
  {
    calls == [] || (CallOnTop(s, calls[0]) && AllOnTop(Step(s, calls[0]), calls[1..]))
  }

  lemma StepKeepsInv(s: History, c: Call)
    requires Inv(s) && CallOnTop(s, c)
    ensures Inv(Step(s, c))
  {
    match c {
      case Extend(incr) => ExtendedKeepsInv(s, incr);
      case Record(first) =>
        AllocatedKeepsInv(s);
        if first {
          AllocatedKeepsInv(Allocated(s));
        }
    }
  }

  lemma {:induction false} RunKeepsInv(s: History, calls: seq<Call>)
    requires Inv(s) && AllOnTop(s, calls)
    ensures Inv(Run(s, calls))
    decreases |calls|
  {
    if calls != [] {
      StepKeepsInv(s, calls[0]);
      RunKeepsInv(Step(s, calls[0]), calls[1..]);
    }
  }

  /** Within the same bounds a history has all the blocks of another one, and perhaps more. */
  predicate Extends(t: History, s: History) {
    s.blocks <= t.blocks && t.heap.start == s.heap.start && t.heap.limit == s.heap.limit
  }

  lemma AllocatedExtends(s: History)
    ensures Extends(Allocated(s), s)
    ensures ENTRY > s.heap.slabSize ==> Allocated(s).blocks == Extended(s, SLAB).blocks
  {
    BlocksGrow(s, SLAB);
  }

  lemma StepExtends(s: History, c: Call)
    ensures Extends(Step(s, c), s)
    ensures c.Record? ==> Extends(Step(s, c), Allocated(s))
  {
    match c {
      case Extend(incr) => BlocksGrow(s, incr);
      case Record(first) =>
        AllocatedExtends(s);
        AllocatedExtends(Allocated(s));
    }
  }

  lemma {:induction false} RunExtends(s: History, calls: seq<Call>)
    ensures Extends(Run(s, calls), s)
    decreases |calls|
  {
    if calls != [] {
      StepExtends(s, calls[0]);
      RunExtends(Step(s, calls[0]), calls[1..]);
    }
  }

  lemma BadStaysBad(s: History, t: History)
    requires Extends(t, s) && GoodBlocks(t)
    ensures GoodBlocks(s)
  {
    assert forall i :: 0 <= i < |s.blocks| ==> t.blocks[i] == s.blocks[i];
  }

  lemma EntryNotOnTopIsBad(s: History)
    requires Packed(s) && !EntryOnTop(s)
    ensures !GoodBlocks(Allocated(s))
  {
    AllocatedExtends(s);
    NotOnTopIsBad(s, SLAB);
    BlocksGrow(s, SLAB);
  }

  lemma CallNotOnTopIsBad(s: History, c: Call)
    requires Inv(s) && !CallOnTop(s, c)
    ensures !GoodBlocks(Step(s, c))
  {
    match c {
      case Extend(incr) => NotOnTopIsBad(s, incr);
      case Record(first) =>
        if !EntryOnTop(s) {
          EntryNotOnTopIsBad(s);
          if GoodBlocks(Step(s, c)) {
            StepExtends(s, c);
            BadStaysBad(Allocated(s), Step(s, c));
          }
        } else {
          AllocatedKeepsInv(s);
          EntryNotOnTopIsBad(Allocated(s));
        }
    }
  }

  /** Over any run, with increments of any sign: all blocks are word aligned, inside the heap and pairwise disjoint
      exactly if every request that was granted found the break at or above the blocks granted before. */
  lemma {:induction false} DisjointIff(s: History, calls: seq<Call>)
    requires Inv(s)
    ensures GoodBlocks(Run(s, calls)) <==> AllOnTop(s, calls)
    decreases |calls|
  {
    if calls != [] {
      var t := Step(s, calls[0]);
      if CallOnTop(s, calls[0]) {
        StepKeepsInv(s, calls[0]);
        DisjointIff(t, calls[1..]);
      } else {
        CallNotOnTopIsBad(s, calls[0]);
        RunExtends(t, calls[1..]);
        if GoodBlocks(Run(t, calls[1..])) {
          BadStaysBad(t, Run(t, calls[1..]));
        }
      }
    }
  }

  predicate Grows(c: Call) {
    c.Extend? ==> c.incr >= 0
  }

  lemma ExtendedStaysUp(s: History, incr: s32)
    requires Packed(s) && TopOf(s) <= s.heap.end && incr >= 0
    ensures OnTop(s, incr) && TopOf(Extended(s, incr)) <= Extended(s, incr).heap.end
  {
    BreakIsLow(s);
    SbrkIs(s.heap, incr);
    UpIsNear(s.heap.end);
    var e := Up(s.heap.end);
    if 0 < incr && e + incr <= s.heap.limit {
      TopIsWithin(s.heap.start, s.heap.limit, s.blocks);
      AddedIsGood(s.blocks, s.heap.start, s.heap.limit, Block(e, incr));
    }
  }

  lemma StepStaysUp(s: History, c: Call)
    requires Inv(s) && TopOf(s) <= s.heap.end && Grows(c)
    ensures CallOnTop(s, c) && TopOf(Step(s, c)) <= Step(s, c).heap.end
  {
    match c {
      case Extend(incr) => ExtendedStaysUp(s, incr);
      case Record(first) =>
        ExtendedStaysUp(s, SLAB);
        if first {
          AllocatedKeepsInv(s);
          ExtendedStaysUp(Allocated(s), SLAB);
        }
    }
  }

  /** Without negative increments the break is never below the blocks. */
  lemma {:induction false} GrowingIsOnTop(s: History, calls: seq<Call>)
    requires Inv(s) && TopOf(s) <= s.heap.end && forall i :: 0 <= i < |calls| ==> Grows(calls[i])
    ensures AllOnTop(s, calls)
    decreases |calls|
  {
    if calls != [] {
      StepStaysUp(s, calls[0]);
      StepKeepsInv(s, calls[0]);
      GrowingIsOnTop(Step(s, calls[0]), calls[1..]);
    }
  }

  lemma FreshInv(start: u32, limit: u32)
    requires start <= limit < 0x8000_0000
    ensures Inv(Fresh(start, limit)) && TopOf(Fresh(start, limit)) == start
  {
    UpIsNear(start);
  }

  /** What this says of a whole run from the start without negative increments. */
  lemma HeapIsDisjoint(start: u32, limit: u32, calls: seq<Call>)
    requires start <= limit < 0x8000_0000
    requires forall i :: 0 <= i < |calls| ==> Grows(calls[i])
    ensures var s := Run(Fresh(start, limit), calls);
            && (forall i :: 0 <= i < |s.blocks| ==> Proper(s.blocks[i], start, limit))
            && (forall i, j :: 0 <= i < j < |s.blocks| ==> Apart(s.blocks[i], s.blocks[j]))
            && PiecesApart(s)
  {
    var s := Fresh(start, limit);
    FreshInv(start, limit);
    GrowingIsOnTop(s, calls);
    RunKeepsInv(s, calls);
    RunExtends(s, calls);
  }

  // ------------------------------------------------------------------ refused slabs

  /** The guard that the code leaves out: the entry fits the slab, or a new slab fits the heap. */
  predicate EntryFits(s: History) {
    ENTRY <= s.heap.slabSize || Up(s.heap.end) + SLAB <= s.heap.limit
  }

  predicate CallFits(s: History, c: Call) {
    c.Record? ==> EntryFits(s) && (c.first ==> EntryFits(Allocated(s)))
  }

  predicate AllFit(s: History, calls: seq<Call>)
    decreases |calls|
  {
    calls == [] || (CallFits(s, calls[0]) && AllFit(Step(s, calls[0]), calls[1..]))
  }

  /** Every entry so far was cut from a granted slab, and so will the next one be if no new slab is needed. */
  ghost predicate NoneLost(s: History) {
    && (forall i :: 0 <= i < |s.pieces| ==> s.pieces[i].slab >= 0)
    && (ENTRY <= s.heap.slabSize ==> s.current >= 0)
  }

  lemma AllocatedIff(s: History)
    requires Inv(s) && NoneLost(s)
    ensures NoneLost(Allocated(s)) <==> EntryFits(s)
    ensures !EntryFits(s) ==> Allocated(s).pieces[|s.pieces|] == Piece(Block(FAILED, ENTRY), -1)
  {
    BreakIsLow(s);
    SbrkIs(s.heap, SLAB);
    var t := Allocated(s);
    assert t.pieces[|s.pieces|].slab == t.current;
    assert forall i :: 0 <= i < |s.pieces| ==> t.pieces[i] == s.pieces[i];
  }

  lemma {:induction false} PiecesStay(s: History, calls: seq<Call>)
    ensures |s.pieces| <= |Run(s, calls).pieces| && Run(s, calls).pieces[..|s.pieces|] == s.pieces
    decreases |calls|
  {
    if calls != [] {
      var t := Step(s, calls[0]);
      assert t.pieces[..|s.pieces|] == s.pieces;
      PiecesStay(t, calls[1..]);
      assert Run(s, calls).pieces[..|s.pieces|] == Run(t, calls[1..]).pieces[..|t.pieces|][..|s.pieces|];
    }
  }

  /** A piece without a slab sits at the index. */
  predicate LostAt(s: History, i: int) {
    0 <= i < |s.pieces| && s.pieces[i].slab < 0
  }

  lemma RecordedIff(s: History, first: bool)
    requires Inv(s) && NoneLost(s) && EntryOnTop(s)
    ensures CallFits(s, Record(first)) ==> NoneLost(Recorded(s, first))
    ensures !CallFits(s, Record(first)) ==>
              LostAt(Recorded(s, first), |s.pieces|) || LostAt(Recorded(s, first), |s.pieces| + 1)
  {
    AllocatedIff(s);
    if first {
      AllocatedKeepsInv(s);
      var t := Allocated(s);
      assert Allocated(t).pieces[..|t.pieces|] == t.pieces;
      if EntryFits(s) {
        AllocatedIff(t);
      }
    }
  }

  ghost predicate AllPlaced(s: History) {
    forall i :: 0 <= i < |s.pieces| ==> s.pieces[i].slab >= 0
  }

  lemma LostStaysLost(s: History, calls: seq<Call>, i: int)
    requires LostAt(s, i)
    ensures !AllPlaced(Run(s, calls))
  {
    PiecesStay(s, calls);
    assert Run(s, calls).pieces[..|s.pieces|][i] == s.pieces[i];
  }

  /** Over a run whose blocks keep apart, every entry has its own part of a slab exactly when each one fitted the slab
      or the heap at the time it was asked for. */
  lemma {:induction false} NoneLostIff(s: History, calls: seq<Call>)
    requires Inv(s) && NoneLost(s) && AllOnTop(s, calls)
    ensures AllPlaced(Run(s, calls)) <==> AllFit(s, calls)
    decreases |calls|
  {
    if calls != [] {
      var c := calls[0];
      var t := Step(s, c);
      StepKeepsInv(s, c);
      if c.Record? {
        RecordedIff(s, c.first);
      }
      if CallFits(s, c) {
        assert NoneLost(t);
        NoneLostIff(t, calls[1..]);
      } else {
        var i :| LostAt(t, i);
        LostStaysLost(t, calls[1..], i);
      }
    }
  }

  /** Giving memory back breaks it: eight bytes, then minus four, then four more. */
  lemma ShrinkingOverlaps()
    ensures var s := Run(Fresh(0x1000, 0x2000), [Extend(8), Extend(-4), Extend(4)]);
            s.blocks == [Block(0x1000, 8), Block(0x1004, 4)] && !GoodBlocks(s)
  {
    var s := Fresh(0x1000, 0x2000);
    var t := Step(s, Extend(8));
    assert t.heap.end == 0x1008 && t.blocks == [Block(0x1000, 8)];
    var u := Step(t, Extend(-4));
    assert u.heap.end == 0x1004 && u.blocks == t.blocks;
    var v := Step(u, Extend(4));
    assert v.blocks == [Block(0x1000, 8), Block(0x1004, 4)] && !Apart(v.blocks[0], v.blocks[1]);
    RunThree(s, Extend(8), Extend(-4), Extend(4));
  }

  lemma RunThree(s: History, a: Call, b: Call, c: Call)
    ensures Run(s, [a, b, c]) == Step(Step(Step(s, a), b), c)
  {
    assert [a, b, c][1..] == [b, c] && [b, c][1..] == [c] && [c][1..] == [];
    assert Run(Step(Step(s, a), b), [c]) == Step(Step(Step(s, a), b), c);
  }

  /** The bound on the limit is needed: above it the 32-bit sum can wrap round, and a request that no heap could meet
      is granted. */
  lemma WrappedRequestIsGranted()
    ensures var s := Extended(Fresh(0xF000_0000, 0xFFFF_0000), 0x7000_0000);
            s.blocks == [Block(0xF000_0000, 0x7000_0000)] && s.heap.end == 0x6000_0000 && !GoodBlocks(s)
  {
    var s := Extended(Fresh(0xF000_0000, 0xFFFF_0000), 0x7000_0000);
    assert s.blocks[0] == Block(0xF000_0000, 0x7000_0000) && !Proper(s.blocks[0], 0xF000_0000, 0xFFFF_0000);
  }

  // ------------------------------------------------------------------ the code

  class Break {
    const start: u32
    const limit: u32
    var heapEnd: u32
    var slabPtr: u32
    var slabSize: nat
    ghost var history: History

    ghost predicate Valid()
      reads this
    {
      history.heap == Heap(start, limit, heapEnd, slabPtr, slabSize)
    }

    constructor (start: u32, limit: u32)
      ensures Valid() && history == Fresh(start, limit)
    {
      this.start, this.limit, this.heapEnd, this.slabPtr, this.slabSize := start, limit, start, 0, 0;
      this.history := Fresh(start, limit);
    }

    method AltSbrk(incr: s32) returns (r: u32)
      requires Valid()
      modifies this
      ensures Valid() && history == Extended(old(history), incr)
      ensures r == Sbrk(old(history).heap, incr).1
    {
      history := Extended(history, incr);
      heapEnd := (heapEnd + 3) % U32 / 4 * 4;
      if (heapEnd + incr) % U32 > limit {
        return FAILED;
      }
      r := heapEnd;
      heapEnd := (heapEnd + incr) % U32;
    }

    method McountAllocate() returns (data: u32)
      requires Valid()
      modifies this
      ensures Valid() && history == Allocated(old(history))
      ensures data == history.pieces[|history.pieces| - 1].part.addr
    {
      if ENTRY > slabSize {
        ghost var before := history;
        slabPtr := AltSbrk(SLAB);
        slabSize := SLAB;
        history := WithSlab(before);
      }
      history := Cut(history);
      data := slabPtr;
      slabPtr := (slabPtr + ENTRY) % U32;
      slabSize := slabSize - ENTRY;
    }

    /** The addresses of the entries for a recorded call. */
    method McountRecord(first: bool) returns (entries: seq<u32>)
      requires Valid()
      modifies this
      ensures Valid() && history == Recorded(old(history), first)
      ensures |entries| == |history.pieces| - |old(history).pieces|
      ensures forall i :: 0 <= i < |entries| ==> entries[i] == history.pieces[|old(history).pieces| + i].part.addr
    {
      entries := [];
      if first {
        var entry := McountAllocate();
        entries := [entry];
      }
      var arc := McountAllocate();
      entries := entries + [arc];
    }

    /** Any run of calls. */
    method Session(calls: seq<Call>)
      requires Valid()
      modifies this
      ensures Valid() && history == Run(old(history), calls)
    {
      var k := 0;
      while k < |calls|
        invariant 0 <= k <= |calls| && Valid()
        invariant Run(history, calls[k..]) == Run(old(history), calls)
      {
        assert calls[k..][1..] == calls[k + 1..];
        match calls[k] {
          case Extend(incr) => var _ := AltSbrk(incr);
          case Record(first) => var _ := McountRecord(first);
        }
        k := k + 1;
      }
    }
  }
}
