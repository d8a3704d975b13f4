/** Nested interrupts: the active and priority masks, the dispatch loop, and the stack of interrupted handlers. */
module IrqNesting {

  const NIRQ := 32

  type Irq = i: nat | i < NIRQ

  /** A 32-bit mask as the set of its bit numbers. */
  type Mask = set<Irq>

  function Below(p: nat): (m: Mask)
    requires p <= NIRQ
    ensures forall i: Irq :: i in m <==> i < p
  {
    if p == 0 then {} else Below(p - 1) + {p - 1}
  }

  /** What an activation of alt_irq_handler is doing: about to read the pending interrupts for the first time, inside
      an interrupt service routine before or after its bracket, inside the bracket, about to read them again, or
      stuck in the search for a pending bit that is not there. */
  datatype Phase = Entering | Running(id: Irq) | Open(id: Irq, saved: Mask) | Again | Spinning

  /** The variables and registers, the interrupt lines, and the handlers from the first interrupted to the last. */
  datatype State = State(active: Mask, mask: Mask, ienable: Mask, pie: bool, lines: Mask, stack: seq<Phase>)

  const RESET := State({}, Below(NIRQ), {}, false, {}, [])

  /** The ipending register. */
  function Pending(s: State): Mask {
    s.lines * s.ienable
  }

  predicate HasTop(s: State) {
    s.stack != []
  }

  function Top(s: State): Phase
    requires HasTop(s)
  {
    s.stack[|s.stack| - 1]
  }

  function WithTop(s: State, p: Phase): State
    requires HasTop(s)
  {
    s.(stack := s.stack[..|s.stack| - 1] + [p])
  }

  function Lowest(m: Mask): (i: Irq)
    requires m != {}
    ensures i in m && forall j :: j in m ==> i <= j
  {
    LowestFrom(m, 0)
  }

  function LowestFrom(m: Mask, k: Irq): (i: Irq)
    requires m != {} && forall j :: j in m ==> k <= j
    ensures i in m && forall j :: j in m ==> i <= j
    decreases NIRQ - k
  {
    if k in m then k
    else
      var j :| j in m;
      LowestFrom(m, k + 1)
  }

  // ------------------------------------------------------------------ the steps

  /** A line changes; the processor takes an interrupt; the handler reads the pending interrupts; a service routine
      opens or closes its bracket or returns; an interrupt is enabled or disabled; the global enable bit is set. */
  datatype Step = Line(id: Irq, high: bool) | Interrupt | Read | OpenBracket | CloseBracket | Return
                | Enable(id: Irq) | Disable(id: Irq) | SetPie(on: bool)

  /** When the program or the hardware can take the step. */
  predicate Possible(s: State, c: Step) {
    match c
    case Line(_, _) => true
    case Interrupt => s.pie && Pending(s) != {}
    case Read => HasTop(s) && (Top(s).Entering? || Top(s).Again?)
    case OpenBracket => HasTop(s) && Top(s).Running?
    case CloseBracket => HasTop(s) && Top(s).Open?
    case Return => HasTop(s) && Top(s).Running?
    case Enable(_) => HasTop(s) ==> Top(s).Running? || Top(s).Open?
    case Disable(_) => HasTop(s) ==> Top(s).Running? || Top(s).Open?
    case SetPie(_) => HasTop(s) ==> Top(s).Open?
  }

  function Toggled(s: State, id: Irq, on: bool): State
  {
    var active := if on then s.active + {id} else s.active - {id};
    s.(active := active, ienable := active)
  }

  /** The lowest pending interrupt is served; when none is pending the handler returns, but not on its first look. */
  function AfterRead(s: State): State
    requires Possible(s, Read)
  {
    if Pending(s) != {} then WithTop(s, Running(Lowest(Pending(s))))
    else if Top(s).Entering? then WithTop(s, Spinning)
    else s.(pie := true, stack := s.stack[..|s.stack| - 1])
  }

  function AfterOpen(s: State): State
    requires Possible(s, OpenBracket)
  {
    var mask := Below(Top(s).id);
    WithTop(s, Open(Top(s).id, s.mask)).(mask := mask, ienable := s.active * mask, pie := true)
  }

  function AfterClose(s: State): State
    requires Possible(s, CloseBracket)
  {
    var saved := Top(s).saved;
    WithTop(s, Running(Top(s).id)).(mask := saved, ienable := saved * s.active, pie := false)
  }

  function Next(s: State, c: Step): State
    requires Possible(s, c)
  {
    match c
    case Line(id, high) => s.(lines := if high then s.lines + {id} else s.lines - {id})
    case Interrupt => s.(pie := false, stack := s.stack + [Entering])
    case Read => AfterRead(s)
    case OpenBracket => AfterOpen(s)
    case CloseBracket => AfterClose(s)
    case Return => WithTop(s, Again)
    case Enable(id) => Toggled(s, id, true)
    case Disable(id) => Toggled(s, id, false)
    case SetPie(on) => s.(pie := on)
  }

  /** Enabling puts the interrupt into the active set, disabling takes it out, and the register becomes the active set;
      no other interrupt and nothing else changes. */
  lemma ToggledIs(s: State, id: Irq, on: bool, j: Irq)
    ensures var t := Toggled(s, id, on);
      && (j in t.active <==> if j == id then on else j in s.active)
      && (j in t.ienable <==> j in t.active)
      && t == s.(active := t.active, ienable := t.ienable)
  {
  }

  /** Each field changes in its own steps only: the lines with the devices, the active set with enable and disable, the
      mask at a bracket's ends, the stack when a handler starts, looks or its service routine goes on.  An interrupt
      turns interrupts off, a bracket turns them on at its start and off at its end, and a handler's end turns them
      on. */
  lemma StepFrame(s: State, c: Step)
    requires Possible(s, c)
    ensures var t := Next(s, c);
      && (t.lines == s.lines || c.Line?) && (t.active == s.active || c.Enable? || c.Disable?)
      && (t.mask == s.mask || c.OpenBracket? || c.CloseBracket?)
      && (t.ienable == s.ienable || c.Enable? || c.Disable? || c.OpenBracket? || c.CloseBracket?)
      && (c.Line? ==> t.lines == (s.lines - {c.id}) + if c.high then {c.id} else {})
      && (c.OpenBracket? || c.CloseBracket? ==> t.ienable == t.active * t.mask)
      && t.pie == (if c.SetPie? then c.on else if c.Interrupt? || c.CloseBracket? then false
                   else if c.OpenBracket? || |t.stack| < |s.stack| then true else s.pie)
      && |t.stack| == (if c.Interrupt? then |s.stack| + 1
                       else if c.Read? && Pending(s) == {} && Top(s).Again? then |s.stack| - 1 else |s.stack|)
      && (c.Line? || c.Enable? || c.Disable? || c.SetPie? ==> t.stack == s.stack)
  {
  }

  /** Opening a bracket lets in exactly the active interrupts with lower numbers. */
  lemma OpenAdmits(s: State, j: Irq)
    requires Possible(s, OpenBracket)
    ensures var t := Next(s, OpenBracket);
      && (j in t.ienable <==> j in s.active && j < Top(s).id)
      && (Possible(t, Interrupt) <==> exists i: Irq :: i in s.lines && i in s.active && i < Top(s).id)
      && Top(t) == Open(Top(s).id, s.mask)
  {
    var t := Next(s, OpenBracket);
    if i: Irq :| i in s.lines && i in s.active && i < Top(s).id {
      assert i in Pending(t);
    }
    if Pending(t) != {} {
      var i := Lowest(Pending(t));
      assert i in s.lines && i in s.active && i < Top(s).id;
    }
  }

  // ------------------------------------------------------------------ the discipline

  /** The interrupt enable register follows the two variables. */
  predicate Matching(s: State) {
    s.ienable == s.active * s.mask
  }

  /** The mask that the handlers under index k leave in force. */
  function MaskUnder(stack: seq<Phase>, k: nat): Mask
    requires k <= |stack| && (k > 0 ==> stack[k - 1].Open?)
  {
    if k == 0 then Below(NIRQ) else Below(stack[k - 1].id)
  }

  /** One level of the stack: a handler is interrupted only inside its bracket and by a lower number, and its bracket
      saved the mask of the levels under it. */
  ghost predicate LevelFits(stack: seq<Phase>, k: nat)
    requires k < |stack|
  {
    && (k > 0 ==> stack[k - 1].Open? && 1 <= stack[k - 1].id)
    && (stack[k].Open? || stack[k].Running? ==>
          stack[k].id + k < NIRQ && (k > 0 ==> stack[k].id < stack[k - 1].id))
    && (stack[k].Open? ==> stack[k].saved == MaskUnder(stack, k))
  }

  ghost predicate StackFits(stack: seq<Phase>) {
    forall k :: 0 <= k < |stack| ==> LevelFits(stack, k)
  }

  /** How many levels count for the mask in force: all of them, but the last only inside its bracket. */
  function Masking(stack: seq<Phase>): (k: nat)
    ensures k <= |stack|
  {
    if stack == [] then 0 else if stack[|stack| - 1].Open? then |stack| else |stack| - 1
  }

  ghost predicate Inv(s: State) {
    && StackFits(s.stack)
    && Matching(s)
    && (var k := Masking(s.stack); (k > 0 ==> s.stack[k - 1].Open?) && s.mask == MaskUnder(s.stack, k))
    && (s.pie && HasTop(s) ==> Top(s).Open?)
  }

  /** Replacing the last level asks only for that level to fit. */
  lemma TopReplaced(stack: seq<Phase>, p: Phase)
    requires stack != [] && StackFits(stack)
    requires LevelFits(stack[..|stack| - 1] + [p], |stack| - 1)
    ensures StackFits(stack[..|stack| - 1] + [p])
  {
    var n := |stack| - 1;
    var t := stack[..n] + [p];
    forall k | 0 <= k < |t|
      ensures LevelFits(t, k)
    {
      if k < n {
        assert LevelFits(stack, k) && t[k] == stack[k] && (k > 0 ==> t[k - 1] == stack[k - 1]);
      }
    }
  }

  lemma PrefixFits(stack: seq<Phase>, n: nat)
    requires n <= |stack| && StackFits(stack)
    ensures StackFits(stack[..n])
  {
    forall k | 0 <= k < n
      ensures LevelFits(stack[..n], k)
    {
      assert LevelFits(stack, k);
    }
  }

  lemma InterruptKeepsInv(s: State)
    requires Inv(s) && Possible(s, Interrupt)
    ensures Inv(Next(s, Interrupt))
  {
    var n := |s.stack|;
    var t := Next(s, Interrupt);
    if n > 0 {
      assert LevelFits(s.stack, n - 1);
      var i :| i in Pending(s);
      assert i in s.mask && i < Top(s).id;
    }
    forall k | 0 <= k < |t.stack|
      ensures LevelFits(t.stack, k)
    {
      if k < n {
        assert LevelFits(s.stack, k);
      }
    }
  }

  lemma ReadKeepsInv(s: State)
    requires Inv(s) && Possible(s, Read)
    ensures Inv(Next(s, Read))
  {
    var n := |s.stack| - 1;
    assert LevelFits(s.stack, n);
    if Pending(s) != {} {
      var i := Lowest(Pending(s));
      assert i in s.mask;
      if n > 0 {
        assert LevelFits(s.stack, n - 1);
      }
      TopReplaced(s.stack, Running(i));
    } else if Top(s).Entering? {
      TopReplaced(s.stack, Spinning);
    } else {
      PrefixFits(s.stack, n);
    }
  }

  lemma OpenKeepsInv(s: State)
    requires Inv(s) && Possible(s, OpenBracket)
    ensures Inv(Next(s, OpenBracket))
  {
    assert LevelFits(s.stack, |s.stack| - 1);
    TopReplaced(s.stack, Open(Top(s).id, s.mask));
  }

  lemma CloseKeepsInv(s: State)
    requires Inv(s) && Possible(s, CloseBracket)
    ensures Inv(Next(s, CloseBracket))
  {
    assert LevelFits(s.stack, |s.stack| - 1);
    TopReplaced(s.stack, Running(Top(s).id));
  }

  lemma ReturnKeepsInv(s: State)
    requires Inv(s) && Possible(s, Return)
    ensures Inv(Next(s, Return))
  {
    assert LevelFits(s.stack, |s.stack| - 1);
    TopReplaced(s.stack, Again);
  }

  /** Closing a bracket undoes opening it, save that interrupts are then off and lines may have changed. */
  lemma CloseUndoesOpen(s: State, t: State)
    requires Inv(s) && Inv(t) && Possible(s, OpenBracket)
    requires t.stack == Next(s, OpenBracket).stack && t.active == s.active
    ensures Possible(t, CloseBracket) && Next(t, CloseBracket) == s.(pie := false, lines := t.lines)
  {
    var n := |s.stack| - 1;
    assert Top(t) == Open(Top(s).id, s.mask);
    assert s.mask * s.active == s.active * s.mask == s.ienable;
    assert t.stack[..n] == s.stack[..n] && s.stack[..n] + [Running(Top(s).id)] == s.stack;
  }

  /** Enabling or disabling an interrupt keeps the register right exactly when the mask in force covers all the
      active interrupts: both routines write the active set without the mask. */
  lemma ToggleIff(s: State, id: Irq, on: bool)
    requires Inv(s)
    ensures Inv(Toggled(s, id, on)) <==> Toggled(s, id, on).active <= s.mask
    ensures Matching(Toggled(s, id, on)) <==> Toggled(s, id, on).active <= s.mask
  {
  }

  /** What a caller of the two routines has to see to. */
  predicate Careful(s: State, c: Step) {
    match c
    case Enable(id) => Toggled(s, id, true).active <= s.mask
    case Disable(id) => Toggled(s, id, false).active <= s.mask
    case _ => true
  }

  lemma StepKeepsInv(s: State, c: Step)
    requires Inv(s) && Possible(s, c) && Careful(s, c)
    ensures Inv(Next(s, c))
  {
    match c {
      case Line(id, high) =>
      case Interrupt => InterruptKeepsInv(s);
      case Read => ReadKeepsInv(s);
      case OpenBracket => OpenKeepsInv(s);
      case CloseBracket => CloseKeepsInv(s);
      case Return => ReturnKeepsInv(s);
      case Enable(id) => ToggleIff(s, id, true);
      case Disable(id) => ToggleIff(s, id, false);
      case SetPie(on) =>
    }
  }

  // ------------------------------------------------------------------ whole runs

  predicate CanRun(s: State, steps: seq<Step>)
    decreases |steps|
  {
    steps == [] || (Possible(s, steps[0]) && CanRun(Next(s, steps[0]), steps[1..]))
  }

  function Run(s: State, steps: seq<Step>): State
    requires CanRun(s, steps)
    decreases |steps|
  {
    if steps == [] then s else Run(Next(s, steps[0]), steps[1..])
  }

  predicate AlwaysMatching(s: State, steps: seq<Step>)
    requires CanRun(s, steps)
    decreases |steps|
  {
    Matching(s) && (steps != [] ==> AlwaysMatching(Next(s, steps[0]), steps[1..]))
  }

  predicate AlwaysCareful(s: State, steps: seq<Step>)
    requires CanRun(s, steps)
    decreases |steps|
  {
    steps != [] ==> Careful(s, steps[0]) && AlwaysCareful(Next(s, steps[0]), steps[1..])
  }

  lemma {:induction false} RunKeepsInv(s: State, steps: seq<Step>)
    requires Inv(s) && CanRun(s, steps) && AlwaysCareful(s, steps)
    ensures Inv(Run(s, steps))
    decreases |steps|
  {
    if steps != [] {
      StepKeepsInv(s, steps[0]);
      RunKeepsInv(Next(s, steps[0]), steps[1..]);
    }
  }

  /** The interrupt enable register follows the variables throughout a run exactly when no interrupt is enabled or
      disabled while the mask in force leaves an active one out. */
  lemma {:induction false} MatchingIff(s: State, steps: seq<Step>)
    requires Inv(s) && CanRun(s, steps)
    ensures AlwaysMatching(s, steps) <==> AlwaysCareful(s, steps)
    decreases |steps|
  {
    if steps != [] {
      var c := steps[0];
      match c {
        case Enable(id) => ToggleIff(s, id, true);
        case Disable(id) => ToggleIff(s, id, false);
        case _ =>
      }
      if Careful(s, c) {
        StepKeepsInv(s, c);
        MatchingIff(Next(s, c), steps[1..]);
      } else {
        assert !AlwaysMatching(Next(s, c), steps[1..]);
      }
    }
  }

  lemma ResetInv()
    ensures Inv(RESET)
  {
  }

  /** The numbers of the interrupted handlers fall from level to level. */
  lemma {:induction false} NumbersFall(stack: seq<Phase>, j: nat, k: nat)
    requires StackFits(stack) && j < k < |stack| && (stack[k].Open? || stack[k].Running?)
    ensures stack[j].Open? && stack[k].id < stack[j].id
    decreases k - j
  {
    assert LevelFits(stack, k) && LevelFits(stack, j + 1);
    if j + 1 < k {
      NumbersFall(stack, j + 1, k);
    }
  }

  /** In every reachable state at most 32 handlers are nested, each interrupted by lower numbers only. */
  lemma NestingIsBounded(steps: seq<Step>)
    requires CanRun(RESET, steps) && AlwaysCareful(RESET, steps)
    ensures var s := Run(RESET, steps);
            && |s.stack| <= NIRQ
            && (forall j, k :: 0 <= j < k < |s.stack| && (s.stack[k].Open? || s.stack[k].Running?) ==>
                  s.stack[j].Open? && s.stack[k].id < s.stack[j].id)
  {
    ResetInv();
    RunKeepsInv(RESET, steps);
    var s := Run(RESET, steps);
    var n := |s.stack|;
    if n > 1 {
      assert LevelFits(s.stack, n - 1) && LevelFits(s.stack, n - 2);
    }
    forall j, k | 0 <= j < k < n && (s.stack[k].Open? || s.stack[k].Running?)
      ensures s.stack[j].Open? && s.stack[k].id < s.stack[j].id
    {
      NumbersFall(s.stack, j, k);
    }
  }

  /** The care is needed: an interrupt enabled inside a bracket undoes the mask, and if no lower one is pending the
      open handler is interrupted by its own number. */
  lemma EnableInsideBracket(s: State, id: Irq)
    requires Inv(s) && HasTop(s) && Top(s).Open? && s.pie
    requires Top(s).id in s.lines && Top(s).id in s.active
    requires forall j :: j in s.lines && (j in s.active || j == id) ==> Top(s).id <= j
    ensures var t := Next(s, Enable(id));
      && !Matching(t) && Possible(t, Interrupt)
      && Next(Next(t, Interrupt), Read).stack == s.stack + [Running(Top(s).id)]
  {
    var t := Next(s, Enable(id));
    assert Top(s).id in Pending(t) && Top(s).id !in s.mask;
    var u := Next(t, Interrupt);
    assert Lowest(Pending(u)) == Top(s).id;
    assert u.stack[..|u.stack| - 1] == s.stack;
  }

  lemma RunPrepends(s: State, c: Step, steps: seq<Step>)
    requires Possible(s, c) && CanRun(Next(s, c), steps)
    ensures CanRun(s, [c] + steps) && Run(s, [c] + steps) == Run(Next(s, c), steps)
  {
    assert ([c] + steps)[1..] == steps;
  }

  /** A run from reset in which interrupt 3 interrupts its own handler: it is enabled, served, and enabled once more
      inside its bracket. */
  function StepAt(n: nat): Step {
    if n == 0 then Enable(3)
    else if n == 1 then SetPie(true)
    else if n == 2 then Line(3, true)
    else if n == 3 then Interrupt
    else if n == 4 then Read
    else if n == 5 then OpenBracket
    else if n == 6 then Enable(3)
    else if n == 7 then Interrupt
    else Read
  }

  /** The state after n steps of it. */
  function MomentOf(n: nat): State {
    var all := Below(NIRQ);
    if n == 0 then RESET
    else if n == 1 then State({3}, all, {3}, false, {}, [])
    else if n == 2 then State({3}, all, {3}, true, {}, [])
    else if n == 3 then State({3}, all, {3}, true, {3}, [])
    else if n == 4 then State({3}, all, {3}, false, {3}, [Entering])
    else if n == 5 then State({3}, all, {3}, false, {3}, [Running(3)])
    else if n == 6 then State({3}, Below(3), {}, true, {3}, [Open(3, all)])
    else if n == 7 then State({3}, Below(3), {3}, true, {3}, [Open(3, all)])
    else if n == 8 then State({3}, Below(3), {3}, false, {3}, [Open(3, all), Entering])
    else State({3}, Below(3), {3}, false, {3}, [Open(3, all), Running(3)])
  }

  lemma ServiceStep(n: nat)
    requires n == 3 || n == 4 || n == 7 || n == 8
    ensures Possible(MomentOf(n), StepAt(n)) && Next(MomentOf(n), StepAt(n)) == MomentOf(n + 1)
  {
    var s := MomentOf(n);
    assert 3 in Pending(s) && Pending(s) == {3};
  }

  lemma SetUpStep(n: nat)
    requires n < 3 || n == 5 || n == 6
    ensures Possible(MomentOf(n), StepAt(n)) && Next(MomentOf(n), StepAt(n)) == MomentOf(n + 1)
  {
    assert {3} * Below(3) == {};
  }

  lemma {:induction false} RestOfRun(n: nat) returns (steps: seq<Step>)
    requires n <= 9
    ensures CanRun(MomentOf(n), steps) && Run(MomentOf(n), steps) == MomentOf(9)
    decreases 9 - n
  {
    if n == 9 {
      steps := [];
    } else {
      if n == 3 || n == 4 || n == 7 || n == 8 {
        ServiceStep(n);
      } else {
        SetUpStep(n);
      }
      var rest := RestOfRun(n + 1);
      RunPrepends(MomentOf(n), StepAt(n), rest);
      steps := [StepAt(n)] + rest;
    }
  }

  lemma SelfInterruptedRun() returns (steps: seq<Step>)
    ensures CanRun(RESET, steps) && !AlwaysCareful(RESET, steps)
    ensures Run(RESET, steps).stack == [Open(3, Below(NIRQ)), Running(3)] && !Matching(Run(RESET, steps))
  {
    steps := RestOfRun(0);
    var last := MomentOf(9);
    assert 3 in last.ienable && 3 !in last.mask;
    if AlwaysCareful(RESET, steps) {
      ResetInv();
      RunKeepsInv(RESET, steps);
    }
  }

  /** The interrupt that is served is enabled and pending, comes first of all those, and has a lower number than every
      handler it has interrupted. */
  lemma ServedIsFirst(s: State, k: nat)
    requires Inv(s) && Possible(s, Read) && Pending(s) != {} && k < |s.stack| - 1
    ensures var i := Top(Next(s, Read)).id;
            && i in s.lines && i in s.active
            && (forall j :: j in s.lines && j in s.active && j in s.mask ==> i <= j)
            && s.stack[k].Open? && i < s.stack[k].id
  {
    ReadKeepsInv(s);
    NumbersFall(Next(s, Read).stack, k, |s.stack| - 1);
    forall j | j in s.lines && j in s.active && j in s.mask
      ensures Lowest(Pending(s)) <= j
    {
      assert j in Pending(s);
    }
  }

  /** Throughout the run more handlers are active than the given number. */
  predicate StaysDeeper(s: State, steps: seq<Step>, depth: nat)
    requires CanRun(s, steps)
    decreases |steps|
  {
    steps == [] || (|s.stack| > depth && StaysDeeper(Next(s, steps[0]), steps[1..], depth))
  }

  lemma {:induction false} LowerLevelsStay(s: State, steps: seq<Step>, depth: nat)
    requires CanRun(s, steps) && StaysDeeper(s, steps, depth) && depth <= |s.stack|
    ensures depth <= |Run(s, steps).stack| && Run(s, steps).stack[..depth] == s.stack[..depth]
    ensures steps != [] && |Run(s, steps).stack| == depth ==> Run(s, steps).pie
    decreases |steps|
  {
    if steps != [] {
      var t := Next(s, steps[0]);
      assert t.stack[..depth] == s.stack[..depth];
      LowerLevelsStay(t, steps[1..], depth);
    }
  }

  /** From an interrupt to the return of its handler, whatever nested in between, the interrupted level gets back the
      stack and the priority mask it had, with interrupts on. */
  lemma ReturnRestores(s: State, steps: seq<Step>)
    requires Inv(s) && CanRun(s, steps) && AlwaysCareful(s, steps)
    requires |steps| > 0 && steps[0] == Interrupt && StaysDeeper(Next(s, Interrupt), steps[1..], |s.stack|)
    requires |Run(s, steps).stack| == |s.stack|
    ensures var t := Run(s, steps);
            t.stack == s.stack && t.mask == s.mask && t.ienable == t.active * s.mask && t.pie
  {
    RunKeepsInv(s, steps);
    LowerLevelsStay(Next(s, Interrupt), steps[1..], |s.stack|);
    assert Next(s, Interrupt).stack[..|s.stack|] == s.stack;
    assert Run(s, steps).stack[..|s.stack|] == Run(s, steps).stack;
  }

  /** A handler that finds nothing pending on its first look searches for a set bit for ever: no run leads on. */
  lemma {:induction false} SpinningIsForever(s: State, steps: seq<Step>)
    requires Inv(s) && HasTop(s) && Top(s).Spinning? && CanRun(s, steps)
    ensures Run(s, steps).stack == s.stack
    decreases |steps|
  {
    if steps != [] {
      StepKeepsInv(s, steps[0]);
      SpinningIsForever(Next(s, steps[0]), steps[1..]);
    }
  }

  // ------------------------------------------------------------------ the code

  /** The first set bit, found by moving a single bit up. */
  method FindLowest(active: Mask) returns (i: Irq)
    requires active != {}
    ensures i == Lowest(active)
  {
    i := 0;
    while i !in active
      invariant forall j :: j in active ==> i <= j
      decreases NIRQ - i
    {
      SomeAbove(active, i);
      i := i + 1;
    }
  }

  lemma SomeAbove(active: Mask, i: Irq)
    requires active != {} && i !in active && forall j :: j in active ==> i <= j
    ensures i + 1 < NIRQ
  {
  }

  /** The lowest n levels are as they were. */
  ghost predicate Kept(now: seq<Phase>, before: seq<Phase>, n: int) {
    n <= |now| && n <= |before| && forall k :: 0 <= k < n ==> now[k] == before[k]
  }

  /** Reading the pending interrupts leaves the levels under the handler alone; what it serves has a lower number than
      the interrupted level. */
  lemma ReadServesBelow(s: State, bound: nat)
    requires Inv(s) && Possible(s, Read)
    requires bound == if |s.stack| == 1 then NIRQ else s.stack[|s.stack| - 2].id
    ensures var t := Next(s, Read);
      && Inv(t) && t.mask == s.mask && Kept(t.stack, s.stack, |s.stack| - 1)
      && (Pending(s) != {} ==> t.stack == WithTop(s, Running(Lowest(Pending(s)))).stack && Lowest(Pending(s)) < bound)
  {
    ReadKeepsInv(s);
    if Pending(s) != {} && |s.stack| > 1 {
      NumbersFall(Next(s, Read).stack, |s.stack| - 2, |s.stack| - 1);
    }
  }

  class Processor {
    var active: Mask
    var mask: Mask
    var ienable: Mask
    var pie: bool
    var lines: Mask
    ghost var stack: seq<Phase>
    ghost var log: seq<Irq>  // the numbers of the service routines run, in the order of their calls

    ghost function Model(): State
      reads this
    {
      State(active, mask, ienable, pie, lines, stack)
    }

    constructor ()
      ensures Model() == RESET && log == []
    {
      active, mask, ienable, pie, lines, stack, log := {}, Below(NIRQ), {}, false, {}, [], [];
    }

    /** The devices may raise and lower any lines. */
    method Devices()
      modifies this`lines
    {
      lines := *;
    }

    method AltIrqDisableAll() returns (context: bool)
      modifies this`pie
      ensures context == old(pie) && !pie
    {
      context := pie;
      pie := false;
    }

    method AltIrqEnableAll(context: bool)
      modifies this`pie
      ensures pie == context
    {
      pie := context;
    }

    method AltIrqEnable(id: Irq)
      modifies this`active, this`ienable, this`pie
      ensures Model() == Toggled(old(Model()), id, true)
    {
      var status := AltIrqDisableAll();
      active := active + {id};
      ienable := active;
      AltIrqEnableAll(status);
    }

    method AltIrqDisable(id: Irq)
      modifies this`active, this`ienable, this`pie
      ensures Model() == Toggled(old(Model()), id, false)
    {
      var status := AltIrqDisableAll();
      active := active - {id};
      ienable := active;
      AltIrqEnableAll(status);
    }

    method AltIrqInterruptible(priority: Irq) returns (oldPriority: Mask)
      requires HasTop(Model()) && Top(Model()) == Running(priority)
      modifies this`mask, this`ienable, this`pie, this`stack
      ensures Model() == Next(old(Model()), OpenBracket) && oldPriority == old(mask)
    {
      oldPriority := mask;
      mask := Below(priority);
      ienable := active * mask;
      pie := true;
      stack := stack[..|stack| - 1] + [Open(priority, oldPriority)];
    }

    method AltIrqNonInterruptible(saved: Mask)
      requires HasTop(Model()) && Top(Model()).Open? && Top(Model()).saved == saved
      modifies this`mask, this`ienable, this`pie, this`stack
      ensures Model() == Next(old(Model()), CloseBracket)
    {
      pie := false;
      mask := saved;
      ienable := saved * active;
      stack := stack[..|stack| - 1] + [Running(stack[|stack| - 1].id)];
    }

    /** Service routines have run since the log was `before`: all of these rounds, if the handler is not done and not
        stuck. */
    ghost predicate Progress(before: seq<Irq>, done: bool, rounds: nat)
      reads this
    {
      before <= log && (!done ==> |log| >= |before| + rounds || (HasTop(Model()) && Top(Model()).Spinning?))
    }

    /** Inside the bracket the devices may interrupt at any of the given number of points. */
    method StayOpen(i: Irq, rounds: nat) returns (done: bool)
      requires Inv(Model()) && HasTop(Model()) && Top(Model()).Open? && Top(Model()).id == i
      modifies this
      ensures Inv(Model()) && active == old(active)
      ensures Kept(stack, old(stack), |old(stack)|) && Progress(old(log), done, rounds)
      ensures done ==> stack == old(stack) && mask == old(mask)
      decreases i, 4
    {
      done := true;
      var k := rounds;
      while k > 0 && done
        invariant Inv(Model()) && active == old(active) && Progress(old(log), done, rounds)
        invariant Kept(stack, old(stack), |old(stack)|)
        invariant done ==> stack == old(stack) && mask == old(mask)
        decreases k
      {
        Devices();
        done := TakeInterrupt(i, rounds);
        k := k - 1;
      }
    }

    /** The service routine opens its bracket and stays inside; when it is done there only the closing is left. */
    method OpenAndStay(i: Irq, rounds: nat) returns (saved: Mask, done: bool)
      requires Inv(Model()) && HasTop(Model()) && Top(Model()) == Running(i)
      modifies this
      ensures Inv(Model()) && active == old(active) && saved == old(mask)
      ensures Kept(stack, old(stack), |old(stack)| - 1) && Progress(old(log), done, rounds)
      ensures done ==> stack == Next(old(Model()), OpenBracket).stack
      decreases i, 5
    {
      StepKeepsInv(Model(), OpenBracket);
      saved := AltIrqInterruptible(i);
      done := StayOpen(i, rounds);
    }

    /** The end of a bracket that was opened in the state `before`. */
    method CloseAgain(saved: Mask, ghost before: State)
      requires Inv(before) && Possible(before, OpenBracket) && saved == before.mask
      requires Inv(Model()) && active == before.active && stack == Next(before, OpenBracket).stack
      modifies this`mask, this`ienable, this`pie, this`stack
      ensures Inv(Model()) && stack == before.stack && mask == before.mask
    {
      CloseUndoesOpen(before, Model());
      CloseKeepsInv(Model());
      AltIrqNonInterruptible(saved);
    }

    method Bracket(i: Irq, rounds: nat) returns (done: bool)
      requires Inv(Model()) && HasTop(Model()) && Top(Model()) == Running(i)
      modifies this
      ensures Inv(Model()) && active == old(active)
      ensures Kept(stack, old(stack), |old(stack)| - 1) && Progress(old(log), done, rounds)
      ensures done ==> stack == old(stack) && mask == old(mask)
      decreases i, 6
    {
      ghost var before := Model();
      var saved;
      saved, done := OpenAndStay(i, rounds);
      if done {
        CloseAgain(saved, before);
      }
    }

    /** A service routine that may or may not bracket. It leaves the handler about to look again, unless a nested
        handler never ends. */
    method Serve(i: Irq, rounds: nat) returns (done: bool)
      requires Inv(Model()) && HasTop(Model()) && Top(Model()) == Running(i)
      modifies this
      ensures Inv(Model()) && active == old(active)
      ensures Kept(stack, old(stack), |old(stack)| - 1) && Progress(old(log) + [i], done, rounds)
      ensures done ==> stack == WithTop(old(Model()), Again).stack && mask == old(mask)
      decreases i, 7
    {
      log := log + [i];
      done := true;
      var nests: bool := *;
      if nests {
        done := Bracket(i, rounds);
      }
      if done {
        LeaveService();
      }
    }

    /** The service routine returns to the handler. */
    ghost method LeaveService()
      requires Inv(Model()) && HasTop(Model()) && Top(Model()).Running?
      modifies this`stack
      ensures Inv(Model()) && stack == WithTop(old(Model()), Again).stack
      ensures Kept(stack, old(stack), |old(stack)| - 1)
    {
      StepKeepsInv(Model(), Return);
      stack := stack[..|stack| - 1] + [Again];
    }

    /** One look: the lowest pending interrupt is served, or the handler ends. It never ends when nothing was pending
        on the first look.  The first service routine it runs is that of the lowest pending interrupt. */
    method Look(ghost bound: nat, first: bool, rounds: nat) returns (done: bool, more: bool)
      requires Inv(Model()) && HasTop(Model()) && Top(Model()) == if first then Entering else Again
      requires bound == if |stack| == 1 then NIRQ else stack[|stack| - 2].id
      modifies this
      ensures Inv(Model()) && active == old(active) && (done ==> mask == old(mask))
      ensures Kept(stack, old(stack), |old(stack)| - 1)
      ensures done && more ==> stack == WithTop(old(Model()), Again).stack
      ensures done && !more ==> stack == old(stack)[..|old(stack)| - 1] && pie && Pending(Model()) == {}
      ensures if Pending(old(Model())) == {} then
                !more && log == old(log) && done == !first && (first ==> HasTop(Model()) && Top(Model()).Spinning?)
              else more && Progress(old(log) + [Lowest(Pending(old(Model())))], done, rounds)
      decreases bound, 0
    {
      ReadServesBelow(Model(), bound);
      ghost var next := Next(Model(), Read);
      var pending := lines * ienable;
      if pending == {} {
        stack := next.stack;
        pie := if first then pie else true;
        return !first, false;
      }
      var i := FindLowest(pending);
      stack := next.stack;
      done := Serve(i, rounds);
      more := true;
    }

    /** Where a handler entered in the given state stands after k looks: every look but the last has served. */
    ghost predicate Looked(entry: State, before: seq<Irq>, k: nat, done: bool, more: bool, rounds: nat)
      requires HasTop(entry)
      reads this
    {
      && Inv(Model()) && active == entry.active && (done ==> mask == entry.mask)
      && Kept(stack, entry.stack, |entry.stack| - 1) && Progress(before, done, rounds)
      && (k == 0 ==> done && more && stack == entry.stack)
      && (k > 0 && done && more ==> stack == WithTop(entry, Again).stack)
      && (done && !more ==> stack == entry.stack[..|entry.stack| - 1] && pie && Pending(Model()) == {} && k > 1)
      && (done ==> |log| >= |before| + if more then k else k - 1)
    }

    method LookAgain(ghost bound: nat, k: nat, rounds: nat, ghost entry: State, ghost before: seq<Irq>)
      returns (done: bool, more: bool)
      requires HasTop(entry) && Top(entry) == Entering && Looked(entry, before, k, true, true, rounds)
      requires bound == if |entry.stack| == 1 then NIRQ else entry.stack[|entry.stack| - 2].id
      modifies this
      ensures Looked(entry, before, k + 1, done, more, rounds)
      decreases bound, 1
    {
      Devices();
      done, more := Look(bound, k == 0, rounds);
    }

    /** The processor takes an interrupt if it can; the interrupted level gets everything back. */
    method TakeInterrupt(i: Irq, rounds: nat) returns (done: bool)
      requires Inv(Model()) && HasTop(Model()) && Top(Model()).Open? && Top(Model()).id == i
      modifies this
      ensures Inv(Model()) && active == old(active)
      ensures Kept(stack, old(stack), |old(stack)|) && Progress(old(log), done, rounds)
      ensures done ==> stack == old(stack) && mask == old(mask)
      ensures if old(pie) && Pending(old(Model())) != {} then done ==> |log| > |old(log)| else done && Model() == old(Model())
      decreases i, 3
    {
      done := true;
      if pie && lines * ienable != {} {
        StepKeepsInv(Model(), Interrupt);
        pie := false;
        stack := stack + [Entering];
        done := AltIrqHandler(i, rounds);
      }
    }

    /** Serves pending interrupts, the lowest first, until none is pending, and returns from the exception, having run a
        service routine at least; the rounds bound how often it looks.  It is not done only if that many service
        routines have run, or a handler is stuck.  In any case the interrupted levels are as they were. */
    method AltIrqHandler(ghost bound: nat, rounds: nat) returns (done: bool)
      requires Inv(Model()) && HasTop(Model()) && Top(Model()) == Entering
      requires bound == if |stack| == 1 then NIRQ else stack[|stack| - 2].id
      modifies this
      ensures Inv(Model()) && active == old(active)
      ensures Kept(stack, old(stack), |old(stack)| - 1)
      ensures done ==> stack == old(stack)[..|old(stack)| - 1] && mask == old(mask) && pie
      ensures Progress(old(log), done, rounds) && (done ==> |log| > |old(log)| && Pending(Model()) == {})
      decreases bound, 2
    {
      var more := true;
      done := true;
      var k: nat := 0;
      while k < rounds && done && more
        invariant Looked(old(Model()), old(log), k, done, more, rounds)
      {
        done, more := LookAgain(bound, k, rounds, old(Model()), old(log));
        k := k + 1;
      }
      done := done && !more;
    }
  }
}
