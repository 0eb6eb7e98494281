/** Load-reserved and store-conditional over the bus lock, for any number of harts (sections 8.2 and
    8.3 of the RISC-V Unprivileged ISA, version 20191213).  Scheduling is cooperative, so one
    transition is what a hart does between two points at which another one can run: an instruction,
    or one of the two accesses of an atomic memory operation. */
module LrSc {
  import opened Expr

  /** A shared pointer to a concolic address.  The reservation is compared by `id`, the object. */
  datatype Ptr = Ptr(id: nat, addr: nat)

  type Bytes = seq<nat>
  type Memory = map<nat, nat>

  /** How the checks of an access end: in sequence, a misaligned address and the bus's answer. */
  datatype Check = Passes | Misaligned | Faults

  datatype Instr =
    | LoadReserved(addr: Ptr, check: Check)
    | StoreConditional(addr: Ptr, value: Bytes, check: Check)
    | Load(addr: Ptr, check: Check)
    | Store(addr: Ptr, value: Bytes, check: Check)
    | AmoLoad(addr: Ptr, check: Check)
    | AmoStore(value: Bytes, faults: bool)
    | Wfi(denied: bool)
    | Other(illegal: bool)

  datatype Action =
    | Execute(hart: nat, instr: Instr, interrupt: bool)
    | PeripheralWrite(addr: nat, value: Bytes)

  /** `amo` is the address of an atomic memory operation between its load and its store. */
  datatype Hart = Hart(counter: int, lrAddr: Option<Ptr>, amo: Option<Ptr>)

  datatype State = State(locked: bool, owner: nat, mem: Memory, harts: seq<Hart>)

  predicate Owns(s: State, h: nat) {
    s.locked && s.owner == h
  }

  function Written(mem: Memory, addr: nat, value: Bytes): Memory {
    map a | a in mem :: if addr <= a < addr + |value| then value[a - addr] else mem[a]
  }

  function Unlocked(s: State, h: nat): State {
    s.(locked := s.locked && s.owner != h)
  }

  function Locked(s: State, h: nat): State {
    s.(locked := true, owner := h)
  }

  function Released(s: State, h: nat): State
    requires h < |s.harts|
  {
    Unlocked(s.(harts := s.harts[h := s.harts[h].(counter := 0)]), h)
  }

  function Stored(s: State, h: nat, addr: nat, value: Bytes): State {
    Unlocked(s.(mem := Written(s.mem, addr, value)), h)
  }

  /** The store of a store-conditional goes ahead. */
  predicate Reserved(s: State, h: nat, addr: Ptr)
    requires h < |s.harts|
  {
    Owns(s, h) && s.harts[h].lrAddr == Some(addr)
  }

  predicate Succeeds(s: State, h: nat, i: Instr)
    requires h < |s.harts|
  {
    i.StoreConditional? && i.check.Passes? && Reserved(s, h, i.addr)
  }

  predicate Traps(s: State, h: nat, i: Instr)
    requires h < |s.harts|
  {
    match i
    case LoadReserved(_, check) => !check.Passes?
    case StoreConditional(addr, _, check) => check.Misaligned? || (check.Faults? && Reserved(s, h, addr))
    case Load(_, check) => !check.Passes?
    case Store(_, _, check) => !check.Passes?
    case AmoLoad(_, check) => !check.Passes?
    case AmoStore(_, faults) => faults
    case Wfi(denied) => denied
    case Other(illegal) => illegal
  }

  /** The state after `exec_step`. */
  function Executed(s: State, h: nat, i: Instr): State
    requires h < |s.harts|
  {
    var me := s.harts[h];
    match i
    case LoadReserved(addr, check) =>
      if check.Misaligned? then s
      else
        var counter := if check.Passes? && me.counter == 0 then 17 else me.counter;
        Locked(s, h).(harts := s.harts[h := me.(lrAddr := Some(addr), counter := counter)])
    case StoreConditional(addr, value, check) =>
      if Traps(s, h, i) then s
      else Released(if Reserved(s, h, addr) then Stored(s, h, addr.addr, value) else s, h)
    case Load(_, _) => s
    case Store(addr, value, check) => if check.Passes? then Stored(s, h, addr.addr, value) else s
    case AmoLoad(addr, check) =>
      if check.Misaligned? then s
      else Locked(s, h).(harts := s.harts[h := me.(amo := if check.Passes? then Some(addr) else me.amo)])
    case AmoStore(value, faults) =>
      var t := s.(harts := s.harts[h := me.(amo := None)]);
      if faults || me.amo.None? then t else Stored(t, h, me.amo.value.addr, value)
    case Wfi(_) => Released(s, h)
    case Other(_) => s
  }

  /** `performance_and_sync_update`. */
  function Counted(s: State, h: nat): State
    requires h < |s.harts|
  {
    var c := s.harts[h].counter;
    if c == 0 then s
    else if c == 1 then Released(s, h)
    else s.(harts := s.harts[h := s.harts[h].(counter := c - 1)])
  }

  /** An atomic memory operation that has done its load is not yet at an instruction boundary. */
  predicate Completes(i: Instr) {
    i.AmoLoad? ==> !i.check.Passes?
  }

  function RunStep(s: State, h: nat, i: Instr, interrupt: bool): State
    requires h < |s.harts|
  {
    var t := Executed(s, h, i);
    if !Completes(i) then t
    else Counted(if Traps(s, h, i) || interrupt then Released(t, h) else t, h)
  }

  /** The access waits while another hart has the bus. */
  predicate NeedsBus(i: Instr) {
    match i
    case LoadReserved(_, check) => !check.Misaligned?
    case Load(_, check) => !check.Misaligned?
    case Store(_, _, check) => !check.Misaligned?
    case AmoLoad(_, check) => !check.Misaligned?
    case _ => false
  }

  predicate Enabled(s: State, a: Action) {
    match a
    case Execute(h, i, _) =>
      && h < |s.harts|
      && (s.harts[h].amo.Some? <==> i.AmoStore?)
      && (NeedsBus(i) && s.locked ==> s.owner == h)
    case PeripheralWrite(_, _) => !s.locked
  }

  function Next(s: State, a: Action): State
    requires Enabled(s, a)
  {
    match a
    case Execute(h, i, interrupt) => RunStep(s, h, i, interrupt)
    case PeripheralWrite(addr, value) => s.(mem := Written(s.mem, addr, value))
  }

  ghost predicate Init(s: State) {
    !s.locked && forall h :: 0 <= h < |s.harts| ==> s.harts[h] == Hart(0, None, None)
  }

  datatype Trace = Trace(states: seq<State>, actions: seq<Action>)

  /** A run from reset: any interleaving of the harts and the peripherals. */
  ghost predicate Behaviour(r: Trace) {
    && |r.states| == |r.actions| + 1
    && Init(r.states[0])
    && forall n :: 0 <= n < |r.actions| ==> StepAt(r, n)
  }

  ghost predicate StepAt(r: Trace, n: nat)
    requires n < |r.actions| && |r.states| == |r.actions| + 1
  {
    Enabled(r.states[n], r.actions[n]) && r.states[n + 1] == Next(r.states[n], r.actions[n])
  }

  // ----- What every step keeps -----

  ghost predicate HartInv(s: State, h: nat)
    requires h < |s.harts|
  {
    && 0 <= s.harts[h].counter <= 16
    && (Owns(s, h) ==> s.harts[h].counter >= 1 || s.harts[h].amo.Some?)
    && (s.harts[h].amo.Some? ==> Owns(s, h))
  }

  ghost predicate Inv(s: State) {
    (s.locked ==> s.owner < |s.harts|) && forall h :: 0 <= h < |s.harts| ==> HartInv(s, h)
  }

  /** A step of one hart leaves the record of every other hart, and who holds the bus among them. */
  ghost predicate OthersKept(s: State, t: State, h: nat) {
    && |t.harts| == |s.harts|
    && (forall g :: 0 <= g < |s.harts| && g != h ==> t.harts[g] == s.harts[g])
    && (forall g: nat :: g != h ==> Owns(t, g) == Owns(s, g))
  }

  lemma ReleasedKept(s: State, h: nat)
    requires h < |s.harts|
    ensures OthersKept(s, Released(s, h), h) && !Owns(Released(s, h), h)
    ensures Released(s, h).harts[h] == s.harts[h].(counter := 0) && Released(s, h).mem == s.mem
  {
  }

  lemma StoredKept(s: State, h: nat, addr: nat, value: Bytes)
    ensures OthersKept(s, Stored(s, h, addr, value), h) && !Owns(Stored(s, h, addr, value), h)
    ensures Stored(s, h, addr, value).harts == s.harts
  {
    hide Written;
  }

  /** After `exec_step` the reservation counter may be one above its bound, and the bus may be
      held without a counter if a trap is about to release it. */
  lemma ExecutedKeeps(s: State, h: nat, i: Instr)
    requires h < |s.harts| && HartInv(s, h) && Enabled(s, Execute(h, i, false))
    ensures
      var t := Executed(s, h, i);
      && OthersKept(s, t, h)
      && 0 <= t.harts[h].counter <= 17
      && (Owns(t, h) ==> t.harts[h].counter >= 1 || t.harts[h].amo.Some? || Traps(s, h, i))
      && (t.harts[h].amo.Some? <==> !Completes(i))
      && (!Completes(i) ==> Owns(t, h) && t.harts[h].counter == s.harts[h].counter)
      && (t.harts[h].counter == 17 ==> i.LoadReserved? && i.check.Passes? && s.harts[h].counter == 0)
  {
    hide Written, Stored, Released;
    ReleasedKept(s, h);
    match i
    case StoreConditional(addr, value, _) =>
      StoredKept(s, h, addr.addr, value);
      ReleasedKept(Stored(s, h, addr.addr, value), h);
    case Store(addr, value, _) => StoredKept(s, h, addr.addr, value);
    case AmoStore(value, _) =>
      var t := s.(harts := s.harts[h := s.harts[h].(amo := None)]);
      StoredKept(t, h, s.harts[h].amo.value.addr, value);
    case _ =>
  }

  lemma CountedKeeps(s: State, h: nat)
    requires h < |s.harts| && 0 <= s.harts[h].counter <= 17
    ensures
      var t := Counted(s, h);
      && OthersKept(s, t, h)
      && t.harts[h] == s.harts[h].(counter := if s.harts[h].counter == 0 then 0 else s.harts[h].counter - 1)
      && (Owns(t, h) <==> Owns(s, h) && s.harts[h].counter != 1)
  {
    hide Released;
    ReleasedKept(s, h);
  }

  lemma RunStepKeeps(s: State, h: nat, i: Instr, interrupt: bool)
    requires h < |s.harts| && HartInv(s, h) && Enabled(s, Execute(h, i, interrupt))
    ensures OthersKept(s, RunStep(s, h, i, interrupt), h) && HartInv(RunStep(s, h, i, interrupt), h)
  {
    hide Executed, Counted, Released, Traps;
    ExecutedKeeps(s, h, i);
    var t := Executed(s, h, i);
    ReleasedKept(t, h);
    if Completes(i) {
      CountedKeeps(t, h);
      CountedKeeps(Released(t, h), h);
    }
  }

  lemma NextKeepsInv(s: State, a: Action)
    requires Inv(s) && Enabled(s, a)
    ensures Inv(Next(s, a)) && |Next(s, a).harts| == |s.harts|
  {
    hide Written, RunStep, Enabled;
    var t := Next(s, a);
    if a.Execute? {
      assert a.hart < |s.harts| by {
        EnabledHart(s, a);
      }
      assert HartInv(s, a.hart);
      RunStepKeeps(s, a.hart, a.instr, a.interrupt);
      assert t.locked && t.owner != a.hart ==> Owns(t, t.owner) && Owns(s, t.owner);
    }
    forall h | 0 <= h < |t.harts|
      ensures HartInv(t, h)
    {
      assert HartInv(s, h);
    }
  }

  lemma EnabledHart(s: State, a: Action)
    requires Enabled(s, a) && a.Execute?
    ensures a.hart < |s.harts|
  {
  }

  lemma {:induction false} InvHolds(r: Trace, n: nat)
    requires Behaviour(r) && n <= |r.actions|
    ensures Inv(r.states[n]) && |r.states[n].harts| == |r.states[0].harts|
  {
    if n > 0 {
      InvHolds(r, n - 1);
      assert StepAt(r, n - 1);
      NextKeepsInv(r.states[n - 1], r.actions[n - 1]);
    }
  }

  // ----- Exclusivity -----

  /** The action stores to memory. */
  predicate Writes(s: State, a: Action)
    requires Enabled(s, a)
  {
    match a
    case PeripheralWrite(_, _) => true
    case Execute(h, i, _) =>
      || Succeeds(s, h, i)
      || (i.Store? && i.check.Passes?)
      || (i.AmoStore? && !i.faults)
  }

  predicate Reserves(a: Action, h: nat) {
    a.Execute? && a.hart == h && a.instr.LoadReserved?
  }

  lemma OnlyWritesChangeMemory(s: State, a: Action)
    requires Enabled(s, a) && !Writes(s, a)
    ensures Next(s, a).mem == s.mem
  {
    hide Written;
  }

  /** While a hart keeps the bus over a step, nobody stores to memory. */
  lemma HeldBusStopsWrites(s: State, a: Action, h: nat)
    requires Inv(s) && Enabled(s, a) && Owns(s, h) && Owns(Next(s, a), h)
    ensures !Writes(s, a)
  {
    hide Written;
    if a.Execute? && a.hart == h {
      assert HartInv(s, h);
      assert Writes(s, a) ==> !Owns(Executed(s, h, a.instr), h);
    } else if a.Execute? {
      assert HartInv(s, a.hart);
    }
  }

  /** A hart that has the bus at an instruction boundary got it by a load-reserved, either in this
      step or before it. */
  lemma ReservationStep(s: State, a: Action, h: nat)
    requires Inv(s) && Enabled(s, a) && h < |s.harts|
    requires Owns(Next(s, a), h) && |Next(s, a).harts| == |s.harts| && Next(s, a).harts[h].amo.None?
    ensures Reserves(a, h) ==> a.instr.check.Passes? && Next(s, a).harts[h].lrAddr == Some(a.instr.addr)
    ensures !Reserves(a, h) ==> Owns(s, h) && s.harts[h].amo.None? && Next(s, a).harts[h].lrAddr == s.harts[h].lrAddr
  {
    hide Written, Stored;
    assert HartInv(s, h);
    if a.Execute? && a.hart == h {
      match a.instr
      case StoreConditional(addr, value, _) => StoredKept(s, h, addr.addr, value);
      case Store(addr, value, _) => StoredKept(s, h, addr.addr, value);
      case AmoStore(value, _) =>
        StoredKept(s.(harts := s.harts[h := s.harts[h].(amo := None)]), h, s.harts[h].amo.value.addr, value);
      case _ =>
    } else if a.Execute? {
      assert HartInv(s, a.hart);
      RunStepKeeps(s, a.hart, a.instr, a.interrupt);
    }
  }

  /** The load-reserved of step `i`, with the address object `p`, is the latest one of the hart, and
      the bus has been the hart's ever since. */
  ghost predicate LatestReservation(r: Trace, i: nat, n: nat, h: nat, p: Ptr)
    requires Behaviour(r) && n <= |r.actions|
  {
    && i < n
    && Reserves(r.actions[i], h) && r.actions[i].instr == LoadReserved(p, Passes)
    && (forall k :: i < k <= n ==> Owns(r.states[k], h))
    && (forall k :: i < k < n ==> !Reserves(r.actions[k], h))
  }

  lemma {:induction false} OwnerHasReserved(r: Trace, n: nat, h: nat) returns (i: nat, p: Ptr)
    requires Behaviour(r) && n <= |r.actions| && h < |r.states[0].harts|
    requires |r.states[n].harts| == |r.states[0].harts|
    requires Owns(r.states[n], h) && r.states[n].harts[h].amo.None?
    ensures LatestReservation(r, i, n, h, p) && r.states[n].harts[h].lrAddr == Some(p)
  {
    hide Next, Enabled, Inv;
    assert n > 0;
    assert StepAt(r, n - 1);
    InvHolds(r, n - 1);
    var s, a := r.states[n - 1], r.actions[n - 1];
    ReservationStep(s, a, h);
    if Reserves(a, h) {
      i, p := n - 1, a.instr.addr;
    } else {
      i, p := OwnerHasReserved(r, n - 1, h);
    }
  }

  /** The address of the latest reservation stays the one compared against. */
  lemma {:induction false} ReservationRemembered(r: Trace, i: nat, n: nat, h: nat, p: Ptr)
    requires Behaviour(r) && n <= |r.actions| && LatestReservation(r, i, n, h, p)
    ensures h < |r.states[n].harts| && r.states[n].harts[h].lrAddr == Some(p)
  {
    hide Written;
    InvHolds(r, n - 1);
    InvHolds(r, n);
    assert StepAt(r, n - 1);
    if i < n - 1 {
      assert Owns(r.states[n - 1], h);
      ReservationRemembered(r, i, n - 1, h, p);
      LrAddrKept(r.states[n - 1], r.actions[n - 1], h);
    } else {
      LrAddrSet(r.states[i], r.actions[i], h);
    }
  }

  lemma ExecutedLrAddr(s: State, g: nat, i: Instr, h: nat)
    requires g < |s.harts| && h < |s.harts| && (g == h ==> !i.LoadReserved?)
    ensures |Executed(s, g, i).harts| == |s.harts| && Executed(s, g, i).harts[h].lrAddr == s.harts[h].lrAddr
  {
    hide Written;
  }

  lemma LrAddrKept(s: State, a: Action, h: nat)
    requires Enabled(s, a) && h < |s.harts| && !Reserves(a, h)
    ensures h < |Next(s, a).harts| && Next(s, a).harts[h].lrAddr == s.harts[h].lrAddr
  {
    hide Written, Executed, Traps;
    if a.Execute? {
      ExecutedLrAddr(s, a.hart, a.instr, h);
    }
  }

  lemma LrAddrSet(s: State, a: Action, h: nat)
    requires Enabled(s, a) && Reserves(a, h) && a.instr.check.Passes?
    ensures h < |Next(s, a).harts| && Next(s, a).harts[h].lrAddr == Some(a.instr.addr)
  {
  }

  /** A store-conditional whose address is valid succeeds exactly if the latest load-reserved of its
      hart was given the same address object and the bus was held ever since. */
  lemma SucceedsIffReserved(r: Trace, n: nat)
    requires Behaviour(r) && n < |r.actions|
    requires r.actions[n].Execute? && r.actions[n].instr.StoreConditional? && r.actions[n].instr.check.Passes?
    ensures r.actions[n].hart < |r.states[n].harts|
    ensures Succeeds(r.states[n], r.actions[n].hart, r.actions[n].instr) <==>
            exists i :: LatestReservation(r, i, n, r.actions[n].hart, r.actions[n].instr.addr)
  {
    var h, a := r.actions[n].hart, r.actions[n].instr;
    assert StepAt(r, n);
    InvHolds(r, n);
    if Succeeds(r.states[n], h, a) {
      var i, p := OwnerHasReserved(r, n, h);
      assert LatestReservation(r, i, n, h, a.addr);
    }
    if i :| LatestReservation(r, i, n, h, a.addr) {
      ReservationRemembered(r, i, n, h, a.addr);
    }
  }

  /** Between a load-reserved and the end of its reservation no hart and no peripheral stores:
      memory is what the load-reserved saw. */
  lemma {:induction false} NoStoreSinceReservation(r: Trace, i: nat, n: nat, h: nat, p: Ptr)
    requires Behaviour(r) && n <= |r.actions| && LatestReservation(r, i, n, h, p)
    ensures forall k :: i <= k < n ==> Enabled(r.states[k], r.actions[k]) && !Writes(r.states[k], r.actions[k])
    ensures r.states[n].mem == r.states[i].mem
  {
    hide Next, Inv;
    assert StepAt(r, n - 1);
    InvHolds(r, n - 1);
    if i < n - 1 {
      assert Owns(r.states[n - 1], h);
      HeldBusStopsWrites(r.states[n - 1], r.actions[n - 1], h);
      NoStoreSinceReservation(r, i, n - 1, h, p);
    }
    OnlyWritesChangeMemory(r.states[n - 1], r.actions[n - 1]);
  }

  /** Exclusivity: a store-conditional that succeeds pairs with the latest load-reserved of its hart,
      to the same address, and nothing was stored between the two. */
  lemma Exclusive(r: Trace, n: nat) returns (i: nat)
    requires Behaviour(r) && n < |r.actions|
    requires r.actions[n].Execute? && r.actions[n].hart < |r.states[n].harts|
    requires Succeeds(r.states[n], r.actions[n].hart, r.actions[n].instr)
    ensures LatestReservation(r, i, n, r.actions[n].hart, r.actions[n].instr.addr)
    ensures forall k :: i <= k < n ==> Enabled(r.states[k], r.actions[k]) && !Writes(r.states[k], r.actions[k])
    ensures r.states[n].mem == r.states[i].mem
    ensures r.states[n + 1].mem == Written(r.states[i].mem, r.actions[n].instr.addr.addr, r.actions[n].instr.value)
  {
    SucceedsIffReserved(r, n);
    i :| LatestReservation(r, i, n, r.actions[n].hart, r.actions[n].instr.addr);
    NoStoreSinceReservation(r, i, n, r.actions[n].hart, r.actions[n].instr.addr);
    assert StepAt(r, n);
    SuccessStores(r.states[n], r.actions[n]);
  }

  lemma SuccessStores(s: State, a: Action)
    requires Enabled(s, a) && a.Execute? && Succeeds(s, a.hart, a.instr)
    ensures Next(s, a).mem == Written(s.mem, a.instr.addr.addr, a.instr.value)
  {
    hide Written;
  }

  /** Two objects that hold the same address do not match: the store-conditional fails although
      the bus was held and the address is the reserved one. */
  lemma SpuriousFailure(s: State, h: nat, a: nat, value: Bytes)
    requires Init(s) && h < |s.harts|
    ensures
      var lr := Execute(h, LoadReserved(Ptr(0, a), Passes), false);
      var sc := Execute(h, StoreConditional(Ptr(1, a), value, Passes), false);
      && Enabled(s, lr) && Owns(Next(s, lr), h) && Enabled(Next(s, lr), sc)
      && !Succeeds(Next(s, lr), h, sc.instr) && Next(Next(s, lr), sc).mem == s.mem
  {
    hide Written;
  }

  // ----- Bounded reservation -----

  predicate Completed(a: Action, h: nat) {
    a.Execute? && a.hart == h && Completes(a.instr)
  }

  /** The instructions that a hart completes in the steps `n` to `m`. */
  function Completions(actions: seq<Action>, h: nat, n: nat, m: nat): nat
    requires n <= m <= |actions|
  {
    if n == m then 0
    else Completions(actions, h, n, m - 1) + if Completed(actions[m - 1], h) then 1 else 0
  }

  ghost predicate Keeps(r: Trace, h: nat, n: nat, m: nat)
    requires Behaviour(r) && n <= m <= |r.actions|
  {
    forall k :: n <= k <= m ==> Owns(r.states[k], h)
  }

  lemma CounterStep(s: State, a: Action, h: nat)
    requires Inv(s) && Enabled(s, a) && h < |s.harts| && Owns(s, h) && Owns(Next(s, a), h)
    ensures h < |Next(s, a).harts|
    ensures Completed(a, h) ==> Next(s, a).harts[h].counter == s.harts[h].counter - 1 && s.harts[h].counter > 1
    ensures !Completed(a, h) ==> Next(s, a).harts[h].counter == s.harts[h].counter
  {
    hide Written, Stored;
    assert HartInv(s, h);
    if a.Execute? && a.hart == h {
      HeldBusStopsWrites(s, a, h);
    } else if a.Execute? {
      assert HartInv(s, a.hart);
      RunStepKeeps(s, a.hart, a.instr, a.interrupt);
    }
  }

  lemma {:induction false} CounterRunsDown(r: Trace, h: nat, n: nat, m: nat)
    requires Behaviour(r) && n <= m <= |r.actions| && Keeps(r, h, n, m)
    ensures h < |r.states[n].harts| == |r.states[m].harts|
    ensures r.states[m].harts[h].counter + Completions(r.actions, h, n, m) == r.states[n].harts[h].counter
    ensures Completions(r.actions, h, n, m) > 0 ==> r.states[m].harts[h].counter >= 1
  {
    hide Next;
    InvHolds(r, n);
    InvHolds(r, m);
    assert Owns(r.states[n], h);
    if n < m {
      CounterRunsDown(r, h, n, m - 1);
      assert StepAt(r, m - 1);
      InvHolds(r, m - 1);
      CounterStep(r.states[m - 1], r.actions[m - 1], h);
    }
  }

  lemma KeptForFewerThanSixteen(r: Trace, h: nat, n: nat, m: nat)
    requires Behaviour(r) && n <= m <= |r.actions| && Keeps(r, h, n, m)
    ensures Completions(r.actions, h, n, m) < 16
  {
    CounterRunsDown(r, h, n, m);
    InvHolds(r, n);
    assert HartInv(r.states[n], h);
  }

  /** Bounded reservation: over any steps in which its owner completes sixteen instructions, the bus is
      released. */
  lemma ReleasedWithinSixteen(r: Trace, h: nat, n: nat, m: nat)
    requires Behaviour(r) && n <= m <= |r.actions| && Completions(r.actions, h, n, m) >= 16
    ensures exists k :: n <= k <= m && !Owns(r.states[k], h)
  {
    if Keeps(r, h, n, m) {
      KeptForFewerThanSixteen(r, h, n, m);
    }
  }

  /** The hart that has the bus can always go on, so the bus cannot be held up. */
  lemma OwnerNeverWaits(s: State, i: Instr, interrupt: bool)
    requires Inv(s) && s.locked && (s.harts[s.owner].amo.Some? <==> i.AmoStore?)
    ensures Enabled(s, Execute(s.owner, i, interrupt))
  {
  }

  // ----- The harts as they run -----

  /** The bus lock, the memory behind it and the harts that share it. */
  class System {
    var locked: bool
    var owner: nat
    var mem: Memory
    var counter: seq<int>
    var lrAddr: seq<Option<Ptr>>
    var amo: seq<Option<Ptr>>

    ghost predicate Valid()
      reads this
    {
      |counter| == |lrAddr| == |amo|
    }

    ghost function View(): State
      requires Valid()
      reads this
    {
      State(
        locked, owner, mem,
        seq(|counter|,
            h requires 0 <= h < |counter| reads this requires Valid() => Hart(counter[h], lrAddr[h], amo[h])))
    }

    constructor (mem: Memory, harts: nat)
      ensures Valid() && |counter| == harts && Init(View()) && View().mem == mem
    {
      this.locked, this.owner, this.mem := false, 0, mem;
      this.counter := seq(harts, _ => 0);
      this.lrAddr := seq(harts, _ => None);
      this.amo := seq(harts, _ => None);
    }

    /** `BusLock::lock`, once it no longer waits. */
    method Lock(h: nat)
      requires Valid() && (locked ==> owner == h)
      modifies this`locked, this`owner
      ensures View() == Locked(old(View()), h)
    {
      locked, owner := true, h;
    }

    method Unlock(h: nat)
      requires Valid()
      modifies this`locked
      ensures View() == Unlocked(old(View()), h)
    {
      if locked && owner == h {
        locked := false;
      }
    }

    /** `symbolic_store_data`: a store, after which the hart gives the bus back. */
    method StoreData(h: nat, addr: nat, value: Bytes)
      requires Valid() && (locked ==> owner == h)
      modifies this`locked, this`mem
      ensures View() == Stored(old(View()), h, addr, value)
    {
      mem := Written(mem, addr, value);
      Unlock(h);
    }

    method ReleaseReservation(h: nat)
      requires Valid() && h < |counter|
      modifies this`locked, this`counter
      ensures Valid() && View() == Released(old(View()), h)
    {
      counter := counter[h := 0];
      Unlock(h);
    }

    /** `LR_W` with `atomic_load_reserved_word`; `trap` is the exception thrown. */
    method LoadReserved(h: nat, addr: Ptr, check: Check) returns (trap: bool)
      requires Valid() && h < |counter| && (locked && !check.Misaligned? ==> owner == h)
      modifies this
      ensures Valid() && View() == Executed(old(View()), h, Instr.LoadReserved(addr, check))
      ensures trap == Traps(old(View()), h, Instr.LoadReserved(addr, check))
    {
      if check.Misaligned? {
        return true;
      }
      Lock(h);
      lrAddr := lrAddr[h := Some(addr)];
      if check.Faults? {
        return true;
      }
      if counter[h] == 0 {
        counter := counter[h := 17];
      }
      return false;
    }

    /** `SC_W` with `atomic_store_conditional_word`; `done` is the result in the destination. */
    method StoreConditional(h: nat, addr: Ptr, value: Bytes, check: Check) returns (trap: bool, done: bool)
      requires Valid() && h < |counter|
      modifies this
      ensures Valid() && View() == Executed(old(View()), h, Instr.StoreConditional(addr, value, check))
      ensures trap == Traps(old(View()), h, Instr.StoreConditional(addr, value, check))
      ensures done == Succeeds(old(View()), h, Instr.StoreConditional(addr, value, check))
    {
      hide Written;
      if check.Misaligned? {
        return true, false;
      }
      done := false;
      if locked && owner == h {
        if Some(addr) == lrAddr[h] {
          if check.Faults? {
            return true, false;
          }
          StoreData(h, addr.addr, value);
          done := true;
        } else {
          Unlock(h);
        }
      }
      counter := counter[h := 0];
      trap := false;
    }

    /** `performance_and_sync_update`. */
    method Count(h: nat)
      requires Valid() && h < |counter| && counter[h] >= 0
      modifies this`counter, this`locked
      ensures Valid() && View() == Counted(old(View()), h)
    {
      if counter[h] != 0 {
        counter := counter[h := counter[h] - 1];
        if counter[h] == 0 {
          ReleaseReservation(h);
        }
      }
    }

    /** The two accesses of `execute_amo`. */
    method AmoLoadWord(h: nat, addr: Ptr, check: Check) returns (trap: bool)
      requires Valid() && h < |counter| && (locked && !check.Misaligned? ==> owner == h)
      modifies this
      ensures Valid() && View() == Executed(old(View()), h, AmoLoad(addr, check))
      ensures trap == Traps(old(View()), h, AmoLoad(addr, check))
    {
      if check.Misaligned? {
        return true;
      }
      Lock(h);
      if check.Faults? {
        return true;
      }
      amo := amo[h := Some(addr)];
      return false;
    }

    method AmoStoreWord(h: nat, value: Bytes, faults: bool)
      requires Valid() && h < |counter| && amo[h].Some? && locked && owner == h
      modifies this
      ensures Valid() && View() == Executed(old(View()), h, AmoStore(value, faults))
    {
      hide Written;
      var addr := amo[h].value.addr;
      amo := amo[h := None];
      if !faults {
        StoreData(h, addr, value);
      }
    }

    /** `exec_step`, as far as the bus is concerned. */
    method ExecStep(h: nat, i: Instr) returns (trap: bool)
      requires Valid() && Enabled(View(), Execute(h, i, false)) && HartInv(View(), h)
      modifies this
      ensures Valid() && View() == Executed(old(View()), h, i) && trap == Traps(old(View()), h, i)
    {
      hide Written, Stored, Released;
      match i
      case LoadReserved(addr, check) => trap := LoadReserved(h, addr, check);
      case StoreConditional(addr, value, check) =>
        var done;
        trap, done := StoreConditional(h, addr, value, check);
      case Load(_, check) => trap := !check.Passes?;
      case Store(addr, value, check) =>
        trap := !check.Passes?;
        if check.Passes? {
          StoreData(h, addr.addr, value);
        }
      case AmoLoad(addr, check) => trap := AmoLoadWord(h, addr, check);
      case AmoStore(value, faults) =>
        trap := faults;
        AmoStoreWord(h, value, faults);
      case Wfi(denied) =>
        ReleaseReservation(h);
        trap := denied;
      case Other(illegal) => trap := illegal;
    }

    /** One step of a hart: `run_step`. */
    method Step(h: nat, i: Instr, interrupt: bool)
      requires Valid() && Inv(View()) && Enabled(View(), Execute(h, i, interrupt))
      modifies this
      ensures Valid() && Inv(View()) && View() == Next(old(View()), Execute(h, i, interrupt))
    {
      hide Executed, Traps, Released;
      assert HartInv(View(), h);
      NextKeepsInv(View(), Execute(h, i, interrupt));
      ExecutedKeeps(View(), h, i);
      var trap := ExecStep(h, i);
      if !Completes(i) {
        return;
      }
      assert counter[h] == View().harts[h].counter;
      if trap || interrupt {
        ReleasedKept(View(), h);
        ReleaseReservation(h);
        assert counter[h] == View().harts[h].counter;
      }
      Count(h);
    }
  }
}
