/** Sv32 address translation (section 4.3.2 of the RISC-V Privileged ISA) with the direct-mapped
    translation cache of the MMU in front of the page walk.  Masks and shifts are written as
    divisions by powers of two. */
module Mmu {
  import opened BitVectors

  const PGSIZE: nat := 4096
  const PAGES: nat := 0x10_0000
  const PTES: nat := 1024
  const TLB_ENTRIES: nat := 256

  /** What `~PGMASK`, a 32-bit number, keeps of a physical address. */
  const MASKED: nat := 0x1_0000_0000

  /** The page number that `flush_tlb` leaves in an entry. */
  const NO_PAGE: nat := 0xFFFF_FFFF_FFFF_FFFF

  datatype Access = FETCH | LOAD | STORE

  datatype Privilege = UserMode | SupervisorMode | MachineMode

  /** The words of physical memory; any other address is a bus error. */
  type Words = map<nat, nat>

  // ----- Page table entries -----

  predicate V(pte: nat) { pte % 2 == 1 }
  predicate R(pte: nat) { pte / 2 % 2 == 1 }
  predicate W(pte: nat) { pte / 4 % 2 == 1 }
  predicate X(pte: nat) { pte / 8 % 2 == 1 }
  predicate U(pte: nat) { pte / 16 % 2 == 1 }
  predicate A(pte: nat) { pte / 64 % 2 == 1 }
  predicate D(pte: nat) { pte / 128 % 2 == 1 }

  function Ppn(pte: nat): nat { pte / 1024 }

  /** The entry with the accessed flag set, and for stores the dirty flag too. */
  function Touched(pte: nat, access: Access): nat {
    pte + (if A(pte) then 0 else 64) + (if access.STORE? && !D(pte) then 128 else 0)
  }

  /** Everything but the accessed and the dirty flag is the same, and those are not cleared. */
  predicate Above(pte: nat, pte': nat) {
    pte' / 256 == pte / 256 && pte' % 64 == pte % 64 && (A(pte) ==> A(pte')) && (D(pte) ==> D(pte'))
  }

  /** The two flags and what lies above and below them. */
  lemma Halves(pte: nat)
    ensures A(pte) == (pte / 64 % 2 == 1) && D(pte) == (pte / 64 / 2 % 2 == 1) && pte / 256 == pte / 64 / 4
    ensures pte == pte / 64 * 64 + pte % 64
  {
  }

  lemma Shifted(pte: nat, k: nat)
    ensures (pte + 64 * k) / 64 == pte / 64 + k && (pte + 64 * k) % 64 == pte % 64
  {
  }

  lemma QuarterFlags(q: nat, a: nat, d: nat)
    requires a == (if q % 2 == 1 then 0 else 1) && (d == 0 || (d == 2 && q / 2 % 2 == 0))
    ensures (q + a + d) / 4 == q / 4 && (q + a + d) % 2 == 1
    ensures (q + a + d) / 2 % 2 == (if d == 2 then 1 else q / 2 % 2)
  {
    var h, y, x := q / 4, q / 2 % 2, q % 2;
    assert q == 4 * h + 2 * y + x;
    DivModUnique(q + a + d, 4, h, 2 * y + x + a + d);
    DivModUnique(q + a + d, 2, 2 * h + y + d / 2, 1);
    DivModUnique(2 * h + y + d / 2, 2, h, y + d / 2);
  }

  lemma TouchedAbove(pte: nat, access: Access)
    ensures Above(pte, Touched(pte, access))
    ensures Touched(Touched(pte, access), access) == Touched(pte, access)
  {
    var a := if A(pte) then 0 else 1;
    var d := if access.STORE? && !D(pte) then 2 else 0;
    var pte' := Touched(pte, access);
    assert pte' == pte + 64 * (a + d);
    hide A, D;
    Halves(pte);
    Halves(pte');
    Shifted(pte, a + d);
    QuarterFlags(pte / 64, a, d);
  }

  /** The flags below the accessed flag depend on the low six bits only. */
  lemma LowFlag(pte: nat, d: nat, e: nat)
    requires d > 0 && d * (2 * e) == 64
    ensures pte / d % 2 == pte % 64 / d % 2
  {
    var q, r := pte / 64, pte % 64;
    var t := r / d;
    assert pte == d * (2 * e) * q + (d * t + r % d) == (2 * (e * q) + t) * d + r % d;
    DivModUnique(pte, d, 2 * (e * q) + t, r % d);
    ModAddMultiple(t, e * q, 2);
  }

  lemma LowFlags(pte: nat)
    ensures V(pte) == V(pte % 64) && R(pte) == R(pte % 64) && W(pte) == W(pte % 64)
    ensures X(pte) == X(pte % 64) && U(pte) == U(pte % 64)
  {
    LowFlag(pte, 1, 32);
    LowFlag(pte, 2, 16);
    LowFlag(pte, 4, 8);
    LowFlag(pte, 8, 4);
    LowFlag(pte, 16, 2);
  }

  lemma AboveFlags(pte: nat, pte': nat)
    requires Above(pte, pte')
    ensures V(pte') == V(pte) && R(pte') == R(pte) && W(pte') == W(pte) && X(pte') == X(pte) && U(pte') == U(pte)
    ensures Ppn(pte') == Ppn(pte)
  {
    hide V, R, W, X, U;
    LowFlags(pte);
    LowFlags(pte');
    assert pte / 1024 == pte / 256 / 4 && pte' / 1024 == pte' / 256 / 4;
  }

  lemma AboveTransitive(p: nat, q: nat, r: nat)
    requires Above(p, q) && Above(q, r)
    ensures Above(p, r)
  {
  }

  // ----- The walk -----

  /** `satp.ppn`, `mstatus.sum`, `mstatus.mxr` and `page_fault_on_AD`. */
  datatype Config = Config(root: nat, sum: bool, mxr: bool, faultOnAD: bool)

  datatype Outcome = Translated(paddr: nat) | PageFault | BusError(addr: nat)

  /** The access is not permitted by a leaf entry. */
  predicate Denied(cfg: Config, pte: nat, access: Access, mode: Privilege) {
    || (access.FETCH? && !X(pte))
    || (access.LOAD? && !R(pte) && !(cfg.mxr && X(pte)))
    || (access.STORE? && !(R(pte) && W(pte)))
    || (if U(pte) then mode.SupervisorMode? && (access.FETCH? || !cfg.sum) else !mode.SupervisorMode?)
  }

  /** The number of pages an entry of a level maps. */
  function Span(level: nat): (r: nat)
    ensures r > 0
  {
    if level == 0 then 1 else PTES
  }

  function PteAddress(vaddr: nat, level: nat, base: nat): nat {
    base + vaddr / (PGSIZE * Span(level)) % PTES * 4
  }

  function Physical(vaddr: nat, level: nat, pte: nat): nat {
    (Ppn(pte) - Ppn(pte) % Span(level) + vaddr / PGSIZE % Span(level)) * PGSIZE + vaddr % PGSIZE
  }

  /** `GenericMMU::walk` from a level on: the outcome, and the memory with the flags of the leaf
      written back. */
  function Walk(cfg: Config, mem: Words, vaddr: nat, access: Access, mode: Privilege, level: nat, base: nat)
    : (Outcome, Words)
  {
    var at := PteAddress(vaddr, level, base);
    if at !in mem then (BusError(at), mem)
    else
      var pte := mem[at];
      if !V(pte) || (!R(pte) && W(pte)) then (PageFault, mem)
      else if !R(pte) && !X(pte) then
        if level == 0 then (PageFault, mem) else Walk(cfg, mem, vaddr, access, mode, level - 1, Ppn(pte) * PGSIZE)
      else if Denied(cfg, pte, access, mode) || Ppn(pte) % Span(level) != 0 then (PageFault, mem)
      else if Touched(pte, access) == pte then (Translated(Physical(vaddr, level, pte)), mem)
      else if cfg.faultOnAD then (PageFault, mem)
      else (Translated(Physical(vaddr, level, pte)), mem[at := Touched(pte, access)])
  }

  /** A walk from the root: two levels. */
  function FreshWalk(cfg: Config, mem: Words, vaddr: nat, access: Access, mode: Privilege): (Outcome, Words) {
    Walk(cfg, mem, vaddr, access, mode, 1, cfg.root * PGSIZE)
  }

  ghost predicate AllAbove(mem: Words, mem': Words) {
    mem'.Keys == mem.Keys && forall a {:trigger mem[a]} {:trigger mem'[a]} :: a in mem ==> Above(mem[a], mem'[a])
  }

  lemma {:induction false} WalkGrows(cfg: Config, mem: Words, vaddr: nat, access: Access, mode: Privilege, level: nat,
                                     base: nat)
    ensures AllAbove(mem, Walk(cfg, mem, vaddr, access, mode, level, base).1)
  {
    hide Denied, Physical, Touched, Above;
    var at := PteAddress(vaddr, level, base);
    forall pte: nat
      ensures Above(pte, pte)
    {
      AboveReflexive(pte);
    }
    if at in mem {
      TouchedAbove(mem[at], access);
      if level > 0 {
        WalkGrows(cfg, mem, vaddr, access, mode, level - 1, Ppn(mem[at]) * PGSIZE);
      }
    }
  }

  lemma AboveReflexive(pte: nat)
    ensures Above(pte, pte)
  {
  }

  /** Setting accessed and dirty flags anywhere, page tables that map themselves included, does
      not change the outcome of any walk; and a walk that had nothing to write still has not. */
  lemma {:induction false} WalkUnaffected(cfg: Config, mem: Words, mem': Words, vaddr: nat, access: Access,
                                          mode: Privilege, level: nat, base: nat)
    requires AllAbove(mem, mem') && !cfg.faultOnAD
    ensures Walk(cfg, mem', vaddr, access, mode, level, base).0 == Walk(cfg, mem, vaddr, access, mode, level, base).0
    ensures Walk(cfg, mem, vaddr, access, mode, level, base).1 == mem ==>
            Walk(cfg, mem', vaddr, access, mode, level, base).1 == mem'
  {
    hide Above, V, R, W, X, U, Ppn, Touched;
    var at := PteAddress(vaddr, level, base);
    if at in mem {
      var pte, pte' := mem[at], mem'[at];
      AboveFlags(pte, pte');
      TouchedMonotone(pte, pte', access);
      if level > 0 {
        WalkUnaffected(cfg, mem, mem', vaddr, access, mode, level - 1, Ppn(pte) * PGSIZE);
      }
    }
  }

  lemma TouchedMonotone(pte: nat, pte': nat, access: Access)
    requires Above(pte, pte')
    ensures Touched(pte, access) == pte ==> Touched(pte', access) == pte'
  {
  }

  /** A successful walk repeated, with any further flags set meanwhile, writes nothing. */
  lemma {:induction false} WalkAgain(cfg: Config, mem: Words, mem': Words, vaddr: nat, access: Access, mode: Privilege,
                                     level: nat, base: nat)
    requires Walk(cfg, mem, vaddr, access, mode, level, base).0.Translated?
    requires AllAbove(Walk(cfg, mem, vaddr, access, mode, level, base).1, mem') && !cfg.faultOnAD
    ensures Walk(cfg, mem', vaddr, access, mode, level, base) ==
            (Walk(cfg, mem, vaddr, access, mode, level, base).0, mem')
  {
    hide Above, V, R, W, X, U, Ppn, Touched;
    WalkGrows(cfg, mem, vaddr, access, mode, level, base);
    var at, mem1 := PteAddress(vaddr, level, base), Walk(cfg, mem, vaddr, access, mode, level, base).1;
    var pte, pte1, pte' := mem[at], mem1[at], mem'[at];
    AboveTransitive(pte, pte1, pte');
    AboveFlags(pte, pte');
    TouchedAbove(pte, access);
    TouchedMonotone(pte1, pte', access);
    if !R(pte) && !X(pte) {
      WalkAgain(cfg, mem, mem', vaddr, access, mode, level - 1, Ppn(pte) * PGSIZE);
    }
  }

  // ----- Reference: the translation of Sv32 without a loop -----

  const MEGAPAGE: nat := 0x40_0000

  /** The leaf entry of an address: its level, where it is, and what it holds. */
  datatype Leaf = Leaf(level: nat, at: nat, pte: nat)

  datatype MaybeLeaf = NoLeaf | Found(leaf: Leaf)

  /** A valid entry, of which those that can be written but not read are reserved. */
  predicate Proper(pte: nat) {
    V(pte) && (W(pte) ==> R(pte))
  }

  predicate IsLeaf(pte: nat) {
    R(pte) || X(pte)
  }

  function Lookup(cfg: Config, mem: Words, vaddr: nat): MaybeLeaf {
    var a1 := cfg.root * PGSIZE + 4 * (vaddr / MEGAPAGE % 1024);
    if a1 !in mem || !Proper(mem[a1]) then NoLeaf
    else if IsLeaf(mem[a1]) then Found(Leaf(1, a1, mem[a1]))
    else
      var a0 := Ppn(mem[a1]) * PGSIZE + 4 * (vaddr / PGSIZE % 1024);
      if a0 in mem && Proper(mem[a0]) && IsLeaf(mem[a0]) then Found(Leaf(0, a0, mem[a0])) else NoLeaf
  }

  /** The access is permitted: user pages are for user mode, and for supervisor mode if `sum` is set, except that
      it does not execute them; all other pages are for supervisor mode. */
  predicate Permits(cfg: Config, pte: nat, access: Access, mode: Privilege) {
    match access
    case FETCH => X(pte) && U(pte) == mode.UserMode?
    case LOAD => (R(pte) || (cfg.mxr && X(pte))) && PageOpen(cfg, pte, mode)
    case STORE => R(pte) && W(pte) && PageOpen(cfg, pte, mode)
  }

  predicate PageOpen(cfg: Config, pte: nat, mode: Privilege) {
    if mode.UserMode? then U(pte) else U(pte) ==> cfg.sum
  }

  /** The flags that the access needs are set. */
  predicate Ready(pte: nat, access: Access) {
    A(pte) && (access.STORE? ==> D(pte))
  }

  function LeafAddress(l: Leaf, vaddr: nat): nat {
    if l.level == 1 then Ppn(l.pte) / 1024 * MEGAPAGE + vaddr % MEGAPAGE else Ppn(l.pte) * PGSIZE + vaddr % PGSIZE
  }

  predicate Translates(cfg: Config, l: Leaf, access: Access, mode: Privilege) {
    && Permits(cfg, l.pte, access, mode)
    && (l.level == 1 ==> Ppn(l.pte) % 1024 == 0)
    && (cfg.faultOnAD ==> Ready(l.pte, access))
  }

  lemma DeniedIff(cfg: Config, pte: nat, access: Access, mode: Privilege)
    requires !mode.MachineMode?
    ensures Denied(cfg, pte, access, mode) <==> !Permits(cfg, pte, access, mode)
  {
    hide R, W, X, U;
  }

  lemma TouchedIff(pte: nat, access: Access)
    ensures Touched(pte, access) == pte <==> Ready(pte, access)
    ensures Ready(Touched(pte, access), access) && Above(pte, Touched(pte, access))
  {
    TouchedAbove(pte, access);
  }

  /** The megapage of an address keeps its low 22 bits. */
  lemma MegapageAddress(vaddr: nat, pte: nat)
    requires Ppn(pte) % 1024 == 0
    ensures Physical(vaddr, 1, pte) == LeafAddress(Leaf(1, 0, pte), vaddr)
  {
    hide Ppn;
    var vpn, offset := vaddr / PGSIZE, vaddr % PGSIZE;
    assert vaddr == vpn * PGSIZE + offset;
    DivModUnique(vaddr, MEGAPAGE, vpn / 1024, vpn % 1024 * PGSIZE + offset);
  }

  /** One level of a walk. */
  lemma LevelOutcome(cfg: Config, mem: Words, vaddr: nat, access: Access, mode: Privilege, level: nat, base: nat)
    requires !mode.MachineMode?
    ensures
      var at := PteAddress(vaddr, level, base);
      var w := Walk(cfg, mem, vaddr, access, mode, level, base);
      if at !in mem || !Proper(mem[at]) then !w.0.Translated? && w.1 == mem
      else if !IsLeaf(mem[at]) then
        w ==
          if level == 0 then (PageFault, mem)
          else Walk(cfg, mem, vaddr, access, mode, level - 1, Ppn(mem[at]) * PGSIZE)
      else if Permits(cfg, mem[at], access, mode) && Ppn(mem[at]) % Span(level) == 0 &&
        (cfg.faultOnAD ==> Ready(mem[at], access))
      then w == (Translated(Physical(vaddr, level, mem[at])), mem[at := Touched(mem[at], access)])
      else w == (PageFault, mem)
  {
    hide V, R, W, X, U, Ppn, Touched, Denied, Permits, Ready, Physical, Span, PteAddress;
    var at := PteAddress(vaddr, level, base);
    if at in mem {
      var pte := mem[at];
      DeniedIff(cfg, pte, access, mode);
      TouchedIff(pte, access);
      assert mem[at := pte] == mem;
    }
  }

  /** A walk translates exactly if the address has a leaf that permits the access, and then to the address that the
      leaf and the low bits make; the one word written is the leaf with the flags set. */
  lemma TranslatesIff(cfg: Config, mem: Words, vaddr: nat, access: Access, mode: Privilege)
    requires !mode.MachineMode?
    ensures
      var (o, mem') := FreshWalk(cfg, mem, vaddr, access, mode);
      var l := Lookup(cfg, mem, vaddr);
      if l.Found? && Translates(cfg, l.leaf, access, mode)
      then o == Translated(LeafAddress(l.leaf, vaddr)) && mem' == mem[l.leaf.at := Touched(l.leaf.pte, access)]
      else !o.Translated? && mem' == mem
  {
    hide Walk, Proper, IsLeaf, Ppn, Touched, Permits, Ready, Physical;
    LevelOutcome(cfg, mem, vaddr, access, mode, 1, cfg.root * PGSIZE);
    var a1 := PteAddress(vaddr, 1, cfg.root * PGSIZE);
    if a1 in mem {
      var p1 := mem[a1];
      if Ppn(p1) % 1024 == 0 {
        MegapageAddress(vaddr, p1);
      }
      LevelOutcome(cfg, mem, vaddr, access, mode, 0, Ppn(p1) * PGSIZE);
      var a0 := PteAddress(vaddr, 0, Ppn(p1) * PGSIZE);
      if a0 in mem {
        PageAddress(vaddr, mem[a0]);
      }
    }
  }

  lemma PageAddress(vaddr: nat, pte: nat)
    ensures Physical(vaddr, 0, pte) == Ppn(pte) * PGSIZE + vaddr % PGSIZE
  {
    hide Ppn;
  }

  // ----- Stores beside the page tables -----

  /** The entry leads to a table of the next level. */
  predicate IsPointer(pte: nat) {
    Proper(pte) && !IsLeaf(pte)
  }

  /** The address lies in the root table or in one that an entry of the root table leads to. */
  ghost predicate InTables(cfg: Config, mem: Words, at: nat) {
    || at / PGSIZE == cfg.root
    || exists a :: a in mem && a / PGSIZE == cfg.root && IsPointer(mem[a]) && Ppn(mem[a]) == at / PGSIZE
  }

  lemma PteInTable(vaddr: nat, level: nat, page: nat)
    ensures PteAddress(vaddr, level, page * PGSIZE) / PGSIZE == page
  {
    hide Span;
    var field := vaddr / (PGSIZE * Span(level)) % PTES;
    DivModUnique(page * PGSIZE + field * 4, PGSIZE, page, field * 4);
  }

  /** What a level of the walk does, if the word stored is not the entry it reads. */
  lemma LevelBeside(cfg: Config, mem: Words, at: nat, word: nat, vaddr: nat, access: Access, mode: Privilege,
                    level: nat, page: nat)
    requires at in mem && at / PGSIZE != page
    ensures
      var a := PteAddress(vaddr, level, page * PGSIZE);
      var w := Walk(cfg, mem, vaddr, access, mode, level, page * PGSIZE);
      var w' := Walk(cfg, mem[at := word], vaddr, access, mode, level, page * PGSIZE);
      if level > 0 && a in mem && IsPointer(mem[a])
      then
        && w == Walk(cfg, mem, vaddr, access, mode, level - 1, Ppn(mem[a]) * PGSIZE)
        && w' == Walk(cfg, mem[at := word], vaddr, access, mode, level - 1, Ppn(mem[a]) * PGSIZE)
      else w' == (w.0, w.1[at := word])
  {
    hide V, R, W, X, U, Ppn, Touched, Denied, Physical, Span, PteAddress;
    PteInTable(vaddr, level, page);
    var a := PteAddress(vaddr, level, page * PGSIZE);
    assert a != at;
    if a in mem {
      assert mem[a := Touched(mem[a], access)][at := word] == mem[at := word][a := Touched(mem[a], access)];
    }
  }

  /** A store beside the page tables changes the outcome of no walk, and the two write independently. */
  lemma StoreBeside(cfg: Config, mem: Words, at: nat, word: nat, vaddr: nat, access: Access, mode: Privilege)
    requires at in mem && !InTables(cfg, mem, at)
    ensures
      var w := FreshWalk(cfg, mem, vaddr, access, mode);
      FreshWalk(cfg, mem[at := word], vaddr, access, mode) == (w.0, w.1[at := word])
  {
    hide Walk, IsPointer, Ppn, PteAddress;
    LevelBeside(cfg, mem, at, word, vaddr, access, mode, 1, cfg.root);
    PteInTable(vaddr, 1, cfg.root);
    var a := PteAddress(vaddr, 1, cfg.root * PGSIZE);
    if a in mem && IsPointer(mem[a]) {
      LevelBeside(cfg, mem, at, word, vaddr, access, mode, 0, Ppn(mem[a]));
    }
  }

  // ----- Pages -----

  lemma SamePageField(vaddr: nat, vaddr': nat, span: nat)
    requires span > 0 && vaddr / PGSIZE == vaddr' / PGSIZE
    ensures vaddr / (PGSIZE * span) == vaddr' / (PGSIZE * span)
  {
    PageField(vaddr, span);
    PageField(vaddr', span);
  }

  lemma PageField(vaddr: nat, span: nat)
    requires span > 0
    ensures vaddr / (PGSIZE * span) == vaddr / PGSIZE / span
  {
    var vpn, offset := vaddr / PGSIZE, vaddr % PGSIZE;
    var q, r := vpn / span, vpn % span;
    var d := PGSIZE * span;
    assert vpn == q * span + r;
    assert vaddr == vpn * PGSIZE + offset;
    assert q * d == q * span * PGSIZE;
    assert r + 1 <= span;
    assert r * PGSIZE + offset < d;
    DivModUnique(vaddr, d, q, r * PGSIZE + offset);
  }

  /** Two addresses in one page are translated alike: same fault or same page, and the same
      flags are written. */
  ghost predicate Alike(o: Outcome, vaddr: nat, o': Outcome, vaddr': nat) {
    match o
    case Translated(p) =>
      o'.Translated? && p % PGSIZE == vaddr % PGSIZE && o'.paddr % PGSIZE == vaddr' % PGSIZE &&
        p / PGSIZE == o'.paddr / PGSIZE
    case _ => o' == o
  }

  lemma {:induction false} SamePage(cfg: Config, mem: Words, vaddr: nat, vaddr': nat, access: Access, mode: Privilege,
                                    level: nat, base: nat)
    requires vaddr / PGSIZE == vaddr' / PGSIZE
    ensures
      var w, w' := Walk(cfg, mem, vaddr, access, mode, level, base), Walk(cfg, mem, vaddr', access, mode, level, base);
      Alike(w.0, vaddr, w'.0, vaddr') && w'.1 == w.1
  {
    hide V, R, W, X, U, Denied, Touched, Ppn;
    SamePageField(vaddr, vaddr', Span(level));
    var at := PteAddress(vaddr, level, base);
    assert PteAddress(vaddr', level, base) == at;
    if at in mem {
      PhysicalPage(vaddr, level, mem[at]);
      PhysicalPage(vaddr', level, mem[at]);
      if level > 0 {
        SamePage(cfg, mem, vaddr, vaddr', access, mode, level - 1, Ppn(mem[at]) * PGSIZE);
      }
    }
  }

  lemma PhysicalPage(vaddr: nat, level: nat, pte: nat)
    ensures Physical(vaddr, level, pte) % PGSIZE == vaddr % PGSIZE
    ensures Physical(vaddr, level, pte) / PGSIZE == Ppn(pte) - Ppn(pte) % Span(level) + vaddr / PGSIZE % Span(level)
  {
    hide Ppn, Span;
    DivModUnique(Physical(vaddr, level, pte), PGSIZE,
      Ppn(pte) - Ppn(pte) % Span(level) + vaddr / PGSIZE % Span(level), vaddr % PGSIZE);
  }

  // ----- The translation cache -----

  datatype Entry = Entry(ppn: nat, vpn: nat)

  /** The page address as an entry keeps it: what the 32-bit mask leaves. */
  function PageKept(paddr: nat): nat {
    paddr % MASKED - paddr % MASKED % PGSIZE
  }

  /** What a hit returns for the page offset of an address. */
  function Hit(e: Entry, vaddr: nat): nat {
    e.ppn + vaddr % PGSIZE
  }

  lemma KeptIsMasked(paddr: nat, paddr': nat)
    requires paddr / PGSIZE == paddr' / PGSIZE
    ensures PageKept(paddr) + paddr' % PGSIZE == paddr' % MASKED
  {
    MaskedPage(paddr);
    MaskedPage(paddr');
  }

  lemma MaskedPage(paddr: nat)
    ensures paddr % MASKED == paddr / PGSIZE % PAGES * PGSIZE + paddr % PGSIZE
    ensures paddr % MASKED % PGSIZE == paddr % PGSIZE
  {
    var page, offset := paddr / PGSIZE, paddr % PGSIZE;
    var low := page % PAGES * PGSIZE + offset;
    DivModUnique(paddr, MASKED, page / PAGES, low);
    DivModUnique(low, PGSIZE, page % PAGES, offset);
  }

  /** An entry that hits is backed by the page tables: the walk succeeds, has nothing to write,
      and leads to the page kept. */
  ghost predicate Backed(e: Entry, cfg: Config, mem: Words, access: Access, mode: Privilege) {
    var w := FreshWalk(cfg, mem, e.vpn * PGSIZE, access, mode);
    w.0.Translated? && w.1 == mem && e.ppn == PageKept(w.0.paddr)
  }

  /** A hit agrees with the walk up to the mask, for every address of the page. */
  lemma HitAgrees(e: Entry, cfg: Config, mem: Words, vaddr: nat, access: Access, mode: Privilege)
    requires Backed(e, cfg, mem, access, mode) && e.vpn == vaddr / PGSIZE
    ensures FreshWalk(cfg, mem, vaddr, access, mode).0.Translated?
    ensures FreshWalk(cfg, mem, vaddr, access, mode).1 == mem
    ensures Hit(e, vaddr) == FreshWalk(cfg, mem, vaddr, access, mode).0.paddr % MASKED
    ensures Translated(Hit(e, vaddr)) == FreshWalk(cfg, mem, vaddr, access, mode).0 <==>
            FreshWalk(cfg, mem, vaddr, access, mode).0.paddr < MASKED
  {
    hide Walk, PageKept;
    DivModUnique(e.vpn * PGSIZE, PGSIZE, e.vpn, 0);
    SamePage(cfg, mem, e.vpn * PGSIZE, vaddr, access, mode, 1, cfg.root * PGSIZE);
    KeptIsMasked(FreshWalk(cfg, mem, e.vpn * PGSIZE, access, mode).0.paddr,
      FreshWalk(cfg, mem, vaddr, access, mode).0.paddr);
  }

  /** The entry made after a successful walk is backed in the memory that the walk leaves. */
  lemma FilledBacked(cfg: Config, mem: Words, vaddr: nat, access: Access, mode: Privilege)
    requires FreshWalk(cfg, mem, vaddr, access, mode).0.Translated?
    ensures
      var (o, mem') := FreshWalk(cfg, mem, vaddr, access, mode);
      Backed(Entry(PageKept(o.paddr), vaddr / PGSIZE), cfg, mem', access, mode)
  {
    hide Walk, PageKept;
    var (o, mem') := FreshWalk(cfg, mem, vaddr, access, mode);
    var page := vaddr / PGSIZE * PGSIZE;
    DivModUnique(page, PGSIZE, vaddr / PGSIZE, 0);
    if cfg.faultOnAD {
      FaultingWritesNothing(cfg, mem, vaddr, access, mode, 1, cfg.root * PGSIZE);
    } else {
      AllAboveReflexive(mem');
      WalkAgain(cfg, mem, mem', vaddr, access, mode, 1, cfg.root * PGSIZE);
    }
    SamePage(cfg, mem', vaddr, page, access, mode, 1, cfg.root * PGSIZE);
    KeptOfPage(o.paddr, FreshWalk(cfg, mem', page, access, mode).0.paddr);
  }

  lemma KeptOfPage(paddr: nat, paddr': nat)
    requires paddr / PGSIZE == paddr' / PGSIZE
    ensures PageKept(paddr) == PageKept(paddr')
  {
    KeptIsMasked(paddr, paddr');
    KeptIsMasked(paddr', paddr');
  }

  lemma AllAboveReflexive(mem: Words)
    ensures AllAbove(mem, mem)
  {
  }

  lemma {:induction false} FaultingWritesNothing(cfg: Config, mem: Words, vaddr: nat, access: Access, mode: Privilege,
                                                 level: nat, base: nat)
    requires cfg.faultOnAD
    ensures Walk(cfg, mem, vaddr, access, mode, level, base).1 == mem
  {
    hide V, R, W, X, U, Denied, Touched, Ppn;
    var at := PteAddress(vaddr, level, base);
    if at in mem && level > 0 {
      FaultingWritesNothing(cfg, mem, vaddr, access, mode, level - 1, Ppn(mem[at]) * PGSIZE);
    }
  }

  /** A walk for any address, access and mode keeps an entry backed. */
  lemma BackedKept(e: Entry, cfg: Config, mem: Words, access: Access, mode: Privilege,
                   vaddr: nat, access': Access, mode': Privilege)
    requires Backed(e, cfg, mem, access, mode)
    ensures Backed(e, cfg, FreshWalk(cfg, mem, vaddr, access', mode').1, access, mode)
  {
    hide Walk, PageKept;
    var mem' := FreshWalk(cfg, mem, vaddr, access', mode').1;
    if cfg.faultOnAD {
      FaultingWritesNothing(cfg, mem, vaddr, access', mode', 1, cfg.root * PGSIZE);
    } else {
      WalkGrows(cfg, mem, vaddr, access', mode', 1, cfg.root * PGSIZE);
      WalkUnaffected(cfg, mem, mem', e.vpn * PGSIZE, access, mode, 1, cfg.root * PGSIZE);
    }
  }

  lemma BackedBeside(e: Entry, cfg: Config, mem: Words, access: Access, mode: Privilege, at: nat, word: nat)
    requires Backed(e, cfg, mem, access, mode) && at in mem && !InTables(cfg, mem, at)
    ensures Backed(e, cfg, mem[at := word], access, mode)
  {
    hide FreshWalk, InTables;
    StoreBeside(cfg, mem, at, word, e.vpn * PGSIZE, access, mode);
  }

  /** A store into a page table does need a flush: the entry would go on hitting where the walk now faults. */
  lemma StaleEntry()
    ensures
      var cfg, mem, e := Config(0, false, false, false), map[0 := 0xDF], Entry(0, 0);
      && Backed(e, cfg, mem, LOAD, UserMode) && InTables(cfg, mem, 0)
      && FreshWalk(cfg, mem[0 := 0], 0, LOAD, UserMode).0 == PageFault
  {
    var cfg, mem := Config(0, false, false, false), map[0 := 0xDF];
    assert PteAddress(0, 1, 0) == 0;
    assert FreshWalk(cfg, mem, 0, LOAD, UserMode) == (Translated(0), mem);
  }

  ghost predicate EntryOk(e: Entry, i: nat, cfg: Config, mem: Words, access: Access, mode: Privilege) {
    e.vpn == NO_PAGE || (e.vpn < PAGES && e.vpn % TLB_ENTRIES == i && Backed(e, cfg, mem, access, mode))
  }

  function ModeIndex(mode: Privilege): nat {
    match mode case UserMode => 0 case SupervisorMode => 1 case MachineMode => 3
  }

  function AccessIndex(access: Access): nat {
    match access case FETCH => 0 case LOAD => 1 case STORE => 2
  }

  /** The registers that translation reads. */
  datatype Registers = Registers(paged: bool, cfg: Config, prv: Privilege, mprv: bool, mpp: Privilege) {
    function EffectiveMode(access: Access): Privilege {
      if !access.FETCH? && mprv then mpp else prv
    }

    predicate Bare(access: Access) {
      !paged || EffectiveMode(access).MachineMode?
    }
  }

  /** What happens between two flushes, and the flush itself: a translation, a store to physical memory, a change of
      privilege, and a flush after which page tables and registers are as given. */
  datatype Request =
    | Translation(vaddr: nat, access: Access)
    | Store(at: nat, word: nat)
    | Switch(prv: Privilege, mprv: bool, mpp: Privilege)
    | Fence(words: Words, regs: Registers)

  /** Virtual addresses have 32 bits, and while they are translated the page tables are changed before a flush
      only. */
  ghost predicate Admissible(regs: Registers, mem: Words, q: Request) {
    match q
    case Translation(vaddr, _) => vaddr / PGSIZE < PAGES
    case Store(at, _) => at in mem && (regs.paged ==> !InTables(regs.cfg, mem, at))
    case _ => true
  }

  ghost predicate AllAdmissible(regs: Registers, mem: Words, qs: seq<Request>)
    decreases |qs|
  {
    qs != [] ==>
      Admissible(regs, mem, qs[0]) &&
      var (regs', mem') := AfterRequest(regs, mem, qs[0]);
      AllAdmissible(regs', mem', qs[1..])
  }

  function AfterRequest(regs: Registers, mem: Words, q: Request): (Registers, Words) {
    match q
    case Translation(vaddr, access) =>
      (regs, if regs.Bare(access) then mem else FreshWalk(regs.cfg, mem, vaddr, access, regs.EffectiveMode(access)).1)
    case Store(at, word) => (regs, mem[at := word])
    case Fence(mem', regs') => (regs', mem')
    case Switch(prv, mprv, mpp) => (regs.(prv := prv, mprv := mprv, mpp := mpp), mem)
  }

  function Answer(regs: Registers, mem: Words, q: Request): Outcome
    requires q.Translation?
  {
    if regs.Bare(q.access) then Translated(q.vaddr)
    else FreshWalk(regs.cfg, mem, q.vaddr, q.access, regs.EffectiveMode(q.access)).0
  }

  /** The unit without a cache: every translation walks the page tables. */
  function Uncached(regs: Registers, mem: Words, qs: seq<Request>): seq<Outcome>
    decreases |qs|
  {
    if qs == [] then []
    else
      var (regs', mem') := AfterRequest(regs, mem, qs[0]);
      (if qs[0].Translation? then [Answer(regs, mem, qs[0])] else []) + Uncached(regs', mem', qs[1..])
  }

  function UncachedMemory(regs: Registers, mem: Words, qs: seq<Request>): Words
    decreases |qs|
  {
    if qs == [] then mem
    else var (regs', mem') := AfterRequest(regs, mem, qs[0]); UncachedMemory(regs', mem', qs[1..])
  }

  /** One outcome is the other with a physical address cut to 32 bits. */
  predicate SameBelow32(o: Outcome, o': Outcome) {
    o == o' || (o.Translated? && o' == Translated(o.paddr % MASKED) && o.paddr >= MASKED)
  }

  predicate AllSameBelow32(os: seq<Outcome>, os': seq<Outcome>) {
    |os| == |os'| && forall i :: 0 <= i < |os| ==> SameBelow32(os[i], os'[i])
  }

  /** Without physical addresses beyond 32 bits the cache cannot be told from walking every time. */
  lemma CacheInvisible(os: seq<Outcome>, os': seq<Outcome>)
    requires AllSameBelow32(os, os') && forall i :: 0 <= i < |os| && os[i].Translated? ==> os[i].paddr < MASKED
    ensures os' == os
  {
  }

  /** A page beyond 32 bits is translated differently by the walk and by the hit after it. */
  lemma HighPageDiffers()
    ensures
      var cfg, mem := Config(0, false, false, false), map[0 := 0x100000 * 1024 + 0xDF];
      var (o, mem') := FreshWalk(cfg, mem, 0, LOAD, UserMode);
      var e := Entry(PageKept(o.paddr), 0);
      o == Translated(0x1_0000_0000) && Backed(e, cfg, mem', LOAD, UserMode) && Hit(e, 0) == 0
  {
    var cfg, mem := Config(0, false, false, false), map[0 := 0x100000 * 1024 + 0xDF];
    assert PteAddress(0, 1, 0) == 0;
    assert FreshWalk(cfg, mem, 0, LOAD, UserMode) == (Translated(0x1_0000_0000), mem);
    FilledBacked(cfg, mem, 0, LOAD, UserMode);
  }

  /** `GenericMMU` with the registers of the core that it reads. */
  class MMU {
    const tlb: array3<Entry>

    /** Physical memory, shared with the rest of the core. */
    var words: Words

    var regs: Registers

    ghost predicate Valid()
      reads this
    {
      tlb.Length0 == 2 && tlb.Length1 == 3 && tlb.Length2 == TLB_ENTRIES
    }

    /** Where addresses are translated, every entry is empty or backed by the page tables as they are now. */
    ghost predicate Coherent()
      requires Valid()
      reads this, tlb
    {
      forall mode: Privilege, access: Access, i :: regs.paged && !mode.MachineMode? && 0 <= i < TLB_ENTRIES ==>
        EntryOk(tlb[ModeIndex(mode), AccessIndex(access), i], i, regs.cfg, words, access, mode)
    }

    constructor (words: Words, regs: Registers)
      ensures Valid() && Coherent() && fresh(tlb) && this.words == words && this.regs == regs
    {
      this.words, this.regs := words, regs;
      this.tlb := new Entry[2, 3, TLB_ENTRIES];
      new;
      FlushTlb();
    }

    /** `flush_tlb`: afterwards the cache is coherent, whatever happened to the page tables, the
        registers or the entries before. */
    method FlushTlb()
      requires Valid()
      modifies tlb
      ensures Coherent()
      ensures forall m, t, i :: 0 <= m < 2 && 0 <= t < 3 && 0 <= i < TLB_ENTRIES ==> tlb[m, t, i].vpn == NO_PAGE
    {
      forall m, t, i | 0 <= m < 2 && 0 <= t < 3 && 0 <= i < TLB_ENTRIES {
        tlb[m, t, i] := Entry(NO_PAGE, NO_PAGE);
      }
    }

    /** `walk`: the loop over the levels. */
    method PageWalk(vaddr: nat, access: Access, mode: Privilege) returns (r: Outcome)
      modifies this`words
      ensures (r, words) == FreshWalk(regs.cfg, old(words), vaddr, access, mode)
    {
      hide V, R, W, X, U, Ppn, Touched, Denied, Physical;
      var base: nat := regs.cfg.root * PGSIZE;
      var i := 1;
      while i >= 0
        invariant -1 <= i <= 1 && words == old(words)
        invariant FreshWalk(regs.cfg, words, vaddr, access, mode) ==
          if i < 0 then (PageFault, words) else Walk(regs.cfg, words, vaddr, access, mode, i, base)
      {
        var at := PteAddress(vaddr, i, base);
        if at !in words {
          return BusError(at);
        }
        var pte := words[at];
        if !V(pte) || (!R(pte) && W(pte)) {
          break;
        }
        if !R(pte) && !X(pte) {
          base := Ppn(pte) * PGSIZE;
          i := i - 1;
          continue;
        }
        if Denied(regs.cfg, pte, access, mode) || Ppn(pte) % Span(i) != 0 {
          break;
        }
        if Touched(pte, access) != pte {
          if regs.cfg.faultOnAD {
            break;
          }
          words := words[at := Touched(pte, access)];
        }
        return Translated(Physical(vaddr, i, pte));
      }
      return PageFault;
    }

    /** The flags written by a walk leave the cache coherent. */
    twostate lemma EntriesKept(vaddr: nat, new access: Access, new mode: Privilege)
      requires Valid() && regs == old(regs) && words == FreshWalk(regs.cfg, old(words), vaddr, access, mode).1
      requires forall m, t, i :: 0 <= m < 2 && 0 <= t < 3 && 0 <= i < TLB_ENTRIES ==> tlb[m, t, i] == old(tlb[m, t, i])
      ensures old(Coherent()) ==> Coherent()
    {
      hide Walk, Backed;
      if old(Coherent()) && regs.paged {
        forall mode': Privilege, access': Access, i | !mode'.MachineMode? && 0 <= i < TLB_ENTRIES
          ensures EntryOk(tlb[ModeIndex(mode'), AccessIndex(access'), i], i, regs.cfg, words, access', mode')
        {
          var e := tlb[ModeIndex(mode'), AccessIndex(access'), i];
          assert EntryOk(old(tlb[ModeIndex(mode'), AccessIndex(access'), i]), i, regs.cfg, old(words), access', mode');
          if e.vpn != NO_PAGE {
            BackedKept(e, regs.cfg, old(words), access', mode', vaddr, access, mode);
          }
        }
      }
    }

    predicate Hits(vaddr: nat, access: Access)
      requires Valid() && !regs.Bare(access)
      reads this, tlb
    {
      tlb[ModeIndex(regs.EffectiveMode(access)), AccessIndex(access), vaddr / PGSIZE % TLB_ENTRIES].vpn ==
        vaddr / PGSIZE
    }

    /** `translate_virtual_to_physical_addr`.  With a coherent cache the result is that of a fresh
        walk, and so are the flags written; only a hit drops the bits above the 32nd. */
    method Translate(vaddr: nat, access: Access) returns (r: Outcome)
      requires Valid() && vaddr / PGSIZE < PAGES
      modifies this`words, tlb
      ensures regs.Bare(access) ==> r == Translated(vaddr) && words == old(words)
      ensures old(Coherent()) ==> Coherent()
      ensures old(Coherent()) && !regs.Bare(access) ==>
        var (walked, mem) := FreshWalk(regs.cfg, old(words), vaddr, access, regs.EffectiveMode(access));
        && words == mem
        && (old(Hits(vaddr, access)) ==> walked.Translated? && r == Translated(walked.paddr % MASKED))
        && (!old(Hits(vaddr, access)) ==> r == walked)
    {
      hide Walk, PageKept, Hit;
      if regs.Bare(access) {
        return Translated(vaddr);
      }
      var mode := regs.EffectiveMode(access);
      var vpn := vaddr / PGSIZE;
      var m, t, idx := ModeIndex(mode), AccessIndex(access), vpn % TLB_ENTRIES;
      if Hits(vaddr, access) {
        if old(Coherent()) {
          assert EntryOk(tlb[m, t, idx], idx, regs.cfg, words, access, mode);
          HitAgrees(tlb[m, t, idx], regs.cfg, words, vaddr, access, mode);
        }
        return Translated(Hit(tlb[m, t, idx], vaddr));
      }
      r := PageWalk(vaddr, access, mode);
      EntriesKept(vaddr, access, mode);
      if r.Translated? {
        FilledBacked(regs.cfg, old(words), vaddr, access, mode);
        tlb[m, t, idx] := Entry(PageKept(r.paddr), vpn);
      }
    }

    lemma StoreKeeps(at: nat, word: nat)
      requires Valid() && Coherent() && at in words && (regs.paged ==> !InTables(regs.cfg, words, at))
      ensures forall mode: Privilege, access: Access, i :: regs.paged && !mode.MachineMode? && 0 <= i < TLB_ENTRIES ==>
        EntryOk(tlb[ModeIndex(mode), AccessIndex(access), i], i, regs.cfg, words[at := word], access, mode)
    {
      hide Backed, InTables;
      forall mode: Privilege, access: Access, i | regs.paged && !mode.MachineMode? && 0 <= i < TLB_ENTRIES
        ensures EntryOk(tlb[ModeIndex(mode), AccessIndex(access), i], i, regs.cfg, words[at := word], access, mode)
      {
        var e := tlb[ModeIndex(mode), AccessIndex(access), i];
        assert EntryOk(e, i, regs.cfg, words, access, mode);
        if e.vpn != NO_PAGE {
          BackedBeside(e, regs.cfg, words, access, mode, at, word);
        }
      }
    }

    method Handle(q: Request) returns (os: seq<Outcome>)
      requires Valid() && Coherent() && Admissible(regs, words, q)
      modifies this, tlb
      ensures Valid() && Coherent() && (regs, words) == AfterRequest(old(regs), old(words), q)
      ensures AllSameBelow32(if q.Translation? then [Answer(old(regs), old(words), q)] else [], os)
    {
      hide Walk;
      os := [];
      match q {
        case Translation(vaddr, access) =>
          var o := Translate(vaddr, access);
          os := [o];
        case Store(at, word) =>
          StoreKeeps(at, word);
          words := words[at := word];
        case Fence(words', regs') =>
          words, regs := words', regs';
          FlushTlb();
        case Switch(prv, mprv, mpp) =>
          regs := regs.(prv := prv, mprv := mprv, mpp := mpp);
      }
    }

    /** Any run of translations, stores beside the page tables, privilege changes and flushes: the answers and the
        memory are those of the unit without a cache, up to the 32-bit mask. */
    method Serve(qs: seq<Request>) returns (os: seq<Outcome>)
      requires Valid() && Coherent() && AllAdmissible(regs, words, qs)
      modifies this, tlb
      ensures Valid() && Coherent()
      ensures words == UncachedMemory(old(regs), old(words), qs)
      ensures AllSameBelow32(Uncached(old(regs), old(words), qs), os)
    {
      hide FreshWalk, EntryOk, Answer, AfterRequest, Valid, Coherent, Admissible;
      os := [];
      ghost var done: seq<Outcome> := [];
      var i := 0;
      assert qs[0..] == qs;
      while i < |qs|
        invariant 0 <= i <= |qs| && Valid() && Coherent() && AllAdmissible(regs, words, qs[i..])
        invariant UncachedMemory(old(regs), old(words), qs) == UncachedMemory(regs, words, qs[i..])
        invariant AllSameBelow32(done, os) &&
                  Uncached(old(regs), old(words), qs) == done + Uncached(regs, words, qs[i..])
      {
        assert qs[i..][1..] == qs[i + 1..];
        ghost var answer := if qs[i].Translation? then [Answer(regs, words, qs[i])] else [];
        var o := Handle(qs[i]);
        done, os := done + answer, os + o;
        i := i + 1;
      }
    }
  }
}
