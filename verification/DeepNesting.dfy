/** A concrete STM32H563 machine for the run theorems, and the run that fills its record table. */
module DeepNesting {
  import opened Words
  import opened Memmap
  import opened Processor
  import opened Exceptions
  import opened ExceptionRuns
  import EntryExit

  /** The board's flash windows, with an interceptor that permits everything. */
  function Bare(): Layout {
    Layout([], [], Window(0x3000_0000, 0xA_0000), Window(0x2000_0000, 0xA_0000), 0, true, true,
           Window(0x0C00_0000, 0x20_0000), Window(0x0800_0000, 0x20_0000), Window(0x0C00_0000, 0x20_0000),
           (access, sec, addr, size) => true)
  }

  /** The same with its RAM table. */
  function Board(): Layout { LaidOut(Bare(), H563_REGIONS) }

  /** Four 4 KB stacks in the first region, the Non-secure ones reached through the other alias. */
  const STACKS := Stacks(Area(0x3000_0000, 0x3000_1000, 0), Area(0x2000_1000, 0x2000_2000, 0x1000),
                         Area(0x3000_2000, 0x3000_3000, 0x2000), Area(0x2000_3000, 0x2000_4000, 0x3000))

  /** Out of reset: Secure Thread mode on full stacks, no exception active. */
  function ResetCpu(): (c: Cpu)
    ensures c.Valid()
  {
    Cpu(seq(16, i => 0), 0x0100_0000, Secure, Thread, Banked(0x3000_1000, 0x2000_2000), Banked(0x3000_3000, 0x2000_4000),
        Banked(0, 0), Banked(0, 0), Banked(0, 0), seq(EXC_STACK_MAX, i => Record(0, false, Secure)), 0, false, false)
  }

  function Start(): Machine { Machine(ResetCpu(), seq(0xA_0000, i => 0), []) }

  lemma BoardConfigured()
    ensures Configured(Board()) && Board().regions == H563_REGIONS && Board().ramTotal == 0xA_0000
    ensures Board().offsets[0] == 0
  {
    H563TableOk();
    assert H563_REGIONS[..0] == [] && SumSizes([]) == 0;
    hide TableOk, SumSizes;
    LaidOutConfigured(Bare(), H563_REGIONS);
  }

  /** No RAM address of the first region is in a flash window. */
  lemma RamPermitted(access: Access, sec: Security, x: u32)
    requires 0x2000_0000 <= x < 0x4000_0000
    ensures Permitted(Board(), access, sec, x, 4)
  {
  }

  lemma StackMapped(sec: Security, d: nat, viaNs: bool)
    requires d <= 0x3000
    ensures Board().Shaped()
    ensures var base := if viaNs then 0x2000_0000 else 0x3000_0000;
            Mapped(Board(), sec, Area(base + d, base + d + 0x1000, d), 0xA_0000)
  {
    hide Permitted, Board;
    BoardConfigured();
    forall x: u32 | 0x2000_0000 <= x < 0x4000_0000
      ensures Permitted(Board(), ReadAccess, sec, x, 4) && Permitted(Board(), WriteAccess, sec, x, 4)
    {
      RamPermitted(ReadAccess, sec, x);
      RamPermitted(WriteAccess, sec, x);
    }
    MappedInRegion(Board(), sec, 0, d, 0x1000, viaNs);
  }

  /** The run invariant holds at reset. */
  lemma StartInv()
    ensures Inv(Board(), STACKS, Start())
  {
    hide Mapped, Board;
    StackMapped(Secure, 0, false);
    StackMapped(NonSecure, 0x1000, true);
    StackMapped(Secure, 0x2000, false);
    StackMapped(NonSecure, 0x3000, true);
    var m := Start();
    assert StacksOk(Board(), STACKS, |m.ram|) by {
      forall sec, p
        ensures Mapped(Board(), sec, STACKS.Of(sec, p), |m.ram|)
      {
        assert sec == Secure || sec == NonSecure;
      }
    }
  }

  /** The `n`-fold nested machine. */
  ghost function Nested(n: nat): (m: Machine)
    ensures m.cpu.Valid()
  {
    if n == 0 then Start() else (BoardShaped(); Apply(Board(), Nested(n - 1), Take(Entry(16, Secure, 0x0C00_0200, true), 0x0C00_0100)))
  }

  lemma BoardShaped()
    ensures Board().Shaped()
  {
    BoardConfigured();
  }

  /** Every depth up to the size of the record table is reached by entries alone. */
  lemma {:induction false} NestedInv(n: nat)
    requires n <= EXC_STACK_MAX
    ensures Board().Shaped() && Inv(Board(), STACKS, Nested(n)) && Nested(n).cpu.depth == n
    ensures Nested(n).cpu.sec == Secure && !Nested(n).cpu.UsesPsp()
    ensures Nested(n).cpu.msp.s == 0x3000_1000 - 32 * n
    ensures n > 0 ==> Nested(n).cpu.exc[n - 1].sec == Secure
    decreases n, 1
  {
    BoardShaped();
    hide Inv, Board, Apply;
    if n == 0 {
      StartInv();
    } else {
      hide Nested;
      NestedStep(n);
    }
  }

  lemma {:induction false} NestedStep(n: nat)
    requires 0 < n <= EXC_STACK_MAX
    ensures var c := Nested(n).cpu;
            && Board().Shaped() && Inv(Board(), STACKS, Nested(n)) && c.depth == n && c.sec == Secure && !c.UsesPsp()
            && c.msp.s == 0x3000_1000 - 32 * n && c.exc[n - 1].sec == Secure
    decreases n, 0
  {
    hide Inv, Board, Enter, StacksOk, SpsInside;
    NestedInv(n - 1);
    var m := Nested(n - 1);
    var e := Entry(16, Secure, 0x0C00_0200, true);
    assert Room(STACKS, m.cpu);
    TakeKeeps(Board(), STACKS, m, Take(e, 0x0C00_0100));
    InvParts(Board(), STACKS, m);
    EntryExit.CurrentIsActive(STACKS, m.cpu);
    EntryExit.HandlerRegisters(Board(), STACKS, m.cpu, m.ram, e, 0x0C00_0100);
    EntryExit.EntryStackPointers(Board(), STACKS, m.cpu, m.ram, e, 0x0C00_0100);
  }

  lemma InvParts(l: Layout, st: Stacks, m: Machine)
    requires Inv(l, st, m)
    ensures l.Shaped() && m.cpu.Valid() && StacksOk(l, st, |m.ram|) && SpsInside(st, m.cpu)
  {
  }

  /** With 64 exceptions nested on one stack there is room for another frame but no record slot:
      the return from the next exception does not restore even the stack pointer. */
  lemma FullTableExample(e: Entry, returnPc: u32)
    ensures Board().Shaped() && Inv(Board(), STACKS, Nested(64)) && Room(STACKS, Nested(64).cpu)
    ensures var c := Nested(64).cpu;
            var r := Enter(Board(), c, Nested(64).ram, e, returnPc, c.xpsr);
            var back := Unstack(Board(), r.1, r.2, r.1.r[14]);
            !(back.0 && back.1.Sp(c.sec, c.UsesPsp()) == c.ActiveSp())
  {
    hide Inv, Board, Enter, Unstack, Nested;
    NestedInv(64);
    ImmediateReturnSpIff(Board(), STACKS, Nested(64), e, returnPc);
  }
}
