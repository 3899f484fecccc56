/** Writes to PC, which may return from an exception into an IT block (src/main.c:821-839), and what
    that does to the block over whole nested runs. */
module InterruptedBlocks {
  import opened Words
  import opened Memmap
  import opened Processor
  import opened Exceptions
  import opened ExceptionRuns
  import opened ItBlocks
  import ItPacking
  import EntryExit
  import Core

  method RebuiltCache(xpsr: u32) returns (it: Cache)
    ensures it == Sync(ItPacking.Get(xpsr))
  {
    hide ItPacking.Get, High, Low, PatternBelow, Remaining;
    var raw := ItPacking.Get(xpsr);
    Nibbles(raw);
    var pattern, remaining := ItMaskToPattern(High(raw), Low(raw));
    it := Cache(High(raw), pattern, remaining);
  }

  /** `handle_pc_write`: EXC_RETURN values unstack and rebuild the IT cache from the restored xPSR,
      anything else is a branch. */
  method HandlePcWrite(core: Core.Core, value: u32, cache: Cache) returns (ok: bool, it: Cache)
    requires core.Valid()
    modifies core
    ensures it == if IsExcReturn(value) && ok then Sync(ItPacking.Get(core.xpsr)) else cache
    ensures IsExcReturn(value) ==> (ok, core.State()) == Unstack(core.mem.layout, old(core.State()), core.mem.ram[..], value)
    ensures !IsExcReturn(value) ==> ok && core.State() == old(core.State()).(r := old(core.r)[15 := OrBit0(value)])
  {
    it := cache;
    if IsExcReturn(value) {
      ok := core.ExcReturnUnstack(value);
      if ok {
        it := RebuiltCache(core.xpsr);
      }
    } else {
      core.r := core.r[15 := OrBit0(value)];
      ok := true;
    }
  }

  /** The two forms of IT state after a return to `c`: the cache is rebuilt from the restored xPSR, and
      the main loop advances both once more. */
  function Returned(c: Cpu): Point {
    var it := ItPacking.Get(c.xpsr);
    Next(Point(it, Sync(it)))
  }

  /** An exception taken at point `k` of a block, then any run of nested exceptions and handler code that
      leaves the live frames alone, then the return: from there on every instruction is decided as if
      nothing had happened, for all flags, exactly when the rest of the block is unconditional. */
  lemma InterruptedBlockIff(l: Layout, st: Stacks, m: Machine, e: Entry, returnPc: u32, evs: seq<Event>, it: bv8, k: nat)
    requires Inv(l, st, m) && Allowed(st, m, Take(e, returnPc))
    requires ItPacking.Get(m.cpu.xpsr) == At(it, k).it
    requires var m1 := Apply(l, m, Take(e, returnPc));
             && AllAllowed(l, st, m1, evs) && StaysAbove(l, st, m1, evs, m.cpu.depth + 1)
             && RunAll(l, st, m1, evs).cpu.depth == m.cpu.depth + 1
    ensures var m2 := RunAll(l, st, Apply(l, m, Take(e, returnPc)), evs);
            var r := Unstack(l, m2.cpu, m2.ram, ReturnValue(Saved(m.cpu, returnPc)));
            r.0 && (SameDecisions(At(it, k), Returned(r.1)) <==> Unconditional(At(it, k).cache))
  {
    hide Inv, Apply, Unstack, ReturnValue, StaysAbove, ItPacking.Get, Sync, At, SameDecisions, Unconditional;
    NestedRoundTrip(l, st, m, e, returnPc, evs);
    ReturnTransparentIff(it, k);
  }

  /** The handler of an asynchronous exception starts outside blocks: its xPSR has an empty ITSTATE, and
      the main loop rebuilds the cache from it (src/main.c:2076-2100). */
  lemma HandlerOutsideBlocks(l: Layout, st: Stacks, cpu: Cpu, ram: seq<u8>, e: Entry, returnPc: u32, i: nat, f: Flags)
    requires l.Shaped() && cpu.Valid() && StacksOk(l, st, |ram|) && SpsInside(st, cpu) && Room(st, cpu)
    ensures var x := ItPacking.Get(Enter(l, cpu, ram, e, returnPc, cpu.xpsr).1.xpsr);
            Executes(Steps(Point(x, Sync(x)), i), f)
  {
    hide StacksOk, SpsInside, Room, Enter, ItPacking.Get, Executes, Steps;
    EntryExit.HandlerRegisters(l, st, cpu, ram, e, returnPc);
    EmptySync();
    OutsideExecutes(Point(0, Sync(0)), i, f);
  }

  /** SVC as instruction `k` does not rebuild the cache on entry (src/execute.c:1981-1987): the handler
      starts with the ITSTATE of its own xPSR but in what is left of the caller's block, and is decided as
      outside blocks exactly when that rest is unconditional. */
  lemma SupervisorHandlerIff(l: Layout, st: Stacks, cpu: Cpu, ram: seq<u8>, e: Entry, returnPc: u32, it: bv8, k: nat)
    requires l.Shaped() && cpu.Valid() && StacksOk(l, st, |ram|) && SpsInside(st, cpu) && Room(st, cpu)
    requires Inside(it, k)
    ensures var x := ItPacking.Get(Enter(l, cpu, ram, e, returnPc, cpu.xpsr).1.xpsr);
            SameDecisions(Next(Point(x, At(it, k).cache)), Point(x, Sync(x))) <==> Unconditional(At(it, k + 1).cache)
  {
    hide StacksOk, SpsInside, Room, Enter, ItPacking.Get, SameDecisions, Sync, At, Unconditional, Remaining;
    EntryExit.HandlerRegisters(l, st, cpu, ram, e, returnPc);
    StaleCacheIff(it, k);
  }
}
