/** Interrupt line masks as 32-bit words. */
module IrqMask {
  const UNSUPPORTED: bv32 := 0x3F

  /** What decides a core's flag: a chip quirk with the core's index, or its selector register. */
  datatype Core = Core(quirk: bool, index: bv32, selector: bv32)

  /** The flag a core raises; a core without quirk and selector raises none. */
  function IrqFlag(core: Core): (flag: bv32)
    ensures core.quirk ==> flag == core.index
    ensures core.quirk || flag < 32 || flag == UNSUPPORTED
    ensures !core.quirk ==> (flag == UNSUPPORTED <==> core.selector == 0)
    ensures !core.quirk && core.selector != 0 ==> flag == core.selector % 32
  {
    if core.quirk then core.index else if core.selector != 0 then core.selector & 0x1F else UNSUPPORTED
  }

  /**
   * The amount by which the allocator's search shifts for a flag: C leaves a shift by more than the
   * width undefined, and the MIPS shift instruction takes the low five bits.
   */
  function ShiftAmount(flag: bv32): (k: bv32)
    ensures k < 32
    ensures flag < 32 ==> k == flag
    ensures flag == UNSUPPORTED ==> k == 31
  {
    flag & 0x1F
  }

  function Bit(flag: bv32): bv32
    requires flag < 32
  {
    1 << flag
  }

  predicate Has(mask: bv32, flag: bv32)
    requires flag < 32
  {
    mask & Bit(flag) != 0
  }

  lemma HasBit(f: bv32, g: bv32)
    requires f < 32 && g < 32
    ensures Has(Bit(f), g) <==> f == g
    ensures Bit(f) != 0
  {
  }

  lemma OrBits(mask: bv32, b: bv32, c: bv32)
    ensures (mask | b) & c != 0 <==> mask & c != 0 || b & c != 0
  {
  }

  lemma AndAssociates(x: bv32, y: bv32, z: bv32)
    ensures (x & y) & z == x & (y & z)
  {
  }

  lemma NotBits(b: bv32, c: bv32)
    ensures b & c == 0 ==> !b & c == c
    ensures !b & b == 0
  {
  }

  lemma AndNotApart(mask: bv32, b: bv32, c: bv32)
    requires b & c == 0
    ensures (mask & !b) & c == mask & c
  {
    AndAssociates(mask, !b, c);
    NotBits(b, c);
  }

  lemma AndNotSame(mask: bv32, b: bv32)
    ensures (mask & !b) & b == 0
  {
    AndAssociates(mask, !b, b);
    NotBits(b, b);
  }

  lemma HasSet(mask: bv32, f: bv32, g: bv32)
    requires f < 32 && g < 32
    ensures Has(mask | Bit(f), g) <==> Has(mask, g) || f == g
  {
    HasBit(f, g);
    OrBits(mask, Bit(f), Bit(g));
  }

  lemma HasClearedSelf(mask: bv32, f: bv32)
    requires f < 32
    ensures !Has(mask & !Bit(f), f)
  {
    AndNotSame(mask, Bit(f));
  }

  lemma HasClearedOther(mask: bv32, f: bv32, g: bv32)
    requires f < 32 && g < 32 && Bit(f) & Bit(g) == 0
    ensures Has(mask & !Bit(f), g) <==> Has(mask, g)
  {
    AndNotApart(mask, Bit(f), Bit(g));
  }

  /** The flags a mask carries. */
  ghost function Flags(mask: bv32): iset<bv32> {
    iset f: bv32 | f < 32 && Has(mask, f)
  }

  lemma FlagsBit(f: bv32)
    requires f < 32
    ensures Flags(Bit(f)) == iset{f} && Bit(f) != 0
  {
    forall g | g < 32
      ensures Has(Bit(f), g) <==> f == g
    {
      HasBit(f, g);
    }
    HasBit(f, f);
  }

  lemma FlagsSet(mask: bv32, f: bv32)
    requires f < 32
    ensures Flags(mask | Bit(f)) == Flags(mask) + iset{f}
  {
    forall g | g < 32
      ensures Has(mask | Bit(f), g) <==> Has(mask, g) || f == g
    {
      HasSet(mask, f, g);
    }
  }

  lemma HasClearedIff(mask: bv32, f: bv32, g: bv32)
    requires f < 32 && g < 32
    ensures Has(mask & !Bit(f), g) <==> Has(mask, g) && f != g
  {
    HasBit(f, g);
    if f == g {
      HasClearedSelf(mask, f);
    } else {
      HasClearedOther(mask, f, g);
    }
  }

  lemma FlagsCleared(mask: bv32, f: bv32)
    requires f < 32
    ensures Flags(mask & !Bit(f)) == Flags(mask) - iset{f}
  {
    forall g | g < 32
      ensures Has(mask & !Bit(f), g) <==> Has(mask, g) && f != g
    {
      HasClearedIff(mask, f, g);
    }
  }

  lemma BitInjective(f: bv32, g: bv32)
    requires f < 32 && g < 32
    ensures Bit(f) == Bit(g) <==> f == g
  {
    HasBit(f, g);
    HasBit(f, f);
  }

  method SetBit(mask: bv32, f: bv32) returns (r: bv32)
    requires f < 32
    ensures Flags(r) == Flags(mask) + iset{f}
  {
    FlagsSet(mask, f);
    r := mask | Bit(f);
  }

  method ClearBit(mask: bv32, f: bv32) returns (r: bv32)
    requires f < 32
    ensures Flags(r) == Flags(mask) - iset{f}
  {
    FlagsCleared(mask, f);
    r := mask & !Bit(f);
  }

  lemma FlagsZero()
    ensures Flags(0) == iset{}
  {
    forall g: bv32 | g < 32
      ensures !Has(0, g)
    {
      NoBit(Bit(g));
    }
  }

  lemma NoBit(b: bv32)
    ensures 0 & b == 0
  {
  }
}

/** Which of the five lines carries which flag. */
module IrqLines {
  type Lines = l: seq<iset<bv32>> | |l| == 5 ghost witness [iset{}, iset{}, iset{}, iset{}, iset{}]

  /** No flag is on two lines. */
  ghost predicate Disjoint(l: Lines) {
    forall a, b, f :: 0 <= a < b < 5 ==> !(f in l[a] && f in l[b])
  }

  /** The line that carries the flag, 5 if none does. */
  ghost function Line(l: Lines, flag: bv32): nat {
    if flag in l[0] then 0 else if flag in l[1] then 1 else if flag in l[2] then 2
    else if flag in l[3] then 3 else if flag in l[4] then 4 else 5
  }

  /** Assigning `flag` to `line`: whoever had a private line goes to the shared line 0, nobody else moves. */
  ghost function Assigned(l: Lines, flag: bv32, line: nat, g: bv32): nat {
    if g == flag then line else if line != 0 && Line(l, g) == line then 0 else Line(l, g)
  }

  ghost predicate IsAssignment(before: Lines, after: Lines, flag: bv32, line: nat) {
    forall g :: Line(after, g) == Assigned(before, flag, line, g)
  }

  /** One call of the allocator: this flag goes to this line. */
  datatype Assignment = Assignment(flag: bv32, line: nat)

  /** Where a run of assignments from the reset state leaves a flag. */
  ghost function RunLine(run: seq<Assignment>, g: bv32): nat {
    if run == [] then 5 else
      var op, line := run[|run| - 1], RunLine(run[..|run| - 1], g);
      if g == op.flag then op.line else if op.line != 0 && line == op.line then 0 else line
  }

  /** Lines that hold what a run left there hold what the longer run leaves after one more assignment. */
  lemma RunExtends(before: Lines, after: Lines, run: seq<Assignment>, op: Assignment)
    requires forall g :: Line(before, g) == RunLine(run, g)
    requires IsAssignment(before, after, op.flag, op.line)
    ensures forall g :: Line(after, g) == RunLine(run + [op], g)
  {
    var longer := run + [op];
    assert longer[..|run|] == run;
    forall g
      ensures Line(after, g) == RunLine(longer, g)
    {
      assert Line(after, g) == Assigned(before, op.flag, op.line, g);
    }
  }

  /**
   * After any run, a flag is where its last assignment put it, unless that was a private line and a
   * later assignment took the line; then it is on line 0. A flag never assigned is on no line.
   */
  lemma {:induction false} RunResult(run: seq<Assignment>, g: bv32, last: int)
    requires -1 <= last < |run|
    requires last >= 0 ==> run[last].flag == g && run[last].line <= 4
    requires forall j :: last < j < |run| ==> run[j].flag != g && run[j].line <= 4
    ensures last == -1 ==> RunLine(run, g) == 5
    ensures last >= 0 ==>
      RunLine(run, g) ==
        (if run[last].line != 0 && exists j :: last < j < |run| && run[j].line == run[last].line
         then 0 else run[last].line)
    decreases |run|
  {
    if last < |run| - 1 {
      RunResult(run[..|run| - 1], g, last);
    }
  }

  /** After any run each private line is held by one flag at most. */
  lemma {:induction false} RunExclusive(run: seq<Assignment>, f: bv32, g: bv32)
    requires forall j :: 0 <= j < |run| ==> run[j].line <= 4
    requires f != g
    ensures RunLine(run, f) == RunLine(run, g) ==> RunLine(run, f) in {0, 5}
  {
    if run != [] {
      RunExclusive(run[..|run| - 1], f, g);
    }
  }

  /** Making room for a flag and attaching it is one assignment. */
  lemma Composes(before: Lines, room: Lines, after: Lines, flag: bv32, line: nat)
    requires forall g :: g != flag ==> Line(room, g) == if line != 0 && Line(before, g) == line then 0 else Line(before, g)
    requires Line(after, flag) == line && forall g :: g != flag ==> Line(after, g) == Line(room, g)
    ensures IsAssignment(before, after, flag, line)
  {
    forall g
      ensures Line(after, g) == Assigned(before, flag, line, g)
    {
    }
  }

  ghost function Removed(l: Lines, flag: bv32, line: nat): Lines
    requires line < 5
  {
    l[line := l[line] - iset{flag}]
  }

  ghost function Added(l: Lines, flag: bv32, line: nat): Lines
    requires line < 5
  {
    l[line := l[line] + iset{flag}]
  }

  lemma LineIs(l: Lines, flag: bv32, k: nat)
    requires Disjoint(l) && k < 5
    ensures flag in l[k] <==> Line(l, flag) == k
  {
  }

  lemma RemovedLines(l: Lines, flag: bv32, line: nat)
    requires Disjoint(l) && line < 5 && Line(l, flag) == line
    ensures Disjoint(Removed(l, flag, line)) && Line(Removed(l, flag, line), flag) == 5
    ensures forall g :: g != flag ==> Line(Removed(l, flag, line), g) == Line(l, g)
  {
  }

  lemma AddedLines(l: Lines, flag: bv32, line: nat)
    requires Disjoint(l) && line < 5 && Line(l, flag) == 5
    ensures Disjoint(Added(l, flag, line)) && Line(Added(l, flag, line), flag) == line
    ensures forall g :: g != flag ==> Line(Added(l, flag, line), g) == Line(l, g)
  {
  }
}

/** The five interrupt mask registers, their allocator and its lookup. */
module MipsIrq {
  import opened IrqMask
  import opened IrqLines

  type Masks = m: seq<bv32> | |m| == 5 witness [0, 0, 0, 0, 0]

  ghost function LinesOf(m: Masks): Lines {
    [Flags(m[0]), Flags(m[1]), Flags(m[2]), Flags(m[3]), Flags(m[4])]
  }

  lemma WriteLine(m: Masks, line: nat, x: bv32)
    requires line < 5
    ensures LinesOf(m[line := x]) == LinesOf(m)[line := Flags(x)]
  {
  }

  lemma ClearLine(m: Masks, flag: bv32, line: nat, x: bv32)
    requires line < 5 && Flags(x) == Flags(m[line]) - iset{flag}
    ensures LinesOf(m[line := x]) == Removed(LinesOf(m), flag, line)
  {
    WriteLine(m, line, x);
  }

  lemma PutLine(m: Masks, flag: bv32, line: nat, x: bv32)
    requires line < 5 && Flags(x) == Flags(m[line]) + iset{flag}
    ensures LinesOf(m[line := x]) == Added(LinesOf(m), flag, line)
  {
    WriteLine(m, line, x);
  }

  /** The exported interrupt number of a line. */
  function CoreIrq(line: nat): nat {
    if line <= 4 then line + 2 else 0
  }

  /** A register that holds exactly this flag, or none, before and after a plain write. */
  lemma FlagsSingle(flag: bv32)
    requires flag < 32
    ensures Flags(Bit(flag)) - iset{flag} == Flags(0)
    ensures Flags(0) + iset{flag} == Flags(Bit(flag))
  {
    FlagsBit(flag);
    FlagsZero();
  }

  /** The flags of all cores. */
  function FlagsOf(cores: seq<Core>): (flags: seq<bv32>)
    ensures |flags| == |cores| && forall i :: 0 <= i < |cores| ==> flags[i] == IrqFlag(cores[i])
  {
    seq(|cores|, i requires 0 <= i < |cores| => IrqFlag(cores[i]))
  }

  /** Each supported core's recorded interrupt number is what the exported lookup computes. */
  ghost predicate Recorded(flags: seq<bv32>, irq: seq<nat>, l: Lines)
    requires |irq| == |flags|
  {
    forall i :: 0 <= i < |flags| && flags[i] < 32 ==> irq[i] == CoreIrq(Line(l, flags[i]))
  }

  /** A core that raises no flag comes before every core with flag 31. */
  ghost predicate Hidden(flags: seq<bv32>) {
    exists i :: 0 <= i < |flags| && flags[i] == UNSUPPORTED && forall j :: 0 <= j < i ==> flags[j] != 31
  }

  /** One call of the allocator. */
  datatype Call = Call(dev: nat, line: nat)

  function AssignmentsOf(flags: seq<bv32>, calls: seq<Call>): (run: seq<Assignment>)
    requires forall i :: 0 <= i < |calls| ==> calls[i].dev < |flags|
    ensures |run| == |calls|
    ensures forall i :: 0 <= i < |calls| ==> run[i] == Assignment(flags[calls[i].dev], calls[i].line)
  {
    seq(|calls|, i requires 0 <= i < |calls| => Assignment(flags[calls[i].dev], calls[i].line))
  }

  class Bus {
    const flags: seq<bv32> // the flag of each core
    var irq: seq<nat>      // dev->irq of each core
    var intmask: Masks     // the five mask registers

    ghost function Where(): Lines
      reads this`intmask
    {
      LinesOf(intmask)
    }

    /** A private line is free or carries the flag of some core. */
    ghost predicate Owned(line: nat)
      requires line < 5
      reads this`intmask
    {
      intmask[line] == 0 || exists i :: 0 <= i < |flags| && flags[i] < 32 && intmask[line] == Bit(flags[i])
    }

    ghost predicate Valid()
      reads this`intmask, this`irq
    {
      |irq| == |flags| && (forall i :: 0 <= i < |flags| ==> flags[i] < 32 || flags[i] == UNSUPPORTED) &&
      Disjoint(Where()) && Owned(1) && Owned(2) && Owned(3) && Owned(4)
    }

    /** No two cores raise the same flag. */
    ghost predicate Distinct() {
      forall i, j :: 0 <= i < j < |flags| && flags[i] < 32 ==> flags[i] != flags[j]
    }

    /** Registers as they are after reset. The index of a core is below the 16 cores of a bus. */
    constructor (cores: seq<Core>)
      requires forall i :: 0 <= i < |cores| && cores[i].quirk ==> cores[i].index < 32
      ensures Valid() && this.flags == FlagsOf(cores) && Recorded(this.flags, irq, Where())
      ensures intmask == [0, 0, 0, 0, 0] && irq == seq(|cores|, i => 0)
      ensures forall g :: Line(Where(), g) == 5
    {
      this.flags := FlagsOf(cores);
      irq := seq(|cores|, i => 0);
      intmask := [0, 0, 0, 0, 0];
      FlagsZero();
    }

    /** The line of a core: 0 to 4, 5 when disabled, 6 when the core raises no flag. */
    method MipsIrq(dev: nat) returns (line: nat)
      requires dev < |flags| && (flags[dev] < 32 || flags[dev] == UNSUPPORTED)
      ensures line == if flags[dev] == UNSUPPORTED then 6 else Line(Where(), flags[dev])
    {
      var flag := flags[dev];
      if flag == UNSUPPORTED {
        return 6;
      }
      line := 0;
      while line <= 4
        invariant 0 <= line <= 5
        invariant forall k :: 0 <= k < line ==> flag !in Where()[k]
      {
        if Has(intmask[line], flag) {
          assert flag in Where()[line];
          return;
        }
        line := line + 1;
      }
    }

    /** A flag found on a private line is all that line carries. */
    lemma Alone(line: nat, flag: bv32)
      requires 0 < line < 5 && flag < 32 && Owned(line) && flag in Where()[line]
      ensures intmask[line] == Bit(flag)
    {
      FlagsZero();
      var i :| 0 <= i < |flags| && flags[i] < 32 && intmask[line] == Bit(flags[i]);
      FlagsBit(flags[i]);
    }

    /** A private line that no flag maps to is free. */
    lemma Free(line: nat)
      requires Valid() && 0 < line < 5 && forall g :: Line(Where(), g) != line
      ensures intmask[line] == 0
    {
      if intmask[line] != 0 {
        assert Owned(line);
        var i :| 0 <= i < |flags| && flags[i] < 32 && intmask[line] == Bit(flags[i]);
        FlagsBit(flags[i]);
        LineIs(Where(), flags[i], line);
      }
    }

    lemma Unused(line: nat)
      requires Valid() && line < 5 && intmask[line] == 0
      ensures forall g :: Line(Where(), g) != line
    {
      FlagsZero();
      assert Where()[line] == iset{};
    }

    /** The core whose flag a private line carries. */
    lemma User(line: nat) returns (i: nat)
      requires Valid() && 0 < line < 5 && intmask[line] != 0
      ensures i < |flags| && flags[i] < 32 && intmask[line] == Bit(flags[i])
      ensures forall g :: Line(Where(), g) == line <==> g == flags[i]
    {
      assert Owned(line);
      i :| 0 <= i < |flags| && flags[i] < 32 && intmask[line] == Bit(flags[i]);
      FlagsBit(flags[i]);
      assert Where()[line] == iset{flags[i]};
      LineIs(Where(), flags[i], line);
    }

    /** Take the flag off the line it is on. */
    method ClearOld(flag: bv32, line: nat)
      requires Valid() && flag < 32 && line == Line(Where(), flag) && line < 5
      modifies this`intmask
      ensures Valid() && Where() == Removed(old(Where()), flag, line)
    {
      LineIs(Where(), flag, line);
      RemovedLines(Where(), flag, line);
      if line == 0 {
        var rest := ClearBit(intmask[0], flag);
        ClearLine(intmask, flag, 0, rest);
        intmask := intmask[0 := rest];
      } else {
        Alone(line, flag);
        FlagsSingle(flag);
        ClearLine(intmask, flag, line, 0);
        intmask := intmask[line := 0];
      }
    }

    /** Put a flag that is on no line on the shared line, or on a free private line. */
    method PutNew(dev: nat, line: nat)
      requires Valid() && dev < |flags| && flags[dev] < 32 && Line(Where(), flags[dev]) == 5 && line < 5
      requires line != 0 ==> intmask[line] == 0
      modifies this`intmask
      ensures Valid() && Where() == Added(old(Where()), flags[dev], line)
    {
      var flag := flags[dev];
      AddedLines(Where(), flag, line);
      if line == 0 {
        var more := SetBit(intmask[0], flag);
        PutLine(intmask, flag, 0, more);
        intmask := intmask[0 := more];
      } else {
        FlagsSingle(flag);
        PutLine(intmask, flag, line, Bit(flag));
        intmask := intmask[line := Bit(flag)];
      }
    }

    /** Take a core that raises a flag off its line. */
    method Detach(dev: nat, oldirq: nat)
      requires Valid() && dev < |flags| && flags[dev] < 32 && oldirq == Line(Where(), flags[dev])
      modifies this`intmask
      ensures Valid() && Line(Where(), flags[dev]) == 5
      ensures forall g :: g != flags[dev] ==> Line(Where(), g) == Line(old(Where()), g)
    {
      if oldirq != 5 {
        RemovedLines(Where(), flags[dev], oldirq);
        ClearOld(flags[dev], oldirq);
      }
    }

    /** The first core in the list whose shifted bit is the mask of the line. */
    method FindUser(line: nat, ghost h: bv32) returns (core: nat)
      requires Valid() && 0 < line < 5 && h < 32 && intmask[line] == Bit(h)
      requires exists i :: 0 <= i < |flags| && flags[i] == h
      ensures core < |flags| && ShiftAmount(flags[core]) == h
      ensures forall j :: 0 <= j < core ==> ShiftAmount(flags[j]) != h
    {
      core := 0;
      while core < |flags|
        invariant core <= |flags| && forall j :: 0 <= j < core ==> ShiftAmount(flags[j]) != h
      {
        BitInjective(ShiftAmount(flags[core]), h);
        if Bit(ShiftAmount(flags[core])) == intmask[line] {
          return;
        }
        core := core + 1;
      }
      assert false;
    }

    /** What the search finds is the user of the line, unless a core without a flag hides it. */
    lemma FoundIsUser(core: nat, h: bv32)
      requires Valid() && core < |flags| && h < 32 && ShiftAmount(flags[core]) == h
      requires forall j :: 0 <= j < core ==> ShiftAmount(flags[j]) != h
      requires exists i :: 0 <= i < |flags| && flags[i] == h
      ensures flags[core] == UNSUPPORTED <==> h == 31 && Hidden(flags)
      ensures flags[core] != UNSUPPORTED ==> flags[core] == h
    {
      if h == 31 && Hidden(flags) {
        var i :| 0 <= i < |flags| && flags[i] == UNSUPPORTED && forall j :: 0 <= j < i ==> flags[j] != 31;
        assert core <= i;
      }
    }

    /**
     * Send whoever uses a private line to the shared line. Fails, as the source's BUG_ON does, if the
     * search finds a core that raises no flag instead.
     */
    method Displace(line: nat) returns (ok: bool)
      requires Valid() && 0 < line < 5
      modifies this`irq, this`intmask
      decreases line, 0
      ensures ok <==> !(Line(old(Where()), 31) == line && Hidden(flags))
      ensures ok ==> Valid() && intmask[line] == 0 && |irq| == |old(irq)|
      ensures ok ==> forall g :: Line(Where(), g) == if Line(old(Where()), g) == line then 0 else Line(old(Where()), g)
      ensures ok ==> forall i :: 0 <= i < |flags| && (flags[i] >= 32 || Line(old(Where()), flags[i]) != line) ==> irq[i] == old(irq[i])
      ensures ok ==> forall i :: 0 <= i < |flags| && irq[i] != old(irq[i]) ==> irq[i] == 2
      ensures ok && Distinct() ==> forall i :: 0 <= i < |flags| && flags[i] < 32 && Line(old(Where()), flags[i]) == line ==> irq[i] == 2
    {
      if intmask[line] == 0 {
        Unused(line);
        return true;
      }
      ghost var user := User(line);
      var core := FindUser(line, flags[user]);
      FoundIsUser(core, flags[user]);
      ok := SetIrq(core, 0);
      if ok {
        Free(line);
      }
    }

    /** The core loses its line to another assignment. */
    ghost predicate Loses(l: Lines, flag: bv32, line: nat, i: nat)
      requires i < |flags|
    {
      line != 0 && flags[i] < 32 && flags[i] != flag && Line(l, flags[i]) == line
    }

    /** The core to be displaced is hidden behind one that raises no flag. */
    ghost predicate Blocked(l: Lines, flag: bv32, line: nat) {
      line != 0 && flag != 31 && Line(l, 31) == line && Hidden(flags)
    }

    /** Move a core that raises a flag from its old line to a new one. */
    method Rewire(dev: nat, line: nat, oldirq: nat) returns (ok: bool)
      requires Valid() && dev < |flags| && line <= 4 && flags[dev] < 32 && oldirq == Line(Where(), flags[dev])
      modifies this`irq, this`intmask
      decreases line, 2
      ensures ok <==> !Blocked(old(Where()), flags[dev], line)
      ensures ok ==> Valid() && |irq| == |old(irq)| && IsAssignment(old(Where()), Where(), flags[dev], line)
      ensures ok ==> forall i | 0 <= i < |flags| && !Loses(old(Where()), flags[dev], line, i) :: irq[i] == old(irq[i])
      ensures ok ==> forall i | 0 <= i < |flags| && irq[i] != old(irq[i]) :: irq[i] == 2
      ensures ok && Distinct() ==> forall i | 0 <= i < |flags| && Loses(old(Where()), flags[dev], line, i) :: irq[i] == 2
    {
      ghost var l0 := Where();
      Detach(dev, oldirq);
      ok := MakeRoom(flags[dev], line, l0);
      if ok {
        ghost var l2 := Where();
        Attach(dev, line);
        Composes(l0, l2, Where(), flags[dev], line);
      }
    }

    /** With the flag off its line, free the line it is to get. */
    method MakeRoom(flag: bv32, line: nat, ghost l0: Lines) returns (ok: bool)
      requires Valid() && flag < 32 && line <= 4 && Line(Where(), flag) == 5
      requires forall g :: g != flag ==> Line(Where(), g) == Line(l0, g)
      modifies this`irq, this`intmask
      decreases line, 1
      ensures ok <==> !Blocked(l0, flag, line)
      ensures ok ==> Valid() && |irq| == |old(irq)| && Line(Where(), flag) == 5 && (line != 0 ==> intmask[line] == 0)
      ensures ok ==> forall g :: g != flag ==> Line(Where(), g) == if line != 0 && Line(l0, g) == line then 0 else Line(l0, g)
      ensures ok ==> forall i | 0 <= i < |flags| && !Loses(l0, flag, line, i) :: irq[i] == old(irq[i])
      ensures ok ==> forall i | 0 <= i < |flags| && irq[i] != old(irq[i]) :: irq[i] == 2
      ensures ok && Distinct() ==> forall i | 0 <= i < |flags| && Loses(l0, flag, line, i) :: irq[i] == 2
    {
      ok := true;
      if line != 0 {
        ok := Displace(line);
      }
    }

    method Attach(dev: nat, line: nat)
      requires Valid() && dev < |flags| && flags[dev] < 32 && Line(Where(), flags[dev]) == 5 && line < 5
      requires line != 0 ==> intmask[line] == 0
      modifies this`intmask
      ensures Valid() && Line(Where(), flags[dev]) == line
      ensures forall g :: g != flags[dev] ==> Line(Where(), g) == Line(old(Where()), g)
    {
      AddedLines(Where(), flags[dev], line);
      PutNew(dev, line);
    }

    /**
     * Assign a line to a core. Fails, as the source's BUG_ON does, for a core that raises no flag, and
     * if the core to be displaced is hidden behind one.
     */
    method SetIrq(dev: nat, line: nat) returns (ok: bool)
      requires Valid() && dev < |flags| && line <= 4
      modifies this`irq, this`intmask
      decreases line, 3
      ensures ok <==> flags[dev] < 32 && !Blocked(old(Where()), flags[dev], line)
      ensures ok ==> Valid() && |irq| == |old(irq)| && IsAssignment(old(Where()), Where(), flags[dev], line)
      ensures ok ==> irq[dev] == line + 2
      ensures ok ==> forall i | 0 <= i < |flags| && i != dev && !Loses(old(Where()), flags[dev], line, i) :: irq[i] == old(irq[i])
      ensures ok ==> forall i | 0 <= i < |flags| && i != dev && irq[i] != old(irq[i]) :: irq[i] == 2
      ensures ok && Distinct() ==> forall i | 0 <= i < |flags| && Loses(old(Where()), flags[dev], line, i) :: irq[i] == 2
    {
      var oldirq := MipsIrq(dev);
      if oldirq == 6 {
        return false;
      }
      irq := irq[dev := line + 2];
      ok := Rewire(dev, line, oldirq);
    }

    /** Assign a line to a core looked up by name; a core that is not there changes nothing. */
    method SetIrqName(core: int, line: nat) returns (ok: bool)
      requires Valid() && core < |flags| && line <= 4
      modifies this`irq, this`intmask
      ensures core < 0 ==> ok && irq == old(irq) && Where() == old(Where())
      ensures ok ==> Valid() && |irq| == |old(irq)|
      ensures ok && core >= 0 ==> IsAssignment(old(Where()), Where(), flags[core], line) && irq[core] == line + 2
      ensures ok && Distinct() && Recorded(flags, old(irq), old(Where())) ==> Recorded(flags, irq, Where())
    {
      ok := true;
      if core >= 0 {
        ok := SetIrq(core, line);
      }
    }

    /** A whole sequence of assignments from the reset state: every flag ends where the run puts it. */
    method AssignAll(calls: seq<Call>) returns (ok: bool)
      requires Valid() && (forall g :: Line(Where(), g) == 5)
      requires forall i :: 0 <= i < |calls| ==> calls[i].dev < |flags| && calls[i].line <= 4
      modifies this`irq, this`intmask
      ensures ok ==> Valid() && forall g :: Line(Where(), g) == RunLine(AssignmentsOf(flags, calls), g)
      ensures (forall i :: 0 <= i < |calls| ==> flags[calls[i].dev] < 32) && !Hidden(flags) ==> ok
    {
      ok := true;
      for n := 0 to |calls|
        invariant ok && Valid()
        invariant forall g :: Line(Where(), g) == RunLine(AssignmentsOf(flags, calls[..n]), g)
      {
        ghost var before := Where();
        ok := SetIrq(calls[n].dev, calls[n].line);
        if !ok {
          return;
        }
        ghost var op := Assignment(flags[calls[n].dev], calls[n].line);
        RunExtends(before, Where(), AssignmentsOf(flags, calls[..n]), op);
        assert AssignmentsOf(flags, calls[..n + 1]) == AssignmentsOf(flags, calls[..n]) + [op];
      }
      assert calls[..|calls|] == calls;
    }
  }

  /**
   * Core 0 raises no flag, core 1 has flag 31 and line 1. Giving line 1 to core 2 finds core 0, whose
   * shifted bit is the same, as the user of the line, and stops.
   */
  method HiddenUser() returns (ok: bool)
    ensures !ok
  {
    var bus := new Bus([Core(false, 0, 0), Core(false, 0, 31), Core(false, 0, 1)]);
    assert bus.flags[0] == UNSUPPORTED && bus.flags[1] == 31 && bus.flags[2] == 1;
    assert Hidden(bus.flags);
    var first := bus.SetIrq(1, 1);
    ok := bus.SetIrq(2, 1);
  }
}
