/** The arithmetic and logic instructions of emu/interp.c acting on the lazy flags, and runs of them. */
module CpuFlags {
  import opened Bytes
  import opened Bits
  import opened LazyFlags

  datatype Instr =
    | ADD(dst: nat, src: nat, z: nat)
    | SUB(dst: nat, src: nat, z: nat)
    | CMP(dst: nat, src: nat, z: nat)
    | INC(dst: nat, z: nat)
    | DEC(dst: nat, z: nat)
    | NEG(dst: nat, z: nat)
    | LOGIC(op: Logic, dst: nat, src: nat, z: nat)
    | TEST(dst: nat, src: nat, z: nat)
    | COLLAPSE
    | PUSHF
    | POPF(value: EFlags)

  // The operands of the instruction are values of its size.
  predicate Legal(i: Instr) {
    match i
    case INC(dst, z) => Size(z) && dst < Modulus(z)
    case DEC(dst, z) => Size(z) && dst < Modulus(z)
    case NEG(dst, z) => Size(z) && dst < Modulus(z)
    case COLLAPSE => true
    case PUSHF => true
    case POPF(v) => v.iopl < 4 && v.rest < 0x4_0000
    case _ => Size(i.z) && i.dst < Modulus(i.z) && i.src < Modulus(i.z)
  }

  // ------------------------------------------------------- the eager CPU

  /** A CPU that updates every flag at once. */
  datatype EagerCpu = EagerCpu(flags: Eager, tf: bit, df: bit, iopl: nat, rest: nat)

  function EagerStep(c: EagerCpu, i: Instr): EagerCpu {
    match i
    case ADD(dst, src, z) => c.(flags := EagerAdd(dst, src, z))
    case SUB(dst, src, z) => c.(flags := EagerSub(dst, src, z))
    case CMP(dst, src, z) => c.(flags := EagerSub(dst, src, z))
    case INC(dst, z) => c.(flags := EagerAdd(dst, 1, z).(cf := c.flags.cf))
    case DEC(dst, z) => c.(flags := EagerSub(dst, 1, z).(cf := c.flags.cf))
    case NEG(dst, z) => c.(flags := EagerSub(0, dst, z))
    case LOGIC(op, dst, src, z) => c.(flags := EagerLogic(Bitwise(op, dst, src, z), z))
    case TEST(dst, src, z) => c.(flags := EagerLogic(Bitwise(AND, dst, src, z), z))
    case COLLAPSE => c
    case PUSHF => c
    case POPF(v) => EagerCpu(Eager(v.cfBit == 1, v.ofBit == 1, v.zf == 1, v.sf == 1, v.pf == 1, Some(v.af == 1)), v.tf, v.df, v.iopl, v.rest)
  }

  /** The value the instruction leaves in its destination, or 0 if it writes none. */
  function Result(i: Instr): nat {
    match i
    case ADD(dst, src, z) => Sum(dst, src, z)
    case SUB(dst, src, z) => Difference(dst, src, z)
    case INC(dst, z) => Sum(dst, 1, z)
    case DEC(dst, z) => Difference(dst, 1, z)
    case NEG(dst, z) => Difference(0, dst, z)
    case LOGIC(op, dst, src, z) => Bitwise(op, dst, src, z)
    case _ => 0
  }

  // The eflags image of an eager CPU, with af where that flag is undefined.
  function Image(c: EagerCpu, af: bit): EFlags {
    EFlags(ToBit(c.flags.cf), 1, ToBit(c.flags.pf), 0, if c.flags.af.Some? then ToBit(c.flags.af.value) else af, 0, ToBit(c.flags.zf),
           ToBit(c.flags.sf), c.tf, 1, c.df, ToBit(c.flags.of), c.iopl, c.rest)
  }

  function EagerRun(c: EagerCpu, prog: seq<Instr>): EagerCpu
    decreases |prog|
  {
    if prog == [] then c else EagerStep(EagerRun(c, prog[..|prog| - 1]), prog[|prog| - 1])
  }

  // The lazy flags show what the eager CPU holds.
  predicate Tracks(f: FlagState, c: EagerCpu) {
    Wf(f) && Shows(f, c.flags) && f.eflags.tf == c.tf && f.eflags.df == c.df && f.eflags.iopl == c.iopl && f.eflags.rest == c.rest
  }

  class Cpu {
    var f: FlagState

    constructor (f: FlagState)
      ensures this.f == f
    {
      this.f := f;
    }

    // SETAF
    method SetAf(a: nat, b: nat)
      modifies this
      ensures f == old(f).(op1 := a, op2 := b, afOps := true)
    {
      f := f.(op1 := a, op2 := b, afOps := true);
    }

    // SETRESFLAGS
    method SetResFlags()
      modifies this
      ensures f == old(f).(zfRes := true, sfRes := true, pfRes := true)
    {
      f := f.(zfRes := true, sfRes := true, pfRes := true);
    }

    // unsigned_overflow: x is the exact result on unsigned operands.
    method UnsignedOverflow(x: int, z: nat) returns (ov: bool)
      requires Size(z)
      modifies this
      ensures ov == !(0 <= x < Modulus(z)) && f == old(f).(res := SignExtend(x % Modulus(z), z))
    {
      f := f.(res := SignExtend(x % Modulus(z), z));
      ov := !(0 <= x < Modulus(z));
    }

    // signed_overflow: x is the exact result on signed operands.
    method SignedOverflow(x: int, z: nat) returns (ov: bool)
      requires Size(z)
      modifies this
      ensures ov == !FitsSigned(x, z) && f == old(f).(res := SignExtend(x % Modulus(z), z))
    {
      f := f.(res := SignExtend(x % Modulus(z), z));
      ov := !FitsSigned(x, z);
    }

    method Add(dst: nat, src: nat, z: nat) returns (result: nat)
      requires Wf(f) && Size(z) && dst < Modulus(z) && src < Modulus(z)
      modifies this
      ensures Wf(f) && f.eflags == old(f.eflags)
      ensures Shows(f, EagerAdd(dst, src, z)) && result == Sum(dst, src, z)
    {
      hide Shows, EagerAdd, SignExtend;
      SignedSum(dst, src, z);
      SetAf(src, dst);
      var cf := UnsignedOverflow(dst + src, z);
      f := f.(cf := cf);
      var of := SignedOverflow(Signed(dst, z) + Signed(src, z), z);
      f := f.(of := of);
      result := f.res % Modulus(z);
      SetResFlags();
      AddShows(f, dst, src, z);
    }

    // The arithmetic shared by SUB, CMP and NEG.
    method Subtract(dst: nat, src: nat, z: nat)
      requires Wf(f) && Size(z) && dst < Modulus(z) && src < Modulus(z) && f.afOps
      requires (f.op1 == src && f.op2 == dst) || (f.op1 == dst && f.op2 == src)
      modifies this
      ensures Wf(f) && f.eflags == old(f.eflags)
      ensures Shows(f, EagerSub(dst, src, z)) && f.res % Modulus(z) == Difference(dst, src, z)
    {
      hide Shows, EagerSub, SignExtend;
      SignedDifference(dst, src, z);
      var of := SignedOverflow(Signed(dst, z) - Signed(src, z), z);
      f := f.(of := of);
      var cf := UnsignedOverflow(dst - src, z);
      f := f.(cf := cf);
      SetResFlags();
      SubShows(f, dst, src, z);
    }

    method Sub(dst: nat, src: nat, z: nat) returns (result: nat)
      requires Wf(f) && Size(z) && dst < Modulus(z) && src < Modulus(z)
      modifies this
      ensures Wf(f) && f.eflags == old(f.eflags)
      ensures Shows(f, EagerSub(dst, src, z)) && result == Difference(dst, src, z)
    {
      SetAf(src, dst);
      Subtract(dst, src, z);
      result := f.res % Modulus(z);
    }

    method Cmp(dst: nat, src: nat, z: nat)
      requires Wf(f) && Size(z) && dst < Modulus(z) && src < Modulus(z)
      modifies this
      ensures Wf(f) && f.eflags == old(f.eflags) && Shows(f, EagerSub(dst, src, z))
    {
      SetAf(src, dst);
      Subtract(dst, src, z);
    }

    method Inc(dst: nat, z: nat) returns (result: nat)
      requires Wf(f) && Size(z) && dst < Modulus(z)
      modifies this
      ensures Wf(f) && f.eflags == old(f.eflags)
      ensures Shows(f, EagerAdd(dst, 1, z).(cf := old(f.cf))) && result == Sum(dst, 1, z)
    {
      var tmp := f.cf;
      result := Add(dst, 1, z);
      f := f.(cf := tmp);
    }

    method Dec(dst: nat, z: nat) returns (result: nat)
      requires Wf(f) && Size(z) && dst < Modulus(z)
      modifies this
      ensures Wf(f) && f.eflags == old(f.eflags)
      ensures Shows(f, EagerSub(dst, 1, z).(cf := old(f.cf))) && result == Difference(dst, 1, z)
    {
      var tmp := f.cf;
      result := Sub(dst, 1, z);
      f := f.(cf := tmp);
    }

    method Neg(dst: nat, z: nat) returns (result: nat)
      requires Wf(f) && Size(z) && dst < Modulus(z)
      modifies this
      ensures Wf(f) && f.eflags == old(f.eflags)
      ensures Shows(f, EagerSub(0, dst, z)) && result == Difference(0, dst, z)
    {
      SetAf(0, dst);
      Subtract(0, dst, z);
      result := f.res % Modulus(z);
    }

    // AND, OR, XOR and TEST: cf, of and af cleared, the result kept for the other flags.
    method LogicFlags(r: nat, z: nat)
      requires Wf(f) && Size(z) && r < Modulus(z)
      modifies this
      ensures Wf(f) && f.eflags == old(f.eflags).(af := 0) && Shows(f, EagerLogic(r, z)) && !AF(f)
    {
      f := f.(cf := false, of := false, afOps := false, eflags := f.eflags.(af := 0));
      f := f.(res := SignExtend(r, z));
      SetResFlags();
      Flagged(f, r, z);
    }

    method Collapse()
      requires Wf(f)
      modifies this
      ensures Wf(f) && f == Collapsed(old(f))
    {
      hide Bit, Bitwise, BitSum;
      f := f.(eflags := f.eflags.(zf := ToBit(ZF(f)), sf := ToBit(SF(f)), pf := ToBit(PF(f))));
      f := f.(zfRes := false, sfRes := false, pfRes := false);
      f := f.(eflags := f.eflags.(ofBit := ToBit(f.of), cfBit := ToBit(f.cf), af := ToBit(AF(f))), afOps := false);
      f := f.(eflags := f.eflags.(pad1 := 1, pad2 := 0, pad3 := 0, interrupts := 1));
    }

    method Expand()
      requires Wf(f)
      modifies this
      ensures Wf(f) && f == Expanded(old(f))
    {
      f := f.(of := f.eflags.ofBit == 1);
      f := f.(cf := f.eflags.cfBit == 1);
      f := f.(zfRes := false, sfRes := false, pfRes := false, afOps := false);
    }

    /** PUSHF: the word it pushes, as its bits. */
    method Pushf() returns (image: EFlags)
      requires Wf(f)
      modifies this
      ensures Wf(f) && f == Collapsed(old(f)) && image == f.eflags
    {
      Collapse();
      image := f.eflags;
    }

    /** POPF of a 32-bit word. */
    method Popf(value: EFlags)
      requires Wf(f) && value.iopl < 4 && value.rest < 0x4_0000
      modifies this
      ensures Wf(f) && f == Expanded(old(f).(eflags := value))
    {
      f := f.(eflags := value);
      Expand();
    }

    /** Runs instructions; the pushed images come out in order. Whatever is interleaved, an observer
        of the flags cannot tell the lazy CPU from the eager one. */
    method Execute(prog: seq<Instr>, ghost c: EagerCpu) returns (results: seq<nat>, pushed: seq<(nat, EFlags)>)
      requires Tracks(f, c) && forall i <- prog :: Legal(i)
      modifies this
      ensures Tracks(f, EagerRun(c, prog))
      ensures |results| == |prog| && forall n | 0 <= n < |prog| :: results[n] == Result(prog[n])
      ensures forall p <- pushed :: p.0 < |prog| && prog[p.0].PUSHF? && p.1 == Image(EagerRun(c, prog[..p.0]), p.1.af)
      ensures forall n | 0 <= n < |prog| && prog[n].PUSHF? :: exists p :: p in pushed && p.0 == n
    {
      results, pushed := [], [];
      assert prog[..0] == [];
      for n := 0 to |prog|
        invariant Tracks(f, EagerRun(c, prog[..n]))
        invariant |results| == n && forall m | 0 <= m < n :: results[m] == Result(prog[m])
        invariant forall p <- pushed :: p.0 < n && prog[p.0].PUSHF? && p.1 == Image(EagerRun(c, prog[..p.0]), p.1.af)
        invariant forall m | 0 <= m < n && prog[m].PUSHF? :: exists p :: p in pushed && p.0 == m
      {
        assert prog[..n + 1][..n] == prog[..n];
        ghost var e := EagerRun(c, prog[..n]);
        var r, image := Step(prog[n], e);
        results := results + [r];
        if image.Some? {
          ghost var before := pushed;
          pushed := pushed + [(n, image.value)];
          assert (n, image.value) in pushed;
          assert forall p <- before :: p in pushed;
        }
      }
      assert prog[..|prog|] == prog;
    }

    method Step(i: Instr, ghost c: EagerCpu) returns (result: nat, image: Option<EFlags>)
      requires Tracks(f, c) && Legal(i)
      modifies this
      ensures Tracks(f, EagerStep(c, i)) && result == Result(i)
      ensures image.Some? <==> i.PUSHF?
      ensures image.Some? ==> image.value == Image(c, image.value.af)
    {
      result, image := 0, None;
      match i {
        case ADD(dst, src, z) => result := Add(dst, src, z);
        case SUB(dst, src, z) => result := Sub(dst, src, z);
        case CMP(dst, src, z) => Cmp(dst, src, z);
        case INC(dst, z) => result := Inc(dst, z);
        case DEC(dst, z) => result := Dec(dst, z);
        case NEG(dst, z) => result := Neg(dst, z);
        case LOGIC(op, dst, src, z) =>
          result := Bitwise(op, dst, src, z);
          WordSize(z);
          LogicFlags(result, z);
        case TEST(dst, src, z) =>
          WordSize(z);
          LogicFlags(Bitwise(AND, dst, src, z), z);
        case COLLAPSE =>
          CollapseShows(f, c.flags);
          Collapse();
        case PUSHF =>
          CollapseShows(f, c.flags);
          var e := Pushf();
          image := Some(e);
        case POPF(value) => Popf(value);
      }
    }

    // The lines of ADC that set of.
    method AdcOf(dst: nat, src: nat, z: nat)
      requires Size(z) && dst < Modulus(z) && src < Modulus(z)
      modifies this
      ensures f == old(f).(res := f.res, of := AdcOverflow(dst, src, old(f.cf), z))
    {
      OperandFits(src, f.cf, z);
      hide WithCarry;
      var operand := WithCarry(src, f.cf, z);
      var of := SignedOverflow(Signed(dst, z) + Signed(operand, z), z);
      f := f.(of := of || (f.cf && src == (Modulus(z) - 1) / 2));
    }

    // The lines of ADC that set cf and the result.
    method AdcCf(dst: nat, src: nat, z: nat)
      requires Size(z) && dst < Modulus(z) && src < Modulus(z)
      modifies this
      ensures f == old(f).(res := SignExtend(AdcResult(dst, src, old(f.cf), z), z), cf := AdcCarry(dst, src, old(f.cf), z))
    {
      OperandFits(src, f.cf, z);
      hide WithCarry;
      var operand := WithCarry(src, f.cf, z);
      var cf := UnsignedOverflow(dst + operand, z);
      f := f.(cf := cf || (f.cf && src == Modulus(z) - 1));
    }

    /** ADC: the source operand and the carry are added first, in z bits. */
    method Adc(dst: nat, src: nat, z: nat) returns (result: nat)
      requires Wf(f) && Size(z) && dst < Modulus(z) && src < Modulus(z)
      modifies this
      ensures Wf(f) && f.eflags == old(f.eflags)
      ensures result == AdcResult(dst, src, old(f.cf), z) && f.cf == AdcCarry(dst, src, old(f.cf), z)
      ensures f.of == AdcOverflow(dst, src, old(f.cf), z)
      ensures ZF(f) == (result == 0) && SF(f) == (result >= Half(z)) && PF(f) == EvenParity(result)
      ensures AF(f) == (dst % 16 + src % 16 + ToBit(old(f.cf)) >= 16)
    {
      hide AdcOverflow, AdcCarry, AdcResult, ZF, SF, PF, AF, EvenParity, SignExtend;
      ghost var r, c := AdcResult(dst, src, f.cf, z), f.cf;
      AdcFits(dst, src, c, z);
      SetAf(src, dst);
      AdcOf(dst, src, z);
      AdcCf(dst, src, z);
      SetResFlags();
      Flagged(f, r, z);
      AdcWraps(dst, src, c, z);
      AddAuxiliary(f, dst, src, ToBit(c), z);
      result := f.res % Modulus(z);
    }

    // The lines of SBB that set of.
    method SbbOf(dst: nat, src: nat, z: nat)
      requires Size(z) && dst < Modulus(z) && src < Modulus(z)
      modifies this
      ensures f == old(f).(res := f.res, of := SbbOverflow(dst, src, old(f.cf), z))
    {
      OperandFits(src, f.cf, z);
      hide WithCarry;
      var operand := WithCarry(src, f.cf, z);
      var of := SignedOverflow(Signed(dst, z) - Signed(operand, z), z);
      f := f.(of := of || (f.cf && src == (Modulus(z) - 1) / 2));
    }

    // The lines of SBB that set cf and the result.
    method SbbCf(dst: nat, src: nat, z: nat)
      requires Size(z) && dst < Modulus(z) && src < Modulus(z)
      modifies this
      ensures f == old(f).(res := SignExtend(SbbResult(dst, src, old(f.cf), z), z), cf := SbbBorrow(dst, src, old(f.cf), z))
    {
      OperandFits(src, f.cf, z);
      hide WithCarry;
      var operand := WithCarry(src, f.cf, z);
      var cf := UnsignedOverflow(dst - operand, z);
      f := f.(cf := cf || (f.cf && src == Modulus(z) - 1));
    }

    /** SBB. */
    method Sbb(dst: nat, src: nat, z: nat) returns (result: nat)
      requires Wf(f) && Size(z) && dst < Modulus(z) && src < Modulus(z)
      modifies this
      ensures Wf(f) && f.eflags == old(f.eflags)
      ensures result == SbbResult(dst, src, old(f.cf), z) && f.cf == SbbBorrow(dst, src, old(f.cf), z)
      ensures f.of == SbbOverflow(dst, src, old(f.cf), z)
      ensures ZF(f) == (result == 0) && SF(f) == (result >= Half(z)) && PF(f) == EvenParity(result)
      ensures AF(f) == (dst % 16 < src % 16 + ToBit(old(f.cf)))
    {
      hide SbbOverflow, SbbBorrow, SbbResult, ZF, SF, PF, AF, EvenParity, SignExtend;
      ghost var r, c := SbbResult(dst, src, f.cf, z), f.cf;
      SbbFits(dst, src, c, z);
      SetAf(src, dst);
      SbbOf(dst, src, z);
      SbbCf(dst, src, z);
      SetResFlags();
      Flagged(f, r, z);
      SbbWraps(dst, src, c, z);
      SubAuxiliary(f, dst, src, ToBit(c), z);
      result := f.res % Modulus(z);
    }

    // ---------------------------------------------- numbers of many limbs

    /** The usual loop on long numbers: ADD on the lowest limbs, ADC on all others. The limbs it leaves are those of the
        full-width sum, and CF is the carry out. */
    method AddLong(a: seq<nat>, b: seq<nat>, z: nat) returns (sum: seq<nat>)
      requires Wf(f) && Size(z) && |a| == |b| > 0 && Limbs(a, z) && Limbs(b, z)
      modifies this
      ensures Wf(f) && (sum, f.cf) == AddChain(a, b, false, z)
      ensures Value(sum, z) + Span(|a|, z) * ToBit(f.cf) == Value(a, z) + Value(b, z)
    {
      hide Wf, Shows, EagerAdd, AdcResult, AdcCarry, Modulus, AF, ZF, SF, PF, EvenParity, AdcOverflow, Value, Span;
      var first := Add(a[0], b[0], z);
      AddIsAdc(f, a[0], b[0], z);
      sum := [first];
      for i := 1 to |a|
        invariant Wf(f) && |sum| == i
        invariant var (rest, carry) := AddChain(a[i..], b[i..], f.cf, z); AddChain(a, b, false, z) == (sum + rest, carry)
      {
        ghost var (rest, carry) := AddChain(a[i + 1..], b[i + 1..], AdcCarry(a[i], b[i], f.cf, z), z);
        assert a[i..][1..] == a[i + 1..] && b[i..][1..] == b[i + 1..];
        var limb := Adc(a[i], b[i], z);
        assert sum + ([limb] + rest) == (sum + [limb]) + rest;
        sum := sum + [limb];
      }
      assert a[|a|..] == [] && b[|a|..] == [] && sum + [] == sum;
      AddChainIsSum(a, b, false, z);
    }

    /** The same with SUB and SBB. */
    method SubLong(a: seq<nat>, b: seq<nat>, z: nat) returns (diff: seq<nat>)
      requires Wf(f) && Size(z) && |a| == |b| > 0 && Limbs(a, z) && Limbs(b, z)
      modifies this
      ensures Wf(f) && (diff, f.cf) == SubChain(a, b, false, z)
      ensures Value(diff, z) - Span(|a|, z) * ToBit(f.cf) == Value(a, z) - Value(b, z)
    {
      hide Wf, Shows, EagerSub, SbbResult, SbbBorrow, Modulus, AF, ZF, SF, PF, EvenParity, SbbOverflow, Value, Span;
      var first := Sub(a[0], b[0], z);
      SubIsSbb(f, a[0], b[0], z);
      diff := [first];
      for i := 1 to |a|
        invariant Wf(f) && |diff| == i
        invariant var (rest, borrow) := SubChain(a[i..], b[i..], f.cf, z); SubChain(a, b, false, z) == (diff + rest, borrow)
      {
        ghost var (rest, borrow) := SubChain(a[i + 1..], b[i + 1..], SbbBorrow(a[i], b[i], f.cf, z), z);
        assert a[i..][1..] == a[i + 1..] && b[i..][1..] == b[i + 1..];
        var limb := Sbb(a[i], b[i], z);
        assert diff + ([limb] + rest) == (diff + [limb]) + rest;
        diff := diff + [limb];
      }
      assert a[|a|..] == [] && b[|a|..] == [] && diff + [] == diff;
      SubChainIsDifference(a, b, false, z);
    }
  }

  // -------------------------------------------------- conditions after CMP

  /** After CMP the condition codes are the orders of the operands. */
  lemma CompareConditions(f: FlagState, dst: nat, src: nat, z: nat)
    requires Size(z) && dst < Modulus(z) && src < Modulus(z) && Shows(f, EagerSub(dst, src, z))
    ensures CondB(f) <==> dst < src
    ensures CondBE(f) <==> dst <= src
    ensures CondL(f) <==> Signed(dst, z) < Signed(src, z)
    ensures CondLE(f) <==> Signed(dst, z) <= Signed(src, z)
    ensures ZF(f) <==> dst == src
  {
    hide ZF, SF, PF, AF, EvenParity;
    if z == 8 {
      assert Difference(dst, src, 8) == if dst < src then dst - src + 0x100 else dst - src;
    } else if z == 16 {
      assert Difference(dst, src, 16) == if dst < src then dst - src + 0x1_0000 else dst - src;
    } else {
      assert Difference(dst, src, 32) == if dst < src then dst - src + WORD else dst - src;
    }
  }

  /** What the flags of an addition say: CF is the carry that the result lacks, OF that the signed result is not the signed sum, AF the
      carry between the lowest hexadecimal digits, ZF and SF that the result is zero or negative. */
  lemma AddFlagsMean(dst: nat, src: nat, z: nat)
    requires Size(z) && dst < Modulus(z) && src < Modulus(z)
    ensures var e, r := EagerAdd(dst, src, z), Sum(dst, src, z);
            && r < Modulus(z) && r + Modulus(z) * ToBit(e.cf) == dst + src
            && (!e.of <==> Signed(r, z) == Signed(dst, z) + Signed(src, z))
            && e.af.Some? && r % 16 + 16 * ToBit(e.af.value) == dst % 16 + src % 16
            && (e.zf <==> r == 0) && (e.sf <==> Signed(r, z) < 0) && (e.pf <==> BitSum(r, 8) % 2 == 0)
  {
    SumCarry(dst, src, z);
    var r, c := Sum(dst, src, z), if dst + src >= Modulus(z) then 1 else 0;
    SumSigned(dst, src, r, c, z);
    Nibbles(dst, src, r, Modulus(z) / 16 * c);
    hide BitSum, Sum, Modulus, FitsSigned;
  }

  lemma SumCarry(dst: nat, src: nat, z: nat)
    requires Size(z) && dst < Modulus(z) && src < Modulus(z)
    ensures var c := if dst + src >= Modulus(z) then 1 else 0;
            0 <= Sum(dst, src, z) == dst + src - Modulus(z) * c < Modulus(z) && Modulus(z) * c == 16 * (Modulus(z) / 16 * c)
  {
    Reduced(dst + src, z);
    if z == 8 { assert Modulus(z) == 0x100; } else if z == 16 { assert Modulus(z) == 0x1_0000; } else { assert Modulus(z) == WORD; }
  }

  lemma SumSigned(dst: nat, src: nat, r: nat, c: bit, z: nat)
    requires Size(z) && dst < Modulus(z) && src < Modulus(z) && r < Modulus(z)
    requires r == dst + src - (if c == 1 then Modulus(z) else 0)
    ensures FitsSigned(Signed(dst, z) + Signed(src, z), z) <==> Signed(r, z) == Signed(dst, z) + Signed(src, z)
    ensures r >= Half(z) <==> Signed(r, z) < 0
  {
    CarryIn(0, false, z);
    hide Modulus, Half;
  }

  // The lowest digits of a sum of which a multiple of 16 is taken off.
  lemma Nibbles(a: nat, b: nat, r: nat, q: int)
    requires r == a + b - 16 * q
    ensures r % 16 + (if a % 16 + b % 16 >= 16 then 16 else 0) == a % 16 + b % 16
  {
    var c := if a % 16 + b % 16 >= 16 then 1 else 0;
    Quotient16(r, a / 16 + b / 16 + c - q, a % 16 + b % 16 - 16 * c);
  }

  /** The same of a difference, with borrows for carries. */
  lemma SubFlagsMean(dst: nat, src: nat, z: nat)
    requires Size(z) && dst < Modulus(z) && src < Modulus(z)
    ensures var e, r := EagerSub(dst, src, z), Difference(dst, src, z);
            && r < Modulus(z) && r - Modulus(z) * ToBit(e.cf) == dst - src
            && (!e.of <==> Signed(r, z) == Signed(dst, z) - Signed(src, z))
            && e.af.Some? && r % 16 - 16 * ToBit(e.af.value) == dst % 16 - src % 16
            && (e.zf <==> r == 0) && (e.sf <==> Signed(r, z) < 0) && (e.pf <==> BitSum(r, 8) % 2 == 0)
  {
    DifferenceBorrow(dst, src, z);
    var r, c := Difference(dst, src, z), if dst < src then 1 else 0;
    DifferenceSigned(dst, src, r, c, z);
    Nibbles(src, r, dst, Modulus(z) / 16 * c);
    hide BitSum, Difference, Modulus, FitsSigned;
  }

  lemma DifferenceBorrow(dst: nat, src: nat, z: nat)
    requires Size(z) && dst < Modulus(z) && src < Modulus(z)
    ensures var c := if dst < src then 1 else 0;
            0 <= Difference(dst, src, z) == dst - src + Modulus(z) * c < Modulus(z) && Modulus(z) * c == 16 * (Modulus(z) / 16 * c)
  {
    Reduced(dst - src, z);
    if z == 8 { assert Modulus(z) == 0x100; } else if z == 16 { assert Modulus(z) == 0x1_0000; } else { assert Modulus(z) == WORD; }
  }

  lemma DifferenceSigned(dst: nat, src: nat, r: nat, c: bit, z: nat)
    requires Size(z) && dst < Modulus(z) && src < Modulus(z) && r < Modulus(z)
    requires r == dst - src + if c == 1 then Modulus(z) else 0
    ensures FitsSigned(Signed(dst, z) - Signed(src, z), z) <==> Signed(r, z) == Signed(dst, z) - Signed(src, z)
    ensures r >= Half(z) <==> Signed(r, z) < 0
  {
    CarryIn(0, false, z);
    hide Modulus, Half;
  }

  /** After AND, OR, XOR or TEST with result r, B is false and E, L and LE say that r is zero, negative, or one of these. */
  lemma LogicConditions(f: FlagState, r: nat, z: nat)
    requires Size(z) && r < Modulus(z) && Shows(f, EagerLogic(r, z))
    ensures !CondB(f) && !f.of && (ZF(f) <==> r == 0)
    ensures CondL(f) <==> Signed(r, z) < 0
    ensures CondLE(f) <==> Signed(r, z) <= 0
    ensures PF(f) <==> BitSum(r, 8) % 2 == 0
  {
    hide ZF, SF, PF, AF, BitSum;
  }

  /** Those results, bit by bit. */
  lemma LogicResults(a: nat, b: nat, z: nat, i: nat)
    requires i < z
    ensures Bit(Bitwise(AND, a, b, z), i) == 1 <==> Bit(a, i) == 1 && Bit(b, i) == 1
    ensures Bit(Bitwise(OR, a, b, z), i) == 1 <==> Bit(a, i) == 1 || Bit(b, i) == 1
    ensures Bit(Bitwise(XOR, a, b, z), i) == 1 <==> Bit(a, i) != Bit(b, i)
  {
    BitwiseBit(AND, a, b, z, i);
    BitwiseBit(OR, a, b, z, i);
    BitwiseBit(XOR, a, b, z, i);
    hide Bit, Bitwise;
  }

  /** The word PUSHF pushes brings the flags back when POPF takes it, whatever ran in between. */
  lemma PushfPopf(f: FlagState, g: FlagState, e: Eager)
    requires Wf(f) && Shows(f, e)
    ensures Shows(Expanded(g.(eflags := FromWord(Word(Collapsed(f).eflags)))), e)
    ensures Expanded(g.(eflags := FromWord(Word(Collapsed(f).eflags)))).eflags == Collapsed(f).eflags
  {
    WordRoundTrip(Collapsed(f).eflags);
    hide Word, FromWord, Bit, Bitwise, BitSum;
  }

  // ------------------------------------------------- multi-word arithmetic

  // get(src,z) + cpu->cf in z bits: the largest source wraps to zero.
  function WithCarry(src: nat, c: bool, z: nat): nat { (src + if c then 1 else 0) % Modulus(z) }

  lemma OperandFits(src: nat, c: bool, z: nat)
    requires Size(z)
    ensures WithCarry(src, c, z) < Modulus(z) && Modulus(z) > 0
  {
  }

  function AdcResult(dst: nat, src: nat, c: bool, z: nat): nat { Sum(dst, WithCarry(src, c, z), z) }
  predicate AdcCarry(dst: nat, src: nat, c: bool, z: nat) { dst + WithCarry(src, c, z) >= Modulus(z) || (c && src == Modulus(z) - 1) }
  predicate AdcOverflow(dst: nat, src: nat, c: bool, z: nat) {
    !FitsSigned(Signed(dst, z) + Signed(WithCarry(src, c, z), z), z) || (c && src == (Modulus(z) - 1) / 2)
  }

  function SbbResult(dst: nat, src: nat, c: bool, z: nat): nat { Difference(dst, WithCarry(src, c, z), z) }
  predicate SbbBorrow(dst: nat, src: nat, c: bool, z: nat) { dst < WithCarry(src, c, z) || (c && src == Modulus(z) - 1) }
  predicate SbbOverflow(dst: nat, src: nat, c: bool, z: nat) {
    !FitsSigned(Signed(dst, z) - Signed(WithCarry(src, c, z), z), z) || (c && src == (Modulus(z) - 1) / 2)
  }

  lemma AdcFits(dst: nat, src: nat, c: bool, z: nat)
    requires Size(z)
    ensures AdcResult(dst, src, c, z) < Modulus(z)
  {
  }

  lemma SbbFits(dst: nat, src: nat, c: bool, z: nat)
    requires Size(z)
    ensures SbbResult(dst, src, c, z) < Modulus(z)
  {
  }

  // The source operand and the carry, added in z bits.
  lemma CarryIn(src: nat, c: bool, z: nat)
    requires Size(z) && src < Modulus(z)
    ensures WithCarry(src, c, z) == if c && src == Modulus(z) - 1 then 0 else src + ToBit(c)
    ensures Modulus(z) == 2 * Half(z) && Half(z) >= 0x80
  {
  }

  lemma Reduced(x: int, z: nat)
    requires Size(z) && 0 - Modulus(z) <= x < 2 * Modulus(z)
    ensures x % Modulus(z) == if x < 0 then x + Modulus(z) else if x < Modulus(z) then x else x - Modulus(z)
  {
    if z == 8 { assert Modulus(z) == 0x100; } else if z == 16 { assert Modulus(z) == 0x1_0000; } else { assert Modulus(z) == WORD; }
  }

  /** CF and the result of ADC are together the exact sum. */
  lemma AdcIsExact(dst: nat, src: nat, c: bool, z: nat)
    requires Size(z) && dst < Modulus(z) && src < Modulus(z)
    ensures AdcResult(dst, src, c, z) + Modulus(z) * ToBit(AdcCarry(dst, src, c, z)) == dst + src + ToBit(c)
  {
    CarryIn(src, c, z);
    hide WithCarry, Modulus, Half;
    Reduced(dst + WithCarry(src, c, z), z);
  }

  lemma SbbIsExact(dst: nat, src: nat, c: bool, z: nat)
    requires Size(z) && dst < Modulus(z) && src < Modulus(z)
    ensures SbbResult(dst, src, c, z) - Modulus(z) * ToBit(SbbBorrow(dst, src, c, z)) == dst - src - ToBit(c)
  {
    CarryIn(src, c, z);
    hide WithCarry, Modulus, Half;
    Reduced(dst - WithCarry(src, c, z), z);
  }

  lemma AdcWraps(dst: nat, src: nat, c: bool, z: nat)
    requires Size(z) && dst < Modulus(z) && src < Modulus(z)
    ensures AdcResult(dst, src, c, z) == (dst + src + ToBit(c)) % Modulus(z)
  {
    AdcIsExact(dst, src, c, z);
    AdcFits(dst, src, c, z);
    hide AdcResult, AdcCarry, Modulus;
    Reduced(dst + src + ToBit(c), z);
  }

  lemma SbbWraps(dst: nat, src: nat, c: bool, z: nat)
    requires Size(z) && dst < Modulus(z) && src < Modulus(z)
    ensures SbbResult(dst, src, c, z) == (dst - src - ToBit(c)) % Modulus(z)
  {
    SbbIsExact(dst, src, c, z);
    SbbFits(dst, src, c, z);
    hide SbbResult, SbbBorrow, Modulus;
    Reduced(dst - src - ToBit(c), z);
  }

  /** OF after ADC is right exactly unless a carry comes in, the source is the largest positive value and the destination is negative. */
  lemma AdcOverflowIff(dst: nat, src: nat, c: bool, z: nat)
    requires Size(z) && dst < Modulus(z) && src < Modulus(z)
    ensures AdcOverflow(dst, src, c, z) == !FitsSigned(Signed(dst, z) + Signed(src, z) + ToBit(c), z)
            <==> !(c && src == Half(z) - 1 && Signed(dst, z) < 0)
  {
    CarryIn(src, c, z);
    hide WithCarry, Modulus, Half;
  }

  /** The input: 0x80 + 0x7f + 1 is zero, which fits, and OF says that it does not. */
  lemma AdcOverflowWrong()
    ensures AdcOverflow(0x80, 0x7f, true, 8) && AdcResult(0x80, 0x7f, true, 8) == 0
    ensures FitsSigned(Signed(0x80, 8) + Signed(0x7f, 8) + ToBit(true), 8)
  {
  }

  /** OF after SBB is right exactly unless a borrow comes in, the source is the largest positive value and the destination is not negative. */
  lemma SbbOverflowIff(dst: nat, src: nat, c: bool, z: nat)
    requires Size(z) && dst < Modulus(z) && src < Modulus(z)
    ensures SbbOverflow(dst, src, c, z) == !FitsSigned(Signed(dst, z) - Signed(src, z) - ToBit(c), z)
            <==> !(c && src == Half(z) - 1 && Signed(dst, z) >= 0)
  {
    CarryIn(src, c, z);
    hide WithCarry, Modulus, Half;
  }

  /** The input: 0 - 0x7f - 1 is -128, which fits, and OF says that it does not. */
  lemma SbbOverflowWrong()
    ensures SbbOverflow(0, 0x7f, true, 8) && SbbResult(0, 0x7f, true, 8) == 0x80
    ensures FitsSigned(Signed(0, 8) - Signed(0x7f, 8) - ToBit(true), 8)
  {
  }

  // ADD is ADC without a carry in, SUB is SBB without a borrow.
  lemma AddIsAdc(f: FlagState, dst: nat, src: nat, z: nat)
    requires Size(z) && dst < Modulus(z) && src < Modulus(z) && Shows(f, EagerAdd(dst, src, z))
    ensures f.cf == AdcCarry(dst, src, false, z) && Sum(dst, src, z) == AdcResult(dst, src, false, z)
  {
    CarryIn(src, false, z);
    hide WithCarry, Modulus, ZF, SF, PF, AF, EvenParity;
  }

  lemma SubIsSbb(f: FlagState, dst: nat, src: nat, z: nat)
    requires Size(z) && dst < Modulus(z) && src < Modulus(z) && Shows(f, EagerSub(dst, src, z))
    ensures f.cf == SbbBorrow(dst, src, false, z) && Difference(dst, src, z) == SbbResult(dst, src, false, z)
  {
    CarryIn(src, false, z);
    hide WithCarry, Modulus, ZF, SF, PF, AF, EvenParity;
  }

  // Limbs, least significant first, and the number they stand for.
  predicate Limbs(a: seq<nat>, z: nat) { forall i | 0 <= i < |a| :: a[i] < Modulus(z) }
  function Value(a: seq<nat>, z: nat): nat { if a == [] then 0 else a[0] + Modulus(z) * Value(a[1..], z) }
  function Span(n: nat, z: nat): nat { if n == 0 then 1 else Modulus(z) * Span(n - 1, z) }

  /** ADD on the lowest limb (ADC with the carry clear), then ADC up the limbs: the limbs and the last CF. */
  function AddChain(a: seq<nat>, b: seq<nat>, c: bool, z: nat): (seq<nat>, bool)
    requires |a| == |b|
  {
    if a == [] then ([], c)
    else
      var (rest, carry) := AddChain(a[1..], b[1..], AdcCarry(a[0], b[0], c, z), z);
      ([AdcResult(a[0], b[0], c, z)] + rest, carry)
  }

  function SubChain(a: seq<nat>, b: seq<nat>, c: bool, z: nat): (seq<nat>, bool)
    requires |a| == |b|
  {
    if a == [] then ([], c)
    else
      var (rest, borrow) := SubChain(a[1..], b[1..], SbbBorrow(a[0], b[0], c, z), z);
      ([SbbResult(a[0], b[0], c, z)] + rest, borrow)
  }

  /** For any number of limbs the chain computes the full-width sum, and its CF is the carry out. */
  lemma {:induction false} AddChainIsSum(a: seq<nat>, b: seq<nat>, c: bool, z: nat)
    requires Size(z) && |a| == |b| && Limbs(a, z) && Limbs(b, z)
    ensures var (sum, carry) := AddChain(a, b, c, z);
            |sum| == |a| && Value(sum, z) + Span(|a|, z) * ToBit(carry) == Value(a, z) + Value(b, z) + ToBit(c)
  {
    if a != [] {
      hide Modulus, AdcResult, AdcCarry;
      var c1, r := AdcCarry(a[0], b[0], c, z), AdcResult(a[0], b[0], c, z);
      var (rest, carry) := AddChain(a[1..], b[1..], c1, z);
      assert AddChain(a, b, c, z) == ([r] + rest, carry) && Span(|a|, z) == Modulus(z) * Span(|a| - 1, z);
      ValueTail(r, rest, z);
      AdcIsExact(a[0], b[0], c, z);
      AddChainIsSum(a[1..], b[1..], c1, z);
      assert Value(a, z) == a[0] + Modulus(z) * Value(a[1..], z) && Value(b, z) == b[0] + Modulus(z) * Value(b[1..], z);
      hide AddChain, Value, Span, Limbs;
      LimbEquation(Modulus(z), r, Value(rest, z), Span(|a| - 1, z), ToBit(carry), ToBit(c1),
                   a[0] + b[0] + ToBit(c), Value(a[1..], z) + Value(b[1..], z));
      Distribute(Modulus(z), Value(a[1..], z), Value(b[1..], z));
    }
  }

  lemma ValueTail(r: nat, rest: seq<nat>, z: nat)
    ensures Value([r] + rest, z) == r + Modulus(z) * Value(rest, z)
  {
    assert ([r] + rest)[1..] == rest;
  }

  // The equation of the lowest limb, and that of the others times the base.
  lemma LimbEquation(m: int, r: int, v: int, s: int, carry: int, c1: int, low: int, high: int)
    requires r + m * c1 == low && v + s * carry == high + c1
    ensures r + m * v + m * s * carry == low + m * high
  {
    assert m * (v + s * carry) == m * v + m * s * carry;
    assert m * (high + c1) == m * high + m * c1;
  }

  lemma Distribute(m: int, a: int, b: int)
    ensures m * (a + b) == m * a + m * b && m * (a - b) == m * a - m * b
  {
  }

  /** And SUB with a chain of SBB the full-width difference, with CF the borrow out. */
  lemma {:induction false} SubChainIsDifference(a: seq<nat>, b: seq<nat>, c: bool, z: nat)
    requires Size(z) && |a| == |b| && Limbs(a, z) && Limbs(b, z)
    ensures var (diff, borrow) := SubChain(a, b, c, z);
            |diff| == |a| && Value(diff, z) - Span(|a|, z) * ToBit(borrow) == Value(a, z) - Value(b, z) - ToBit(c)
  {
    if a != [] {
      hide Modulus, SbbResult, SbbBorrow;
      var c1, r := SbbBorrow(a[0], b[0], c, z), SbbResult(a[0], b[0], c, z);
      var (rest, borrow) := SubChain(a[1..], b[1..], c1, z);
      assert SubChain(a, b, c, z) == ([r] + rest, borrow) && Span(|a|, z) == Modulus(z) * Span(|a| - 1, z);
      ValueTail(r, rest, z);
      SbbIsExact(a[0], b[0], c, z);
      SubChainIsDifference(a[1..], b[1..], c1, z);
      assert Value(a, z) == a[0] + Modulus(z) * Value(a[1..], z) && Value(b, z) == b[0] + Modulus(z) * Value(b[1..], z);
      hide SubChain, Value, Span, Limbs;
      BorrowEquation(Modulus(z), r, Value(rest, z), Span(|a| - 1, z), ToBit(borrow), ToBit(c1),
                     a[0] - b[0] - ToBit(c), Value(a[1..], z) - Value(b[1..], z));
      Distribute(Modulus(z), Value(a[1..], z), Value(b[1..], z));
    }
  }

  lemma BorrowEquation(m: int, r: int, v: int, s: int, borrow: int, c1: int, low: int, high: int)
    requires r - m * c1 == low && v - s * borrow == high - c1
    ensures r + m * v - m * s * borrow == low + m * high
  {
    assert m * (v - s * borrow) == m * v - m * s * borrow;
    assert m * (high - c1) == m * high - m * c1;
  }

  lemma WordSize(z: nat)
    requires Size(z)
    ensures Pow2(z) == Modulus(z)
  {
    assert Pow2(4) == 16 && Pow2(8) == 16 * Pow2(4);
    assert Pow2(12) == 16 * Pow2(8) && Pow2(16) == 16 * Pow2(12);
    assert Pow2(20) == 16 * Pow2(16) && Pow2(24) == 16 * Pow2(20) && Pow2(28) == 16 * Pow2(24) && Pow2(32) == 16 * Pow2(28);
  }

  lemma AddShows(f: FlagState, dst: nat, src: nat, z: nat)
    requires Size(z) && dst < Modulus(z) && src < Modulus(z)
    requires f.res == SignExtend(Sum(dst, src, z), z) && f.zfRes && f.sfRes && f.pfRes && f.afOps && f.op1 == src && f.op2 == dst
    requires f.cf == !(0 <= dst + src < Modulus(z)) && f.of == !FitsSigned(Signed(dst, z) + Signed(src, z), z)
    ensures Shows(f, EagerAdd(dst, src, z)) && f.res % Modulus(z) == Sum(dst, src, z) && f.res < WORD
  {
    hide ZF, SF, PF, AF, EvenParity, SignExtend;
    Flagged(f, Sum(dst, src, z), z);
    AddAuxiliary(f, dst, src, 0, z);
  }

  lemma SubShows(f: FlagState, dst: nat, src: nat, z: nat)
    requires Size(z) && dst < Modulus(z) && src < Modulus(z)
    requires f.res == SignExtend(Difference(dst, src, z), z) && f.zfRes && f.sfRes && f.pfRes && f.afOps
    requires (f.op1 == src && f.op2 == dst) || (f.op1 == dst && f.op2 == src)
    requires f.cf == !(0 <= dst - src < Modulus(z)) && f.of == !FitsSigned(Signed(dst, z) - Signed(src, z), z)
    ensures Shows(f, EagerSub(dst, src, z)) && f.res % Modulus(z) == Difference(dst, src, z) && f.res < WORD
  {
    hide ZF, SF, PF, AF, EvenParity, SignExtend;
    Flagged(f, Difference(dst, src, z), z);
    SubAuxiliary(f, dst, src, 0, z);
  }

  // A result of the right size stored sign-extended: it can be read back, and so can its flags.
  lemma Flagged(f: FlagState, r: nat, z: nat)
    requires Size(z) && r < Modulus(z) && f.res == SignExtend(r, z) && f.zfRes && f.sfRes && f.pfRes
    ensures ZF(f) == (r == 0) && SF(f) == (r >= Half(z)) && PF(f) == EvenParity(r)
    ensures f.res % Modulus(z) == r && f.res < WORD
  {
    ResultShows(f, r, z);
    ReadBack(r, z);
    hide PF, EvenParity;
  }
}
