/** The flags of the emulated CPU: computed lazily from the last result and
    operands (emu/cpu.h, emu/interp.c), and what an eager CPU would hold. */
module LazyFlags {
  import opened Bytes
  import opened Bits

  const WORD: nat := 0x1_0000_0000

  type bit = b: int | 0 <= b < 2

  function ToBit(b: bool): bit { if b then 1 else 0 }

  /** The bits of eflags, low to high; `rest` is everything above iopl. */
  datatype EFlags = EFlags(cfBit: bit, pad1: bit, pf: bit, pad2: bit, af: bit, pad3: bit, zf: bit,
                           sf: bit, tf: bit, interrupts: bit, df: bit, ofBit: bit, iopl: nat, rest: nat)

  /** The fields of struct cpu_state that hold the flags. */
  datatype FlagState = FlagState(eflags: EFlags, cf: bool, of: bool, res: nat, op1: nat, op2: nat,
                                 zfRes: bool, sfRes: bool, pfRes: bool, afOps: bool)

  predicate Wf(f: FlagState) {
    f.res < WORD && f.op1 < WORD && f.op2 < WORD && f.eflags.iopl < 4 && f.eflags.rest < 0x4_0000
  }

  // The macros of cpu.h.
  predicate ZF(f: FlagState) { if f.zfRes then f.res == 0 else f.eflags.zf == 1 }
  predicate SF(f: FlagState) { if f.sfRes then f.res >= 0x8000_0000 else f.eflags.sf == 1 }
  predicate PF(f: FlagState) { if f.pfRes then BitSum(f.res, 8) % 2 == 0 else f.eflags.pf == 1 }
  predicate AF(f: FlagState) {
    if f.afOps then Bit(Bitwise(XOR, Bitwise(XOR, f.op1, f.op2, 32), f.res, 32), 4) == 1 else f.eflags.af == 1
  }

  // Condition codes of interp.c.
  predicate CondB(f: FlagState) { f.cf }
  predicate CondBE(f: FlagState) { f.cf || ZF(f) }
  predicate CondL(f: FlagState) { SF(f) != f.of }
  predicate CondLE(f: FlagState) { CondL(f) || ZF(f) }

  /** collapse_flags. */
  function Collapsed(f: FlagState): FlagState {
    f.(zfRes := false, sfRes := false, pfRes := false, afOps := false,
       eflags := f.eflags.(zf := ToBit(ZF(f)), sf := ToBit(SF(f)), pf := ToBit(PF(f)), af := ToBit(AF(f)),
                           ofBit := ToBit(f.of), cfBit := ToBit(f.cf),
                           pad1 := 1, pad2 := 0, pad3 := 0, interrupts := 1))
  }

  /** expand_flags. */
  function Expanded(f: FlagState): FlagState {
    f.(of := f.eflags.ofBit == 1, cf := f.eflags.cfBit == 1, zfRes := false, sfRes := false, pfRes := false, afOps := false)
  }

  // ------------------------------------------------------ the eager CPU

  /** Status flags as the Intel SDM describes them (volume 1, section 3.4.3.1); af is None where it is undefined. */
  datatype Eager = Eager(cf: bool, of: bool, zf: bool, sf: bool, pf: bool, af: Option<bool>)

  predicate Size(z: nat) { z == 8 || z == 16 || z == 32 }

  // 2^z and 2^(z-1).
  function Modulus(z: nat): nat { if z == 8 then 0x100 else if z == 16 then 0x1_0000 else WORD }
  function Half(z: nat): nat { Modulus(z) / 2 }

  function Signed(x: nat, z: nat): int { if x >= Half(z) then x - Modulus(z) else x }

  predicate FitsSigned(x: int, z: nat) { -(Half(z) as int) <= x < Half(z) }

  predicate EvenParity(x: nat) { BitSum(x, 8) % 2 == 0 }

  function EagerResult(r: nat, z: nat, cf: bool, of: bool, af: Option<bool>): Eager {
    Eager(cf, of, r == 0, r >= Half(z), EvenParity(r), af)
  }

  function Sum(a: nat, b: nat, z: nat): nat { (a + b) % Modulus(z) }
  function Difference(a: nat, b: nat, z: nat): nat { (a - b) % Modulus(z) }

  /** dst + src: CF is the carry out of the top bit, OF that the signed sum does not fit, AF the carry out of bit 3. */
  function EagerAdd(dst: nat, src: nat, z: nat): Eager {
    EagerResult(Sum(dst, src, z), z, dst + src >= Modulus(z), !FitsSigned(Signed(dst, z) + Signed(src, z), z),
                Some(dst % 16 + src % 16 >= 16))
  }

  /** dst - src: CF is the borrow into the top bit, AF the borrow into bit 3. */
  function EagerSub(dst: nat, src: nat, z: nat): Eager {
    EagerResult(Difference(dst, src, z), z, dst < src, !FitsSigned(Signed(dst, z) - Signed(src, z), z), Some(dst % 16 < src % 16))
  }

  function EagerLogic(r: nat, z: nat): Eager { EagerResult(r, z, false, false, None) }

  // ------------------------------------------------------- lazy is eager

  // What a program can observe of f agrees with the eager flags e.
  predicate Shows(f: FlagState, e: Eager) {
    && f.cf == e.cf && f.of == e.of && ZF(f) == e.zf && SF(f) == e.sf && PF(f) == e.pf
    && (e.af.Some? ==> AF(f) == e.af.value)
  }

  // (int32_t) (sint(z)) r
  function SignExtend(r: nat, z: nat): nat
    requires Size(z) && r < Modulus(z)
  {
    if r >= Half(z) then r + (WORD - Modulus(z)) else r
  }

  lemma ParityOfExtended(r: nat, z: nat)
    requires Size(z) && r < Modulus(z)
    ensures EvenParity(SignExtend(r, z)) == EvenParity(r)
  {
    var k := if r < Half(z) then 0 else if z == 8 then 0xff_ffff else if z == 16 then 0xff_ff00 else 0;
    assert Pow2(8) == 256 by { assert Pow2(4) == 16 && Pow2(8) == 16 * Pow2(4); }
    assert SignExtend(r, z) - r == k * Pow2(8);
    BitSumLow(SignExtend(r, z), r, 8);
  }

  lemma Bit4(x: nat)
    ensures Bit(x, 4) == x / 16 % 2
  {
    assert Bit(x, 4) == Bit(x / 2 / 2, 2) && Bit(x / 2 / 2, 2) == Bit(x / 2 / 2 / 2 / 2, 0);
  }

  lemma AuxiliaryIsXor(f: FlagState)
    requires f.afOps
    ensures AF(f) == ((f.op1 / 16 + f.op2 / 16 + f.res / 16) % 2 == 1)
  {
    hide Bit, Bitwise;
    BitwiseBit(XOR, f.op1, f.op2, 32, 4);
    BitwiseBit(XOR, Bitwise(XOR, f.op1, f.op2, 32), f.res, 32, 4);
    Bit4(f.op1);
    Bit4(f.op2);
    Bit4(f.res);
  }

  // The flags read from a sign-extended result are those of the result itself.
  lemma ResultShows(f: FlagState, r: nat, z: nat)
    requires Size(z) && r < Modulus(z) && f.res == SignExtend(r, z) && f.zfRes && f.sfRes && f.pfRes
    ensures ZF(f) == (r == 0) && SF(f) == (r >= Half(z)) && PF(f) == EvenParity(r)
  {
    ParityOfExtended(r, z);
    hide BitSum;
  }

  // Bit 4 of a sum is the exclusive or of bit 4 of its terms and the carry out of bit 3.
  lemma CarryParity(a: nat, b: nat, c: bit, sum: nat, k: int)
    requires sum == a + b + c + 32 * k
    ensures (a / 16 + b / 16 + sum / 16) % 2 == (if a % 16 + b % 16 + c >= 16 then 1 else 0)
    ensures a % 16 + b % 16 + c >= 16 <==> sum % 16 < a % 16 + c
  {
    var carry := if a % 16 + b % 16 + c >= 16 then 1 else 0;
    assert a + b + c == 16 * (a / 16 + b / 16) + (a % 16 + b % 16 + c);
    assert sum == 16 * (a / 16 + b / 16 + carry + 2 * k) + (a % 16 + b % 16 + c - 16 * carry);
    Quotient16(sum, a / 16 + b / 16 + carry + 2 * k, a % 16 + b % 16 + c - 16 * carry);
    assert a / 16 + b / 16 + sum / 16 == 2 * (a / 16 + b / 16 + k) + carry;
  }

  lemma Quotient16(x: int, q: int, r: int)
    requires x == 16 * q + r && 0 <= r < 16
    ensures x / 16 == q && x % 16 == r
  {
  }

  // How often 32 goes into the difference between the stored result and the true sum or difference.
  lemma WrapsBy32(x: int, z: nat) returns (k: int)
    requires Size(z) && 0 - Modulus(z) <= x < 2 * Modulus(z)
    ensures SignExtend(x % Modulus(z), z) == x + 32 * k
  {
    var r := x % Modulus(z);
    var m := if x < 0 then 1 else if x < Modulus(z) then 0 else -1;
    assert r == x + m * Modulus(z);
    var e := if r >= Half(z) then WORD / 32 - Modulus(z) / 32 else 0;
    k := m * (Modulus(z) / 32) + e;
  }

  // The carry out of bit 3 of dst + src + c, whatever multiple of 2^z is taken off the sum.
  lemma AddAuxiliary(f: FlagState, dst: nat, src: nat, c: bit, z: nat)
    requires Size(z) && dst < Modulus(z) && src < Modulus(z) && f.afOps
    requires f.op1 == src && f.op2 == dst && f.res == SignExtend((dst + src + c) % Modulus(z), z)
    ensures AF(f) == (dst % 16 + src % 16 + c >= 16)
  {
    AuxiliaryIsXor(f);
    var k := WrapsBy32(dst + src + c, z);
    hide AF, SignExtend, Modulus;
    CarryParity(src, dst, c, f.res, k);
  }

  // The borrow into bit 3 of dst - src - c.
  lemma SubAuxiliary(f: FlagState, dst: nat, src: nat, c: bit, z: nat)
    requires Size(z) && dst < Modulus(z) && src < Modulus(z) && f.afOps
    requires (f.op1 == src && f.op2 == dst) || (f.op1 == dst && f.op2 == src)
    requires f.res == SignExtend((dst - src - c) % Modulus(z), z)
    ensures AF(f) == (dst % 16 < src % 16 + c)
  {
    AuxiliaryIsXor(f);
    var k := WrapsBy32(dst - src - c, z);
    hide AF, SignExtend, Modulus;
    CarryParity(src, f.res, c, dst, -k);
  }

  // Signed and unsigned arithmetic agree modulo 2^z.
  lemma SignedSum(dst: nat, src: nat, z: nat)
    requires Size(z) && dst < Modulus(z) && src < Modulus(z)
    ensures (Signed(dst, z) + Signed(src, z)) % Modulus(z) == Sum(dst, src, z)
  {
    if z == 8 { assert Modulus(z) == 0x100; } else if z == 16 { assert Modulus(z) == 0x1_0000; } else { assert Modulus(z) == WORD; }
  }

  lemma SignedDifference(dst: nat, src: nat, z: nat)
    requires Size(z) && dst < Modulus(z) && src < Modulus(z)
    ensures (Signed(dst, z) - Signed(src, z)) % Modulus(z) == Difference(dst, src, z)
  {
    if z == 8 { assert Modulus(z) == 0x100; } else if z == 16 { assert Modulus(z) == 0x1_0000; } else { assert Modulus(z) == WORD; }
  }

  // The low z bits of a sign-extended result are the result.
  lemma ReadBack(r: nat, z: nat)
    requires Size(z) && r < Modulus(z)
    ensures SignExtend(r, z) % Modulus(z) == r && SignExtend(r, z) < WORD
  {
    if z == 8 { assert Modulus(z) == 0x100; } else if z == 16 { assert Modulus(z) == 0x1_0000; } else { assert Modulus(z) == WORD; }
  }

  lemma CollapseShows(f: FlagState, e: Eager)
    requires Shows(f, e)
    ensures Shows(Collapsed(f), e)
  {
    hide Bit, Bitwise, BitSum;
  }

  // -------------------------------------------- eflags as a 32-bit word

  // The word with low bit b and the rest h above it.
  function Put(b: bit, h: nat): nat { b + 2 * h }

  /** The word PUSHF pushes. */
  function Word(e: EFlags): nat {
    Put(e.cfBit, Put(e.pad1, Put(e.pf, Put(e.pad2, Put(e.af, Put(e.pad3, Put(e.zf, Put(e.sf, Put(e.tf, Put(e.interrupts,
    Put(e.df, Put(e.ofBit, e.iopl + 4 * e.rest))))))))))))
  }

  function Low(w: nat): bit { w % 2 }
  function Tail(w: nat): nat { w / 2 }

  /** The bits of a word stored into eflags. */
  function FromWord(w: nat): EFlags {
    var w1 := Tail(w); var w2 := Tail(w1); var w3 := Tail(w2); var w4 := Tail(w3); var w5 := Tail(w4); var w6 := Tail(w5);
    var w7 := Tail(w6); var w8 := Tail(w7); var w9 := Tail(w8); var w10 := Tail(w9); var w11 := Tail(w10); var w12 := Tail(w11);
    EFlags(Low(w), Low(w1), Low(w2), Low(w3), Low(w4), Low(w5), Low(w6), Low(w7), Low(w8), Low(w9), Low(w10), Low(w11),
           w12 % 4, w12 / 4)
  }

  lemma Peel(b: bit, h: nat)
    ensures Tail(Put(b, h)) == h && Low(Put(b, h)) == b
  {
  }

  /** A word made of the bits of eflags gives those bits back. */
  lemma WordRoundTrip(e: EFlags)
    requires e.iopl < 4
    ensures FromWord(Word(e)) == e
  {
    hide Put, Low, Tail;
    var w12 := e.iopl + 4 * e.rest;
    var w11 := Put(e.ofBit, w12);
    var w10 := Put(e.df, w11);
    var w9 := Put(e.interrupts, w10);
    var w8 := Put(e.tf, w9);
    var w7 := Put(e.sf, w8);
    var w6 := Put(e.zf, w7);
    var w5 := Put(e.pad3, w6);
    var w4 := Put(e.af, w5);
    var w3 := Put(e.pad2, w4);
    var w2 := Put(e.pf, w3);
    var w1 := Put(e.pad1, w2);
    Peel(e.cfBit, w1); Peel(e.pad1, w2); Peel(e.pf, w3); Peel(e.pad2, w4); Peel(e.af, w5);
    Peel(e.pad3, w6); Peel(e.zf, w7); Peel(e.sf, w8); Peel(e.tf, w9); Peel(e.interrupts, w10);
    Peel(e.df, w11); Peel(e.ofBit, w12);
  }

  // The lowest bit of a word, and the others.
  lemma PutBit(b: bit, h: nat, i: nat)
    ensures Bit(Put(b, h), 0) == b && Bit(Put(b, h), i + 1) == Bit(h, i)
  {
    assert Put(b, h) / 2 == h;
  }

  // The bits of a word made of a bit and the rest, up to bit 11.
  ghost predicate BitsFrom(w: nat, b: bit, h: nat) {
    Bit(w, 0) == b && forall i: nat | i < 11 :: Bit(w, i + 1) == Bit(h, i)
  }

  lemma PutBits(b: bit, h: nat)
    ensures BitsFrom(Put(b, h), b, h)
  {
    forall i: nat | i < 11 ensures Bit(Put(b, h), i + 1) == Bit(h, i) { PutBit(b, h, i); }
    PutBit(b, h, 0);
  }

  /** Where each flag stands: CF is bit 0, PF bit 2, AF bit 4, ZF bit 6, SF bit 7, TF bit 8, IF bit 9, DF bit 10 and OF bit 11, as
      section 3.4.3 of volume 1 of the Intel SDM numbers them. */
  lemma WordBits(e: EFlags)
    ensures var w := Word(e);
            && Bit(w, 0) == e.cfBit && Bit(w, 1) == e.pad1 && Bit(w, 2) == e.pf && Bit(w, 3) == e.pad2 && Bit(w, 4) == e.af
            && Bit(w, 5) == e.pad3 && Bit(w, 6) == e.zf && Bit(w, 7) == e.sf && Bit(w, 8) == e.tf && Bit(w, 9) == e.interrupts
            && Bit(w, 10) == e.df && Bit(w, 11) == e.ofBit
  {
    hide Put, Bit;
    var w12 := e.iopl + 4 * e.rest;
    var w11 := Put(e.ofBit, w12);
    var w10 := Put(e.df, w11);
    var w9 := Put(e.interrupts, w10);
    var w8 := Put(e.tf, w9);
    var w7 := Put(e.sf, w8);
    var w6 := Put(e.zf, w7);
    var w5 := Put(e.pad3, w6);
    var w4 := Put(e.af, w5);
    var w3 := Put(e.pad2, w4);
    var w2 := Put(e.pf, w3);
    var w1 := Put(e.pad1, w2);
    PutBits(e.cfBit, w1); PutBits(e.pad1, w2); PutBits(e.pf, w3); PutBits(e.pad2, w4); PutBits(e.af, w5); PutBits(e.pad3, w6);
    PutBits(e.zf, w7); PutBits(e.sf, w8); PutBits(e.tf, w9); PutBits(e.interrupts, w10); PutBits(e.df, w11); PutBits(e.ofBit, w12);
  }

  /** A word is made of the bits it is taken apart into. */
  lemma WordOfBits(w: nat)
    ensures Word(FromWord(w)) == w && FromWord(w).iopl < 4
  {
    hide Put, Low, Tail;
    var w1 := Tail(w); var w2 := Tail(w1); var w3 := Tail(w2); var w4 := Tail(w3); var w5 := Tail(w4); var w6 := Tail(w5);
    var w7 := Tail(w6); var w8 := Tail(w7); var w9 := Tail(w8); var w10 := Tail(w9); var w11 := Tail(w10); var w12 := Tail(w11);
    Unpeel(w); Unpeel(w1); Unpeel(w2); Unpeel(w3); Unpeel(w4); Unpeel(w5); Unpeel(w6); Unpeel(w7); Unpeel(w8); Unpeel(w9);
    Unpeel(w10); Unpeel(w11);
  }

  lemma Unpeel(w: nat)
    ensures Put(Low(w), Tail(w)) == w
  {
  }

  /** The word PUSHF pushes shows CF, PF, AF, ZF, SF and OF at their places. */
  lemma PushedBits(f: FlagState, e: Eager)
    requires Shows(f, e)
    ensures var w := Word(Collapsed(f).eflags);
            && (Bit(w, 0) == 1 <==> e.cf) && (Bit(w, 2) == 1 <==> e.pf) && (Bit(w, 6) == 1 <==> e.zf)
            && (Bit(w, 7) == 1 <==> e.sf) && (Bit(w, 11) == 1 <==> e.of) && (e.af.Some? ==> (Bit(w, 4) == 1 <==> e.af.value))
            && Bit(w, 1) == 1 && Bit(w, 3) == 0 && Bit(w, 5) == 0 && Bit(w, 9) == 1
  {
    WordBits(Collapsed(f).eflags);
    hide Word, Bit, ZF, SF, PF, AF;
  }

  lemma WordFits(e: EFlags)
    requires e.iopl < 4 && e.rest < 0x4_0000
    ensures Word(e) < WORD
  {
  }
}
