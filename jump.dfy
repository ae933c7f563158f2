/** The 5-byte near JMP rel32 the hook writes (opcode 0xE9 followed by a
    little-endian displacement counted from the end of the instruction), and
    the relocation of a copied near CALL/JMP rel32 so that it still reaches
    its original target from its new address. */
module Jump {
  import opened Bytes

  /** Length of a near CALL/JMP with a 32-bit displacement. */
  const JmpSize: nat := 5

  /** A relative branch: CALL rel32 (0xE8) or JMP rel32 (0xE9). */
  predicate IsRelBranch(insn: seq<byte>) {
    |insn| >= JmpSize && (insn[0] == 0xE8 || insn[0] == 0xE9)
  }

  /** The displacement field of a CALL/JMP rel32. */
  function Disp(insn: seq<byte>): word
    requires |insn| >= JmpSize
  {
    Le32Value(insn[1..5])
  }

  /** Where a 5-byte relative branch placed at `at` with displacement `disp`
      lands: the end of the instruction plus the displacement, modulo 2^32. */
  function Land(at: word, disp: word): word {
    at + 5 + disp
  }

  /** Where the CALL/JMP rel32 whose bytes are `insn`, placed at address
      `at`, transfers control. */
  function BranchTarget(at: word, insn: seq<byte>): word
    requires |insn| >= JmpSize
  {
    Land(at, Disp(insn))
  }

  /** `insn` with its displacement field replaced by `disp`. */
  function WithDisp(insn: seq<byte>, disp: word): (r: seq<byte>)
    requires |insn| >= JmpSize
    ensures |r| == |insn| && r[0] == insn[0] && r[5..] == insn[5..]
  {
    [insn[0]] + Le32(disp) + insn[5..]
  }

  lemma DispOf(insn: seq<byte>, disp: word)
    requires |insn| >= JmpSize
    ensures Disp(WithDisp(insn, disp)) == disp
  {
    var r := WithDisp(insn, disp);
    assert r[1..5] == Le32(disp);
    Le32RoundTrip(disp);
  }

  lemma TargetOf(at: word, insn: seq<byte>, disp: word)
    requires |insn| >= JmpSize && Disp(insn) == disp
    ensures BranchTarget(at, insn) == Land(at, disp)
  {
  }

  // Wrap-around arithmetic on landing addresses, one identity per lemma.

  lemma LandBack(from: word, to: word)
    ensures Land(from, to - (from + 5)) == to
  {
  }

  lemma LandShifted(base: word, dst: word, offset: word)
    ensures Land(base + offset, dst - (base + 5)) == dst + offset
  {
  }

  lemma LandMoved(from: word, delta: word, disp: word)
    ensures Land(from + delta, disp - delta) == Land(from, disp)
  {
  }

  /** The bytes of a JMP that, placed at `from`, lands on `to`. */
  function JmpBytes(from: word, to: word): (r: seq<byte>)
    ensures |r| == JmpSize && r[0] == 0xE9
    ensures BranchTarget(from, r) == to
  {
    var disp := to - (from + 5);
    var r := WithDisp([0xE9, 0, 0, 0, 0], disp);
    DispOf([0xE9, 0, 0, 0, 0], disp);
    TargetOf(from, r, disp);
    LandBack(from, to);
    r
  }

  /** The source computes the displacement from the start of the buffer but
      stores the instruction `offset` bytes further on, so the jump lands
      `offset` bytes past the requested destination. */
  lemma JmpAtOffset(base: word, dst: word, offset: word)
    ensures BranchTarget(base + offset, JmpBytes(base, dst)) == dst + offset
  {
    var disp := dst - (base + 5);
    DispOf([0xE9, 0, 0, 0, 0], disp);
    TargetOf(base + offset, JmpBytes(base, dst), disp);
    LandShifted(base, dst, offset);
  }

  /** Writes the JMP computed for a jump from `memAddr` (the address of
      `mem[0]`) to `dst` into `mem[offset..offset + 5]`; the rest of `mem` is
      unchanged. */
  method WriteJmp(mem: array<byte>, memAddr: word, dst: word, offset: nat)
    requires offset + JmpSize <= mem.Length
    modifies mem
    ensures mem[..] == old(mem[..offset]) + JmpBytes(memAddr, dst) + old(mem[offset + JmpSize..])
  {
    var jmp := JmpBytes(memAddr, dst);
    Store(mem, offset, jmp);
  }

  /** A copied instruction moved by `delta` bytes: a relative branch gets its
      displacement reduced by `delta`, anything else is copied verbatim. */
  function Relocate(insn: seq<byte>, delta: word): (r: seq<byte>)
    ensures |r| == |insn|
    ensures !IsRelBranch(insn) ==> r == insn
    ensures IsRelBranch(insn) ==> r[0] == insn[0] && r[5..] == insn[5..]
  {
    if IsRelBranch(insn) then
      WithDisp(insn, Disp(insn) - delta)
    else
      insn
  }

  lemma RelocatedLands(insn: seq<byte>, delta: word, at: word)
    requires IsRelBranch(insn)
    ensures BranchTarget(at, Relocate(insn, delta)) == Land(at, Disp(insn) - delta)
  {
    DispOf(insn, Disp(insn) - delta);
    TargetOf(at, Relocate(insn, delta), Disp(insn) - delta);
  }

  /** A relative branch copied from address `from` to `from + delta` and
      relocated by `delta` still reaches the same absolute target. */
  lemma RelocatePreservesTarget(insn: seq<byte>, from: word, delta: word)
    requires IsRelBranch(insn)
    ensures IsRelBranch(Relocate(insn, delta))
    ensures BranchTarget(from + delta, Relocate(insn, delta)) == BranchTarget(from, insn)
  {
    RelocatedLands(insn, delta, from + delta);
    LandMoved(from, delta, Disp(insn));
  }
}
