/** The length decoder of the detour engine: it measures one 32-bit x86
    instruction by skipping legacy prefixes, looking the opcode up in a small
    curated table, and adding the sizes of the ModRM byte, the SIB byte, the
    displacement and the immediate (32-bit addressing forms, Intel SDM Vol. 2,
    section 2.1.5, Table 2-2). Anything outside the table measures 0. */
module InsnLength {
  import opened Bytes

  // Flag bits of an opcode descriptor.
  const ModRMFlag: bv8 := 1      // a ModRM byte follows the opcode
  const RegOpcodeFlag: bv8 := 2  // ModRM.reg is part of the opcode
  const Imm8Flag: bv8 := 4       // 8-bit immediate
  const Imm16Flag: bv8 := 8      // 16-bit immediate
  const Imm32Flag: bv8 := 16     // 32-bit immediate, also after an operand-size prefix
  const PlusRFlag: bv8 := 32     // a register number is added into the opcode's low 3 bits

  predicate Has(flags: bv8, flag: bv8) {
    flags & flag != 0
  }

  /** The legacy prefixes, in the order the single skipping pass tries them. */
  const Prefixes: seq<byte> := [0xF0, 0xF2, 0xF3, 0x2E, 0x36, 0x3E, 0x26, 0x64, 0x65, 0x66, 0x67]

  datatype OpcodeInfo = OpcodeInfo(opcode: byte, regOpcode: byte, flags: bv8)

  /** The curated opcode table; the first matching entry wins. */
  const Opcodes: seq<OpcodeInfo> := [
    OpcodeInfo(0xE8, 0, Imm32Flag),                           // CALL rel32
    OpcodeInfo(0xFF, 2, ModRMFlag | RegOpcodeFlag),           // CALL r/m32
    OpcodeInfo(0xE9, 0, Imm32Flag),                           // JMP rel32
    OpcodeInfo(0xFF, 4, ModRMFlag | RegOpcodeFlag),           // JMP r/m32
    OpcodeInfo(0x8D, 0, ModRMFlag),                           // LEA r16,m
    OpcodeInfo(0x88, 0, ModRMFlag),                           // MOV r/m8,r8
    OpcodeInfo(0x89, 0, ModRMFlag),                           // MOV r/m32,r32
    OpcodeInfo(0x8A, 0, ModRMFlag),                           // MOV r8,r/m8
    OpcodeInfo(0x8B, 0, ModRMFlag),                           // MOV r32,r/m32
    OpcodeInfo(0x8C, 0, ModRMFlag),                           // MOV r/m16,Sreg
    OpcodeInfo(0x8E, 0, ModRMFlag),                           // MOV Sreg,r/m16
    OpcodeInfo(0xA0, 0, Imm8Flag),                            // MOV AL,moffs8
    OpcodeInfo(0xA1, 0, Imm32Flag),                           // MOV EAX,moffs32
    OpcodeInfo(0xA2, 0, Imm8Flag),                            // MOV moffs8,AL
    OpcodeInfo(0xA3, 0, Imm32Flag),                           // MOV moffs32,EAX
    OpcodeInfo(0xB0, 0, PlusRFlag | Imm8Flag),                // MOV r8,imm8
    OpcodeInfo(0xB8, 0, PlusRFlag | Imm32Flag),               // MOV r32,imm32
    OpcodeInfo(0xC6, 0, ModRMFlag | RegOpcodeFlag | Imm8Flag),  // MOV r/m8,imm8
    OpcodeInfo(0xC7, 0, ModRMFlag | RegOpcodeFlag | Imm32Flag), // MOV r/m32,imm32
    OpcodeInfo(0x8F, 0, ModRMFlag | RegOpcodeFlag),           // POP r/m32
    OpcodeInfo(0x58, 0, PlusRFlag),                           // POP r32
    OpcodeInfo(0xFF, 6, ModRMFlag | RegOpcodeFlag),           // PUSH r/m32
    OpcodeInfo(0x50, 0, PlusRFlag),                           // PUSH r32
    OpcodeInfo(0x6A, 0, Imm8Flag),                            // PUSH imm8
    OpcodeInfo(0x68, 0, Imm32Flag),                           // PUSH imm32
    OpcodeInfo(0xC3, 0, 0),                                   // RET
    OpcodeInfo(0xC2, 0, Imm16Flag),                           // RET imm16
    OpcodeInfo(0x83, 5, ModRMFlag | RegOpcodeFlag | Imm8Flag),  // SUB r/m32,imm8
    OpcodeInfo(0x29, 0, ModRMFlag),                           // SUB r/m32,r32
    OpcodeInfo(0x2B, 0, ModRMFlag)                            // SUB r32,r/m32
  ]

  /** The decoder looks at no byte past index 12: at most 11 prefixes, the
      opcode, and the ModRM byte it peeks at or consumes. */
  const DecodeWindow: nat := 13

  /** 11 prefixes + opcode + ModRM + SIB + disp32 + imm32. */
  const MaxInsnLen: nat := 22

  /** The prefix pass over `table` from table index `i`, with `len` bytes
      consumed so far: each entry is tried once, against the byte at the cursor. */
  function PrefixPass(table: seq<byte>, code: seq<byte>, i: nat, len: nat): (p: nat)
    requires len <= i <= |table| < |code|
    ensures len <= p <= len + (|table| - i)
    decreases |table| - i
  {
    if i == |table| then len
    else PrefixPass(table, code, i + 1, if code[len] == table[i] then len + 1 else len)
  }

  /** The number of prefix bytes the decoder skips. */
  function PrefixLen(code: seq<byte>): (p: nat)
    requires |code| >= DecodeWindow
    ensures p <= |Prefixes|
  {
    PrefixPass(Prefixes, code, 0, 0)
  }

  /** Entry `e` accepts the opcode byte `b` whose following byte has reg field `reg`. */
  predicate MatchesByte(e: OpcodeInfo, b: byte, reg: byte) {
    (b == e.opcode && (!Has(e.flags, RegOpcodeFlag) || reg == e.regOpcode))
    || (Has(e.flags, PlusRFlag) && b & 0xF8 == e.opcode)
  }

  /** The reg field (bits 5..3) of a ModRM byte. */
  function RegField(modrm: byte): (r: byte)
    ensures r < 8
  {
    (modrm >> 3) & 7
  }

  predicate Matches(e: OpcodeInfo, code: seq<byte>, p: nat)
    requires p + 1 < |code|
  {
    MatchesByte(e, code[p], RegField(code[p + 1]))
  }

  /** The index of the first entry of `table` at or after `i` that matches the
      opcode at `p`, or |table| when none does. */
  function MatchFrom(table: seq<OpcodeInfo>, code: seq<byte>, p: nat, i: nat): (k: nat)
    requires p + 1 < |code| && i <= |table|
    ensures i <= k <= |table|
    decreases |table| - i
  {
    if i == |table| then i
    else if Matches(table[i], code, p) then i
    else MatchFrom(table, code, p, i + 1)
  }

  /** The index of the first entry of the opcode table that accepts the opcode
      at `p`, or |Opcodes| when none does. */
  function FirstMatch(code: seq<byte>, p: nat): (k: nat)
    requires p + 1 < |code|
    ensures k <= |Opcodes|
  {
    MatchFrom(Opcodes, code, p, 0)
  }

  /** The bytes taken by a ModRM byte and what it implies: the SIB byte and
      the displacement. */
  function ModRMLen(modrm: byte): (n: nat)
    ensures 1 <= n <= 6
  {
    var mod := modrm >> 6;
    var rm := modrm & 7;
    1 + (if mod != 3 && rm == 4 then 1 else 0)
      + (if mod == 1 then 1 else if mod == 2 then 4 else if mod == 0 && rm == 5 then 4 else 0)
  }

  /** The immediate's width as the flags declare it (IMM32 is always 4). */
  function ImmLen(flags: bv8): nat {
    (if Has(flags, Imm8Flag) then 1 else 0)
      + (if Has(flags, Imm16Flag) then 2 else 0)
      + (if Has(flags, Imm32Flag) then 4 else 0)
  }

  lemma TableImmediatesAtMostFour(k: nat)
    requires k < |Opcodes|
    ensures ImmLen(Opcodes[k].flags) <= 4
  {
  }

  /** The length of the instruction at the start of `code`, or 0 when no table
      entry matches the byte after the prefixes. */
  function InsnLen(code: seq<byte>): (n: nat)
    requires |code| >= DecodeWindow
    ensures n != 0 ==> PrefixLen(code) + 1 <= n <= MaxInsnLen
  {
    var p := PrefixLen(code);
    var k := FirstMatch(code, p);
    if k == |Opcodes| then 0
    else
      TableImmediatesAtMostFour(k);
      MatchedLen(code, p, Opcodes[k])
  }

  /** The length of an instruction with `p` prefix bytes whose opcode matched entry `e`. */
  function MatchedLen(code: seq<byte>, p: nat, e: OpcodeInfo): nat
    requires p + 1 < |code|
  {
    p + 1 + (if Has(e.flags, ModRMFlag) then ModRMLen(code[p + 1]) else 0) + ImmLen(e.flags)
  }

  /** Every opcode byte in the table is nonzero, so the decoder's `opcode == 0`
      test detects exactly "no entry matched". */
  lemma TableOpcodesNonZero()
    ensures forall k :: 0 <= k < |Opcodes| ==> Opcodes[k].opcode != 0
  {
  }

  // ---------------------------------------------------------------------
  // What the decoder promises

  /** `ps` is a run of prefix bytes taken from `table[i..]` in table order,
      each entry at most once. */
  predicate InTableOrder(table: seq<byte>, ps: seq<byte>, i: nat)
    requires i <= |table|
    decreases |table| - i
  {
    if ps == [] then true
    else if i == |table| then false
    else if ps[0] == table[i] then InTableOrder(table, ps[1..], i + 1)
    else InTableOrder(table, ps, i + 1)
  }

  predicate Distinct(s: seq<byte>) {
    forall a, b :: 0 <= a < b < |s| ==> s[a] != s[b]
  }

  lemma PrefixTableDistinct()
    ensures Distinct(Prefixes)
  {
  }

  /** The bytes the pass consumes are in table order. */
  lemma {:induction false} PrefixPassInOrder(table: seq<byte>, code: seq<byte>, i: nat, len: nat)
    requires len <= i <= |table| < |code|
    ensures InTableOrder(table, code[len..PrefixPass(table, code, i, len)], i)
    decreases |table| - i
  {
    if i < |table| {
      var next := if code[len] == table[i] then len + 1 else len;
      PrefixPassInOrder(table, code, i + 1, next);
      var p := PrefixPass(table, code, i, len);
      if code[len] == table[i] {
        assert code[len..p][1..] == code[len + 1..p];
      }
    }
  }

  /** A run in table order over a table without repeats has no repeats, uses
      only table entries, and is no longer than the rest of the table. */
  lemma {:induction false} InTableOrderDistinct(table: seq<byte>, ps: seq<byte>, i: nat)
    requires i <= |table| && Distinct(table) && InTableOrder(table, ps, i)
    ensures |ps| <= |table| - i
    ensures forall k :: 0 <= k < |ps| ==> ps[k] in table[i..]
    ensures Distinct(ps)
    decreases |table| - i
  {
    if ps != [] {
      if ps[0] == table[i] {
        InTableOrderDistinct(table, ps[1..], i + 1);
        assert forall k :: 0 < k < |ps| ==> ps[k] == ps[1..][k - 1];
        assert ps[0] !in table[i + 1..];
      } else {
        InTableOrderDistinct(table, ps, i + 1);
      }
    }
  }

  /** Prefix skipping is a single pass over the 11-entry table: at most 11
      prefix bytes are counted, all of them prefixes, no value twice. */
  lemma PrefixesOnceEach(code: seq<byte>)
    requires |code| >= DecodeWindow
    ensures PrefixLen(code) <= |Prefixes|
    ensures InTableOrder(Prefixes, code[..PrefixLen(code)], 0)
    ensures forall k :: 0 <= k < PrefixLen(code) ==> code[k] in Prefixes
    ensures Distinct(code[..PrefixLen(code)])
  {
    PrefixPassInOrder(Prefixes, code, 0, 0);
    PrefixTableDistinct();
    InTableOrderDistinct(Prefixes, code[..PrefixLen(code)], 0);
    assert forall k :: 0 <= k < PrefixLen(code) ==> code[k] == code[..PrefixLen(code)][k];
  }

  /** Conversely, a run of prefixes in table order from entry `i` on, ended
      by a byte that no remaining entry is, is consumed whole by the pass. */
  lemma {:induction false} PassConsumesRun(table: seq<byte>, code: seq<byte>, i: nat, len: nat, n: nat)
    requires len <= i <= |table| < |code| && len <= n < |code|
    requires InTableOrder(table, code[len..n], i) && code[n] !in table[i..]
    ensures PrefixPass(table, code, i, len) == n
    decreases |table| - i
  {
    if i < |table| {
      if len < n && code[len] == table[i] {
        assert code[len..n][1..] == code[len + 1..n];
        PassConsumesRun(table, code, i + 1, len + 1, n);
      } else {
        assert code[n] !in table[i + 1..] by {
          assert table[i + 1..] == table[i..][1..];
        }
        PassConsumesRun(table, code, i + 1, len, n);
      }
    }
  }

  /** The decoder skips exactly the prefixes written in table order before
      a byte that is not a prefix. */
  lemma PrefixRunSkipped(code: seq<byte>, n: nat)
    requires |code| >= DecodeWindow && n < |code|
    requires InTableOrder(Prefixes, code[..n], 0) && code[n] !in Prefixes
    ensures PrefixLen(code) == n
  {
    assert code[..n] == code[0..n];
    assert Prefixes[0..] == Prefixes;
    PassConsumesRun(Prefixes, code, 0, 0, n);
  }

  /** The scan returns the first entry that matches, or the table length when
      none does. */
  lemma {:induction false} MatchFromFirst(table: seq<OpcodeInfo>, code: seq<byte>, p: nat, i: nat)
    requires p + 1 < |code| && i <= |table|
    ensures var k := MatchFrom(table, code, p, i);
      && (k < |table| ==> Matches(table[k], code, p))
      && (forall j :: i <= j < k ==> !Matches(table[j], code, p))
    decreases |table| - i
  {
    if i < |table| && !Matches(table[i], code, p) {
      MatchFromFirst(table, code, p, i + 1);
    }
  }

  /** The decoder returns 0 exactly when no opcode entry matches the byte after
      the prefixes; otherwise it measures with the first entry that matches. */
  lemma InsnLenZeroIff(code: seq<byte>)
    requires |code| >= DecodeWindow
    ensures InsnLen(code) == 0 <==>
      forall k :: 0 <= k < |Opcodes| ==> !Matches(Opcodes[k], code, PrefixLen(code))
    ensures InsnLen(code) != 0 ==>
      var k := FirstMatch(code, PrefixLen(code));
      && k < |Opcodes| && Matches(Opcodes[k], code, PrefixLen(code))
      && (forall j :: 0 <= j < k ==> !Matches(Opcodes[j], code, PrefixLen(code)))
      && InsnLen(code) == MatchedLen(code, PrefixLen(code), Opcodes[k])
  {
    MatchFromFirst(Opcodes, code, PrefixLen(code), 0);
  }

  /** A first byte that is not a prefix is read as the opcode. */
  lemma {:induction false} NoPrefixSkipped(table: seq<byte>, code: seq<byte>, i: nat)
    requires i <= |table| < |code| && code[0] !in table
    ensures PrefixPass(table, code, i, 0) == 0
    decreases |table| - i
  {
    if i < |table| {
      NoPrefixSkipped(table, code, i + 1);
    }
  }

  /** Entry `k` accepts opcode `b` (with reg field `reg`) and no earlier entry does. */
  predicate FirstOwner(b: byte, reg: byte, k: nat)
    requires k < |Opcodes|
  {
    MatchesByte(Opcodes[k], b, reg) && forall j :: 0 <= j < k ==> !MatchesByte(Opcodes[j], b, reg)
  }

  /** No entry accepts opcode `b` with reg field `reg`. */
  predicate Unowned(b: byte, reg: byte) {
    forall j :: 0 <= j < |Opcodes| ==> !MatchesByte(Opcodes[j], b, reg)
  }

  /** An unprefixed instruction whose opcode entry `k` is the first owner is
      measured with entry `k`. */
  lemma OwnedLength(code: seq<byte>, k: nat)
    requires |code| >= DecodeWindow && k < |Opcodes| && code[0] !in Prefixes
    requires FirstOwner(code[0], RegField(code[1]), k)
    ensures FirstMatch(code, 0) == k
    ensures InsnLen(code) == MatchedLen(code, 0, Opcodes[k])
  {
    NoPrefixSkipped(Prefixes, code, 0);
    MatchFromFirst(Opcodes, code, 0, 0);
  }

  /** An unprefixed instruction whose opcode no entry owns is rejected. */
  lemma UnownedRejected(code: seq<byte>)
    requires |code| >= DecodeWindow && code[0] !in Prefixes
    requires Unowned(code[0], RegField(code[1]))
    ensures InsnLen(code) == 0
  {
    NoPrefixSkipped(Prefixes, code, 0);
    MatchFromFirst(Opcodes, code, 0, 0);
  }

  // Which entry owns which opcode bytes; each is a finite check over the table.

  lemma OwnsMovR8(b: byte, r: byte) requires b & 0xF8 == 0xB0 ensures FirstOwner(b, r, 15) && b !in Prefixes {}
  lemma OwnsMovR32(b: byte, r: byte) requires b & 0xF8 == 0xB8 ensures FirstOwner(b, r, 16) && b !in Prefixes {}
  lemma OwnsPopR32(b: byte, r: byte) requires b & 0xF8 == 0x58 ensures FirstOwner(b, r, 20) && b !in Prefixes {}
  lemma OwnsPushR32(b: byte, r: byte) requires b & 0xF8 == 0x50 ensures FirstOwner(b, r, 22) && b !in Prefixes {}
  lemma OwnsFF(r: byte)
    requires r < 8
    ensures r == 2 ==> FirstOwner(0xFF, r, 1)
    ensures r == 4 ==> FirstOwner(0xFF, r, 3)
    ensures r == 6 ==> FirstOwner(0xFF, r, 21)
    ensures r !in {2, 4, 6} ==> Unowned(0xFF, r)
  {}
  lemma OwnsSub83(r: byte)
    requires r < 8
    ensures r == 5 ==> FirstOwner(0x83, r, 27)
    ensures r != 5 ==> Unowned(0x83, r)
  {}
  lemma OwnsMovC6(r: byte)
    requires r < 8
    ensures r == 0 ==> FirstOwner(0xC6, r, 17)
    ensures r != 0 ==> Unowned(0xC6, r)
  {}
  lemma OwnsMovC7(r: byte)
    requires r < 8
    ensures r == 0 ==> FirstOwner(0xC7, r, 18)
    ensures r != 0 ==> Unowned(0xC7, r)
  {}
  lemma OwnsPop8F(r: byte)
    requires r < 8
    ensures r == 0 ==> FirstOwner(0x8F, r, 19)
    ensures r != 0 ==> Unowned(0x8F, r)
  {}
  lemma OwnsRelative(b: byte, r: byte)
    ensures b == 0xE8 ==> FirstOwner(b, r, 0)
    ensures b == 0xE9 ==> FirstOwner(b, r, 2)
  {}

  /** The "+r" entries accept the eight bytes base..base+7: MOV r8,imm8 (0xB0),
      MOV r32,imm32 (0xB8), POP r32 (0x58) and PUSH r32 (0x50). */
  lemma PlusRForm(code: seq<byte>, k: nat)
    requires |code| >= DecodeWindow && k in {15, 16, 20, 22}
    requires code[0] & 0xF8 == Opcodes[k].opcode
    ensures FirstMatch(code, 0) == k
    ensures InsnLen(code) == 1 + ImmLen(Opcodes[k].flags)
  {
    var b, r := code[0], RegField(code[1]);
    if k == 15 {
      OwnsMovR8(b, r);
    } else if k == 16 {
      OwnsMovR32(b, r);
    } else if k == 20 {
      OwnsPopR32(b, r);
    } else {
      OwnsPushR32(b, r);
    }
    OwnedLength(code, k);
  }

  /** 0xFF is CALL, JMP or PUSH r/m32 according to ModRM.reg = 2, 4 or 6, and
      unrecognised for any other reg value. */
  lemma OpcodeFFSplit(code: seq<byte>)
    requires |code| >= DecodeWindow && code[0] == 0xFF
    ensures InsnLen(code) != 0 <==> RegField(code[1]) in {2, 4, 6}
    ensures InsnLen(code) != 0 ==> InsnLen(code) == 1 + ModRMLen(code[1])
    ensures RegField(code[1]) == 2 ==> FirstMatch(code, 0) == 1
    ensures RegField(code[1]) == 4 ==> FirstMatch(code, 0) == 3
    ensures RegField(code[1]) == 6 ==> FirstMatch(code, 0) == 21
  {
    var r := RegField(code[1]);
    OwnsFF(r);
    if r == 2 {
      FFEntry(code, 1);
    } else if r == 4 {
      FFEntry(code, 3);
    } else if r == 6 {
      FFEntry(code, 21);
    } else {
      assert code[0] !in Prefixes;
      UnownedRejected(code);
    }
  }

  /** One of the three 0xFF entries, each a ModRM form with no immediate. */
  lemma FFEntry(code: seq<byte>, k: nat)
    requires |code| >= DecodeWindow && code[0] == 0xFF && k < |Opcodes|
    requires Opcodes[k].flags == ModRMFlag | RegOpcodeFlag
    requires FirstOwner(0xFF, RegField(code[1]), k)
    ensures FirstMatch(code, 0) == k && InsnLen(code) == 1 + ModRMLen(code[1])
  {
    assert code[0] !in Prefixes;
    OwnedLength(code, k);
    ModRMOnlyLength(code, Opcodes[k]);
  }

  lemma ModRMOnlyLength(code: seq<byte>, e: OpcodeInfo)
    requires |code| >= 2 && e.flags == ModRMFlag | RegOpcodeFlag
    ensures MatchedLen(code, 0, e) == 1 + ModRMLen(code[1])
  {
  }

  /** The entries whose ModRM.reg is part of the opcode reject every other reg
      value: 0x83 (SUB, reg 5), 0xC6 and 0xC7 (MOV, reg 0), 0x8F (POP, reg 0). */
  lemma RegOpcodeMismatchFails(code: seq<byte>)
    requires |code| >= DecodeWindow
    ensures code[0] == 0x83 ==> (InsnLen(code) == 0 <==> RegField(code[1]) != 5)
    ensures code[0] in {0xC6, 0xC7, 0x8F} ==> (InsnLen(code) == 0 <==> RegField(code[1]) != 0)
  {
    var b, r := code[0], RegField(code[1]);
    if b in {0x83, 0xC6, 0xC7, 0x8F} {
      assert b !in Prefixes;
      if b == 0x83 {
        OwnsSub83(r);
      } else if b == 0xC6 {
        OwnsMovC6(r);
      } else if b == 0xC7 {
        OwnsMovC7(r);
      } else {
        OwnsPop8F(r);
      }
      if b == 0x83 && r == 5 {
        OwnedLength(code, 27);
      } else if b == 0xC6 && r == 0 {
        OwnedLength(code, 17);
      } else if b == 0xC7 && r == 0 {
        OwnedLength(code, 18);
      } else if b == 0x8F && r == 0 {
        OwnedLength(code, 19);
      } else {
        UnownedRejected(code);
      }
    }
  }

  /** A near CALL or JMP with a 32-bit relative displacement is 5 bytes long. */
  lemma RelativeBranchLength(code: seq<byte>)
    requires |code| >= DecodeWindow && (code[0] == 0xE8 || code[0] == 0xE9)
    ensures InsnLen(code) == 5
  {
    OwnsRelative(code[0], RegField(code[1]));
    assert code[0] !in Prefixes;
    OwnedLength(code, if code[0] == 0xE8 then 0 else 2);
  }

  /** An entry that is the first owner of the opcode after the prefixes
      measures the instruction. */
  lemma OwnedLengthAfter(code: seq<byte>, p: nat, k: nat)
    requires |code| >= DecodeWindow && PrefixLen(code) == p && k < |Opcodes|
    requires FirstOwner(code[p], RegField(code[p + 1]), k)
    ensures InsnLen(code) == MatchedLen(code, p, Opcodes[k])
  {
    MatchFromFirst(Opcodes, code, p, 0);
  }

  /** An operand-size prefix followed by a byte that is not a prefix is
      skipped alone. */
  lemma OperandSizePrefixAlone(code: seq<byte>)
    requires |code| >= DecodeWindow && code[0] == 0x66 && code[1] != 0x67
    ensures PrefixLen(code) == 1
  {
    assert PrefixPass(Prefixes, code, 10, 1) == 1;
    assert PrefixPass(Prefixes, code, 9, 0) == 1;
    assert PrefixPass(Prefixes, code, 8, 0) == 1;
    assert PrefixPass(Prefixes, code, 7, 0) == 1;
    assert PrefixPass(Prefixes, code, 6, 0) == 1;
    assert PrefixPass(Prefixes, code, 5, 0) == 1;
    assert PrefixPass(Prefixes, code, 4, 0) == 1;
    assert PrefixPass(Prefixes, code, 3, 0) == 1;
    assert PrefixPass(Prefixes, code, 2, 0) == 1;
    assert PrefixPass(Prefixes, code, 1, 0) == 1;
  }

  lemma PlusRImm32Length(code: seq<byte>, p: nat, e: OpcodeInfo)
    requires p + 1 < |code| && e.flags == PlusRFlag | Imm32Flag
    ensures MatchedLen(code, p, e) == p + 5
  {
  }

  /** The operand-size prefix does not shorten the immediate: after 0x66,
      MOV r32, imm32 (0xB8 + r) is still measured with a 4-byte immediate,
      6 bytes in all, where the processor reads a 2-byte one. */
  lemma OperandSizePrefixIgnored(code: seq<byte>)
    requires |code| >= DecodeWindow && code[0] == 0x66 && code[1] & 0xF8 == 0xB8
    ensures PrefixLen(code) == 1 && InsnLen(code) == 6
  {
    OperandSizePrefixAlone(code);
    MovImm32After(code, 1);
  }

  /** MOV r32, imm32 after `p` prefix bytes: the opcode and four bytes. */
  lemma MovImm32After(code: seq<byte>, p: nat)
    requires |code| >= DecodeWindow && PrefixLen(code) == p && code[p] & 0xF8 == 0xB8
    ensures InsnLen(code) == p + 5
  {
    OwnsMovR32(code[p], RegField(code[p + 1]));
    OwnedLengthAfter(code, p, 16);
    PlusRImm32Length(code, p, Opcodes[16]);
  }

  /** An instruction built as prefixes in table order, then MOV r32, imm32,
      measures its construction: the prefixes, the opcode and four bytes. */
  lemma PrefixedMovImm32(code: seq<byte>, n: nat)
    requires |code| >= DecodeWindow && n < |code|
    requires InTableOrder(Prefixes, code[..n], 0) && code[n] & 0xF8 == 0xB8
    ensures InsnLen(code) == n + 5
  {
    OwnsMovR32(code[n], 0);
    PrefixRunSkipped(code, n);
    MovImm32After(code, n);
  }

  /** The prefix pass: one try per entry of `table`, in table order. */
  method SkipPrefixes(table: seq<byte>, code: seq<byte>) returns (len: nat)
    requires |table| < |code|
    ensures len == PrefixPass(table, code, 0, 0)
  {
    len := 0;
    for i := 0 to |table|
      invariant len <= i
      invariant PrefixPass(table, code, i, len) == PrefixPass(table, code, 0, 0)
    {
      if code[len] == table[i] {
        len := len + 1;
      }
    }
  }

  /** The opcode scan over `table`: the index of the first entry that accepts
      the opcode at `code[pos]`, and that opcode byte, or (|table|, 0) when none
      does. */
  method FindOpcode(table: seq<OpcodeInfo>, code: seq<byte>, pos: nat) returns (i: nat, opcode: byte)
    requires pos + 1 < |code|
    requires forall k :: 0 <= k < |table| ==> table[k].opcode != 0
    ensures i == MatchFrom(table, code, pos, 0)
    ensures opcode == if i < |table| then code[pos] else 0
    ensures opcode == 0 <==> i == |table|
  {
    opcode := 0;
    i := 0;
    while i < |table|
      invariant i <= |table|
      invariant MatchFrom(table, code, pos, i) == MatchFrom(table, code, pos, 0)
    {
      var found := false;
      if code[pos] == table[i].opcode {
        found := !Has(table[i].flags, RegOpcodeFlag) || RegField(code[pos + 1]) == table[i].regOpcode;
      }
      if Has(table[i].flags, PlusRFlag) && code[pos] & 0xF8 == table[i].opcode {
        found := true;
      }
      if found {
        assert code[pos] != 0 by {
          assert table[i].opcode != 0;
        }
        opcode := code[pos];
        break;
      }
      i := i + 1;
    }
  }

  /** The bytes after the opcode: ModRM, SIB and displacement when the
      entry has a ModRM byte, then the immediate. */
  method OperandsLen(code: seq<byte>, pos: nat, flags: bv8) returns (len: nat)
    requires pos < |code|
    ensures len == (if Has(flags, ModRMFlag) then ModRMLen(code[pos]) else 0) + ImmLen(flags)
  {
    len := 0;
    if Has(flags, ModRMFlag) {
      var modrm := code[pos];
      len := len + 1;
      var mod := modrm >> 6;
      var rm := modrm & 7;
      if mod != 3 && rm == 4 {
        len := len + 1; // SIB
      }
      if mod == 1 {
        len := len + 1; // [reg + disp8]
      }
      if mod == 2 {
        len := len + 4; // [reg + disp32]
      }
      if mod == 0 && rm == 5 {
        len := len + 4; // [disp32]
      }
    }
    if Has(flags, Imm8Flag) {
      len := len + 1;
    }
    if Has(flags, Imm16Flag) {
      len := len + 2;
    }
    if Has(flags, Imm32Flag) {
      len := len + 4;
    }
  }

  /** The decoder as the source writes it, in its three phases: skip the
      prefixes, find the opcode (0 when nothing matched), add the operand bytes. */
  method GetInsnLen(code: seq<byte>) returns (len: nat)
    requires |code| >= DecodeWindow
    ensures len == InsnLen(code)
  {
    len := SkipPrefixes(Prefixes, code);
    TableOpcodesNonZero();
    var i, opcode := FindOpcode(Opcodes, code, len);
    if opcode == 0 {
      return 0;
    }
    ghost var p := len;
    var rest := OperandsLen(code, len + 1, Opcodes[i].flags);
    len := len + 1 + rest;
    assert len == MatchedLen(code, p, Opcodes[i]);
  }
}
