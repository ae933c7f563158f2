/** Installing an x86 detour on a 32-bit function: the first whole
    instructions covering at least five bytes are copied into a trampoline
    (relative CALL/JMP displacements adjusted for the move), the trampoline
    is closed by a JMP back to the rest of the original function, and the
    start of the original function is overwritten by a JMP to the
    replacement. */
module Hook {
  import opened Bytes
  import opened InsnLength
  import opened Jump

  datatype Option<T> = None | Some(value: T)

  /** The longest x86 instruction the source sizes its trampoline for. */
  const MaxArchInsnLen: nat := 15

  /** The trampoline size the source allocates: room for four bytes plus one
      instruction of up to 15 bytes, but not for the JMP that follows them. */
  const SourceTrampolineSize: nat := JmpSize + MaxArchInsnLen - 1

  /** The bytes the copy loop may read from the hooked function: at most four
      bytes already copied plus one instruction the decoder accepts. */
  const CopySpan: nat := JmpSize - 1 + MaxInsnLen

  /** Room for every copy the loop can make and the JMP back. */
  const TrampolineSize: nat := CopySpan + JmpSize

  // ---------------------------------------------------------------------
  // Page rounding of the POSIX unprotect helper

  predicate PowerOfTwo(n: word) {
    n != 0 && n & (n - 1) == 0
  }

  // One bit-level fact per lemma: together they are far harder for the
  // solver than apart.

  lemma MaskedAligned(addr: word, mask: word)
    ensures (addr & !mask) & mask == 0
  {
  }

  lemma MaskedBelow(addr: word, mask: word)
    ensures addr & !mask <= addr
  {
  }

  lemma MaskedRest(addr: word, mask: word)
    ensures addr & !mask == addr - (addr & mask)
  {
  }

  lemma MaskedWithin(addr: word, mask: word)
    ensures addr & mask <= mask
  {
  }

  lemma MaskedGreatest(addr: word, pagesize: word, q: word)
    requires PowerOfTwo(pagesize) && q & (pagesize - 1) == 0 && q <= addr
    ensures q <= addr & !(pagesize - 1)
  {
  }

  lemma MaskedFixed(addr: word, mask: word)
    requires addr & mask == 0
    ensures addr & !mask == addr
  {
  }

  /** The start of the page holding `addr`: `addr` with the bits below the
      page size cleared. The result is aligned to `pagesize`, not above
      `addr`, and is `addr` less its offset within the page. */
  function PageStart(addr: word, pagesize: word): (p: word)
    ensures p & (pagesize - 1) == 0 && p <= addr
    ensures p == addr - (addr & (pagesize - 1))
  {
    MaskedAligned(addr, pagesize - 1);
    MaskedBelow(addr, pagesize - 1);
    MaskedRest(addr, pagesize - 1);
    addr & !(pagesize - 1)
  }

  /** The offset that `PageStart` takes off is less than a page, so the
      page start lies less than `pagesize` below `addr`. */
  lemma PageOffsetBelow(addr: word, pagesize: word)
    requires PowerOfTwo(pagesize)
    ensures addr & (pagesize - 1) < pagesize
  {
    MaskedWithin(addr, pagesize - 1);
  }

  /** For a power-of-two page size, no aligned address lies between the
      page start and `addr`: the page start is the greatest aligned address
      not above `addr`. */
  lemma PageStartGreatest(addr: word, pagesize: word, q: word)
    requires PowerOfTwo(pagesize) && q & (pagesize - 1) == 0 && q <= addr
    ensures q <= PageStart(addr, pagesize)
  {
    MaskedGreatest(addr, pagesize, q);
  }

  /** An address already on a page boundary is its own page start. */
  lemma PageStartFixed(addr: word, pagesize: word)
    requires addr & (pagesize - 1) == 0
    ensures PageStart(addr, pagesize) == addr
  {
    MaskedFixed(addr, pagesize - 1);
  }

  // ---------------------------------------------------------------------
  // The copy loop, stated over the decoder's lengths

  /** Lengths at offsets 0 .. 4, each within what the decoder can report. */
  ghost predicate Lengths(lens: seq<nat>) {
    |lens| == JmpSize && forall i :: 0 <= i < JmpSize ==> lens[i] <= MaxInsnLen
  }

  /** `lens` is what the decoder reports on `code`. */
  ghost predicate DecodedFrom(code: seq<byte>, lens: seq<nat>)
    requires |code| >= DecodeWindow + JmpSize
  {
    |lens| == JmpSize && forall i {:trigger InsnLen(code[i..])} :: 0 <= i < JmpSize ==> lens[i] == InsnLen(code[i..])
  }

  /** The decoder's lengths at offsets 0 .. 4 of `code`. */
  ghost function DecoderLengths(code: seq<byte>): (lens: seq<nat>)
    requires |code| >= CopySpan
    ensures Lengths(lens) && DecodedFrom(code, lens)
  {
    seq(JmpSize, i requires 0 <= i < JmpSize => InsnLen(code[i..]))
  }

  /** The decoder's lengths are determined by the bytes. */
  lemma DecodedUnique(code: seq<byte>, lens: seq<nat>, lens': seq<nat>)
    requires |code| >= CopySpan && DecodedFrom(code, lens) && DecodedFrom(code, lens')
    ensures lens == lens'
  {
    forall i | 0 <= i < JmpSize ensures lens[i] == lens'[i] {
      assert lens[i] == InsnLen(code[i..]);
    }
  }

  /** How a copy loop run ends: `size` bytes were taken, and `complete` says
      whether the loop reached five bytes (true) or met an instruction the
      decoder does not know (false). */
  datatype Walk = Walk(size: nat, complete: bool)

  /** The copy loop from offset `orig`, given the decoder's lengths `lens`. */
  function CopyWalk(lens: seq<nat>, orig: nat): (w: Walk)
    requires Lengths(lens) && orig <= CopySpan
    ensures orig <= w.size <= CopySpan
    ensures w.complete <==> w.size >= JmpSize
    decreases CopySpan - orig
  {
    if orig >= JmpSize then Walk(orig, true)
    else if lens[orig] == 0 then Walk(orig, false)
    else CopyWalk(lens, orig + lens[orig])
  }

  /** The offsets of the instructions the copy loop takes from `orig` on. */
  function Starts(lens: seq<nat>, orig: nat): (s: seq<nat>)
    requires Lengths(lens) && orig <= CopySpan
    ensures forall j :: 0 <= j < |s| ==> orig <= s[j] < JmpSize && lens[s[j]] != 0
    decreases CopySpan - orig
  {
    if orig >= JmpSize || lens[orig] == 0 then []
    else [orig] + Starts(lens, orig + lens[orig])
  }

  /** The bytes the copy loop writes from `orig` on: each instruction taken,
      relocated by `delta`. */
  function Image(code: seq<byte>, lens: seq<nat>, orig: nat, delta: word): seq<byte>
    requires |code| >= CopySpan && Lengths(lens) && orig <= CopySpan
    decreases CopySpan - orig
  {
    if orig >= JmpSize || lens[orig] == 0 then []
    else
      var n := lens[orig];
      Relocate(code[orig..orig + n], delta) + Image(code, lens, orig + n, delta)
  }

  /** The walk takes whole instructions, back to back from `orig`: each
      start is below five with a recognised length, and the last one ends
      where the walk ends, so a complete walk stops at most four bytes plus
      one instruction past the start. */
  lemma {:induction false} WalkShape(lens: seq<nat>, orig: nat)
    requires Lengths(lens) && orig <= CopySpan
    ensures var s, w := Starts(lens, orig), CopyWalk(lens, orig);
      && (|s| == 0 <==> w.size == orig)
      && (forall j :: 0 <= j < |s| - 1 ==> s[j + 1] == s[j] + lens[s[j]])
      && (|s| > 0 ==> s[0] == orig && s[|s| - 1] + lens[s[|s| - 1]] == w.size)
    decreases CopySpan - orig
  {
    if orig < JmpSize && lens[orig] != 0 {
      WalkShape(lens, orig + lens[orig]);
    }
  }

  /** The image is exactly as long as the walk. */
  lemma {:induction false} ImageLength(code: seq<byte>, lens: seq<nat>, orig: nat, delta: word)
    requires |code| >= CopySpan && Lengths(lens) && orig <= CopySpan
    ensures |Image(code, lens, orig, delta)| == CopyWalk(lens, orig).size - orig
    decreases CopySpan - orig
  {
    if orig < JmpSize && lens[orig] != 0 {
      var next := orig + lens[orig];
      ImageLength(code, lens, next, delta);
      assert Image(code, lens, orig, delta)
          == Relocate(code[orig..next], delta) + Image(code, lens, next, delta);
      assert CopyWalk(lens, orig) == CopyWalk(lens, next);
    }
  }

  /** The image from a start the walk takes: that instruction, relocated,
      then the image from the next start. */
  lemma ImageStep(code: seq<byte>, lens: seq<nat>, orig: nat, next: nat, delta: word) returns (head: seq<byte>)
    requires |code| >= CopySpan && Lengths(lens) && orig < JmpSize && lens[orig] != 0
    requires next == orig + lens[orig]
    ensures head == Relocate(code[orig..next], delta) && |head| == next - orig
    ensures Image(code, lens, orig, delta) == head + Image(code, lens, next, delta)
  {
    head := Relocate(code[orig..next], delta);
  }

  /** What `sampgdk_hook_new` did. */
  datatype Outcome =
    | NoMemory                 // the trampoline could not be allocated
    | Installed(size: nat)     // `size` bytes were moved to the trampoline
    | Unsupported(at: nat)     // the instruction at offset `at` is not known

  /** A hook: its trampoline, at address `address`. */
  class Hook {
    const trampoline: array<byte>
    const address: word

    constructor (address: word)
      ensures this.address == address
      ensures fresh(trampoline) && trampoline.Length == TrampolineSize
    {
      this.address := address;
      trampoline := new byte[TrampolineSize];
    }

    /** The address through which the original function can still be called. */
    function Trampoline(): (p: word)
      ensures p == address
    {
      address
    }
  }

  /** Overwrites `tramp[at + 1..at + 5]`, the displacement field of the branch
      copied to offset `at`, with the displacement of `moved`. */
  method PatchDisp(tramp: array<byte>, at: nat, moved: seq<byte>)
    requires at + JmpSize <= tramp.Length && |moved| >= JmpSize
    modifies tramp
    ensures tramp[..] == old(tramp[..at + 1]) + moved[1..JmpSize] + old(tramp[at + JmpSize..])
  {
    tramp[at + 1] := moved[1];
    tramp[at + 2] := moved[2];
    tramp[at + 3] := moved[3];
    tramp[at + 4] := moved[4];
  }

  lemma PatchedCopy(before: seq<byte>, at: nat, insn: seq<byte>, moved: seq<byte>)
    requires at + |insn| <= |before| && |insn| >= JmpSize && |moved| == |insn|
    requires before[at..at + |insn|] == insn
    requires moved[0] == insn[0] && moved[JmpSize..] == insn[JmpSize..]
    ensures before[..at + 1] + moved[1..JmpSize] + before[at + JmpSize..]
      == before[..at] + moved + before[at + |insn|..]
  {
    var lhs := before[..at + 1] + moved[1..JmpSize] + before[at + JmpSize..];
    var rhs := before[..at] + moved + before[at + |insn|..];
    assert |lhs| == |rhs|;
    forall i | 0 <= i < |lhs| ensures lhs[i] == rhs[i] {
      if i < at {
      } else if i == at {
        assert before[at] == insn[0];
      } else if i < at + JmpSize {
      } else if i < at + |insn| {
        assert before[i] == insn[i - at];
        assert moved[i - at] == insn[i - at] by {
          assert moved[JmpSize..][i - at - JmpSize] == insn[JmpSize..][i - at - JmpSize];
        }
      }
    }
  }

  /** One iteration's copy: the instruction goes to offset `at` of the
      trampoline and a relative CALL/JMP has its displacement reduced by
      `delta`. */
  method CopyInsn(tramp: array<byte>, at: nat, insn: seq<byte>, delta: word)
    requires at + |insn| <= tramp.Length && |insn| > 0
    requires insn[0] == 0xE8 || insn[0] == 0xE9 ==> |insn| >= JmpSize
    modifies tramp
    ensures tramp[..] == old(tramp[..at]) + Relocate(insn, delta) + old(tramp[at + |insn|..])
  {
    Store(tramp, at, insn);
    Spliced(old(tramp[..]), tramp[..], at, insn);
    if tramp[at] == 0xE8 || tramp[at] == 0xE9 {
      RelocateCopied(tramp, at, insn, delta);
    }
  }

  /** maybe_jmp->offset -= delta, on the branch just copied to offset `at`. */
  method RelocateCopied(tramp: array<byte>, at: nat, insn: seq<byte>, delta: word)
    requires at + |insn| <= tramp.Length && IsRelBranch(insn)
    requires tramp[at..at + |insn|] == insn
    modifies tramp
    ensures tramp[..] == old(tramp[..at]) + Relocate(insn, delta) + old(tramp[at + |insn|..])
  {
    var moved := Relocate(insn, delta);
    ghost var before := tramp[..];
    PatchDisp(tramp, at, moved);
    PatchedCopy(before, at, insn, moved);
  }


  /** The trampoline `t` holds the image of the instructions before offset
      `orig`, so that the image from `orig` on completes it. */
  ghost predicate Copied(code: seq<byte>, lens: seq<nat>, t: seq<byte>, orig: nat, delta: word)
    requires |code| >= CopySpan && Lengths(lens) && orig <= CopySpan && orig <= |t|
  {
    t[..orig] + Image(code, lens, orig, delta) == Image(code, lens, 0, delta)
  }

  /** What decoding a relative CALL/JMP tells the copy step: it is whole. */
  lemma BranchDecoded(code: seq<byte>, orig: nat)
    requires |code| >= CopySpan && orig < JmpSize && InsnLen(code[orig..]) != 0
    ensures code[orig] == 0xE8 || code[orig] == 0xE9 ==> InsnLen(code[orig..]) >= JmpSize
  {
    if code[orig] == 0xE8 || code[orig] == 0xE9 {
      RelativeBranchLength(code[orig..]);
    }
  }

  /** One pass of the copy loop keeps the trampoline invariant: after the
      relocated instruction at `orig` is spliced into `before` (giving
      `after`), the trampoline holds the image up to the next instruction. */
  lemma CopyStepKeeps(code: seq<byte>, lens: seq<nat>, orig: nat, next: nat, delta: word,
                      before: seq<byte>, after: seq<byte>)
    requires |code| >= CopySpan && Lengths(lens) && orig < JmpSize && lens[orig] != 0
    requires next == orig + lens[orig]
    requires next <= |before| && Copied(code, lens, before, orig, delta)
    requires after == before[..orig] + Relocate(code[orig..next], delta) + before[next..]
    ensures Copied(code, lens, after, next, delta)
  {
    var head := ImageStep(code, lens, orig, next, delta);
    SpliceTake(before, after, orig, head);
    Regroup(before[..orig], head, Image(code, lens, next, delta));
  }

  lemma SpliceTake(before: seq<byte>, after: seq<byte>, at: nat, piece: seq<byte>)
    requires at + |piece| <= |before|
    requires after == before[..at] + piece + before[at + |piece|..]
    ensures after[..at + |piece|] == before[..at] + piece
  {
    assert after[..at + |piece|] == (before[..at] + piece + before[at + |piece|..])[..at + |piece|];
  }

  lemma Regroup(a: seq<byte>, b: seq<byte>, c: seq<byte>)
    ensures (a + b) + c == a + (b + c)
  {
  }

  /** Copies the recognised instruction of `insnLen` bytes at
      `origSize`, relocated, to the same offset of the trampoline. */
  method TakeInsn(code: seq<byte>, ghost lens: seq<nat>, tramp: array<byte>, delta: word,
                  origSize: nat, insnLen: nat, next: nat)
    requires |code| >= CopySpan && Lengths(lens) && origSize < JmpSize
    requires insnLen == lens[origSize] && insnLen != 0 && next == origSize + insnLen
    requires code[origSize] == 0xE8 || code[origSize] == 0xE9 ==> lens[origSize] >= JmpSize
    requires tramp.Length >= TrampolineSize && Copied(code, lens, tramp[..], origSize, delta)
    modifies tramp
    ensures tramp[..origSize] == old(tramp[..origSize])
    ensures tramp[origSize..next] == Relocate(code[origSize..next], delta)
    ensures tramp[next..] == old(tramp[next..])
    ensures Copied(code, lens, tramp[..], next, delta)
  {
    var insn := code[origSize..next];
    ghost var before := tramp[..];
    CopyInsn(tramp, origSize, insn, delta);
    Spliced(before, tramp[..], origSize, Relocate(insn, delta));
    CopyStepKeeps(code, lens, origSize, next, delta, before, tramp[..]);
  }

  /** The decoder call of one pass: the length of the instruction at
      `origSize`, which is whole when it is a relative CALL/JMP. */
  method Decode(code: seq<byte>, ghost lens: seq<nat>, origSize: nat) returns (insnLen: nat)
    requires |code| >= CopySpan && Lengths(lens) && DecodedFrom(code, lens) && origSize < JmpSize
    ensures insnLen == lens[origSize] && origSize + insnLen <= CopySpan
    ensures insnLen != 0 && (code[origSize] == 0xE8 || code[origSize] == 0xE9) ==> insnLen >= JmpSize
  {
    insnLen := GetInsnLen(code[origSize..]);
    if insnLen != 0 {
      BranchDecoded(code, origSize);
    }
  }

  /** One pass of the copy loop: decodes the instruction at `origSize`, and
      when it is recognised copies it, relocated, to the same offset of the
      trampoline. */
  method CopyStep(code: seq<byte>, ghost lens: seq<nat>, tramp: array<byte>, delta: word, origSize: nat)
    returns (insnLen: nat, next: nat)
    requires |code| >= CopySpan && Lengths(lens) && DecodedFrom(code, lens)
    requires tramp.Length >= TrampolineSize && origSize < JmpSize
    requires Copied(code, lens, tramp[..], origSize, delta)
    modifies tramp
    ensures insnLen == lens[origSize] && next == origSize + insnLen && next <= CopySpan
    ensures insnLen == 0 ==> tramp[..] == old(tramp[..])
    ensures insnLen != 0 ==> tramp[..origSize] == old(tramp[..origSize])
    ensures insnLen != 0 ==> tramp[origSize..next] == Relocate(code[origSize..next], delta)
    ensures insnLen != 0 ==> tramp[next..] == old(tramp[next..])
    ensures insnLen != 0 ==> Copied(code, lens, tramp[..], next, delta)
    ensures insnLen != 0 ==> CopyWalk(lens, next) == CopyWalk(lens, origSize)
  {
    insnLen := Decode(code, lens, origSize);
    next := origSize + insnLen;
    if insnLen != 0 {
      TakeInsn(code, lens, tramp, delta, origSize, insnLen, next);
      WalkStep(lens, origSize, next);
    }
  }

  /** Taking the instruction at `orig` leaves the rest of the walk unchanged. */
  lemma WalkStep(lens: seq<nat>, orig: nat, next: nat)
    requires Lengths(lens) && orig < JmpSize && lens[orig] != 0 && next == orig + lens[orig]
    ensures CopyWalk(lens, next) == CopyWalk(lens, orig)
  {
  }

  /** Where the copy loop stops, the walk ends and nothing is left to copy. */
  lemma Stopped(code: seq<byte>, lens: seq<nat>, t: seq<byte>, orig: nat, delta: word)
    requires |code| >= CopySpan && Lengths(lens) && orig <= CopySpan && orig <= |t|
    requires orig >= JmpSize || lens[orig] == 0
    requires Copied(code, lens, t, orig, delta)
    ensures CopyWalk(lens, orig) == Walk(orig, orig >= JmpSize)
    ensures t[..orig] == Image(code, lens, 0, delta)
  {
    assert Image(code, lens, orig, delta) == [];
    assert t[..orig] + [] == t[..orig];
  }

  /** The copy loop of `sampgdk_hook_new`: copies whole instructions of the
      hooked function's bytes `code` into `tramp`, relocated by `delta`,
      until five bytes are taken or an instruction is not recognised. */
  method CopyLoop(code: seq<byte>, ghost lens: seq<nat>, tramp: array<byte>, delta: word)
    returns (origSize: nat, insnLen: nat)
    requires |code| >= CopySpan && Lengths(lens) && DecodedFrom(code, lens)
    requires tramp.Length >= TrampolineSize
    modifies tramp
    ensures var w := CopyWalk(lens, 0);
      && origSize == w.size
      && (insnLen > 0 <==> w.complete)
    ensures tramp[..origSize] == Image(code, lens, 0, delta)
    ensures tramp[origSize..] == old(tramp[origSize..])
  {
    origSize := 0;
    insnLen := 0;
    while origSize < JmpSize
      invariant origSize <= CopySpan
      invariant CopyWalk(lens, origSize) == CopyWalk(lens, 0)
      invariant Copied(code, lens, tramp[..], origSize, delta)
      invariant origSize > 0 ==> insnLen > 0
      invariant tramp[origSize..] == old(tramp[origSize..])
      decreases CopySpan - origSize
    {
      var next;
      insnLen, next := CopyStep(code, lens, tramp, delta, origSize);
      if insnLen == 0 {
        break;
      }
      origSize := next;
    }
    Stopped(code, lens, tramp[..], origSize, delta);
  }

  /** `after` is `before` with `piece` written at offset `at`. */
  lemma Spliced(before: seq<byte>, after: seq<byte>, at: nat, piece: seq<byte>)
    requires at + |piece| <= |before|
    requires after == before[..at] + piece + before[at + |piece|..]
    ensures |after| == |before|
    ensures after[..at] == before[..at] && after[at..at + |piece|] == piece
    ensures after[at + |piece|..] == before[at + |piece|..]
  {
    var whole := before[..at] + piece + before[at + |piece|..];
    assert after[..at] == whole[..at];
    assert after[at..at + |piece|] == whole[at..at + |piece|];
    assert after[at + |piece|..] == whole[at + |piece|..];
  }

  /** The body of `sampgdk_hook_new` once the trampoline `tramp`, at address
      `trampAddr`, is allocated; `lens` is what the decoder reports on the
      hooked function's bytes `code`, and `delta` the distance the copied
      instructions move (the trampoline's address minus `srcAddr`). */
  method Install(src: array<byte>, srcAddr: word, dst: word, tramp: array<byte>, trampAddr: word,
                 ghost code: seq<byte>, ghost lens: seq<nat>, delta: word)
    returns (outcome: Outcome)
    requires src.Length >= CopySpan && tramp.Length == TrampolineSize && src != tramp
    requires src[..] == code && Lengths(lens) && DecodedFrom(code, lens)
    modifies src, tramp
    ensures var w := CopyWalk(lens, 0);
      && (!w.complete ==>
            && outcome == Unsupported(w.size)
            && tramp[..] == JmpBytes(trampAddr, srcAddr) + old(tramp[JmpSize..])
            && src[..] == code)
      && (w.complete ==>
            && outcome == Installed(w.size)
            && tramp[..w.size] == Image(code, lens, 0, delta)
            && tramp[w.size..w.size + JmpSize] == JmpBytes(trampAddr, srcAddr)
            && tramp[w.size + JmpSize..] == old(tramp[w.size + JmpSize..])
            && src[..] == JmpBytes(srcAddr, dst) + code[JmpSize..])
  {
    var origSize, insnLen := CopyLoop(src[..], lens, tramp, delta);
    if insnLen > 0 {
      Close(src, srcAddr, dst, tramp, trampAddr, origSize, code);
      outcome := Installed(origSize);
    } else {
      ghost var copied := tramp[..];
      SameFrom(copied, old(tramp[..]), origSize, JmpSize);
      WriteJmp(tramp, trampAddr, srcAddr, 0);
      Overwritten(copied, tramp[..], JmpBytes(trampAddr, srcAddr));
      outcome := Unsupported(origSize);
    }
  }

  /** Sequences that agree from `i` on agree from any later `j` on. */
  lemma SameFrom(a: seq<byte>, b: seq<byte>, i: nat, j: nat)
    requires i <= j <= |a| == |b| && a[i..] == b[i..]
    ensures a[j..] == b[j..]
  {
    assert a[j..] == a[i..][j - i..];
    assert b[j..] == b[i..][j - i..];
  }

  /** `after` is `before` with its first bytes replaced by `piece`. */
  lemma Overwritten(before: seq<byte>, after: seq<byte>, piece: seq<byte>)
    requires |piece| <= |before|
    requires after == before[..0] + piece + before[|piece|..]
    ensures after == piece + before[|piece|..]
  {
  }

  /** The end of a complete copy: the JMP back to `srcAddr + size` is
      appended to the `size` bytes in the trampoline, and the hooked
      function's first five bytes become a JMP to `dst`. */
  method Close(src: array<byte>, srcAddr: word, dst: word, tramp: array<byte>, trampAddr: word,
               size: nat, ghost code: seq<byte>)
    requires src.Length >= CopySpan && tramp.Length == TrampolineSize && src != tramp
    requires size <= CopySpan && src[..] == code
    modifies src, tramp
    ensures tramp[..size] == old(tramp[..size])
    ensures tramp[size..size + JmpSize] == JmpBytes(trampAddr, srcAddr)
    ensures tramp[size + JmpSize..] == old(tramp[size + JmpSize..])
    ensures src[..] == JmpBytes(srcAddr, dst) + code[JmpSize..]
  {
    ghost var copied := tramp[..];
    WriteJmp(tramp, trampAddr, srcAddr, size);
    Spliced(copied, tramp[..], size, JmpBytes(trampAddr, srcAddr));
    ghost var closed := tramp[..];
    WriteJmp(src, srcAddr, dst, 0);
    assert tramp[..] == closed;
    AtStart(code, JmpBytes(srcAddr, dst));
  }

  lemma AtStart(code: seq<byte>, piece: seq<byte>)
    requires |piece| <= |code|
    ensures code[..0] + piece + code[|piece|..] == piece + code[|piece|..]
  {
  }

  /** `sampgdk_hook_new`: allocation is the parameter `alloc` (the address of
      the new block, or None when malloc fails); `lens` records what the
      decoder reported on the hooked function's first bytes. */
  method HookNew(src: array<byte>, srcAddr: word, dst: word, alloc: Option<word>)
    returns (hook: Hook?, outcome: Outcome, ghost lens: seq<nat>)
    requires src.Length >= CopySpan
    modifies src
    ensures alloc.None? ==> hook == null && outcome == NoMemory && src[..] == old(src[..])
    ensures alloc.Some? ==>
      && hook != null && fresh(hook) && fresh(hook.trampoline)
      && hook.trampoline.Length == TrampolineSize
      && hook.Trampoline() == alloc.value
      && Lengths(lens) && DecodedFrom(old(src[..]), lens)
    ensures alloc.Some? && !CopyWalk(lens, 0).complete ==>
      && outcome == Unsupported(CopyWalk(lens, 0).size)
      && hook.trampoline[..JmpSize] == JmpBytes(alloc.value, srcAddr)
      && src[..] == old(src[..])
    ensures alloc.Some? && CopyWalk(lens, 0).complete ==>
      var size := CopyWalk(lens, 0).size;
      && outcome == Installed(size)
      && hook.trampoline[..size] == Image(old(src[..]), lens, 0, alloc.value - srcAddr)
      && hook.trampoline[size..size + JmpSize] == JmpBytes(alloc.value, srcAddr)
      && src[..] == JmpBytes(srcAddr, dst) + old(src[JmpSize..])
  {
    if alloc.None? {
      return null, NoMemory, [];
    }
    ghost var code := old(src[..]);
    hook := new Hook(alloc.value);
    lens := DecoderLengths(code);
    outcome := Install(src, srcAddr, dst, hook.trampoline, alloc.value, code, lens, alloc.value - srcAddr);
  }

  // ---------------------------------------------------------------------
  // The trampoline size

  /** Whether the jump back, written at `size`, fits in the source's
      trampoline buffer. */
  predicate FitsSourceTrampoline(size: nat) {
    size + JmpSize <= SourceTrampolineSize
  }

  lemma PushLength(code: seq<byte>)
    requires |code| >= DecodeWindow && code[0] == 0x50
    ensures InsnLen(code) == 1
  {
    OwnsPushR32(0x50, RegField(code[1]));
    OwnedLength(code, 22);
  }

  lemma MovSibDisp32Length(code: seq<byte>)
    requires |code| >= DecodeWindow && code[0] == 0xC7 && code[1] == 0x84
    ensures InsnLen(code) == 11
  {
    assert RegField(0x84) == 0;
    OwnsMovC7(0);
    OwnedLength(code, 18);
    assert ModRMLen(0x84) == 6;
  }

  /** What the decoder reports on a function that starts with four
      one-byte PUSH r32 and a MOV r/m32, imm32 whose ModRM byte 0x84 asks
      for a SIB byte and a 32-bit displacement. */
  lemma OverflowLengths(code: seq<byte>)
    requires |code| >= CopySpan && code[..6] == [0x50, 0x50, 0x50, 0x50, 0xC7, 0x84]
    ensures DecoderLengths(code) == [1, 1, 1, 1, 11]
  {
    assert code[0] == 0x50 && code[1] == 0x50 && code[2] == 0x50 && code[3] == 0x50;
    assert code[4] == 0xC7 && code[5] == 0x84;
    PushLength(code[0..]);
    PushLength(code[1..]);
    PushLength(code[2..]);
    PushLength(code[3..]);
    MovSibDisp32Length(code[4..]);
  }

  /** On such a function the copy loop takes 15 bytes, so the jump back,
      written at offset 15, runs past the end of the source's 19-byte
      trampoline. */
  lemma SourceTrampolineOverflows(code: seq<byte>)
    requires |code| >= CopySpan && code[..6] == [0x50, 0x50, 0x50, 0x50, 0xC7, 0x84]
    ensures var w := CopyWalk(DecoderLengths(code), 0);
      && w == Walk(15, true) && !FitsSourceTrampoline(w.size)
  {
    OverflowLengths(code);
    OverflowWalk([1, 1, 1, 1, 11]);
  }

  lemma OverflowWalk(lens: seq<nat>)
    requires lens == [1, 1, 1, 1, 11]
    ensures CopyWalk(lens, 0) == Walk(15, true)
  {
    assert CopyWalk(lens, 4) == Walk(15, true);
    assert CopyWalk(lens, 2) == CopyWalk(lens, 4);
  }

  /** `F0 F2 F3 2E 36` is a run of prefixes in table order. */
  lemma FivePrefixesSkipped(code: seq<byte>)
    requires |code| >= DecodeWindow && code[..5] == [0xF0, 0xF2, 0xF3, 0x2E, 0x36] && code[5] !in Prefixes
    ensures PrefixLen(code) == 5
  {
    assert InTableOrder(Prefixes, [0x36], 4);
    assert InTableOrder(Prefixes, [0x2E, 0x36], 3);
    assert InTableOrder(Prefixes, [0xF3, 0x2E, 0x36], 2);
    assert InTableOrder(Prefixes, [0xF2, 0xF3, 0x2E, 0x36], 1);
    PrefixRunSkipped(code, 5);
  }

  /** Five prefixes in table order before that MOV make it 16 bytes long. */
  lemma PrefixedMovSibDisp32Length(code: seq<byte>)
    requires |code| >= DecodeWindow && code[..7] == [0xF0, 0xF2, 0xF3, 0x2E, 0x36, 0xC7, 0x84]
    ensures InsnLen(code) == 16
  {
    assert code[..5] == code[..7][..5] && code[5] == 0xC7 && code[6] == 0x84;
    FivePrefixesSkipped(code);
    assert RegField(0x84) == 0;
    OwnsMovC7(0);
    OwnedLengthAfter(code, 5, 18);
    assert ModRMLen(0x84) == 6;
  }

  /** What the decoder reports on a function that starts with four
      PUSH r32 and that prefixed MOV. */
  lemma PrefixedOverflowLengths(code: seq<byte>)
    requires |code| >= CopySpan
    requires code[..4] == [0x50, 0x50, 0x50, 0x50]
    requires code[4..11] == [0xF0, 0xF2, 0xF3, 0x2E, 0x36, 0xC7, 0x84]
    ensures DecoderLengths(code) == [1, 1, 1, 1, 16]
  {
    assert code[4..][..7] == code[4..11];
    FourPushLengths(code);
    PrefixedMovSibDisp32Length(code[4..]);
  }

  lemma FourPushLengths(code: seq<byte>)
    requires |code| >= CopySpan && code[..4] == [0x50, 0x50, 0x50, 0x50]
    ensures InsnLen(code[0..]) == 1 && InsnLen(code[1..]) == 1
    ensures InsnLen(code[2..]) == 1 && InsnLen(code[3..]) == 1
  {
    assert code[0] == 0x50 && code[1] == 0x50 && code[2] == 0x50 && code[3] == 0x50;
    PushLength(code[0..]);
    PushLength(code[1..]);
    PushLength(code[2..]);
    PushLength(code[3..]);
  }

  /** On such a function the fifth instruction taken is copied to offsets
      4..20, so the copy itself already runs past the source's 19-byte
      trampoline, before the jump back is written. */
  lemma SourceCopyOverflows(code: seq<byte>)
    requires |code| >= CopySpan
    requires code[..4] == [0x50, 0x50, 0x50, 0x50]
    requires code[4..11] == [0xF0, 0xF2, 0xF3, 0x2E, 0x36, 0xC7, 0x84]
    ensures var lens := DecoderLengths(code);
      && Starts(lens, 0) == [0, 1, 2, 3, 4]
      && 4 + lens[4] > SourceTrampolineSize
  {
    PrefixedOverflowLengths(code);
    PrefixedOverflowStarts([1, 1, 1, 1, 16]);
  }

  lemma PrefixedOverflowStarts(lens: seq<nat>)
    requires lens == [1, 1, 1, 1, 16]
    ensures Starts(lens, 0) == [0, 1, 2, 3, 4]
  {
    assert Starts(lens, 4) == [4];
    assert Starts(lens, 2) == [2, 3, 4];
  }

  /** With the corrected size every copied instruction and the jump back
      lie inside the trampoline, whatever the decoder reports. */
  lemma TrampolineFits(lens: seq<nat>)
    requires Lengths(lens)
    ensures CopyWalk(lens, 0).size + JmpSize <= TrampolineSize
    ensures forall j :: 0 <= j < |Starts(lens, 0)| ==>
      Starts(lens, 0)[j] + lens[Starts(lens, 0)[j]] + JmpSize <= TrampolineSize
  {
    WalkShape(lens, 0);
  }
}
