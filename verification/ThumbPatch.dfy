/** The patch to a library's string constructor: the branch taken for a null pointer is redirected to
    the code for the empty string. Code is indexed by halfwords from the start of the function. */
module ThumbPatch {
  import opened Common

  type Halfword = x: int | 0 <= x < 0x10000

  const SCAN_HALFWORDS: nat := 128
  const CMP_R0_R1: Halfword := 0x4288
  const CMP_R0_0: Halfword := 0x2800

  predicate IsBne(hw: Halfword) {
    0xd100 <= hw < 0xd200
  }

  predicate IsBranch(hw: Halfword) {
    0xe000 <= hw < 0xe800
  }

  /** Where the branch at index `at` goes: its eleven bits are a signed distance from the second halfword after it. */
  function BranchTarget(hw: Halfword, at: nat): int
    requires IsBranch(hw)
  {
    var imm := hw - 0xe000;
    at + 2 + if imm < 0x400 then imm else imm - 0x800
  }

  function EncodeBranch(at: nat, target: nat): (hw: Halfword)
    ensures IsBranch(hw)
    ensures BranchTarget(hw, at) == target <==> -0x400 <= target - at - 2 < 0x400
  {
    0xe000 + (target - at - 2) % 0x800
  }

  /** The block for the empty string: right after the first `bne` that comes after the first `cmp r0, r1`. */
  ghost predicate IsEmptyBlock(code: seq<Halfword>, block: nat) {
    exists cmp: nat ::
      && cmp + 1 < block <= |code| && block <= SCAN_HALFWORDS
      && code[cmp] == CMP_R0_R1 && (forall k :: 0 <= k < cmp ==> code[k] != CMP_R0_R1)
      && IsBne(code[block - 1]) && forall k :: cmp < k < block - 1 ==> !IsBne(code[k])
  }

  predicate IsNullDispatch(code: seq<Halfword>, i: nat)
    requires i + 2 < |code|
  {
    code[i] == CMP_R0_0 && IsBne(code[i + 1]) && IsBranch(code[i + 2])
  }

  method FindEmptyBlock(code: array<Halfword>) returns (block: Option<nat>)
    requires code.Length >= SCAN_HALFWORDS + 2
    ensures block.Some? ==> IsEmptyBlock(code[..], block.value)
    ensures block == None ==> forall b :: !IsEmptyBlock(code[..], b)
  {
    ghost var cmp := -1;
    var seen := false;
    var i := 0;
    while i < SCAN_HALFWORDS
      invariant 0 <= i <= SCAN_HALFWORDS
      invariant if seen then
                  && 0 <= cmp < i && code[cmp] == CMP_R0_R1 && (forall k :: 0 <= k < cmp ==> code[k] != CMP_R0_R1)
                  && (forall k :: cmp < k < i ==> !IsBne(code[k]))
                else forall k :: 0 <= k < i ==> code[k] != CMP_R0_R1
    {
      var hw := code[i];
      if !seen {
        if hw == CMP_R0_R1 {
          seen := true;
          cmp := i;
        }
      } else if IsBne(hw) {
        return Some(i + 1);
      }
      i := i + 1;
    }
    block := None;
  }

  /** If both places are found, the branch of the first null dispatch goes to the block for the empty string afterwards,
      wherever the two are; otherwise, and everywhere else, the code stays as it is. */
  method Patch(code: array<Halfword>) returns (patched: Option<nat>)
    requires code.Length >= SCAN_HALFWORDS + 2
    modifies code
    ensures patched.Some? <==>
            && (exists block :: IsEmptyBlock(old(code[..]), block))
            && (exists i: nat :: i < SCAN_HALFWORDS && IsNullDispatch(old(code[..]), i))
    ensures patched == None ==> code[..] == old(code[..])
    ensures patched.Some? ==>
              && patched.value < SCAN_HALFWORDS && IsNullDispatch(old(code[..]), patched.value)
              && (forall i: nat :: i < patched.value ==> !IsNullDispatch(old(code[..]), i))
              && IsBranch(code[patched.value + 2])
              && (forall block :: IsEmptyBlock(old(code[..]), block) ==>
                    BranchTarget(code[patched.value + 2], patched.value + 2) == block)
              && code[..] == old(code[..])[patched.value + 2 := code[patched.value + 2]]
  {
    var block := FindEmptyBlock(code);
    assert code[..] == old(code[..]);
    if block == None {
      return None;
    }
    var i := 0;
    while i < SCAN_HALFWORDS
      invariant 0 <= i <= SCAN_HALFWORDS && code[..] == old(code[..])
      invariant forall k: nat :: k < i ==> !IsNullDispatch(code[..], k)
    {
      if code[i] == CMP_R0_0 {
        if IsBne(code[i + 1]) && IsBranch(code[i + 2]) {
          assert IsNullDispatch(code[..], i);
          forall b | IsEmptyBlock(code[..], b) ensures b == block.value {
            OneEmptyBlock(code[..], b, block.value);
          }
          code[i + 2] := EncodeBranch(i + 2, block.value);
          return Some(i);
        }
      }
      i := i + 1;
    }
    patched := None;
  }

  lemma OneEmptyBlock(code: seq<Halfword>, a: nat, b: nat)
    requires IsEmptyBlock(code, a) && IsEmptyBlock(code, b)
    ensures a == b
  {
  }
}
