/** Address and page-table-entry arithmetic of kernel/riscv.h, and the flag words of kernel/vmm.c.
    Machine words are natural numbers below 2^64: a right shift is a division, a mask of low
    bits is a remainder, and a left shift is a product cut back to 64 bits. */
module Sv39 {

  const TWO64: nat := 0x1_0000_0000_0000_0000
  const MAXVA: nat := 0x40_0000_0000
  /** Number of virtual pages below MAXVA. */
  const NVPN: nat := 0x400_0000

  type u64 = x: nat | x < 0x1_0000_0000_0000_0000

  /** The permission bits of an entry; the kernel never builds one wider than PTE_FLAGS. */
  type Perm = x: nat | x < 1024

  function Pa2Pte(pa: u64): u64 { pa / 4096 * 1024 }

  function Pte2Pa(pte: u64): (pa: u64)
    ensures pa % 4096 == 0
  {
    pte / 1024 * 4096 % TWO64
  }

  function PteFlags(pte: u64): Perm { pte % 1024 }

  predicate PteV(pte: u64) { pte % 2 == 1 }
  predicate PteR(pte: u64) { pte / 2 % 2 == 1 }
  predicate PteW(pte: u64) { pte / 4 % 2 == 1 }
  predicate PteX(pte: u64) { pte / 8 % 2 == 1 }
  predicate PteU(pte: u64) { pte / 16 % 2 == 1 }

  function Shift(level: nat): (s: nat)
    ensures s > 0
  {
    if level == 0 then 4096 else 512 * Shift(level - 1)
  }

  function Px(level: nat, va: u64): (j: nat)
    ensures j < 512
  {
    va / Shift(level) % 512
  }

  /** PA2PTE(pa) | perm | PTE_V: the shifted frame number and the flags share no bit. */
  function MakePte(pa: u64, perm: Perm): u64 { Pa2Pte(pa) + SetV(perm) }

  function SetV(perm: Perm): (p: Perm)
    ensures p % 2 == 1 && p / 2 == perm / 2
  {
    if perm % 2 == 1 then perm else perm + 1
  }

  lemma MakePteFields(pa: u64, perm: Perm)
    ensures var pte := MakePte(pa, perm);
            && pte / 1024 == pa / 4096
            && PteFlags(pte) == SetV(perm)
            && Pte2Pa(pte) == pa / 4096 * 4096
            && PteV(pte)
            && (PteR(pte) <==> PteR(perm)) && (PteW(pte) <==> PteW(perm))
            && (PteX(pte) <==> PteX(perm)) && (PteU(pte) <==> PteU(perm))
  {
    var f, s := pa / 4096, SetV(perm);
    LowBits(f, s);
    LowBits(0, perm);
    SetVBits(perm);
  }

  lemma SetVBits(perm: Perm)
    ensures var s := SetV(perm); s / 4 == perm / 4 && s / 8 == perm / 8 && s / 16 == perm / 16
  {
    assert SetV(perm) / 2 == perm / 2;
  }

  /** Bits 0 to 4 and the frame field of an entry are those of its two summands. */
  lemma LowBits(f: nat, s: Perm)
    ensures var pte := 1024 * f + s;
            && pte / 1024 == f && pte % 1024 == s && pte % 2 == s % 2
            && pte / 2 % 2 == s / 2 % 2 && pte / 4 % 2 == s / 4 % 2 && pte / 8 % 2 == s / 8 % 2
            && pte / 16 % 2 == s / 16 % 2
  {
    DivMod(f, s, 1024);
    DivMod(512 * f, s, 2);
    DivMod(256 * f, s, 4);
    DivMod(128 * f, s, 8);
    DivMod(256 * f, s / 2, 2);
    DivMod(128 * f, s / 4, 2);
    DivMod(64 * f, s / 8, 2);
    DivMod(64 * f, s, 16);
    DivMod(32 * f, s / 16, 2);
  }

  lemma DivMod(q: nat, r: nat, d: nat)
    requires d > 0
    ensures (d * q + r) / d == q + r / d && (d * q + r) % d == r % d
  {
    var n := d * q + r;
    assert n == d * (q + r / d) + r % d;
    Unique(n, d, q + r / d, r % d);
  }

  lemma Unique(n: int, d: nat, q: int, r: nat)
    requires n == d * q + r && r < d
    ensures n / d == q && n % d == r
  {
    var k := n / d - q;
    assert n == d * (n / d) + n % d;
    assert d * k == r - n % d by { assert d * k == d * (n / d) - d * q; }
    assert k >= 1 ==> d * k >= d;
    assert k <= -1 ==> d * k + d <= 0;
  }

  /** The three indices of an address below MAXVA are the base-512 digits of its page number. */
  lemma PxDigits(va: u64)
    requires va < MAXVA
    ensures var v := va / 4096;
            && v < NVPN
            && Px(2, va) == v / 512 / 512 < 256
            && Px(1, va) == v / 512 % 512
            && Px(0, va) == v % 512
  {
    assert Shift(0) == 4096;
    assert Shift(1) == 512 * 4096;
    assert Shift(2) == 512 * 512 * 4096;
  }

  /** prot_to_type: PROT_READ = 1, PROT_WRITE = 2, PROT_EXEC = 4. */
  function ProtBits(prot: bv8, user: bool): bv8
  {
    var r: bv8 := if prot & 1 != 0 then 0x42 else 0;            // PTE_R | PTE_A
    var w: bv8 := if prot & 2 != 0 then r | 0x84 else r;        // PTE_W | PTE_D
    var x: bv8 := if prot & 4 != 0 then w | 0x48 else w;        // PTE_X | PTE_A
    var p: bv8 := if x == 0 then 0x02 else x;
    if user then p | 0x10 else p                                // PTE_U
  }

  function ProtToType(prot: bv8, user: bool): Perm { ProtBits(prot, user) as nat }

  /** A readable entry is not a link. */
  lemma ReadableFlags(pte: u64)
    requires PteR(pte)
    ensures PteFlags(pte) != 1
  {
    var q := pte / 1024;
    assert pte % 1024 == 1 ==> pte == 2 * (512 * q) + 1;
  }

  /** A page is writable or executable exactly when that was asked for; it is readable when that was
      asked for or nothing was; the valid bit is left to map_pages. */
  lemma ProtFlags(prot: bv8, user: bool)
    ensures var p := ProtToType(prot, user);
            && p % 2 == 0
            && (PteR(p) <==> prot & 1 != 0 || prot & 7 == 0)
            && (PteW(p) <==> prot & 2 != 0)
            && (PteX(p) <==> prot & 4 != 0)
            && (PteU(p) <==> user)
  {
    var b := ProtBits(prot, user);
    if prot & 1 != 0 {
      if prot & 2 != 0 {
        assert b == if prot & 4 != 0 then (if user then 0xDE else 0xCE) else if user then 0xD6 else 0xC6;
      } else {
        assert b == if prot & 4 != 0 then (if user then 0x5A else 0x4A) else if user then 0x52 else 0x42;
      }
    } else {
      if prot & 2 != 0 {
        assert b == if prot & 4 != 0 then (if user then 0xDC else 0xCC) else if user then 0x94 else 0x84;
      } else {
        assert b == if prot & 4 != 0 then (if user then 0x58 else 0x48) else if user then 0x12 else 0x02;
      }
    }
  }
}
