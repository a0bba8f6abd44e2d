/** The arguments of exec, load_shell_bincode_from_host_elf of kernel/elf.c: strings copied to the top of the new
    stack, eight bytes apart, and a table of pointers to them below. */
module Arguments {
  import opened Lists
  import opened Sv39
  import opened PageTable
  import opened Memory
  import opened Ownership
  import opened Bytes

  const MAXARGS: nat := 10

  /** A string without its final NUL. */
  predicate Plaintext(s: seq<byte>) { forall k :: 0 <= k < |s| ==> s[k] != 0 }

  /** Number i has 8 * (i + 1) bytes up to the end of the stack, and oldargv has room for MAXARGS strings. */
  predicate Fit(args: seq<seq<byte>>)
  {
    1 <= |args| <= MAXARGS && forall i :: 0 <= i < |args| ==> Plaintext(args[i]) && |args[i]| < 8 * (i + 1)
  }

  /** Offset of string i on the stack page. */
  function StringAt(i: nat): int { 4088 - 8 * i }

  /** Up to ten strings fit exactly if the copies of all of them stay inside the stack's frame. */
  lemma FitIff(args: seq<seq<byte>>)
    ensures Fit(args) <==>
              && 1 <= |args| <= 10
              && forall i :: 0 <= i < |args| ==> Plaintext(args[i]) && StringAt(i) + |args[i] + [0]| <= 4096
  {
  }

  ghost predicate ByteIs(mem: Mem, pa: int, b: byte) { pa >= 0 && pa / 4096 in mem && ByteAt(mem, pa) == b }

  /** The bytes t lie from pa on. */
  ghost predicate BytesAt(mem: Mem, pa: int, t: seq<byte>) { forall k :: 0 <= k < |t| ==> ByteIs(mem, pa + k, t[k]) }

  /** The C string at pa is s. */
  ghost predicate TextAt(mem: Mem, pa: int, s: seq<byte>) { BytesAt(mem, pa, s + [0]) }

  /** String j, once copied, has run over where string i starts. */
  predicate RunsOver(args: seq<seq<byte>>, i: nat, j: nat)
    requires j < |args|
  {
    i < j && |args[j]| >= 8 * (j - i)
  }

  /** What is found where string i starts after the first n were copied: the rest of the last one that ran over it,
      or the string itself. */
  function Seen(args: seq<seq<byte>>, i: nat, n: nat): seq<byte>
    requires i < n <= |args|
  {
    if n == i + 1 then args[i]
    else if RunsOver(args, i, n - 1) then args[n - 1][8 * (n - 1 - i)..]
    else Seen(args, i, n - 1)
  }

  /** An argument arrives exactly if what the last string to run over it leaves there is the same text. */
  lemma {:induction false} ArrivesIff(args: seq<seq<byte>>, i: nat, n: nat)
    requires i < n <= |args|
    ensures Seen(args, i, n) == args[i] <==>
              forall j :: i < j < n && RunsOver(args, i, j) && (forall k :: j < k < n ==> !RunsOver(args, i, k)) ==>
                args[j][8 * (j - i)..] == args[i]
  {
    if n > i + 1 {
      ArrivesIff(args, i, n - 1);
      if RunsOver(args, i, n - 1) {
        forall j | i < j < n - 1 && RunsOver(args, i, j) ensures exists k :: j < k < n && RunsOver(args, i, k) {
          assert j < n - 1 < n && RunsOver(args, i, n - 1);
        }
      }
    }
  }

  /** Arguments of at most seven characters all arrive. */
  lemma {:induction false} ShortArrive(args: seq<seq<byte>>, i: nat, n: nat)
    requires i < n <= |args| && forall j :: 0 <= j < |args| ==> |args[j]| <= 7
    ensures Seen(args, i, n) == args[i]
  {
    if n > i + 1 { ShortArrive(args, i, n - 1); }
  }

  /** echo with helloworld: the program is called with ld for its name. */
  lemma LongRunsOver()
    ensures var args: seq<seq<byte>> := [[101, 99, 104, 111], [104, 101, 108, 108, 111, 119, 111, 114, 108, 100]];
            Fit(args) && Seen(args, 0, 2) == [108, 100] && Seen(args, 1, 2) == args[1]
  {
  }

  /** The n addresses from pa on are in frame f. */
  ghost predicate Within(pa: int, n: nat, f: nat) { f * 4096 <= pa && pa + n <= f * 4096 + 4096 }

  lemma {:induction false} CopyReads(mem: Mem, pa: nat, f: nat, bytes: seq<byte>)
    requires f in mem && Within(pa, |bytes|, f)
    ensures BytesAt(PutAll(mem, Run(pa, |bytes|), bytes), pa, bytes)
  {
    hide PutAll, ByteIs, Run, Within;
    forall k | 0 <= k < |bytes| ensures ByteIs(PutAll(mem, Run(pa, |bytes|), bytes), pa + k, bytes[k]) {
      FrameAt(pa, |bytes|, f, k);
      CopyReadsAt(mem, pa, bytes, k);
    }
  }

  lemma FrameAt(pa: int, n: nat, f: nat, k: nat)
    requires Within(pa, n, f) && k < n
    ensures pa + k >= 0 && (pa + k) / 4096 == f
  {
    Unique(pa + k, 4096, f, pa + k - f * 4096);
  }

  lemma {:induction false} CopyReadsAt(mem: Mem, pa: nat, bytes: seq<byte>, k: nat)
    requires k < |bytes| && (pa + k) / 4096 in mem
    ensures ByteIs(PutAll(mem, Run(pa, |bytes|), bytes), pa + k, bytes[k])
  {
    hide PutAll, ByteAt;
    var at := Run(pa, |bytes|);
    assert at[k] == pa + k;
    AllFound(mem, at, bytes, pa + k);
  }

  /** A copy elsewhere leaves the bytes alone. */
  lemma {:induction false} CopyKeeps(mem: Mem, pa: nat, bytes: seq<byte>, x: int, t: seq<byte>)
    requires BytesAt(mem, x, t) && (pa + |bytes| <= x || x + |t| <= pa)
    ensures BytesAt(PutAll(mem, Run(pa, |bytes|), bytes), x, t)
  {
    hide PutAll, ByteAt;
    var at := Run(pa, |bytes|);
    forall k | 0 <= k < |t| ensures ByteIs(PutAll(mem, at, bytes), x + k, t[k]) {
      assert ByteIs(mem, x + k, t[k]);
      AllFound(mem, at, bytes, x + k);
    }
  }

  lemma Suffix(mem: Mem, pa: int, t: seq<byte>, d: nat)
    requires BytesAt(mem, pa, t) && d <= |t|
    ensures BytesAt(mem, pa + d, t[d..])
  {
    hide ByteIs;
    forall k | 0 <= k < |t[d..]| ensures ByteIs(mem, pa + d + k, t[d..][k]) {
      assert ByteIs(mem, pa + (d + k), t[d + k]);
    }
  }

  /** The first n strings are on the stack page at base, as far as they were not run over. */
  ghost predicate Copied(mem: Mem, base: nat, args: seq<seq<byte>>, n: nat)
  {
    n <= |args| && forall i :: 0 <= i < n ==> TextAt(mem, base + StringAt(i), Seen(args, i, n))
  }

  lemma {:induction false} OneMoreString(mem: Mem, base: nat, f: nat, args: seq<seq<byte>>, n: nat)
    requires f in mem && base == f * 4096 && Fit(args) && n < |args| && Copied(mem, base, args, n)
    ensures var t := args[n] + [0]; Copied(PutAll(mem, Run(base + StringAt(n), |t|), t), base, args, n + 1)
  {
    hide PutAll, TextAt, Run, Seen, StringAt;
    StringWithin(args, n, base, f);
    var t := args[n] + [0];
    var mem' := PutAll(mem, Run(base + StringAt(n), |t|), t);
    CopyReads(mem, base + StringAt(n), f, t);
    forall i | 0 <= i < n + 1 ensures TextAt(mem', base + StringAt(i), Seen(args, i, n + 1)) {
      StringAfter(mem, base, args, n, i);
    }
  }

  lemma StringWithin(args: seq<seq<byte>>, n: nat, base: nat, f: nat)
    requires Fit(args) && n < |args| && base == f * 4096
    ensures StringAt(n) >= 0 && Within(base + StringAt(n), |args[n] + [0]|, f)
  {
  }

  lemma StringAfter(mem: Mem, base: nat, args: seq<seq<byte>>, n: nat, i: nat)
    requires i <= n < |args| <= MAXARGS && (i < n ==> TextAt(mem, base + StringAt(i), Seen(args, i, n)))
    requires var t := args[n] + [0]; BytesAt(PutAll(mem, Run(base + StringAt(n), |t|), t), base + StringAt(n), t)
    ensures var t := args[n] + [0];
            TextAt(PutAll(mem, Run(base + StringAt(n), |t|), t), base + StringAt(i), Seen(args, i, n + 1))
  {
    hide PutAll, BytesAt, Run;
    var t, pa := args[n] + [0], base + StringAt(n);
    if i < n && RunsOver(args, i, n) {
      Suffix(PutAll(mem, Run(pa, |t|), t), pa, t, 8 * (n - i));
      assert t[8 * (n - i)..] == args[n][8 * (n - i)..] + [0];
    } else if i < n {
      CopyKeeps(mem, pa, t, base + StringAt(i), Seen(args, i, n) + [0]);
    }
  }

  lemma {:induction false} SeenFits(args: seq<seq<byte>>, i: nat, n: nat)
    requires Fit(args) && i < n <= |args|
    ensures |Seen(args, i, n)| < 8 * (i + 1)
  {
    if n > i + 1 { SeenFits(args, i, n - 1); }
  }

  /** Bytes of the last words of a frame depend on those words alone. */
  lemma LastWordsKeep(mem: Mem, mem': Mem, f: nat, lo: nat, off: nat, t: seq<byte>)
    requires f in mem && f in mem' && lo <= 512 && forall j :: lo <= j < 512 ==> mem'[f][j] == mem[f][j]
    requires BytesAt(mem, f * 4096 + off, t) && 8 * lo <= off && off + |t| <= 4096
    ensures BytesAt(mem', f * 4096 + off, t)
  {
    hide ByteIs;
    forall k | 0 <= k < |t| ensures ByteIs(mem', f * 4096 + off + k, t[k]) {
      assert ByteIs(mem, f * 4096 + off + k, t[k]);
      LastByteKept(mem, mem', f, lo, off + k, t[k]);
    }
  }

  lemma LastByteKept(mem: Mem, mem': Mem, f: nat, lo: nat, off: nat, b: byte)
    requires f in mem && f in mem' && lo <= 512 && forall j :: lo <= j < 512 ==> mem'[f][j] == mem[f][j]
    requires ByteIs(mem, f * 4096 + off, b) && 8 * lo <= off < 4096
    ensures ByteIs(mem', f * 4096 + off, b)
  {
    hide Split;
    Unique(f * 4096 + off, 4096, f, off);
  }

  lemma CopiedKept(mem: Mem, mem': Mem, f: nat, args: seq<seq<byte>>)
    requires Fit(args) && Copied(mem, f * 4096, args, |args|) && f in mem && f in mem'
    requires forall j :: 512 - |args| <= j < 512 ==> mem'[f][j] == mem[f][j]
    ensures Copied(mem', f * 4096, args, |args|)
  {
    hide BytesAt, Seen;
    var n := |args|;
    forall i | 0 <= i < n ensures TextAt(mem', f * 4096 + StringAt(i), Seen(args, i, n)) {
      SeenFits(args, i, n);
      LastWordsKeep(mem, mem', f, 512 - n, StringAt(i), Seen(args, i, n) + [0]);
    }
  }

  /** Virtual address of string k, and of the table of n + 1 pointers below the strings. */
  function StringVa(k: nat): u64
    requires k <= MAXARGS
  {
    USER_STACK_PAGE + 4088 - 8 * k
  }

  function TableVa(n: nat): u64
    requires n <= MAXARGS
  {
    USER_STACK_PAGE + 4080 - 16 * n
  }

  /** sp and a1 point to the table, a0 is the number of strings, and the other saved registers are 0. */
  ghost predicate Registers(tf: Page, n: nat)
  {
    && n <= MAXARGS && tf[1] == TableVa(n) && tf[9] == n && tf[10] == TableVa(n)
    && forall j :: 0 <= j < 31 && j !in {1, 9, 10} ==> tf[j] == 0
  }

  /** Nothing but sp is set yet. */
  ghost predicate Blank(tf: Page) { forall j :: 0 <= j < 31 && j != 1 ==> tf[j] == 0 }

  /** Entry k of the table points to string k; the last one points to the word 0 between table and strings. */
  ghost predicate Pointers(stack: Page, n: nat)
  {
    n <= MAXARGS && stack[511 - n] == 0 && forall k :: 0 <= k <= n ==> stack[510 - 2 * n + k] == StringVa(k)
  }

  /** The program with this stack frame and trapframe is called with args, as far as they were not run over. */
  ghost predicate HasArguments(mem: Mem, stack: nat, tf: nat, args: seq<seq<byte>>)
  {
    && stack in mem && tf in mem && Registers(mem[tf], |args|) && Pointers(mem[stack], |args|)
    && Copied(mem, stack * 4096, args, |args|)
  }

  /** The same of the program's page map. */
  ghost predicate CalledWith(mem: Mem, pages: map<nat, u64>, tf: nat, args: seq<seq<byte>>)
  {
    USER_STACK_PAGE / 4096 in pages && HasArguments(mem, FrameOf(pages[USER_STACK_PAGE / 4096]), tf, args)
  }

  /** All but the first words of the two frames count. */
  lemma ArgumentsKept(mem: Mem, mem': Mem, stack: nat, tf: nat, args: seq<seq<byte>>)
    requires Fit(args) && HasArguments(mem, stack, tf, args) && stack in mem' && tf in mem' && mem'[tf] == mem[tf]
    requires forall j :: 490 <= j < 512 ==> mem'[stack][j] == mem[stack][j]
    ensures HasArguments(mem', stack, tf, args)
  {
    hide Copied;
    CopiedKept(mem, mem', stack, args);
  }

  /** The strings go to the stack one by one. */
  method PushStrings(m: Memory, stack: nat, args: seq<seq<byte>>)
    requires m.Valid() && stack in m.mem && stack !in m.free && Fit(args)
    modifies m`mem
    ensures m.Valid() && m.mem.Keys == old(m.mem).Keys && m.mem == old(m.mem)[stack := m.mem[stack]]
    ensures Copied(m.mem, stack * 4096, args, |args|)
  {
    hide IsFreeList, Bounds, PutAll, Run, TextAt, Seen;
    var i := 0;
    while i < |args|
      invariant 0 <= i <= |args| && m.Valid() && m.mem.Keys == old(m.mem).Keys
      invariant m.mem == old(m.mem)[stack := m.mem[stack]] && Copied(m.mem, stack * 4096, args, i)
    {
      ghost var m1 := m.mem;
      StringWithin(args, i, stack * 4096, stack);
      WithinCopy(stack * 4096 + StringAt(i), |args[i] + [0]|, stack);
      Copy(m, stack * 4096 + StringAt(i), args[i] + [0]);
      OneMoreString(m1, stack * 4096, stack, args, i);
      i := i + 1;
    }
  }

  lemma WithinCopy(pa: nat, n: nat, f: nat)
    requires Within(pa, n, f) && n > 0
    ensures pa / 4096 == f && pa % 4096 + n <= 4096
  {
    Unique(pa, 4096, f, pa - f * 4096);
  }

  /** The word 0 and the table of pointers. */
  method PushPointers(m: Memory, stack: nat, n: nat)
    requires m.Valid() && stack in m.mem && stack !in m.free && n <= MAXARGS
    modifies m`mem
    ensures m.Valid() && m.mem.Keys == old(m.mem).Keys && m.mem == old(m.mem)[stack := m.mem[stack]]
    ensures Pointers(m.mem[stack], n) && forall j :: 512 - n <= j < 512 ==> m.mem[stack][j] == old(m.mem)[stack][j]
  {
    hide IsFreeList, Bounds;
    m.WritePage(stack, m.mem[stack][511 - n := 0]);
    var i := 0;
    while i <= n
      invariant 0 <= i <= n + 1 && m.Valid() && m.mem.Keys == old(m.mem).Keys
      invariant m.mem == old(m.mem)[stack := m.mem[stack]] && m.mem[stack][511 - n] == 0
      invariant forall k :: n - i < k <= n ==> m.mem[stack][510 - 2 * n + k] == StringVa(k)
      invariant forall j :: 512 - n <= j < 512 ==> m.mem[stack][j] == old(m.mem)[stack][j]
    {
      m.WritePage(stack, m.mem[stack][510 - n - i := StringVa(n - i)]);
      i := i + 1;
    }
  }

  /** The stack and the registers of a program called with args. */
  method PushArguments(m: Memory, stack: nat, tf: nat, args: seq<seq<byte>>)
    requires m.Valid() && stack in m.mem && stack !in m.free && tf in m.mem && tf !in m.free && stack != tf && Fit(args)
    requires Blank(m.mem[tf])
    modifies m`mem
    ensures m.Valid() && m.mem.Keys == old(m.mem).Keys && HasArguments(m.mem, stack, tf, args)
    ensures m.mem == old(m.mem)[stack := m.mem[stack]][tf := m.mem[tf]]
    ensures m.mem[tf] == old(m.mem)[tf][1 := TableVa(|args|)][9 := |args|][10 := TableVa(|args|)]
  {
    hide IsFreeList, Bounds, Copied, Fit;
    var n := |args|;
    PushStrings(m, stack, args);
    ghost var m1 := m.mem;
    FewArguments(args);
    PushPointers(m, stack, n);
    m.WritePage(tf, m.mem[tf][1 := TableVa(n)][9 := n][10 := TableVa(n)]);
    CopiedKept(m1, m.mem, stack, args);
  }

  lemma FewArguments(args: seq<seq<byte>>)
    requires Fit(args)
    ensures 1 <= |args| <= MAXARGS
  {
  }

  /** A copy inside a frame writes no other frame. */
  lemma {:induction false} PutWithin(mem: Mem, pa: nat, f: nat, bytes: seq<byte>, g: nat)
    requires Within(pa, |bytes|, f) && g in mem && g != f
    ensures PutAll(mem, Run(pa, |bytes|), bytes)[g] == mem[g]
  {
    hide PutByte, Run;
    if bytes != [] {
      var n := |bytes| - 1;
      FrameAt(pa, |bytes|, f, n);
      assert Run(pa, n + 1)[..n] == Run(pa, n);
      PutWithin(mem, pa, f, bytes[..n], g);
    }
  }

  lemma {:induction false} NumberSplit(w: nat, n: nat)
    requires w < Pow256(n)
    ensures Number(Split(w, n)) == w
  {
    if n > 0 {
      NumberSplit(w / 256, n - 1);
      assert Split(w, n)[1..] == Split(w / 256, n - 1);
    }
  }

  lemma SameByte(w: u64)
    requires w % 256 == 0
    ensures SetByte(w, 0, 0) == w
  {
    EightBytes();
    NumberSplit(w, 8);
    assert Split(w, 8)[0 := 0] == Split(w, 8);
  }

  lemma LinkAligned(mem: Mem, head: nat, free: seq<nat>, i: nat)
    requires IsFreeList(mem, head, free) && i < |free|
    ensures free[i] in mem && mem[free[i]][0] % 256 == 0
  {
    assert mem[free[i]][0] == NodeAddr(free, i + 1);
    if i + 1 < |free| { Unique(NodeAddr(free, i + 1), 256, 16 * free[i + 1], 0); }
  }

  lemma NextFrame(s: nat)
    ensures var x := s * 4096 + 4096; x / 4096 == s + 1 && x % 4096 == 0 && x % 8 == 0
  {
    Unique(s * 4096 + 4096, 4096, s + 1, 0);
    Unique(s * 4096 + 4096, 8, 512 * s + 512, 0);
  }

  /** Eight characters: only the NUL is behind the frame. */
  lemma OnlyNul(mem: Mem, s: nat, a: seq<byte>, g: nat)
    requires |a| == 8 && s + 1 in mem && mem[s + 1][0] % 256 == 0 && g in mem && g != s
    ensures PutAll(mem, Run(s * 4096 + 4088, 9), a + [0])[g] == mem[g]
  {
    hide PutAll, SetByte;
    var pa := s * 4096 + 4088;
    var mem1 := PutAll(mem, Run(pa, 8), a);
    PutLast(mem, Run(pa, 8), a, pa + 8, 0);
    assert Run(pa, 9) == Run(pa, 8) + [pa + 8];
    PutWithin(mem, pa, s, a, g);
    PutWithin(mem, pa, s, a, s + 1);
    NextFrame(s);
    SameByte(mem[s + 1][0]);
  }

  /** More: a character that is not 0. */
  lemma FirstByte(mem: Mem, s: nat, a: seq<byte>)
    requires |a| > 8 && s + 1 in mem
    ensures PutAll(mem, Run(s * 4096 + 4088, |a| + 1), a + [0])[s + 1][0] % 256 == a[8]
  {
    hide PutAll, Run;
    NextFrame(s);
    CopyReadsAt(mem, s * 4096 + 4088, a + [0], 8);
  }

  /** Memory after the first argument a was copied to the stack in frame s. */
  ghost function AfterFirst(mem: Mem, s: nat, a: seq<byte>): (mem': Mem)
    ensures mem'.Keys == mem.Keys
  {
    PutAll(mem, Run(s * 4096 + 4088, |a| + 1), a + [0])
  }

  lemma ShortFirst(mem: Mem, s: nat, a: seq<byte>, g: nat)
    requires |a| <= 8 && s + 1 in mem && mem[s + 1][0] % 256 == 0 && g in mem && g != s
    ensures AfterFirst(mem, s, a)[g] == mem[g]
  {
    hide PutAll, Run;
    if |a| == 8 {
      OnlyNul(mem, s, a, g);
    } else {
      PutWithin(mem, s * 4096 + 4088, s, a + [0], g);
    }
  }

  lemma LongFirst(mem: Mem, head: nat, free: seq<nat>, s: nat, a: seq<byte>, i: nat)
    requires IsFreeList(mem, head, free) && i < |free| && free[i] == s + 1 && Plaintext(a) && |a| > 8
    ensures !IsFreeList(AfterFirst(mem, s, a), head, free)
  {
    hide AfterFirst, NoDup, NodeAddr;
    LinkAligned(mem, head, free, i);
    FirstOfNext(mem, s, a);
    assert AfterFirst(mem, s, a)[free[i]][0] != NodeAddr(free, i + 1);
  }

  lemma FirstOfNext(mem: Mem, s: nat, a: seq<byte>)
    requires |a| > 8 && Plaintext(a) && s + 1 in mem
    ensures AfterFirst(mem, s, a)[s + 1][0] % 256 != 0
  {
    hide PutAll, Run;
    FirstByte(mem, s, a);
  }

  /** Why arguments have to fit: where the frame behind the stack's is free, a first argument that does not breaks
      the free list, but for the one case in which it writes just the NUL there, over a byte that is 0. */
  lemma OverrunIff(mem: Mem, head: nat, free: seq<nat>, s: nat, a: seq<byte>)
    requires IsFreeList(mem, head, free) && s !in free && s + 1 in free && Plaintext(a)
    ensures IsFreeList(AfterFirst(mem, s, a), head, free) <==> |a| <= 8
  {
    hide AfterFirst, IsFreeList;
    var i :| 0 <= i < |free| && free[i] == s + 1;
    LinkAligned(mem, head, free, i);
    if |a| <= 8 {
      ListedExist(mem, head, free);
      forall g | g in free ensures g in mem && AfterFirst(mem, s, a)[g] == mem[g] { ShortFirst(mem, s, a, g); }
      FreeListFrame(mem, head, free, AfterFirst(mem, s, a));
    } else {
      LongFirst(mem, head, free, s, a, i);
    }
  }

  lemma ListedExist(mem: Mem, head: nat, free: seq<nat>)
    requires IsFreeList(mem, head, free)
    ensures forall g :: g in free ==> g in mem
  {
  }
}
