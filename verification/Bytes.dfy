/** Memory byte by byte, as the device routines see it, and what sys_user_read of kernel/syscall.c delivers. */
module Bytes {
  import opened Sv39
  import opened PageTable
  import opened Memory
  import opened Ownership
  import opened UserBuffer

  type byte = x: nat | x < 256

  function Pow256(n: nat): (p: nat)
    ensures p > 0
  {
    if n == 0 then 1 else 256 * Pow256(n - 1)
  }

  /** The number whose n bytes, lowest address first, are s. */
  function Number(s: seq<byte>): (w: nat)
    ensures w < Pow256(|s|)
  {
    if s == [] then 0 else s[0] + 256 * Number(s[1..])
  }

  function Split(w: nat, n: nat): (s: seq<byte>)
    ensures |s| == n
  {
    if n == 0 then [] else [w % 256] + Split(w / 256, n - 1)
  }

  lemma {:induction false} SplitNumber(s: seq<byte>)
    ensures Split(Number(s), |s|) == s
  {
    if s != [] {
      SplitNumber(s[1..]);
      Unique(Number(s), 256, Number(s[1..]), s[0]);
    }
  }

  /** A 64-bit word with byte j replaced. */
  function SetByte(w: u64, j: nat, b: byte): (r: u64)
    requires j < 8
    ensures Split(r, 8) == Split(w, 8)[j := b]
  {
    var s := Split(w, 8)[j := b];
    SplitNumber(s);
    EightBytes();
    Number(s)
  }

  lemma EightBytes()
    ensures Pow256(8) == TWO64
  {
    assert Pow256(4) == 256 * Pow256(3) == 65536 * Pow256(2) == 0x1_0000_0000;
    assert Pow256(8) == 256 * Pow256(7) == 65536 * Pow256(6) == 0x100_0000 * Pow256(5) == 0x1_0000_0000 * Pow256(4);
  }

  /** The byte at physical address pa. */
  function ByteAt(mem: Mem, pa: nat): (b: byte)
    requires pa / 4096 in mem
  {
    Split(mem[pa / 4096][pa % 4096 / 8], 8)[pa % 8]
  }

  function PutByte(mem: Mem, pa: nat, b: byte): (mem': Mem)
    ensures mem'.Keys == mem.Keys && forall f :: f in mem && f != pa / 4096 ==> mem'[f] == mem[f]
  {
    if pa / 4096 !in mem then mem else
    var page := mem[pa / 4096];
    mem[pa / 4096 := page[pa % 4096 / 8 := SetByte(page[pa % 4096 / 8], pa % 8, b)]]
  }

  lemma WordAndByte(pa: nat)
    ensures pa == 4096 * (pa / 4096) + 8 * (pa % 4096 / 8) + pa % 8
  {
  }

  lemma PutGet(mem: Mem, pa: nat, b: byte, x: nat)
    requires x / 4096 in mem
    ensures ByteAt(PutByte(mem, pa, b), x) == if x == pa then b else ByteAt(mem, x)
  {
    hide Split, SetByte;
    WordAndByte(pa);
    WordAndByte(x);
  }

  /** The bytes stored one after the other, each at its address. */
  ghost function PutAll(mem: Mem, at: seq<nat>, bytes: seq<byte>): (mem': Mem)
    requires |at| == |bytes|
    ensures mem'.Keys == mem.Keys
  {
    if bytes == [] then mem else
    var n := |bytes| - 1;
    PutByte(PutAll(mem, at[..n], bytes[..n]), at[n], bytes[n])
  }

  lemma {:induction false} PutLast(mem: Mem, at: seq<nat>, bytes: seq<byte>, pa: nat, b: byte)
    requires |at| == |bytes|
    ensures PutAll(mem, at + [pa], bytes + [b]) == PutByte(PutAll(mem, at, bytes), pa, b)
  {
    hide PutByte;
    assert (at + [pa])[..|at|] == at && (bytes + [b])[..|at|] == bytes;
  }

  lemma {:induction false} PutNone(mem: Mem)
    ensures PutAll(mem, [], []) == mem
  {
  }

  lemma {:induction false} PutMore(mem: Mem, at: seq<nat>, bytes: seq<byte>, at2: seq<nat>, bytes2: seq<byte>)
    requires |at| == |bytes| && |at2| == |bytes2|
    ensures PutAll(mem, at + at2, bytes + bytes2) == PutAll(PutAll(mem, at, bytes), at2, bytes2)
  {
    hide PutByte, PutAll;
    var mem1 := PutAll(mem, at, bytes);
    if bytes2 == [] {
      assert at + at2 == at && bytes + bytes2 == bytes;
      PutNone(mem1);
    } else {
      var n := |bytes2| - 1;
      PutMore(mem, at, bytes, at2[..n], bytes2[..n]);
      assert at2 == at2[..n] + [at2[n]] && bytes2 == bytes2[..n] + [bytes2[n]];
      PutLast(mem1, at2[..n], bytes2[..n], at2[n], bytes2[n]);
      assert at + at2 == at + at2[..n] + [at2[n]] && bytes + bytes2 == bytes + bytes2[..n] + [bytes2[n]];
      PutLast(mem, at + at2[..n], bytes + bytes2[..n], at2[n], bytes2[n]);
    }
  }

  /** Addresses that are all different: each byte is found where it was put, and no other byte changed. */
  lemma {:induction false} AllFound(mem: Mem, at: seq<nat>, bytes: seq<byte>, x: nat)
    requires |at| == |bytes| && x / 4096 in mem
    requires forall i, j :: 0 <= i < j < |at| ==> at[i] != at[j]
    ensures forall k :: 0 <= k < |at| && at[k] == x ==> ByteAt(PutAll(mem, at, bytes), x) == bytes[k]
    ensures x !in at ==> ByteAt(PutAll(mem, at, bytes), x) == ByteAt(mem, x)
  {
    hide PutByte, ByteAt;
    if bytes != [] {
      var n := |bytes| - 1;
      AllFound(mem, at[..n], bytes[..n], x);
      PutGet(PutAll(mem, at[..n], bytes[..n]), at[n], bytes[n], x);
    }
  }

  /** What the calls of do_read deliver: the j-th finds supply[j], and is asked for what is left of the page or of
      the buffer; the first that falls short ends the loop. */
  function Delivered(bufva: u64, i: nat, count: nat, supply: seq<seq<byte>>): (d: seq<byte>)
    requires i <= count
    ensures |d| <= count - i
    decreases count - i
  {
    if i == count then [] else
    var len := Room(bufva, i, count);
    var got := Given(supply, len);
    if |got| < len then got else got + Delivered(bufva, i + len, count, if supply == [] then [] else supply[1..])
  }

  function Given(supply: seq<seq<byte>>, len: nat): (d: seq<byte>)
    ensures |d| <= len
  {
    if supply == [] then [] else if |supply[0]| < len then supply[0] else supply[0][..len]
  }

  /** A call delivers a prefix of what the device has for it: all of it, if no more than was asked for. */
  lemma GivenIs(supply: seq<seq<byte>>, len: nat)
    ensures supply == [] ==> Given(supply, len) == []
    ensures supply != [] ==> Given(supply, len) <= supply[0]
    ensures supply != [] && |supply[0]| <= len ==> Given(supply, len) == supply[0]
    ensures supply != [] && len <= |supply[0]| ==> |Given(supply, len)| == len
  {
  }

  /** What a device that has the bytes t left offers call by call: always all that is left. */
  function Offers(bufva: u64, i: nat, count: nat, t: seq<byte>): seq<seq<byte>>
    requires i <= count
    decreases count - i
  {
    if i == count then [] else
    var len := Room(bufva, i, count);
    [t] + if |t| < len then [] else Offers(bufva, i + len, count, t[len..])
  }

  /** Reading a stream: however the buffer's pages cut the request, the stream's first count bytes arrive, or all of
      it if it is shorter. */
  lemma {:induction false} StreamArrives(bufva: u64, i: nat, count: nat, t: seq<byte>)
    requires i <= count
    ensures Delivered(bufva, i, count, Offers(bufva, i, count, t)) == t[..if |t| < count - i then |t| else count - i]
    decreases count - i
  {
    hide Room, Given;
    if i < count {
      var len, o := Room(bufva, i, count), Offers(bufva, i, count, t);
      DeliveredStep(bufva, i, count, o);
      GivenIs(o, len);
      if |t| >= len {
        OffersRest(bufva, i, count, t);
        StreamArrives(bufva, i + len, count, t[len..]);
        CutTwice(t, len, count - i);
      }
    }
  }

  lemma {:induction false} OffersRest(bufva: u64, i: nat, count: nat, t: seq<byte>)
    requires i < count && |t| >= Room(bufva, i, count) > 0
    ensures var len := Room(bufva, i, count);
            Offers(bufva, i, count, t)[1..] == Offers(bufva, i + len, count, t[len..])
  {
    hide Room;
  }

  lemma CutTwice(t: seq<byte>, len: nat, n: nat)
    requires len <= |t| && len <= n
    ensures t[..len] + t[len..][..if |t| - len < n - len then |t| - len else n - len] == t[..if |t| < n then |t| else n]
  {
  }

  lemma DeliveredStep(bufva: u64, i: nat, count: nat, supply: seq<seq<byte>>)
    requires i < count
    ensures var len := Room(bufva, i, count);
            var got, rest := Given(supply, len), if supply == [] then [] else supply[1..];
            && 0 < len <= count - i
            && Delivered(bufva, i, count, supply)
               == if |got| < len then got else got + Delivered(bufva, i + len, count, rest)
  {
  }

  /** The n addresses from pa on. */
  function Run(pa: nat, n: nat): (at: seq<nat>)
    ensures |at| == n && forall k :: 0 <= k < n ==> at[k] == pa + k
  {
    if n == 0 then [] else Run(pa, n - 1) + [pa + n - 1]
  }

  /** Where the first n bytes of the user's buffer are. */
  ghost function Addresses(sp: Space, bufva: u64, n: nat): (at: seq<nat>)
    ensures |at| == n && forall k :: 0 <= k < n ==> at[k] == PhysOf(sp, bufva + k)
  {
    if n == 0 then [] else Addresses(sp, bufva, n - 1) + [PhysOf(sp, bufva + n - 1)]
  }

  /** The page of each of the n bytes from bufva on is backed by a frame between start and end. */
  ghost predicate AllLand(sp: Space, bufva: nat, n: nat, start: nat, end: nat)
  {
    forall x :: bufva <= x < bufva + n ==> start <= Home(sp, x) < end
  }

  /** One more piece of the buffer, inside one page. */
  lemma NextRun(sp: Space, bufva: u64, i: nat, n: nat, start: nat, end: nat)
    requires Offset(bufva + i) + n <= 4096 && AllLand(sp, bufva, i, start, end)
    ensures Addresses(sp, bufva, i + n) == Addresses(sp, bufva, i) + Run(PhysOf(sp, bufva + i), n)
    ensures n > 0 ==> (AllLand(sp, bufva, i + n, start, end) <==> start <= Home(sp, bufva + i) < end)
  {
    hide PhysOf, Home, Offset;
    forall x | bufva + i <= x < bufva + i + n
      ensures PhysOf(sp, x) == PhysOf(sp, bufva + i) + (x - bufva - i) && Home(sp, x) == Home(sp, bufva + i)
    {
      SamePage(sp, bufva + i, x - bufva - i);
    }
    var all, parts := Addresses(sp, bufva, i + n), Addresses(sp, bufva, i) + Run(PhysOf(sp, bufva + i), n);
    forall k | 0 <= k < i + n ensures all[k] == parts[k] {
      assert all[k] == PhysOf(sp, bufva + k);
    }
  }

  lemma {:induction false} NothingRead(mem: Mem, sp: Space, bufva: u64, start: nat, end: nat)
    ensures AllLand(sp, bufva, 0, start, end) && PutAll(mem, Addresses(sp, bufva, 0), []) == mem
  {
    hide Home;
  }

  /** A page without memory behind it anywhere in the buffer. */
  lemma Unbacked(sp: Space, bufva: u64, n: nat, n': nat, start: nat, end: nat)
    requires !AllLand(sp, bufva, n, start, end) && n <= n'
    ensures !AllLand(sp, bufva, n', start, end)
  {
    hide Home;
  }

  /** memcpy into one page. */
  method Copy(m: Memory, pa: nat, bytes: seq<byte>)
    requires m.Valid() && pa / 4096 in m.mem && pa / 4096 !in m.free && pa % 4096 + |bytes| <= 4096
    modifies m`mem
    ensures m.Valid() && m.mem.Keys == old(m.mem).Keys && m.mem == old(m.mem)[pa / 4096 := m.mem[pa / 4096]]
    ensures m.mem == PutAll(old(m.mem), Run(pa, |bytes|), bytes)
  {
    hide IsFreeList, Bounds, PutByte, PutAll;
    ghost var m0 := m.mem;
    var f, i := pa / 4096, 0;
    PutNone(m0);
    while i < |bytes|
      invariant 0 <= i <= |bytes| && m.Valid() && m.mem.Keys == m0.Keys && m.mem == m0[f := m.mem[f]]
      invariant m.mem == PutAll(m0, Run(pa, i), bytes[..i])
    {
      Unique(pa + i, 4096, f, pa % 4096 + i);
      assert Run(pa, i + 1) == Run(pa, i) + [pa + i] && bytes[..i + 1] == bytes[..i] + [bytes[i]];
      PutLast(m0, Run(pa, i), bytes[..i], pa + i, bytes[i]);
      m.WritePage(f, PutByte(m.mem, pa + i, bytes[i])[f]);
      i := i + 1;
    }
    assert bytes[..|bytes|] == bytes;
  }

  /** The n bytes from bufva on are off the code regions. */
  ghost predicate OffCode(rs: seq<Region>, bufva: nat, n: nat)
  {
    forall x :: bufva <= x < bufva + n ==> !CodeByte(rs, x)
  }

  ghost predicate CodeByte(rs: seq<Region>, va: nat) { InCode(rs, va % TWO64 / 4096) }

  lemma OffCodeParts(rs: seq<Region>, bufva: nat, i: nat, n: nat)
    requires OffCode(rs, bufva, i + n) && n > 0
    ensures OffCode(rs, bufva, i) && !CodeByte(rs, bufva + i)
  {
    hide CodeByte;
  }

  /** The piece at byte i of the buffer, as the loop computes it. */
  lemma PieceIs(bufva: u64, i: nat, count: nat)
    requires i < count
    ensures var addr := (bufva + i) % TWO64; var off := addr - addr / 4096 * 4096;
            Room(bufva, i, count) == if count - i < 4096 - off then count - i else 4096 - off
  {
  }

  lemma PieceFits(bufva: u64, i: nat, count: nat)
    requires i < count
    ensures Offset(bufva + i) + Room(bufva, i, count) <= 4096
  {
  }

  /** Two bytes in private pages are the same byte of memory only if their addresses are the same. */
  lemma ApartBytes(p: nat, mem: Mem, free: seq<nat>, own: Owners, start: nat, end: nat, rs: seq<Region>, sp: Space,
                   x: nat, y: nat)
    requires Backing(own, p, rs, sp.pages) && Accounted(mem, free, own, start, end) && 0 < start
    requires start <= Home(sp, x) < end && start <= Home(sp, y) < end && !CodeByte(rs, x) && !CodeByte(rs, y)
    ensures PhysOf(sp, x) == PhysOf(sp, y) ==> x % TWO64 == y % TWO64
  {
    hide InCode, Accounted, Backing;
    var a, b := x % TWO64, y % TWO64;
    if PhysOf(sp, x) == PhysOf(sp, y) {
      SplitPhys(Lookup(sp, a), Lookup(sp, b), a % 4096, b % 4096);
      PrivateUse(p, mem, free, own, start, end, rs, sp, a);
      PrivateUse(p, mem, free, own, start, end, rs, sp, b);
      assert a == 4096 * (a / 4096) + a % 4096 && b == 4096 * (b / 4096) + b % 4096;
    }
  }

  lemma SplitPhys(h: nat, g: nat, i: nat, j: nat)
    requires h % 4096 == g % 4096 == 0 && i < 4096 && j < 4096 && h + i == g + j
    ensures h == g && i == j
  {
    Unique(h + i, 4096, h / 4096, i);
    Unique(g + j, 4096, g / 4096, j);
  }

  lemma PrivateUse(p: nat, mem: Mem, free: seq<nat>, own: Owners, start: nat, end: nat, rs: seq<Region>, sp: Space,
                   va: u64)
    requires Backing(own, p, rs, sp.pages) && Accounted(mem, free, own, start, end) && 0 < start <= Lookup(sp, va) < end
    requires !InCode(rs, va / 4096)
    ensures var f := Lookup(sp, va) / 4096; f in own && own[f] == PageOf(p, va / 4096)
  {
    hide InCode;
    assert Backed(own, p, rs, va / 4096, sp.pages[va / 4096]);
  }

  lemma LandsInMemory(mem: Mem, free: seq<nat>, own: Owners, start: nat, end: nat, sp: Space, x: nat)
    requires Accounted(mem, free, own, start, end) && start <= Home(sp, x) < end
    ensures PhysOf(sp, x) / 4096 in mem
  {
    hide Lookup;
    var h, off := Home(sp, x), Offset(x);
    Unique(h + off, 4096, h / 4096, off);
    assert Managed(h / 4096, start, end);
  }

  /** What sys_user_read is for: the bytes delivered are those the process then finds in its buffer. */
  lemma {:induction false} ReadArrives(p: nat, mem: Mem, free: seq<nat>, own: Owners, start: nat, end: nat,
                                       rs: seq<Region>, sp: Space, bufva: u64, d: seq<byte>, k: nat)
    requires Backing(own, p, rs, sp.pages) && Accounted(mem, free, own, start, end) && 0 < start
    requires |d| < 0x8000_0000 && AllLand(sp, bufva, |d|, start, end) && OffCode(rs, bufva, |d|)
    requires k < |d|
    ensures var mem' := PutAll(mem, Addresses(sp, bufva, |d|), d);
            PhysOf(sp, bufva + k) / 4096 in mem' && ByteAt(mem', PhysOf(sp, bufva + k)) == d[k]
  {
    hide PutAll, PhysOf, Home, CodeByte, Accounted, Backing, ByteAt;
    var at := Addresses(sp, bufva, |d|);
    forall i, j | 0 <= i < j < |at| ensures at[i] != at[j] {
      assert at[i] == PhysOf(sp, bufva + i) && at[j] == PhysOf(sp, bufva + j);
      FarFrom(bufva, i, j);
      ApartBytes(p, mem, free, own, start, end, rs, sp, bufva + i, bufva + j);
    }
    assert at[k] == PhysOf(sp, bufva + k);
    LandsInMemory(mem, free, own, start, end, sp, bufva + k);
    AllFound(mem, at, d, at[k]);
  }

  lemma FarFrom(x: nat, i: nat, j: nat)
    requires i < j < 0x8000_0000
    ensures (x + i) % TWO64 != (x + j) % TWO64
  {
    var r := (x + i) % TWO64;
    if r + (j - i) < TWO64 { Unique(x + j, TWO64, (x + i) / TWO64, r + (j - i)); }
    else { Unique(x + j, TWO64, (x + i) / TWO64 + 1, r + (j - i) - TWO64); }
  }
}
