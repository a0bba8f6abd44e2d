/** The chunk loops of sys_user_read and sys_user_write in kernel/syscall.c: a user buffer handed to a
    device routine piece by piece, each piece inside one page. */
module UserBuffer {
  import opened Sv39
  import opened PageTable
  import opened Memory

  /** One call of the device routine: physical address, bytes asked for, bytes it moved. */
  datatype Piece = Piece(pa: nat, len: nat, moved: nat)

  /** do_read or do_write: what it moves may depend on all calls before it, but is at most what it was
      asked for. */
  type Device = (seq<Piece>, nat) -> nat

  ghost predicate Honest(dev: Device) { forall h: seq<Piece>, n: nat :: dev(h, n) <= n }

  /** Physical address of the page of a byte of the user's space, 0 if it is not mapped. */
  ghost function Home(sp: Space, va: nat): nat { Lookup(sp, va % TWO64) }

  /** Where in its page the byte is. */
  function Offset(va: nat): nat { va % TWO64 % 4096 }

  /** Physical address of the byte: where it is mapped, what user_va_to_pa gives. */
  ghost function PhysOf(sp: Space, va: nat): nat { Home(sp, va) + Offset(va) }

  /** Physical addresses of the bytes moved, in order. */
  function Touched(pieces: seq<Piece>): (s: seq<nat>)
    ensures |s| == Moved(pieces)
  {
    if pieces == [] then [] else
    var last := pieces[|pieces| - 1];
    Touched(pieces[..|pieces| - 1]) + seq(last.moved, k => last.pa + k)
  }

  function Moved(pieces: seq<Piece>): nat
  {
    if pieces == [] then 0 else Moved(pieces[..|pieces| - 1]) + pieces[|pieces| - 1].moved
  }

  /** The bytes moved are the first bytes of the buffer, one by one through the page table. */
  ghost predicate Follows(pieces: seq<Piece>, sp: Space, bufva: u64)
  {
    forall k :: 0 <= k < Moved(pieces) ==> Touched(pieces)[k] == PhysOf(sp, bufva + k)
  }

  /** Each piece lies in one page and asks for all that is left of the page or of the buffer. */
  ghost predicate Chunked(pieces: seq<Piece>, bufva: u64, count: nat)
  {
    forall j :: 0 <= j < |pieces| ==>
      var p, i := pieces[j], Moved(pieces[..j]);
      && i < count && p.moved <= p.len && 0 < p.len
      && p.pa % 4096 + p.len <= 4096
      && (p.len == count - i || p.pa % 4096 + p.len == 4096)
  }

  /** Every call but the last moved all it was asked to. */
  ghost predicate FullButLast(pieces: seq<Piece>)
  {
    forall j :: 0 <= j < |pieces| - 1 ==> pieces[j].moved == pieces[j].len
  }

  lemma {:induction false} Append(pieces: seq<Piece>, p: Piece)
    ensures Moved(pieces + [p]) == Moved(pieces) + p.moved
    ensures Touched(pieces + [p]) == Touched(pieces) + seq(p.moved, k => p.pa + k)
  {
    assert (pieces + [p])[..|pieces|] == pieces;
  }

  /** Bytes of one page stay together. */
  lemma SamePage(sp: Space, va: nat, k: nat)
    requires Offset(va) + k < 4096
    ensures PhysOf(sp, va + k) == PhysOf(sp, va) + k && Home(sp, va + k) == Home(sp, va)
    ensures (va + k) % TWO64 / 4096 == va % TWO64 / 4096
  {
    hide Lookup;
    var a, v := va % TWO64, va % TWO64 / 4096;
    assert a == 4096 * v + a % 4096 && v < TWO64 / 4096;
    Unique(a + k, 4096, v, a % 4096 + k);
    Unique(va + k, TWO64, va / TWO64, a + k);
    LookupByPage(sp, a, a + k);
  }

  lemma LookupByPage(sp: Space, a: u64, b: u64)
    requires a / 4096 == b / 4096
    ensures Lookup(sp, a) == Lookup(sp, b)
  {
  }

  /** The n bytes from va on are side by side in memory. */
  ghost predicate Together(sp: Space, va: nat, pa: nat, n: nat)
  {
    forall x :: va <= x < va + n ==> PhysOf(sp, x) == pa + (x - va)
  }

  lemma PieceTogether(sp: Space, va: nat, n: nat)
    requires Offset(va) + n <= 4096
    ensures Together(sp, va, PhysOf(sp, va), n)
  {
    hide PhysOf;
    forall x | va <= x < va + n ensures PhysOf(sp, x) == PhysOf(sp, va) + (x - va) { SamePage(sp, va, x - va); }
  }

  lemma {:induction false} FollowsAppend(pieces: seq<Piece>, sp: Space, bufva: u64, p: Piece)
    requires Follows(pieces, sp, bufva) && Together(sp, bufva + Moved(pieces), p.pa, p.moved)
    ensures Follows(pieces + [p], sp, bufva)
  {
    hide PhysOf;
    Append(pieces, p);
    var i := Moved(pieces);
    forall k | 0 <= k < Moved(pieces + [p]) ensures Touched(pieces + [p])[k] == PhysOf(sp, bufva + k) {
      if k >= i { assert PhysOf(sp, bufva + k) == p.pa + (bufva + k - (bufva + i)); }
    }
  }

  lemma {:induction false} ChunkedAppend(pieces: seq<Piece>, bufva: u64, count: nat, p: Piece)
    requires Chunked(pieces, bufva, count) && Moved(pieces) < count && p.moved <= p.len && 0 < p.len
    requires p.pa % 4096 + p.len <= 4096 && (p.len == count - Moved(pieces) || p.pa % 4096 + p.len == 4096)
    ensures Chunked(pieces + [p], bufva, count)
  {
    var all := pieces + [p];
    forall j | 0 <= j < |all| ensures all[..j] == if j < |pieces| then pieces[..j] else pieces { }
  }

  lemma NoPieces(sp: Space, bufva: u64, count: nat)
    ensures Moved([]) == 0 && Follows([], sp, bufva) && Chunked([], bufva, count)
  {
  }

  lemma HonestAt(dev: Device, h: seq<Piece>, n: nat)
    requires Honest(dev)
    ensures dev(h, n) <= n
  {
  }

  /** One turn of the loop. */
  lemma NextPiece(pieces: seq<Piece>, sp: Space, bufva: u64, count: nat, pa: u64, moved: nat)
    requires Follows(pieces, sp, bufva) && Chunked(pieces, bufva, count) && Moved(pieces) < count
    requires pa == Home(sp, bufva + Moved(pieces))
    requires moved <= Room(bufva, Moved(pieces), count)
    ensures var off := Offset(bufva + Moved(pieces));
            var all := pieces + [Piece(pa + off, Room(bufva, Moved(pieces), count), moved)];
            Follows(all, sp, bufva) && Chunked(all, bufva, count) && Moved(all) == Moved(pieces) + moved
  {
    hide Chunked, Follows, Lookup, Together, Room, Offset, Home;
    var off := Offset(bufva + Moved(pieces));
    var p := Piece(pa + off, Room(bufva, Moved(pieces), count), moved);
    RoomIs(bufva, Moved(pieces), count);
    OffsetIn(sp, bufva + Moved(pieces));
    PieceTogether(sp, bufva + Moved(pieces), moved);
    FollowsAppend(pieces, sp, bufva, p);
    ChunkedAppend(pieces, bufva, count, p);
    Append(pieces, p);
  }

  lemma OffsetIn(sp: Space, va: nat)
    ensures (Home(sp, va) + Offset(va)) % 4096 == Offset(va)
  {
    hide Lookup;
    Unique(Home(sp, va) + Offset(va), 4096, Home(sp, va) / 4096, Offset(va));
  }

  lemma RoomIs(bufva: u64, i: nat, count: nat)
    requires i < count
    ensures var off, n := Offset(bufva + i), Room(bufva, i, count);
            0 < n <= count - i && off + n <= 4096 && (n == count - i || off + n == 4096)
  {
  }

  /** What is left of the page at bufva + i, or of the buffer. */
  function Room(bufva: u64, i: nat, count: nat): nat
    requires i <= count
  {
    var off := Offset(bufva + i);
    if count - i < 4096 - off then count - i else 4096 - off
  }

  /** sys_user_read and sys_user_write on a buffer of less than 2^31 bytes. */
  method Transfer(m: Memory, root: nat, ghost sp: Space, bufva: u64, count: nat, dev: Device)
    returns (ret: nat, pieces: seq<Piece>)
    requires m.Valid() && Holds(m.mem, m.free, sp) && Root in sp.tables && sp.tables[Root] == root
    requires count < 0x8000_0000 && Honest(dev)
    modifies m`mem, m`head, m`free
    ensures m.mem == old(m.mem) && m.free == old(m.free) && m.head == old(m.head)
    ensures ret == Moved(pieces) <= count && Follows(pieces, sp, bufva)
    ensures Chunked(pieces, bufva, count) && FullButLast(pieces)
    ensures ret < count ==> pieces != [] && pieces[|pieces| - 1].moved < pieces[|pieces| - 1].len
  {
    hide IsFreeList, Bounds, Holds, Lookup, Chunked, Follows, PhysOf, Moved, Touched, Honest;
    NoPieces(sp, bufva, count);
    pieces, ret := [], 0;
    while ret < count
      invariant m.mem == old(m.mem) && m.free == old(m.free) && m.head == old(m.head)
      invariant ret == Moved(pieces) <= count && Follows(pieces, sp, bufva)
      invariant Chunked(pieces, bufva, count) && forall j :: 0 <= j < |pieces| ==> pieces[j].moved == pieces[j].len
      decreases count - ret
    {
      var addr := (bufva + ret) % TWO64;
      var pa := m.LookupPa(root, addr, sp);
      var off := addr - addr / 4096 * 4096;
      var len := if count - ret < 4096 - off then count - ret else 4096 - off;
      var moved := dev(pieces, len);
      HonestAt(dev, pieces, len);
      NextPiece(pieces, sp, bufva, count, pa, moved);
      pieces, ret := pieces + [Piece(pa + off, len, moved)], ret + moved;
      if moved < len { return; }
    }
  }
}
