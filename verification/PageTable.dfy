/** The abstract view of a three-level page table held in physical frames: which frame holds
    which table, and which entry each virtual page has. */
module PageTable {
  import opened Lists
  import opened Sv39

  type Page = p: seq<u64> | |p| == 512 witness seq(512, _ => 0)

  /** Physical memory, frame number to the 512 words of the frame. */
  type Mem = map<nat, Page>

  function ZeroPage(): (z: Page)
    ensures forall j :: 0 <= j < 512 ==> z[j] == 0
  {
    seq(512, _ => 0)
  }

  /** A table's place in the tree: Mid(i) hangs below entry i of the root and covers the pages
      with number / 2^18 == i; Leaf(k) covers those with number / 512 == k. */
  datatype TableId = Root | Mid(i: nat) | Leaf(k: nat)

  datatype Space = Space(tables: map<TableId, nat>, pages: map<nat, u64>)

  function Child(id: TableId, j: nat): TableId
    requires !id.Leaf?
  {
    match id
    case Root => Mid(j)
    case Mid(i) => Leaf(i * 512 + j)
  }

  /** The table that the walk for page v is in at the given level. */
  function TableAt(level: nat, v: nat): TableId
    requires level <= 2
  {
    if level == 2 then Root else if level == 1 then Mid(v / 512 / 512) else Leaf(v / 512)
  }

  /** An interior entry: the frame of the next table and the valid bit, nothing else. */
  function Link(f: nat): nat { f * 1024 + 1 }

  /** What word j of table id must hold. */
  ghost function Entry(sp: Space, id: TableId, j: nat): nat
  {
    match id
    case Leaf(k) => if k * 512 + j in sp.pages then sp.pages[k * 512 + j] else 0
    case _ => if Child(id, j) in sp.tables then Link(sp.tables[Child(id, j)]) else 0
  }

  ghost predicate HasParent(sp: Space, id: TableId)
  {
    match id
    case Root => true
    case Mid(i) => i < 512
    case Leaf(k) => Mid(k / 512) in sp.tables
  }

  ghost predicate Shape(sp: Space)
  {
    && Root in sp.tables
    && (forall id :: id in sp.tables ==> HasParent(sp, id))
    && (forall a, b :: a in sp.tables && b in sp.tables && a != b ==> sp.tables[a] != sp.tables[b])
    && (forall v :: v in sp.pages ==> v < NVPN && Leaf(v / 512) in sp.tables && PteV(sp.pages[v]))
  }

  /** The frames of mem hold the tables of sp, in frames that are not on the free list. */
  ghost predicate Holds(mem: Mem, free: seq<nat>, sp: Space)
  {
    && Shape(sp)
    && (forall id :: id in sp.tables ==> sp.tables[id] in mem && sp.tables[id] !in free)
    && (forall id, j :: id in sp.tables && 0 <= j < 512 ==> mem[sp.tables[id]][j] == Entry(sp, id, j))
  }

  /** The tree depends only on the frames of its own tables. */
  lemma HoldsFrame(mem: Mem, free: seq<nat>, mem': Mem, free': seq<nat>, sp: Space)
    requires Holds(mem, free, sp)
    requires forall id :: id in sp.tables ==> sp.tables[id] in mem' && sp.tables[id] !in free'
    requires forall id :: id in sp.tables ==> mem'[sp.tables[id]] == mem[sp.tables[id]]
    ensures Holds(mem', free', sp)
  {
  }

  lemma HoldsTable(mem: Mem, free: seq<nat>, sp: Space, id: TableId)
    requires Holds(mem, free, sp) && id in sp.tables
    ensures sp.tables[id] in mem && sp.tables[id] !in free && sp.tables[id] in sp.tables.Values
  {
  }

  /** Overwriting one leaf entry of the memory is a point update of the page map. */
  lemma StoreLeaf(mem: Mem, free: seq<nat>, sp: Space, v: nat, pte: u64)
    requires Holds(mem, free, sp)
    requires v < NVPN && Leaf(v / 512) in sp.tables
    requires pte == 0 || PteV(pte)
    ensures var t := sp.tables[Leaf(v / 512)];
            Holds(mem[t := mem[t][v % 512 := pte]], free, Space(sp.tables, SetPage(sp.pages, v, pte)))
  {
    var sp' := Space(sp.tables, SetPage(sp.pages, v, pte));
    var t := sp.tables[Leaf(v / 512)];
    var mem' := mem[t := mem[t][v % 512 := pte]];
    forall id, j | id in sp'.tables && 0 <= j < 512
      ensures mem'[sp'.tables[id]][j] == Entry(sp', id, j)
    {
      assert mem[sp.tables[id]][j] == Entry(sp, id, j);
      EntryAfterStore(sp, v, pte, id, j);
    }
  }

  lemma EntryAfterStore(sp: Space, v: nat, pte: u64, id: TableId, j: nat)
    requires j < 512
    ensures Entry(Space(sp.tables, SetPage(sp.pages, v, pte)), id, j)
         == if id == Leaf(v / 512) && j == v % 512 then pte else Entry(sp, id, j)
  {
    if id.Leaf? { DivMod(id.k, j, 512); }
  }

  function SetPage(pages: map<nat, u64>, v: nat, pte: u64): map<nat, u64>
  {
    if pte == 0 then map w | w in pages && w != v :: pages[w] else pages[v := pte]
  }

  /** Linking a zeroed frame below an empty interior entry adds one table and maps nothing. */
  lemma LinkTable(mem: Mem, free: seq<nat>, free': seq<nat>, sp: Space, id: TableId, j: nat, f: nat)
    requires Holds(mem, free, sp)
    requires id in sp.tables && !id.Leaf? && j < 512 && Child(id, j) !in sp.tables
    requires f in mem && f in free && Link(f) < TWO64
    requires forall g :: g in free' ==> g in free && g != f
    ensures var t := sp.tables[id];
            Holds(mem[f := ZeroPage()][t := mem[t][j := Link(f)]], free',
                  Space(sp.tables[Child(id, j) := f], sp.pages))
  {
    var c := Child(id, j);
    var sp' := Space(sp.tables[c := f], sp.pages);
    var t := sp.tables[id];
    var mem' := mem[f := ZeroPage()][t := mem[t][j := Link(f)]];
    LinkShape(sp, id, j, f);
    forall a, b | a in sp'.tables && 0 <= b < 512
      ensures mem'[sp'.tables[a]][b] == Entry(sp', a, b)
    {
      EntryAfterLink(sp, id, j, f, a, b);
      if a != c {
        assert mem[sp.tables[a]][b] == Entry(sp, a, b);
        assert a != id ==> sp.tables[a] != t;
      }
    }
  }

  lemma LinkShape(sp: Space, id: TableId, j: nat, f: nat)
    requires Shape(sp) && id in sp.tables && !id.Leaf? && j < 512
    requires forall a :: a in sp.tables ==> sp.tables[a] != f
    ensures Shape(Space(sp.tables[Child(id, j) := f], sp.pages))
  {
    if id.Mid? { DivMod(id.i, j, 512); }
    var sp' := Space(sp.tables[Child(id, j) := f], sp.pages);
    forall a | a in sp'.tables ensures HasParent(sp', a) {
      assert a in sp.tables ==> HasParent(sp, a);
    }
  }

  lemma EntryAfterLink(sp: Space, id: TableId, j: nat, f: nat, a: TableId, b: nat)
    requires Shape(sp) && id in sp.tables && !id.Leaf? && j < 512 && b < 512
    requires Child(id, j) !in sp.tables && (a in sp.tables || a == Child(id, j))
    ensures Entry(Space(sp.tables[Child(id, j) := f], sp.pages), a, b)
         == if a == id && b == j then Link(f) else if a == Child(id, j) then 0 else Entry(sp, a, b)
  {
    if a == Child(id, j) {
      NoGrandchild(sp, a, b);
    } else if !a.Leaf? && Child(a, b) == Child(id, j) {
      SameParent(id, j, a, b);
    }
  }

  lemma SameParent(a: TableId, i: nat, b: TableId, j: nat)
    requires !a.Leaf? && !b.Leaf? && i < 512 && j < 512
    requires Child(a, i) == Child(b, j)
    ensures a == b && i == j
  {
    if a.Mid? && b.Mid? { DivMod(a.i, i, 512); DivMod(b.i, j, 512); }
  }

  lemma NoGrandchild(sp: Space, c: TableId, b: nat)
    requires Shape(sp) && c !in sp.tables && !c.Root? && b < 512
    ensures c.Mid? ==> Child(c, b) !in sp.tables
    ensures c.Leaf? ==> c.k * 512 + b !in sp.pages
  {
    match c
    case Mid(i) => DivMod(i, b, 512);
    case Leaf(k) => DivMod(k, b, 512);
  }

  /** Growth of a tree between two moments: tables were only added, each in a frame taken from the
      front of the free list; every frame taken holds one of them; no other frame was written. */
  ghost predicate Grown(mem: Mem, free: seq<nat>, sp: Space, mem': Mem, free': seq<nat>, sp': Space)
  {
    && |free'| <= |free| && free' == free[|free| - |free'|..]
    && mem'.Keys == mem.Keys
    && (forall id :: id in sp.tables ==> id in sp'.tables && sp'.tables[id] == sp.tables[id])
    && (forall id :: id in sp'.tables && id !in sp.tables ==> sp'.tables[id] in free && sp'.tables[id] !in free')
    && (forall f :: f in free && f !in free' ==> f in sp'.tables.Values)
    && (forall f :: f in mem && f !in free && f !in sp.tables.Values ==> mem'[f] == mem[f])
  }

  ghost predicate Paired(ids: set<TableId>, tables: map<TableId, nat>, fs: seq<nat>)
  {
    && ids <= tables.Keys && (forall id :: id in ids ==> tables[id] in fs)
    && (forall a, b :: a in ids && b in ids && a != b ==> tables[a] != tables[b])
    && (forall f :: f in fs ==> exists id :: id in ids && tables[id] == f)
  }

  /** As many tables as frames, if each has one of them and each is had. */
  lemma {:induction false} OneEach(ids: set<TableId>, tables: map<TableId, nat>, fs: seq<nat>)
    requires NoDup(fs) && Paired(ids, tables, fs)
    ensures |ids| == |fs|
  {
    if fs == [] {
      assert ids == {};
    } else {
      var n := |fs| - 1;
      assert fs[n] in fs;
      var id :| id in ids && tables[id] == fs[n];
      forall a | a in ids - {id} ensures tables[a] in fs[..n] {
        var k :| 0 <= k <= n && fs[k] == tables[a];
        assert k < n && fs[..n][k] == tables[a];
      }
      forall f | f in fs[..n] ensures exists a :: a in ids - {id} && tables[a] == f {
        assert f in fs;
        var a :| a in ids && tables[a] == f;
        var k :| 0 <= k < n && fs[..n][k] == f;
        assert fs[k] == f != fs[n] && a in ids - {id};
      }
      OneEach(ids - {id}, tables, fs[..n]);
    }
  }

  /** The frames in front of a suffix of the list are those that are not in it. */
  lemma TakenIff(free: seq<nat>, k: nat, f: nat)
    requires NoDup(free) && k <= |free|
    ensures f in free[..k] <==> f in free && f !in free[k..]
  {
    assert free == free[..k] + free[k..];
  }

  /** Nothing is lost on the way: there are as many new tables as frames taken. */
  lemma GrownCount(mem: Mem, free: seq<nat>, sp: Space, mem': Mem, free': seq<nat>, sp': Space)
    requires Grown(mem, free, sp, mem', free', sp') && NoDup(free) && Shape(sp')
    requires forall id :: id in sp.tables ==> sp.tables[id] !in free
    ensures |sp'.tables.Keys| + |free'| == |sp.tables.Keys| + |free|
  {
    hide Shape, NoDup, Grown, Paired;
    GrownFront(mem, free, sp, mem', free', sp');
    FrontDistinct(free, |free| - |free'|);
    NewPaired(mem, free, sp, mem', free', sp');
    OneEach(sp'.tables.Keys - sp.tables.Keys, sp'.tables, free[..|free| - |free'|]);
    assert sp'.tables.Keys == sp.tables.Keys + (sp'.tables.Keys - sp.tables.Keys);
  }

  lemma NewPaired(mem: Mem, free: seq<nat>, sp: Space, mem': Mem, free': seq<nat>, sp': Space)
    requires Grown(mem, free, sp, mem', free', sp') && NoDup(free) && Shape(sp')
    requires forall id :: id in sp.tables ==> sp.tables[id] !in free
    ensures |free'| <= |free| && Paired(sp'.tables.Keys - sp.tables.Keys, sp'.tables, free[..|free| - |free'|])
  {
    hide Shape, NoDup, Grown;
    GrownFront(mem, free, sp, mem', free', sp');
    var k := |free| - |free'|;
    forall id | id in sp'.tables && id !in sp.tables ensures sp'.tables[id] in free[..k] {
      GrownNew(mem, free, sp, mem', free', sp', id);
      TakenIff(free, k, sp'.tables[id]);
    }
    forall f | f in free[..k] ensures exists id :: id in sp'.tables.Keys - sp.tables.Keys && sp'.tables[id] == f {
      TakenIff(free, k, f);
      TakenLinked(mem, free, sp, mem', free', sp', f);
    }
    TablesApart(sp');
  }

  lemma GrownFront(mem: Mem, free: seq<nat>, sp: Space, mem': Mem, free': seq<nat>, sp': Space)
    requires Grown(mem, free, sp, mem', free', sp')
    ensures |free'| <= |free| && free' == free[|free| - |free'|..] && sp.tables.Keys <= sp'.tables.Keys
  {
  }

  lemma GrownNew(mem: Mem, free: seq<nat>, sp: Space, mem': Mem, free': seq<nat>, sp': Space, id: TableId)
    requires Grown(mem, free, sp, mem', free', sp') && id in sp'.tables && id !in sp.tables
    ensures sp'.tables[id] in free && sp'.tables[id] !in free'
  {
  }

  lemma TablesApart(sp: Space)
    requires Shape(sp)
    ensures forall a, b :: a in sp.tables && b in sp.tables && a != b ==> sp.tables[a] != sp.tables[b]
  {
  }

  lemma TakenLinked(mem: Mem, free: seq<nat>, sp: Space, mem': Mem, free': seq<nat>, sp': Space, f: nat)
    requires Grown(mem, free, sp, mem', free', sp') && f in free && f !in free'
    requires forall id :: id in sp.tables ==> sp.tables[id] !in free
    ensures exists id :: id in sp'.tables.Keys - sp.tables.Keys && sp'.tables[id] == f
  {
    assert f in sp'.tables.Values;
    var id :| id in sp'.tables && sp'.tables[id] == f;
    assert id in sp'.tables.Keys - sp.tables.Keys;
  }

  lemma FrontDistinct(free: seq<nat>, k: nat)
    requires NoDup(free) && k <= |free|
    ensures NoDup(free[..k])
  {
  }

  lemma GrownTrans(m0: Mem, f0: seq<nat>, s0: Space, m1: Mem, f1: seq<nat>, s1: Space, m2: Mem, f2: seq<nat>, s2: Space)
    requires Grown(m0, f0, s0, m1, f1, s1) && Grown(m1, f1, s1, m2, f2, s2)
    ensures Grown(m0, f0, s0, m2, f2, s2)
  {
    assert f2 == f0[|f0| - |f2|..];
    forall f | f in f0 && f !in f2 ensures f in s2.tables.Values {
      if f !in f1 {
        var id :| id in s1.tables && s1.tables[id] == f;
        assert s2.tables[id] == f;
      }
    }
  }

  /** Taking the first free frame as a new table is a growth. */
  lemma GrownByOne(mem: Mem, free: seq<nat>, sp: Space, id: TableId, j: nat)
    requires Holds(mem, free, sp) && free != [] && free[0] in mem && free[0] !in free[1..]
    requires id in sp.tables && !id.Leaf? && j < 512 && Child(id, j) !in sp.tables && Link(free[0]) < TWO64
    ensures var t := sp.tables[id];
            Grown(mem, free, sp, mem[free[0] := ZeroPage()][t := mem[t][j := Link(free[0])]], free[1..],
                  Space(sp.tables[Child(id, j) := free[0]], sp.pages))
  {
    var sp' := Space(sp.tables[Child(id, j) := free[0]], sp.pages);
    assert sp'.tables[Child(id, j)] in sp'.tables.Values;
    assert sp.tables[id] in sp.tables.Values;
    assert forall f :: f in free <==> f == free[0] || f in free[1..];
  }

  lemma GrownIsSuffix(mem: Mem, free: seq<nat>, sp: Space, mem': Mem, free': seq<nat>, sp': Space)
    requires Grown(mem, free, sp, mem', free', sp')
    ensures |free'| <= |free| && free' == free[|free| - |free'|..]
  {
  }

  lemma GrownKeeps(mem: Mem, free: seq<nat>, sp: Space, mem': Mem, free': seq<nat>, sp': Space, id: TableId)
    requires Grown(mem, free, sp, mem', free', sp') && id in sp.tables
    ensures id in sp'.tables && sp'.tables[id] == sp.tables[id]
  {
  }

  lemma GrownRefl(mem: Mem, free: seq<nat>, sp: Space)
    ensures Grown(mem, free, sp, mem, free, sp)
  {
  }

  /** The tables missing on the way to page v, from the top down to the given level. */
  function Missing(ids: set<TableId>, v: nat, level: nat): (ms: seq<TableId>)
  {
    (if level <= 1 && Mid(v / 512 / 512) !in ids then [Mid(v / 512 / 512)] else [])
    + (if level == 0 && Leaf(v / 512) !in ids then [Leaf(v / 512)] else [])
  }

  lemma MissingFew(ids: set<TableId>, v: nat)
    ensures |Missing(ids, v, 0)| <= 2
  {
  }

  function Ids(ms: seq<TableId>): set<TableId> { set id | id in ms }

  /** The tables missing on the way to the n pages from v, in the order map_pages meets them. */
  function Paths(ids: set<TableId>, v: nat, n: nat): seq<TableId>
  {
    if n == 0 then [] else Paths(ids, v, n - 1) + Missing(ids + Ids(Paths(ids, v, n - 1)), v + n - 1, 0)
  }

  /** The tables ms were added, each in the next frame of the free list, and nothing else came off it. */
  ghost predicate Took(ms: seq<TableId>, free: seq<nat>, free': seq<nat>, sp: Space, sp': Space)
  {
    && |ms| <= |free| && free' == free[|ms|..]
    && sp'.tables.Keys == sp.tables.Keys + Ids(ms)
    && (forall id :: id in sp.tables ==> id in sp'.tables && sp'.tables[id] == sp.tables[id])
    && forall i :: 0 <= i < |ms| ==> ms[i] in sp'.tables && sp'.tables[ms[i]] == free[i]
  }

  lemma TookLength(ms: seq<TableId>, free: seq<nat>, free': seq<nat>, sp: Space, sp': Space)
    requires Took(ms, free, free', sp, sp')
    ensures |free| == |ms| + |free'| && sp'.tables.Keys == sp.tables.Keys + Ids(ms)
  {
  }

  lemma {:induction false} PathsOne(ids: set<TableId>, v: nat)
    ensures Paths(ids, v, 1) == Missing(ids, v, 0)
  {
    hide Missing;
    assert Paths(ids, v, 0) == [] && ids + Ids([]) == ids;
  }

  lemma {:induction false} PathsAdd(ids: set<TableId>, v: nat, a: nat, b: nat)
    ensures Paths(ids, v, a + b) == Paths(ids, v, a) + Paths(ids + Ids(Paths(ids, v, a)), v + a, b)
  {
    hide Missing;
    if b > 0 {
      PathsAdd(ids, v, a, b - 1);
      var p, q := Paths(ids, v, a), Paths(ids + Ids(Paths(ids, v, a)), v + a, b - 1);
      assert ids + Ids(p + q) == ids + Ids(p) + Ids(q);
      assert a + b - 1 == a + (b - 1);
    }
  }

  lemma TookNone(free: seq<nat>, sp: Space)
    ensures Took([], free, free, sp, sp)
  {
  }

  lemma TookOne(ms: seq<TableId>, free: seq<nat>, free': seq<nat>, sp: Space, sp': Space, id: TableId)
    requires Took(ms, free, free', sp, sp') && free' != [] && id !in sp'.tables
    ensures Took(ms + [id], free, free'[1..], sp, Space(sp'.tables[id := free'[0]], sp'.pages))
  {
    var all, sp2 := ms + [id], Space(sp'.tables[id := free'[0]], sp'.pages);
    assert Ids(all) == Ids(ms) + {id};
    assert free'[1..] == free[|all|..];
    forall i | 0 <= i < |all| ensures all[i] in sp2.tables && sp2.tables[all[i]] == free[i] {
      if i < |ms| { assert ms[i] in Ids(ms); }
    }
  }

  lemma TookMore(ms: seq<TableId>, ns: seq<TableId>, f0: seq<nat>, f1: seq<nat>, f2: seq<nat>, s0: Space, s1: Space,
                 s2: Space)
    requires Took(ms, f0, f1, s0, s1) && Took(ns, f1, f2, s1, s2)
    ensures Took(ms + ns, f0, f2, s0, s2)
  {
    assert Ids(ms + ns) == Ids(ms) + Ids(ns);
    var all := ms + ns;
    forall i | 0 <= i < |all| ensures all[i] in s2.tables && s2.tables[all[i]] == f0[i] {
      if i >= |ms| { assert all[i] == ns[i - |ms|] && f1[i - |ms|] == f0[i]; }
    }
  }

  /** One level of a walk that finds its child, or adds it. */
  lemma TookLevel(free: seq<nat>, free': seq<nat>, sp: Space, sp': Space, v: nat, level: nat)
    requires 0 < level <= 2 && Took(Missing(sp.tables.Keys, v, level), free, free', sp, sp')
    ensures var c := TableAt(level - 1, v);
            var ms, ms' := Missing(sp.tables.Keys, v, level), Missing(sp.tables.Keys, v, level - 1);
            && (c in sp'.tables ==> ms' == ms) && (c !in sp'.tables ==> ms' == ms + [c])
            && |ms'| <= |Missing(sp.tables.Keys, v, 0)|
  {
    var c, ms := TableAt(level - 1, v), Missing(sp.tables.Keys, v, level);
    assert c !in Ids(ms);
    assert c in sp'.tables <==> c in sp'.tables.Keys;
  }

  /** One step of a walk: an interior entry is a link to the child's frame, or zero. */
  lemma WalkStep(mem: Mem, free: seq<nat>, sp: Space, id: TableId, j: nat)
    requires Holds(mem, free, sp) && id in sp.tables && !id.Leaf? && j < 512
    ensures sp.tables[id] in mem
    ensures var pte := mem[sp.tables[id]][j];
            && (Child(id, j) !in sp.tables ==> pte == 0)
            && (Child(id, j) in sp.tables ==> pte == Link(sp.tables[Child(id, j)]) && PteV(pte)
                                              && pte / 1024 == sp.tables[Child(id, j)])
  {
    assert mem[sp.tables[id]][j] == Entry(sp, id, j);
    if Child(id, j) in sp.tables { LowBits(sp.tables[Child(id, j)], 1); }
  }

  /** A missing table at some level of the walk means there is no leaf table either. */
  lemma NoLeafBelow(mem: Mem, free: seq<nat>, sp: Space, level: nat, v: nat)
    requires Holds(mem, free, sp) && 0 < level <= 2 && TableAt(level - 1, v) !in sp.tables
    ensures Leaf(v / 512) !in sp.tables
  {
    assert Leaf(v / 512) in sp.tables ==> HasParent(sp, Leaf(v / 512));
  }

  /** The word a complete walk ends at is the page's entry, or zero. */
  lemma LeafWord(mem: Mem, free: seq<nat>, sp: Space, v: nat)
    requires Holds(mem, free, sp) && Leaf(v / 512) in sp.tables
    ensures var t := sp.tables[Leaf(v / 512)];
            && t in mem && t !in free
            && mem[t][v % 512] == (if v in sp.pages then sp.pages[v] else 0)
            && (PteV(mem[t][v % 512]) <==> v in sp.pages)
  {
    assert mem[sp.tables[Leaf(v / 512)]][v % 512] == Entry(sp, Leaf(v / 512), v % 512);
  }

  lemma MappedHasLeaf(mem: Mem, free: seq<nat>, sp: Space, v: nat)
    requires Holds(mem, free, sp) && v in sp.pages
    ensures v < NVPN && Leaf(v / 512) in sp.tables && PteV(sp.pages[v])
  {
  }

  /** The entry map_pages writes for the i-th page of a range that starts at physical address pa. */
  function PteFor(pa: u64, i: nat, perm: Perm): u64 { MakePte(PaAt(pa, i), perm) }

  /** The i-th page after pa, in 64-bit arithmetic. */
  function PaAt(pa: u64, i: nat): u64 { (pa + 4096 * i) % TWO64 }

  lemma PaStep(pa: u64, i: nat)
    ensures PaAt(pa, 0) == pa
    ensures (PaAt(pa, i) + 4096) % TWO64 == PaAt(pa, i + 1)
  {
  }

  /** A page map with n consecutive pages from v mapped to consecutive frames from pa. */
  function Mapped(pages: map<nat, u64>, v: nat, n: nat, pa: u64, perm: Perm): (r: map<nat, u64>)
    ensures forall w :: w in r <==> w in pages || v <= w < v + n
    ensures forall w :: w in r ==> r[w] == if v <= w < v + n then PteFor(pa, w - v, perm) else pages[w]
  {
    if n == 0 then pages else Mapped(pages, v, n - 1, pa, perm)[v + n - 1 := PteFor(pa, n - 1, perm)]
  }

  /** None of the n pages from v is mapped, and all of them can be walked. */
  ghost predicate Unmapped(pages: map<nat, u64>, v: nat, n: nat)
  {
    forall w :: v <= w < v + n ==> w < NVPN && w !in pages
  }

  /** Last page map_pages visits: that of va + size - 1 in 64 bits. */
  function LastPage(va: u64, size: u64): (p: nat)
    ensures p * 4096 < TWO64
  {
    (va + size + TWO64 - 1) % TWO64 / 4096
  }

  /** Number of pages map_pages visits. */
  function Span(va: u64, size: u64): nat
  {
    if LastPage(va, size) >= va / 4096 then LastPage(va, size) - va / 4096 + 1 else 0
  }

  function FrameOf(pte: u64): nat { Pte2Pa(pte) / 4096 }

  function Without(pages: map<nat, u64>, v: nat, n: nat): (r: map<nat, u64>)
    ensures forall w :: w in r <==> w in pages && !(v <= w < v + n)
    ensures forall w :: w in r ==> r[w] == pages[w]
  {
    map w | w in pages && !(v <= w < v + n) :: pages[w]
  }

  ghost predicate AllMapped(pages: map<nat, u64>, v: nat, n: nat)
  {
    forall w :: v <= w < v + n ==> w in pages
  }

  /** The free list after the frames of n mapped pages from v were pushed, lowest page first. */
  ghost function Freed(pages: map<nat, u64>, v: nat, n: nat, free: seq<nat>): (r: seq<nat>)
    requires AllMapped(pages, v, n)
    ensures |r| == n + |free| && r[n..] == free
    ensures forall i :: 0 <= i < n ==> r[i] == FrameOf(pages[v + n - 1 - i])
  {
    if n == 0 then free else [FrameOf(pages[v + n - 1])] + Freed(pages, v, n - 1, free)
  }

  predicate Managed(f: nat, start: nat, end: nat) { start <= f * 4096 < end }

  /** Pages whose frames may be handed back: those the allocator manages are distinct, and neither
      free nor holding a table of sp. */
  ghost predicate Reclaimable(sp: Space, free: seq<nat>, v: nat, n: nat, start: nat, end: nat)
  {
    && (forall w :: v <= w < v + n && w in sp.pages && Managed(FrameOf(sp.pages[w]), start, end) ==>
          FrameOf(sp.pages[w]) !in free && FrameOf(sp.pages[w]) !in sp.tables.Values)
    && (forall w, x :: v <= w < x < v + n && w in sp.pages && x in sp.pages
                       && Managed(FrameOf(sp.pages[w]), start, end) ==>
          FrameOf(sp.pages[w]) != FrameOf(sp.pages[x]))
  }

  /** Page v is mapped by a leaf entry and, if its frame is to be handed back, the allocator manages it. */
  ghost predicate CanUnmap(sp: Space, v: nat, reclaim: bool, start: nat, end: nat)
  {
    && v < NVPN && v in sp.pages && PteFlags(sp.pages[v]) != 1
    && (reclaim ==> Managed(FrameOf(sp.pages[v]), start, end))
  }

  ghost predicate AllUnmappable(sp: Space, v: nat, n: nat, reclaim: bool, start: nat, end: nat)
  {
    forall w :: v <= w < v + n ==> CanUnmap(sp, w, reclaim, start, end)
  }

  lemma NoneUnmapped(sp: Space, v: nat, reclaim: bool, start: nat, end: nat)
    ensures AllUnmappable(sp, v, 0, reclaim, start, end) && AllMapped(sp.pages, v, 0)
  {
  }

  lemma UnmappableStep(sp: Space, v: nat, n: nat, reclaim: bool, start: nat, end: nat)
    requires AllUnmappable(sp, v, n, reclaim, start, end) && CanUnmap(sp, v + n, reclaim, start, end)
    ensures AllUnmappable(sp, v, n + 1, reclaim, start, end)
  {
  }

  /** Handing back the first n pages of a range leaves the next one reclaimable. */
  lemma {:induction false} ReclaimRest(sp: Space, free: seq<nat>, v: nat, n: nat, total: nat, start: nat, end: nat)
    requires Reclaimable(sp, free, v, total, start, end) && n < total
    requires AllMapped(sp.pages, v, n) && AllUnmappable(sp, v, n, true, start, end)
    ensures Reclaimable(Space(sp.tables, Without(sp.pages, v, n)), Freed(sp.pages, v, n, free), v + n, 1, start, end)
  {
    hide FrameOf, Managed;
    if v + n in sp.pages && Managed(FrameOf(sp.pages[v + n]), start, end) {
      var f, r := FrameOf(sp.pages[v + n]), Freed(sp.pages, v, n, free);
      forall i | 0 <= i < |r| ensures r[i] != f {
        assert i < n ==> CanUnmap(sp, v + n - 1 - i, true, start, end);
        if i >= n { assert r[i] == r[n..][i - n]; }
      }
    }
  }

  /** Number of turns of the user_vm_unmap loop, its end computed in 64 bits. */
  function UnmapSpan(va: u64, size: u64): nat
  {
    var end := (va + size) % TWO64;
    if end <= va then 0 else (end - va + 4095) / 4096
  }

  lemma UnmapTurns(va: u64, size: u64, n: nat)
    ensures va + 4096 * n < (va + size) % TWO64 <==> n < UnmapSpan(va, size)
  {
  }

  /** Only table frames of sp and frames that became free were written. */
  ghost predicate Spares(mem: Mem, free: seq<nat>, sp: Space, mem': Mem, free': seq<nat>)
  {
    && mem'.Keys == mem.Keys
    && (forall f :: f in free ==> f in free')
    && forall f :: f in mem && f !in sp.tables.Values && (f in free || f !in free') ==> mem'[f] == mem[f]
  }

  lemma SparesRefl(mem: Mem, free: seq<nat>, sp: Space)
    ensures Spares(mem, free, sp, mem, free)
  {
  }

  lemma SparesTrans(m0: Mem, f0: seq<nat>, sp0: Space, m1: Mem, f1: seq<nat>, sp1: Space, m2: Mem, f2: seq<nat>)
    requires Spares(m0, f0, sp0, m1, f1) && Spares(m1, f1, sp1, m2, f2) && sp0.tables == sp1.tables
    ensures Spares(m0, f0, sp0, m2, f2)
  {
  }

  lemma WithoutStep(pages: map<nat, u64>, v: nat, n: nat)
    ensures SetPage(Without(pages, v, n), v + n, 0) == Without(pages, v, n + 1)
  {
  }

  lemma FreedStep(pages: map<nat, u64>, v: nat, n: nat, free: seq<nat>)
    requires AllMapped(pages, v, n) && v + n in pages
    ensures AllMapped(pages, v, n + 1)
    ensures Without(pages, v, n)[v + n] == pages[v + n]
    ensures Freed(pages, v, n + 1, free) == [FrameOf(pages[v + n])] + Freed(pages, v, n, free)
  {
  }

  /** Unmapping a range that was just mapped restores every translation, and with reclaiming on
      hands back exactly the frames of the range, each once, on top of the old free list. */
  lemma {:induction false} UnmapUndoesMap(pages: map<nat, u64>, va: u64, size: u64, pa: u64, perm: Perm, free: seq<nat>)
    requires va % 4096 == 0 && 0 < size && va + size < TWO64 && pa / 4096 * 4096 + size <= TWO64
    requires Unmapped(pages, va / 4096, Span(va, size))
    ensures UnmapSpan(va, size) == Span(va, size)
    ensures var n, v := Span(va, size), va / 4096;
            var mapped := Mapped(pages, v, n, pa, perm);
            && Without(mapped, v, n) == pages
            && AllMapped(mapped, v, n)
            && var free' := Freed(mapped, v, n, free);
               |free'| == n + |free| && free'[n..] == free
               && forall i :: 0 <= i < n ==> free'[i] == pa / 4096 + (n - 1 - i)
  {
    hide FrameOf, PteFor, Span, UnmapSpan;
    SpansAgree(va, size);
    var n, v := Span(va, size), va / 4096;
    var mapped := Mapped(pages, v, n, pa, perm);
    assert Without(mapped, v, n) == pages;
    var free' := Freed(mapped, v, n, free);
    forall i | 0 <= i < n ensures free'[i] == pa / 4096 + (n - 1 - i) {
      FrameOfNth(pa, n - 1 - i, perm);
      assert free'[i] == FrameOf(mapped[v + n - 1 - i]);
    }
  }

  /** The frames of a range are the allocator's, in use, and hold no table. */
  ghost predicate Lent(sp: Space, free: seq<nat>, f: nat, n: nat, start: nat, end: nat)
  {
    forall g :: f <= g < f + n ==> Managed(g, start, end) && g !in free && g !in sp.tables.Values
  }

  /** Pages just mapped with some permission can be unmapped, and their frames handed back if they are lent. */
  lemma {:induction false} MappedIsRemovable(mem: Mem, free: seq<nat>, sp: Space, mem': Mem, free': seq<nat>,
                                             sp': Space, va: u64, size: u64, pa: u64, perm: Perm, reclaim: bool,
                                             start: nat, end: nat)
    requires va % 4096 == 0 && 0 < size && va + size < TWO64 && pa / 4096 * 4096 + size <= TWO64 && perm >= 2
    requires Grown(mem, free, sp, mem', free', sp') && Unmapped(sp.pages, va / 4096, Span(va, size))
    requires sp'.pages == Mapped(sp.pages, va / 4096, Span(va, size), pa, perm)
    requires reclaim ==> Lent(sp, free, pa / 4096, Span(va, size), start, end)
    ensures AllUnmappable(sp', va / 4096, Span(va, size), reclaim, start, end)
    ensures reclaim ==> Reclaimable(sp', free', va / 4096, Span(va, size), start, end)
  {
    hide Grown, Span, Mapped, PteFor, FrameOf, Managed;
    SpansAgree(va, size);
    var v, n := va / 4096, Span(va, size);
    forall w | v <= w < v + n
      ensures w in sp'.pages && FrameOf(sp'.pages[w]) == pa / 4096 + (w - v) && CanUnmap(sp', w, reclaim, start, end)
    {
      FrameOfNth(pa, w - v, perm);
      FlagsOfNth(pa, w - v, perm);
      assert w !in sp.pages && (reclaim ==> Managed(pa / 4096 + (w - v), start, end));
    }
    if reclaim {
      forall g | pa / 4096 <= g < pa / 4096 + n ensures g !in free' && g !in sp'.tables.Values {
        LentKept(mem, free, sp, mem', free', sp', g);
      }
    }
  }

  lemma FlagsOfNth(pa: u64, i: nat, perm: Perm)
    requires perm >= 2
    ensures PteFlags(PteFor(pa, i, perm)) != 1
  {
    MakePteFields(PaAt(pa, i), perm);
  }

  lemma LentKept(mem: Mem, free: seq<nat>, sp: Space, mem': Mem, free': seq<nat>, sp': Space, g: nat)
    requires Grown(mem, free, sp, mem', free', sp') && g !in free && g !in sp.tables.Values
    ensures g !in free' && g !in sp'.tables.Values
  {
    forall id | id in sp'.tables ensures sp'.tables[id] != g {
      if id in sp.tables { assert sp.tables[id] in sp.tables.Values; }
    }
  }

  lemma SpansAgree(va: u64, size: u64)
    requires va % 4096 == 0 && 0 < size && va + size < TWO64
    ensures UnmapSpan(va, size) == Span(va, size) && 4096 * (Span(va, size) - 1) < size
  {
    assert LastPage(va, size) == (va + size - 1) / 4096;
  }

  lemma FrameOfNth(pa: u64, i: nat, perm: Perm)
    requires pa / 4096 * 4096 + 4096 * i < TWO64
    ensures FrameOf(PteFor(pa, i, perm)) == pa / 4096 + i
  {
    assert PaAt(pa, i) == pa + 4096 * i;
    MakePteFields(PaAt(pa, i), perm);
  }
}
