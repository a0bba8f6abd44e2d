/** The flattened device tree scanner of spike_interface/dts_parse.c, on the structure block of
    section 5.4 of the Devicetree Specification, release v0.3. */
module Fdt {
  import opened Sv39

  /** A 32-bit word as it lies in memory, or the number it stands for. */
  type u32 = x: nat | x < 0x1_0000_0000
  type Raw = u32

  const FDT_BEGIN_NODE: u32 := 1
  const FDT_END_NODE: u32 := 2
  const FDT_PROP: u32 := 3
  const FDT_NOP: u32 := 4

  /** Byte k of a word, lowest address first. */
  function Byte(x: u32, k: nat): (b: nat)
    requires k < 4
    ensures b < 256
  {
    if k == 0 then x % 256 else if k == 1 then x / 256 % 256 else if k == 2 then x / 65536 % 256 else x / 0x100_0000
  }

  function FromBytes(b0: nat, b1: nat, b2: nat, b3: nat): u32
    requires b0 < 256 && b1 < 256 && b2 < 256 && b3 < 256
  {
    b0 + 256 * b1 + 65536 * b2 + 0x100_0000 * b3
  }

  /** Swap the bytes of each half, then the halves. */
  function Bswap(x: u32): u32
  {
    var y := FromBytes(Byte(x, 1), Byte(x, 0), Byte(x, 3), Byte(x, 2));
    y % 65536 * 65536 + y / 65536
  }

  lemma BytesOf(b0: nat, b1: nat, b2: nat, b3: nat)
    requires b0 < 256 && b1 < 256 && b2 < 256 && b3 < 256
    ensures var x := FromBytes(b0, b1, b2, b3);
            Byte(x, 0) == b0 && Byte(x, 1) == b1 && Byte(x, 2) == b2 && Byte(x, 3) == b3
  {
    hide Byte, FromBytes;
    var x := FromBytes(b0, b1, b2, b3);
    BytesAre(x, b0, b1, b2, b3);
    Unique(x, 256, b1 + 256 * b2 + 65536 * b3, b0);
    Unique(b1 + 256 * b2 + 65536 * b3, 256, b2 + 256 * b3, b1);
    Unique(x, 65536, b2 + 256 * b3, b0 + 256 * b1);
    Unique(b2 + 256 * b3, 256, b3, b2);
    Unique(x, 0x100_0000, b3, b0 + 256 * b1 + 65536 * b2);
  }

  lemma BytesAre(x: u32, b0: nat, b1: nat, b2: nat, b3: nat)
    requires b0 < 256 && b1 < 256 && b2 < 256 && b3 < 256 && x == FromBytes(b0, b1, b2, b3)
    ensures x == b0 + 256 * b1 + 65536 * b2 + 0x100_0000 * b3
    ensures Byte(x, 0) == x % 256 && Byte(x, 1) == x / 256 % 256 && Byte(x, 2) == x / 65536 % 256
    ensures Byte(x, 3) == x / 0x100_0000
  {
  }

  lemma BswapReverses(x: u32)
    ensures Bswap(x) == FromBytes(Byte(x, 3), Byte(x, 2), Byte(x, 1), Byte(x, 0))
  {
    hide Byte;
    var y := FromBytes(Byte(x, 1), Byte(x, 0), Byte(x, 3), Byte(x, 2));
    assert y / 65536 == Byte(x, 3) + 256 * Byte(x, 2) && y % 65536 == Byte(x, 1) + 256 * Byte(x, 0);
  }

  lemma OwnBytes(x: u32)
    ensures x == FromBytes(Byte(x, 0), Byte(x, 1), Byte(x, 2), Byte(x, 3))
  {
    var q := x / 256;
    var r := q / 256;
    assert r == x / 65536 && r / 256 == x / 0x100_0000;
    assert x == 256 * q + x % 256 && q == 256 * r + q % 256 && r == 256 * (r / 256) + r % 256;
  }

  lemma BswapTwice(x: u32)
    ensures Bswap(Bswap(x)) == x
  {
    hide Bswap, Byte, FromBytes;
    BswapReverses(x);
    BswapReverses(Bswap(x));
    BytesOf(Byte(x, 3), Byte(x, 2), Byte(x, 1), Byte(x, 0));
    OwnBytes(x);
  }

  predicate ZeroByte(w: Raw, k: nat)
    requires k < 4
  {
    Byte(w, k) == 0
  }

  /** A NUL-terminated string padded to whole words: the first zero byte is in the last word. */
  ghost predicate IsName(s: seq<Raw>)
  {
    exists z: nat :: z / 4 == |s| - 1 && ZeroByte(s[z / 4], z % 4)
                     && forall k :: 0 <= k < z ==> !ZeroByte(s[k / 4], k % 4)
  }

  /** What follows the name of a node: properties and subnodes up to the end token, with the NOP words
      that precede each. */
  datatype Body =
    | End(nops: nat)
    | PropThen(nops: nat, off: u32, len: u32, value: seq<Raw>, rest: Body)
    | NodeThen(nops: nat, name: seq<Raw>, body: Body, rest: Body)

  /** Properties come before subnodes (last), lengths match, names end where they should. */
  ghost predicate WellFormed(b: Body, last: bool)
  {
    match b
    case End(_) => true
    case PropThen(_, _, len, value, rest) =>
      !last && |value| == (len + 3) / 4 && len < 0x7FFF_FFFC && WellFormed(rest, last)
    case NodeThen(_, name, body, rest) => IsName(name) && WellFormed(body, false) && WellFormed(rest, true)
  }

  function Nops(n: nat): (s: seq<Raw>)
    ensures |s| == n && forall i :: 0 <= i < n ==> s[i] == Bswap(FDT_NOP)
  {
    seq(n, _ => Bswap(FDT_NOP))
  }

  /** The structure block of a body that ends with token tok. */
  function Enc(b: Body, tok: u32): (s: seq<Raw>)
    ensures |s| > 0
  {
    match b
    case End(n) => Nops(n) + [Bswap(tok)]
    case PropThen(n, off, len, value, rest) =>
      Nops(n) + [Bswap(FDT_PROP), Bswap(len), Bswap(off)] + value + Enc(rest, tok)
    case NodeThen(n, name, body, rest) =>
      Nops(n) + [Bswap(FDT_BEGIN_NODE)] + name + Enc(body, FDT_END_NODE) + Enc(rest, tok)
  }

  /** The node a callback is about; NoNode above the root. */
  datatype Owner = NoNode | Named(name: seq<Raw>)

  datatype Event =
    | OpenEv(name: seq<Raw>)
    | PropEv(node: Owner, off: u32, len: u32, value: seq<Raw>)
    | DoneEv(node: Owner)
    | CloseEv(name: seq<Raw>)

  function DoneOnce(node: Owner, last: bool): seq<Event> { if last || node.NoNode? then [] else [DoneEv(node)] }

  /** The callbacks for a body, in order. */
  function Trace(b: Body, node: Owner, last: bool): seq<Event>
  {
    match b
    case End(_) => DoneOnce(node, last)
    case PropThen(_, off, len, value, rest) => [PropEv(node, off, len, value)] + Trace(rest, node, last)
    case NodeThen(_, name, body, rest) =>
      DoneOnce(node, last) + [OpenEv(name)] + Trace(body, Named(name), false) + [CloseEv(name)]
      + Trace(rest, node, true)
  }

  /** close answers -1 or not; it may look at every callback so far. */
  type Closer = seq<Event> -> bool

  /** The body left in the buffer when the nodes close asked to delete are overwritten with NOPs;
      carry NOPs are waiting to be put before the next token. */
  ghost function Prune(b: Body, node: Owner, last: bool, h: seq<Event>, del: Closer, carry: nat): Body
  {
    match b
    case End(n) => End(carry + n)
    case PropThen(n, off, len, value, rest) =>
      PropThen(carry + n, off, len, value, Prune(rest, node, last, h + [PropEv(node, off, len, value)], del, 0))
    case NodeThen(n, name, body, rest) =>
      var h1 := h + DoneOnce(node, last) + [OpenEv(name)];
      var h2 := h1 + Trace(body, Named(name), false) + [CloseEv(name)];
      if del(h2) then Prune(rest, node, true, h2, del, carry + n + 1 + |name| + |Enc(body, FDT_END_NODE)|)
      else NodeThen(carry + n, name, Prune(body, Named(name), false, h1, del, 0), Prune(rest, node, true, h2, del, 0))
  }

  lemma {:induction false} EncLength(b: Body, tok: u32)
    ensures |Enc(b, tok)| ==
      match b
      case End(n) => n + 1
      case PropThen(n, _, _, value, rest) => n + 3 + |value| + |Enc(rest, tok)|
      case NodeThen(n, name, body, rest) => n + 1 + |name| + |Enc(body, FDT_END_NODE)| + |Enc(rest, tok)|
  {
    hide Bswap;
  }

  lemma {:induction false} PruneLength(b: Body, node: Owner, last: bool, h: seq<Event>, del: Closer, carry: nat,
                                       tok: u32)
    ensures |Enc(Prune(b, node, last, h, del, carry), tok)| == carry + |Enc(b, tok)|
  {
    hide Bswap, Trace, DoneOnce, Enc;
    EncLength(b, tok);
    EncLength(Prune(b, node, last, h, del, carry), tok);
    match b
    case End(_) =>
    case PropThen(_, off, len, value, rest) =>
      PruneLength(rest, node, last, h + [PropEv(node, off, len, value)], del, 0, tok);
    case NodeThen(n, name, body, rest) =>
      var h1 := h + DoneOnce(node, last) + [OpenEv(name)];
      var h2 := h1 + Trace(body, Named(name), false) + [CloseEv(name)];
      PruneLength(body, Named(name), false, h1, del, 0, FDT_END_NODE);
      PruneLength(rest, node, true, h2, del, if del(h2) then carry + n + 1 + |name| + |Enc(body, FDT_END_NODE)| else 0,
                  tok);
  }

  lemma {:induction false} PruneWellFormed(b: Body, node: Owner, last: bool, h: seq<Event>, del: Closer, carry: nat)
    requires WellFormed(b, last)
    ensures WellFormed(Prune(b, node, last, h, del, carry), last)
  {
    hide Bswap, Trace, DoneOnce, IsName, Enc;
    match b
    case End(_) =>
    case PropThen(_, off, len, value, rest) =>
      PruneWellFormed(rest, node, last, h + [PropEv(node, off, len, value)], del, 0);
    case NodeThen(n, name, body, rest) =>
      var h1 := h + DoneOnce(node, last) + [OpenEv(name)];
      var h2 := h1 + Trace(body, Named(name), false) + [CloseEv(name)];
      PruneWellFormed(body, Named(name), false, h1, del, 0);
      PruneWellFormed(rest, node, true, h2, del, if del(h2) then carry + n + 1 + |name| + |Enc(body,
                      FDT_END_NODE)| else 0);
      if del(h2) {
        WellFormedLast(Prune(rest, node, true, h2, del, carry + n + 1 + |name| + |Enc(body, FDT_END_NODE)|), last);
      }
  }

  /** What may stand after a subnode may stand before one. */
  lemma {:induction false} WellFormedLast(b: Body, last: bool)
    requires WellFormed(b, true)
    ensures WellFormed(b, last)
  {
  }

  /** Where the scan stands in a body: events so far, what is left, and the NOPs just passed. */
  datatype Place = Place(trace: seq<Event>, rest: Body, last: bool, carry: nat, fixed: seq<Raw>)

  /** The place is one the scan of b passes through, and s is what the buffer looks like then. */
  ghost predicate Passing(pl: Place, b: Body, tok: u32, node: Owner, h: seq<Event>, del: Closer, pre: seq<Raw>,
                          post: seq<Raw>, s: seq<Raw>)
  {
    && WellFormed(pl.rest, pl.last)
    && pl.trace + Trace(pl.rest, node, pl.last) == h + Trace(b, node, false)
    && pl.fixed + Enc(Prune(pl.rest, node, pl.last, pl.trace, del, pl.carry), tok)
       == Enc(Prune(b, node, false, h, del, 0), tok)
    && |pl.fixed| + pl.carry + |Enc(pl.rest, tok)| == |Enc(b, tok)|
    && s == pre + (pl.fixed + Nops(pl.carry) + Enc(pl.rest, tok)) + post
  }

  function Pos(pl: Place, pre: seq<Raw>): nat { |pre| + |pl.fixed| + pl.carry }

  /** The next word is a NOP exactly when NOPs are left before the next token. */
  lemma NextWord(pl: Place, b: Body, tok: u32, node: Owner, h: seq<Event>, del: Closer, pre: seq<Raw>, post: seq<Raw>,
                 s: seq<Raw>)
    requires Passing(pl, b, tok, node, h, del, pre, post, s) && tok !in {FDT_BEGIN_NODE, FDT_PROP, FDT_NOP}
    ensures Pos(pl, pre) < |s|
    ensures Bswap(s[Pos(pl, pre)]) == if pl.rest.nops > 0 then FDT_NOP
                                      else match pl.rest
                                           case End(_) => tok
                                           case PropThen(_, _, _, _, _) => FDT_PROP
                                           case NodeThen(_, _, _, _) => FDT_BEGIN_NODE
  {
    hide Bswap, Prune, Trace, WellFormed;
    var e := Enc(pl.rest, tok);
    assert s[Pos(pl, pre)] == e[0];
    BswapTwice(tok);
    BswapTwice(FDT_PROP);
    BswapTwice(FDT_BEGIN_NODE);
    BswapTwice(FDT_NOP);
  }

  lemma {:induction false} NopPassed(pl: Place, b: Body, tok: u32, node: Owner, h: seq<Event>, del: Closer,
                                     pre: seq<Raw>, post: seq<Raw>, s: seq<Raw>)
    requires Passing(pl, b, tok, node, h, del, pre, post, s) && pl.rest.nops > 0
    ensures var pl' := pl.(rest := pl.rest.(nops := pl.rest.nops - 1), carry := pl.carry + 1);
            Passing(pl', b, tok, node, h, del, pre, post, s) && |Enc(pl'.rest, tok)| < |Enc(pl.rest, tok)|
  {
    hide Bswap, IsName, Enc, WellFormed, Trace, Prune;
    var pl' := pl.(rest := pl.rest.(nops := pl.rest.nops - 1), carry := pl.carry + 1);
    NopOff(pl.rest, tok);
    NopInvisible(pl.rest, node, pl.last, pl.trace, del, pl.carry);
    assert Nops(pl.carry) + [Bswap(FDT_NOP)] == Nops(pl.carry + 1);
    assert pl.fixed + Nops(pl.carry) + Enc(pl.rest, tok) == pl.fixed + Nops(pl'.carry) + Enc(pl'.rest, tok);
  }

  lemma NopInvisible(b: Body, node: Owner, last: bool, h: seq<Event>, del: Closer, carry: nat)
    requires b.nops > 0
    ensures var b' := b.(nops := b.nops - 1);
            && (WellFormed(b', last) <==> WellFormed(b, last)) && Trace(b', node, last) == Trace(b, node, last)
            && Prune(b', node, last, h, del, carry + 1) == Prune(b, node, last, h, del, carry)
  {
    hide Bswap, IsName, Enc, DoneOnce;
  }

  lemma NopOff(b: Body, tok: u32)
    requires b.nops > 0
    ensures Enc(b, tok) == [Bswap(FDT_NOP)] + Enc(b.(nops := b.nops - 1), tok)
  {
    hide Bswap;
    var w, ns := [Bswap(FDT_NOP)], Nops(b.nops - 1);
    assert Nops(b.nops) == w + ns;
    match b
    case End(_) => assert w + (ns + [Bswap(tok)]) == w + ns + [Bswap(tok)];
    case PropThen(_, off, len, value, rest) =>
      Regroup(w, ns, [Bswap(FDT_PROP), Bswap(len), Bswap(off)], value, [], Enc(rest, tok));
    case NodeThen(_, name, body, rest) =>
      Regroup(w, ns, [Bswap(FDT_BEGIN_NODE)], name, Enc(body, FDT_END_NODE), Enc(rest, tok));
  }

  /** A property token: its words stay where they are. */
  lemma {:induction false} PropPassed(pl: Place, b: Body, tok: u32, node: Owner, h: seq<Event>, del: Closer,
                                      pre: seq<Raw>, post: seq<Raw>, s: seq<Raw>)
    requires Passing(pl, b, tok, node, h, del, pre, post, s) && pl.rest.PropThen? && pl.rest.nops == 0
    ensures !pl.last && |pl.rest.value| == (pl.rest.len + 3) / 4
    ensures var r, at := pl.rest, Pos(pl, pre);
            && at + 3 + |r.value| <= |s|
            && Bswap(s[at + 1]) == r.len && Bswap(s[at + 2]) == r.off && s[at + 3..at + 3 + |r.value|] == r.value
            && var pl' := Place(pl.trace + [PropEv(node, r.off, r.len, r.value)], r.rest, pl.last, 0,
                                pl.fixed + Nops(pl.carry) + PropWords(r));
            Passing(pl', b, tok, node, h, del, pre, post, s) && Pos(pl', pre) == at + 3 + |r.value|
            && |Enc(r.rest, tok)| < |Enc(r, tok)|
  {
    hide Bswap, WellFormed, Trace, Prune, Enc;
    var r := pl.rest;
    PropUnfold(r, tok, node, pl.last);
    PropPruned(r, tok, node, pl.last, pl.trace, del, pl.carry);
    BswapTwice(r.len);
    BswapTwice(r.off);
    var mid := pl.fixed + Nops(pl.carry) + PropWords(r);
    assert s == pre + (mid + Nops(0) + Enc(r.rest, tok)) + post;
    var at := Pos(pl, pre);
    assert s[at + 3..at + 3 + |r.value|] == r.value;
    assert Nops(pl.carry + 0) == Nops(pl.carry);
    var rest := Enc(Prune(r.rest, node, pl.last, pl.trace + [PropEv(node, r.off, r.len, r.value)], del, 0), tok);
    assert pl.fixed + (Nops(pl.carry) + PropWords(r) + rest)
        == mid + Enc(Prune(r.rest, node, pl.last, pl.trace + [PropEv(node, r.off, r.len, r.value)], del, 0), tok);
  }

  function PropWords(r: Body): seq<Raw>
    requires r.PropThen?
  {
    [Bswap(FDT_PROP), Bswap(r.len), Bswap(r.off)] + r.value
  }

  lemma {:induction false} PropUnfold(r: Body, tok: u32, node: Owner, last: bool)
    requires r.PropThen? && r.nops == 0
    ensures Enc(r, tok) == PropWords(r) + Enc(r.rest, tok)
    ensures WellFormed(r, last) ==> !last && |r.value| == (r.len + 3) / 4 && WellFormed(r.rest, last)
    ensures Trace(r, node, last) == [PropEv(node, r.off, r.len, r.value)] + Trace(r.rest, node, last)
  {
    hide Bswap;
    assert Nops(0) == [];
  }

  lemma {:induction false} PropPruned(r: Body, tok: u32, node: Owner, last: bool, h: seq<Event>, del: Closer,
                                      carry: nat)
    requires r.PropThen? && r.nops == 0
    ensures Enc(Prune(r, node, last, h, del, carry), tok)
         == Nops(carry) + PropWords(r)
            + Enc(Prune(r.rest, node, last, h + [PropEv(node, r.off, r.len, r.value)], del, 0), tok)
  {
    hide Bswap, Trace, WellFormed;
  }

  /** The events up to and including the opening of a subnode. */
  function Opened(pl: Place, node: Owner, name: seq<Raw>): seq<Event>
  {
    pl.trace + DoneOnce(node, pl.last) + [OpenEv(name)]
  }

  /** The events up to and including its closing. */
  function Closed(pl: Place, node: Owner): seq<Event>
    requires pl.rest.NodeThen?
  {
    Opened(pl, node, pl.rest.name) + Trace(pl.rest.body, Named(pl.rest.name), false) + [CloseEv(pl.rest.name)]
  }

  lemma {:induction false} NodeUnfold(r: Body, tok: u32, node: Owner, last: bool)
    requires r.NodeThen? && r.nops == 0
    ensures Enc(r, tok) == [Bswap(FDT_BEGIN_NODE)] + r.name + Enc(r.body, FDT_END_NODE) + Enc(r.rest, tok)
    ensures WellFormed(r, last) ==> IsName(r.name) && WellFormed(r.body, false) && WellFormed(r.rest, true)
    ensures Trace(r, node, last) == DoneOnce(node, last) + [OpenEv(r.name)] + Trace(r.body, Named(r.name),
                  false) + [CloseEv(r.name)] + Trace(r.rest, node, true)
  {
    hide Bswap, IsName;
    assert Nops(0) == [];
  }

  lemma {:induction false} NodePruned(pl: Place, tok: u32, node: Owner, del: Closer)
    requires pl.rest.NodeThen? && pl.rest.nops == 0
    ensures var r, h1, h2 := pl.rest, Opened(pl, node, pl.rest.name), Closed(pl, node);
            var e := Enc(Prune(r, node, pl.last, pl.trace, del, pl.carry), tok);
            var n := 1 + |r.name| + |Enc(r.body, FDT_END_NODE)|;
            if del(h2) then e == Enc(Prune(r.rest, node, true, h2, del, pl.carry + n), tok)
            else e == Nops(pl.carry) + [Bswap(FDT_BEGIN_NODE)] + r.name
                      + Enc(Prune(r.body, Named(r.name), false, h1, del, 0), FDT_END_NODE)
                      + Enc(Prune(r.rest, node, true, h2, del, 0), tok)
  {
    hide Bswap, Trace, WellFormed;
  }

  /** At a subnode: its name, and behind it the encoding of its body. */
  lemma {:induction false} NodeAt(pl: Place, b: Body, tok: u32, node: Owner, h: seq<Event>, del: Closer, pre: seq<Raw>,
                                  post: seq<Raw>, s: seq<Raw>)
    requires Passing(pl, b, tok, node, h, del, pre, post, s) && pl.rest.NodeThen? && pl.rest.nops == 0
    ensures var r, at := pl.rest, Pos(pl, pre);
            var st, n := at + 1 + |r.name|, |Enc(r.body, FDT_END_NODE)|;
            && IsName(r.name) && WellFormed(r.body, false)
            && st + n <= |s| && s[at + 1..st] == r.name && s[st..st + n] == Enc(r.body, FDT_END_NODE)
            && n < |Enc(r, tok)| <= |Enc(b, tok)|
  {
    hide Bswap, WellFormed, Trace, Prune, Enc, IsName;
    NodeUnfold(pl.rest, tok, node, pl.last);
  }

  /** The place after a subnode: its words stay, with its own deletions done, or all become NOPs. */
  function AfterNode(pl: Place, node: Owner, deleted: bool, body': seq<Raw>): Place
    requires pl.rest.NodeThen?
  {
    var r := pl.rest;
    if deleted then Place(Closed(pl, node), r.rest, true, pl.carry + 1 + |r.name| + |body'|, pl.fixed)
    else Place(Closed(pl, node), r.rest, true, 0, pl.fixed + Nops(pl.carry) + [Bswap(FDT_BEGIN_NODE)] + r.name + body')
  }

  /** Rewriting the body part of a subnode's words. */
  lemma Rewritten(pre: seq<Raw>, head: seq<Raw>, w: Raw, name: seq<Raw>, body: seq<Raw>, tail: seq<Raw>, post: seq<Raw>,
                  body': seq<Raw>, s: seq<Raw>)
    requires s == pre + (head + ([w] + name + body + tail)) + post && |body'| == |body|
    ensures var st := |pre| + |head| + 1 + |name|;
            && st + |body'| <= |s|
            && s[..st] + body' + s[st + |body'|..] == pre + (head + [w] + name + body' + Nops(0) + tail) + post
  {
    hide Bswap;
    var st := |pre| + |head| + 1 + |name|;
    assert s[..st] == pre + head + [w] + name;
    assert s[st + |body'|..] == tail + post;
  }

  /** Overwriting a subnode's words with NOPs. */
  lemma Overwritten(pre: seq<Raw>, fixed: seq<Raw>, carry: nat, w: Raw, name: seq<Raw>, body: seq<Raw>, tail: seq<Raw>,
                    post: seq<Raw>, s: seq<Raw>)
    requires s == pre + (fixed + Nops(carry) + ([w] + name + body + tail)) + post
    ensures var at, n := |pre| + |fixed| + carry, 1 + |name| + |body|;
            && at + n <= |s|
            && s[..at] + Nops(n) + s[at + n..] == pre + (fixed + Nops(carry + n) + tail) + post
  {
    hide Bswap;
    var at, n := |pre| + |fixed| + carry, 1 + |name| + |body|;
    assert s[..at] == pre + fixed + Nops(carry);
    assert s[at + n..] == tail + post;
    NopsJoin(carry, n);
  }

  /** After a subnode close asked to delete. */
  lemma NodeDeleted(pl: Place, b: Body, tok: u32, node: Owner, h: seq<Event>, del: Closer, pre: seq<Raw>,
                    post: seq<Raw>, s: seq<Raw>, body': seq<Raw>, s': seq<Raw>)
    requires Passing(pl, b, tok, node, h, del, pre, post, s) && pl.rest.NodeThen? && pl.rest.nops == 0
    requires |body'| == |Enc(pl.rest.body, FDT_END_NODE)| && del(Closed(pl, node))
    requires var at, n := Pos(pl, pre), 1 + |pl.rest.name| + |body'|;
             at + n <= |s| && s' == s[..at] + Nops(n) + s[at + n..]
    ensures Passing(AfterNode(pl, node, true, body'), b, tok, node, h, del, pre, post, s')
  {
    hide Bswap, WellFormed, Trace, Prune, Enc, IsName, Closed, Opened;
    var r := pl.rest;
    NodeUnfold(r, tok, node, pl.last);
    NodePruned(pl, tok, node, del);
    TraceJoin(pl, node, h + Trace(b, node, false));
    Overwritten(pre, pl.fixed, pl.carry, Bswap(FDT_BEGIN_NODE), r.name, Enc(r.body, FDT_END_NODE), Enc(r.rest, tok),
                post, s);
  }

  /** After a subnode that stays. */
  lemma NodeKept(pl: Place, b: Body, tok: u32, node: Owner, h: seq<Event>, del: Closer, pre: seq<Raw>, post: seq<Raw>,
                 s: seq<Raw>, body': seq<Raw>, s': seq<Raw>)
    requires Passing(pl, b, tok, node, h, del, pre, post, s) && pl.rest.NodeThen? && pl.rest.nops == 0
    requires body' == Enc(Prune(pl.rest.body, Named(pl.rest.name), false, Opened(pl, node, pl.rest.name), del, 0),
                          FDT_END_NODE)
    requires |body'| == |Enc(pl.rest.body, FDT_END_NODE)| && !del(Closed(pl, node))
    requires var st := Pos(pl, pre) + 1 + |pl.rest.name|;
             st + |body'| <= |s| && s' == s[..st] + body' + s[st + |body'|..]
    ensures Passing(AfterNode(pl, node, false, body'), b, tok, node, h, del, pre, post, s')
  {
    hide Bswap, WellFormed, Trace, Prune, Enc, IsName, Closed, Opened;
    var r, w := pl.rest, Bswap(FDT_BEGIN_NODE);
    NodeUnfold(r, tok, node, pl.last);
    NodePruned(pl, tok, node, del);
    TraceJoin(pl, node, h + Trace(b, node, false));
    Rewritten(pre, pl.fixed + Nops(pl.carry), w, r.name, Enc(r.body, FDT_END_NODE), Enc(r.rest, tok), post, body', s);
    Regroup(pl.fixed, Nops(pl.carry), [w], r.name, body',
            Enc(Prune(r.rest, node, true, Closed(pl, node), del, 0), tok));
  }

  lemma {:induction false} NodeShorter(r: Body, tok: u32)
    requires r.NodeThen?
    ensures |Enc(r.rest, tok)| < |Enc(r, tok)|
  {
    hide Enc;
    EncLength(r, tok);
  }

  lemma NopsJoin(m: nat, n: nat)
    ensures Nops(m) + Nops(n) == Nops(m + n)
  {
    hide Bswap;
  }

  lemma {:induction false} TraceJoin(pl: Place, node: Owner, all: seq<Event>)
    requires pl.rest.NodeThen? && pl.rest.nops == 0 && pl.trace + Trace(pl.rest, node, pl.last) == all
    ensures Closed(pl, node) + Trace(pl.rest.rest, node, true) == all
  {
    hide Bswap, Enc, WellFormed, Trace, DoneOnce;
    NodeUnfold(pl.rest, 0, node, pl.last);
    var n := pl.rest.name;
    Regroup(pl.trace, DoneOnce(node, pl.last), [OpenEv(n)], Trace(pl.rest.body, Named(n), false), [CloseEv(n)],
            Trace(pl.rest.rest, node, true));
  }

  /** strlen of a node name, a byte at a time. */
  method Strlen(buf: array<Raw>, base: nat, ghost name: seq<Raw>) returns (n: nat)
    requires IsName(name) && base + |name| <= buf.Length && buf[base..base + |name|] == name
    ensures n / 4 == |name| - 1
  {
    hide Byte;
    ghost var z: nat :| z / 4 == |name| - 1 && ZeroByte(name[z / 4], z % 4)
                        && forall k :: 0 <= k < z ==> !ZeroByte(name[k / 4], k % 4);
    n := 0;
    assert forall i :: 0 <= i < |name| ==> buf[base + i] == name[i];
    while !ZeroByte(buf[base + n / 4], n % 4)
      invariant n <= z
      decreases z - n
    {
      n := n + 1;
    }
  }

  /** The loop of a deletion: *lex++ = bswap(FDT_NOP) until lex_next. */
  method Erase(buf: array<Raw>, from: nat, end: nat)
    requires from <= end <= buf.Length
    modifies buf
    ensures buf[..] == old(buf[..from]) + Nops(end - from) + old(buf[end..])
  {
    hide Bswap;
    var lex := from;
    while lex != end
      invariant from <= lex <= end
      invariant forall i :: 0 <= i < buf.Length ==> buf[i] == if from <= i < lex then Bswap(FDT_NOP) else old(buf[i])
      decreases end - lex
    {
      buf[lex] := Bswap(FDT_NOP);
      lex := lex + 1;
    }
    assert buf[..from] == old(buf[..from]) && buf[from..end] == Nops(end - from) && buf[end..] == old(buf[end..]);
    assert buf[..] == buf[..from] + buf[from..end] + buf[end..];
  }

  /** fdt_scan_helper on the encoding of b: the callbacks are b's trace, the scan ends just past the end
      node token (or at any other end token), and the buffer is left with the deleted subnodes erased. */
  method Scan(buf: array<Raw>, start: nat, node: Owner, del: Closer, h: seq<Event>, ghost b: Body, ghost tok: u32)
    returns (next: nat, trace: seq<Event>)
    requires WellFormed(b, false) && tok !in {FDT_BEGIN_NODE, FDT_PROP, FDT_NOP}
    requires start + |Enc(b, tok)| <= buf.Length && buf[start..start + |Enc(b, tok)|] == Enc(b, tok)
    modifies buf
    ensures next == start + |Enc(b, tok)| - (if tok == FDT_END_NODE then 0 else 1)
    ensures trace == h + Visit(b, node) == h + Trace(b, node, false)
    ensures buf[..] == old(buf[..start]) + Enc(Prune(b, node, false, h, del, 0), tok)
                       + old(buf[start + |Enc(b, tok)|..])
    decreases |Enc(b, tok)|
  {
    hide Bswap, Enc, Prune, Trace, WellFormed, IsName, Passing, Visit;
    TraceIsPreOrder(b, node, false);
    ghost var pre, post := buf[..start], buf[start + |Enc(b, tok)|..];
    ghost var pl := Place(h, b, false, 0, []);
    ScanStart(pl, b, tok, node, h, del, pre, post, buf[..]);
    var lex: nat, last := start, false;
    trace := h;
    while true
      invariant Passing(pl, b, tok, node, h, del, pre, post, buf[..])
      invariant lex == Pos(pl, pre) && last == pl.last && trace == pl.trace
      decreases |Enc(pl.rest, tok)|
    {
      NextWord(pl, b, tok, node, h, del, pre, post, buf[..]);
      var word := Bswap(buf[lex]);
      if word == FDT_NOP {
        NopPassed(pl, b, tok, node, h, del, pre, post, buf[..]);
        pl := pl.(rest := pl.rest.(nops := pl.rest.nops - 1), carry := pl.carry + 1);
        lex := lex + 1;
      } else if word == FDT_PROP {
        PropPassed(pl, b, tok, node, h, del, pre, post, buf[..]);
        assert !last;
        var off, len := Bswap(buf[lex + 2]), Bswap(buf[lex + 1]);
        var bytes: nat := len;
        var end: nat := lex + 3 + (bytes + 3) / 4;
        var value := buf[lex + 3..end];
        assert value == buf[..][lex + 3..end];
        trace := trace + [PropEv(node, off, len, value)];
        pl := Place(trace, pl.rest.rest, last, 0, pl.fixed + Nops(pl.carry) + PropWords(pl.rest));
        lex := end;
      } else if word == FDT_BEGIN_NODE {
        lex, trace, pl := ScanChild(buf, lex, last, node, del, h, trace, b, tok, pl, pre, post);
        last := true;
      } else {
        ScanEnd(pl, b, tok, node, h, del, pre, post, buf[..]);
        if !last && node.Named? { trace := trace + [DoneEv(node)]; }
        return if word == FDT_END_NODE then lex + 1 else lex, trace;
      }
    }
  }

  /** The name of a node, padded to whole words, and where its body starts. */
  method NodeName(buf: array<Raw>, at: nat, ghost name: seq<Raw>) returns (st: nat, words: seq<Raw>)
    requires IsName(name) && at + |name| <= buf.Length && buf[at..at + |name|] == name
    ensures st == at + |name| && words == name
  {
    hide IsName;
    var chars := Strlen(buf, at, name);
    st := at + 1 + chars / 4;
    words := buf[at..st];
  }

  /** The callbacks before a subnode is scanned: done for the node, if that is still due, and open. */
  method Announce(trace: seq<Event>, last: bool, node: Owner, name: seq<Raw>) returns (trace': seq<Event>)
    ensures trace' == trace + DoneOnce(node, last) + [OpenEv(name)]
  {
    trace' := trace;
    if !last && node.Named? { trace' := trace' + [DoneEv(node)]; }
    trace' := trace' + [OpenEv(name)];
  }

  /** The FDT_BEGIN_NODE case. */
  method ScanChild(buf: array<Raw>, at: nat, last: bool, node: Owner, del: Closer, ghost h: seq<Event>,
                   trace: seq<Event>, ghost b: Body, ghost tok: u32, ghost pl: Place, ghost pre: seq<Raw>,
                   ghost post: seq<Raw>)
    returns (lex: nat, trace': seq<Event>, ghost pl': Place)
    requires Passing(pl, b, tok, node, h, del, pre, post, buf[..]) && pl.rest.NodeThen? && pl.rest.nops == 0
    requires at == Pos(pl, pre) && last == pl.last && trace == pl.trace
    modifies buf
    ensures Passing(pl', b, tok, node, h, del, pre, post, buf[..])
    ensures lex == Pos(pl', pre) && pl'.last && trace' == pl'.trace && |Enc(pl'.rest, tok)| < |Enc(pl.rest, tok)|
    decreases |Enc(b, tok)|, 0
  {
    hide Bswap, Enc, Prune, Trace, WellFormed, IsName, Passing, Visit, DoneOnce;
    ghost var r, s := pl.rest, buf[..];
    NodeAt(pl, b, tok, node, h, del, pre, post, s);
    ghost var n := |Enc(r.body, FDT_END_NODE)|;
    assert buf[at + 1..at + 1 + |r.name|] == s[at + 1..at + 1 + |r.name|];
    var st, name := NodeName(buf, at + 1, r.name);
    assert buf[st..st + n] == s[st..st + n];
    var h1 := Announce(trace, last, node, name);
    lex, trace' := Scan(buf, st, Named(name), del, h1, r.body, FDT_END_NODE);
    trace' := trace' + [CloseEv(name)];
    PruneLength(r.body, Named(name), false, h1, del, 0, FDT_END_NODE);
    ghost var body' := Enc(Prune(r.body, Named(name), false, h1, del, 0), FDT_END_NODE);
    CloseChild(buf, at, lex, del(trace'), node, del, h, b, tok, pl, pre, post, s, body');
    NodeShorter(r, tok);
    pl' := AfterNode(pl, node, del(trace'), body');
  }

  /** If close answered -1, the words of the subnode are erased. */
  method CloseChild(buf: array<Raw>, at: nat, lex: nat, deleted: bool, node: Owner, ghost del: Closer,
                    ghost h: seq<Event>, ghost b: Body, ghost tok: u32, ghost pl: Place, ghost pre: seq<Raw>,
                    ghost post: seq<Raw>, ghost s: seq<Raw>, ghost body': seq<Raw>)
    requires Passing(pl, b, tok, node, h, del, pre, post, s) && pl.rest.NodeThen? && pl.rest.nops == 0
    requires at == Pos(pl, pre)
    requires deleted == del(Closed(pl, node)) && |body'| == |Enc(pl.rest.body, FDT_END_NODE)|
    requires body' == Enc(Prune(pl.rest.body, Named(pl.rest.name), false, Opened(pl, node, pl.rest.name), del, 0),
                          FDT_END_NODE)
    requires var st := at + 1 + |pl.rest.name|; lex == st + |body'| <= |s| && buf[..] == s[..st] + body' + s[lex..]
    modifies buf
    ensures Passing(AfterNode(pl, node, deleted, body'), b, tok, node, h, del, pre, post, buf[..])
  {
    hide Bswap, Enc, Prune, Trace, WellFormed, IsName, Passing, Closed, Opened, AfterNode;
    if deleted {
      assert buf[..at] == s[..at] && buf[lex..] == s[lex..] by {
        assert buf[..][..at] == s[..at] && buf[..][lex..] == s[lex..];
      }
      Erase(buf, at, lex);
      NodeDeleted(pl, b, tok, node, h, del, pre, post, s, body', buf[..]);
    } else {
      NodeKept(pl, b, tok, node, h, del, pre, post, s, body', buf[..]);
    }
  }

  lemma {:induction false} ScanStart(pl: Place, b: Body, tok: u32, node: Owner, h: seq<Event>, del: Closer,
                                     pre: seq<Raw>, post: seq<Raw>, s: seq<Raw>)
    requires pl == Place(h, b, false, 0, []) && WellFormed(b, false) && |pre| + |Enc(b, tok)| <= |s|
    requires pre == s[..|pre|] && s[|pre|..|pre| + |Enc(b, tok)|] == Enc(b, tok) && post == s[|pre| + |Enc(b, tok)|..]
    ensures Passing(pl, b, tok, node, h, del, pre, post, s)
  {
    hide Bswap, Enc, Prune, Trace, WellFormed;
    assert [] + Nops(0) + Enc(b, tok) == Enc(b, tok);
  }

  lemma {:induction false} ScanEnd(pl: Place, b: Body, tok: u32, node: Owner, h: seq<Event>, del: Closer, pre: seq<Raw>,
                                   post: seq<Raw>, s: seq<Raw>)
    requires Passing(pl, b, tok, node, h, del, pre, post, s) && pl.rest == End(0)
    ensures pl.trace + DoneOnce(node, pl.last) == h + Trace(b, node, false)
    ensures Pos(pl, pre) + 1 == |pre| + |Enc(b, tok)|
    ensures s == pre + Enc(Prune(b, node, false, h, del, 0), tok) + post
  {
    hide Bswap, DoneOnce;
    assert Enc(End(0), tok) == [Bswap(tok)] by { assert Nops(0) == []; }
    assert pl.fixed + Nops(pl.carry) + [Bswap(tok)] == pl.fixed + (Nops(pl.carry) + [Bswap(tok)]);
  }

  /** The tree without the subnodes close asked to delete. */
  ghost function Drop(b: Body, node: Owner, last: bool, h: seq<Event>, del: Closer): Body
  {
    match b
    case End(_) => b
    case PropThen(n, off, len, value, rest) =>
      PropThen(n, off, len, value, Drop(rest, node, last, h + [PropEv(node, off, len, value)], del))
    case NodeThen(n, name, body, rest) =>
      var h1 := h + DoneOnce(node, last) + [OpenEv(name)];
      var h2 := h1 + Trace(body, Named(name), false) + [CloseEv(name)];
      var rest' := Drop(rest, node, true, h2, del);
      if del(h2) then rest' else NodeThen(n, name, Drop(body, Named(name), false, h1, del), rest')
  }

  /** What is left in the buffer reads as the tree with those subnodes removed. */
  lemma {:induction false} PruneReadsAsDrop(b: Body, node: Owner, last: bool, h: seq<Event>, del: Closer, carry: nat,
                                            last': bool)
    ensures Trace(Prune(b, node, last, h, del, carry), node, last') == Trace(Drop(b, node, last, h, del), node, last')
  {
    hide Bswap, Enc, IsName, WellFormed;
    match b
    case End(_) =>
    case PropThen(_, off, len, value, rest) =>
      PruneReadsAsDrop(rest, node, last, h + [PropEv(node, off, len, value)], del, 0, last');
    case NodeThen(n, name, body, rest) =>
      var h1 := h + DoneOnce(node, last) + [OpenEv(name)];
      var h2 := h1 + Trace(body, Named(name), false) + [CloseEv(name)];
      if del(h2) {
        PruneReadsAsDrop(rest, node, true, h2, del, carry + n + 1 + |name| + |Enc(body, FDT_END_NODE)|, last');
      } else {
        PruneReadsAsDrop(body, Named(name), false, h1, del, 0, false);
        PruneReadsAsDrop(rest, node, true, h2, del, 0, true);
      }
  }

  /** The callbacks a tree calls for, without the scanner's bookkeeping: a node's properties, then done for it
      (there is none above the root), then its subnodes. */
  function Visit(b: Body, node: Owner): seq<Event>
    decreases b, 1
  {
    Props(b, node) + (match node case Named(name) => [DoneEv(Named(name))] case NoNode => []) + Kids(b)
  }

  function Props(b: Body, node: Owner): seq<Event>
  {
    match b
    case PropThen(_, off, len, value, rest) => [PropEv(node, off, len, value)] + Props(rest, node)
    case _ => []
  }

  /** Each subnode is opened, visited and closed, in order. */
  function Kids(b: Body): seq<Event>
    decreases b, 0
  {
    match b
    case End(_) => []
    case PropThen(_, _, _, _, rest) => Kids(rest)
    case NodeThen(_, name, body, rest) => [OpenEv(name)] + Visit(body, Named(name)) + [CloseEv(name)] + Kids(rest)
  }

  /** Where properties come first, that is the trace; after the first subnode, what is left are subnodes. */
  lemma {:induction false} TraceIsPreOrder(b: Body, node: Owner, last: bool)
    requires WellFormed(b, last)
    ensures Trace(b, node, last) == if last then Kids(b) else Visit(b, node)
  {
    hide Bswap, Enc, IsName;
    match b
    case End(_) =>
    case PropThen(_, off, len, value, rest) =>
      TraceIsPreOrder(rest, node, last);
      var done := match node case Named(name) => [DoneEv(Named(name))] case NoNode => [];
      Regroup([PropEv(node, off, len, value)], Props(rest, node), done, [], [], Kids(rest));
    case NodeThen(_, name, body, rest) =>
      TraceIsPreOrder(body, Named(name), false);
      TraceIsPreOrder(rest, node, true);
      Regroup(DoneOnce(node, last), [OpenEv(name)], Visit(body, Named(name)), [CloseEv(name)], [], Kids(rest));
  }

  function Opens(t: seq<Event>): nat { if t == [] then 0 else (if t[0].OpenEv? then 1 else 0) + Opens(t[1..]) }

  function Dones(t: seq<Event>): nat { if t == [] then 0 else (if t[0].DoneEv? then 1 else 0) + Dones(t[1..]) }

  function Closes(t: seq<Event>): nat { if t == [] then 0 else (if t[0].CloseEv? then 1 else 0) + Closes(t[1..]) }

  lemma {:induction false} CountsAdd(t: seq<Event>, u: seq<Event>)
    ensures Opens(t + u) == Opens(t) + Opens(u) && Dones(t + u) == Dones(t) + Dones(u)
    ensures Closes(t + u) == Closes(t) + Closes(u)
  {
    if t == [] {
      assert t + u == u;
    } else {
      CountsAdd(t[1..], u);
      assert (t + u)[1..] == t[1..] + u;
    }
  }

  lemma {:induction false} PropsCount(b: Body, node: Owner)
    ensures var t := Props(b, node); Opens(t) == Dones(t) == Closes(t) == 0
  {
    if b.PropThen? {
      PropsCount(b.rest, node);
      assert Props(b, node)[1..] == Props(b.rest, node);
    }
  }

  lemma {:induction false} VisitCount(b: Body, node: Owner)
    ensures var t, k := Visit(b, node), Kids(b);
            && Opens(t) == Opens(k) && Closes(t) == Closes(k)
            && Dones(t) == Dones(k) + if node.Named? then 1 else 0
  {
    hide Kids, Props;
    PropsCount(b, node);
    var done := match node case Named(name) => [DoneEv(Named(name))] case NoNode => [];
    CountsAdd(Props(b, node) + done, Kids(b));
    CountsAdd(Props(b, node), done);
  }

  /** Every node that is opened is reported done once and closed once, within its own subtree. */
  lemma {:induction false} DoneForEach(b: Body, node: Owner)
    ensures var t := Kids(b); Opens(t) == Dones(t) == Closes(t)
    ensures var t := Visit(b, node); Dones(t) == Opens(t) + (if node.Named? then 1 else 0) && Closes(t) == Opens(t)
  {
    hide Visit;
    VisitCount(b, node);
    match b
    case End(_) =>
    case PropThen(_, _, _, _, rest) => DoneForEach(rest, node);
    case NodeThen(_, name, body, rest) =>
      DoneForEach(body, Named(name));
      DoneForEach(rest, node);
      CountsAdd([OpenEv(name)] + Visit(body, Named(name)) + [CloseEv(name)], Kids(rest));
      CountsAdd([OpenEv(name)] + Visit(body, Named(name)), [CloseEv(name)]);
      CountsAdd([OpenEv(name)], Visit(body, Named(name)));
  }

  lemma {:induction false} DropWellFormed(b: Body, node: Owner, last: bool, h: seq<Event>, del: Closer)
    requires WellFormed(b, last)
    ensures WellFormed(Drop(b, node, last, h, del), last)
  {
    hide Bswap, Trace, DoneOnce, IsName, Enc;
    match b
    case End(_) =>
    case PropThen(_, off, len, value, rest) =>
      DropWellFormed(rest, node, last, h + [PropEv(node, off, len, value)], del);
    case NodeThen(_, name, body, rest) =>
      var h1 := h + DoneOnce(node, last) + [OpenEv(name)];
      var h2 := h1 + Trace(body, Named(name), false) + [CloseEv(name)];
      DropWellFormed(body, Named(name), false, h1, del);
      DropWellFormed(rest, node, true, h2, del);
      WellFormedLast(Drop(rest, node, true, h2, del), last);
  }

  lemma Regroup<T>(a: seq<T>, b: seq<T>, c: seq<T>, d: seq<T>, e: seq<T>, f: seq<T>)
    ensures a + (b + c + d + e + f) == a + b + c + d + e + f
    ensures e == [] ==> a + (b + c + d + f) == a + b + c + d + f
    ensures d == e == [] ==> a + (b + c + f) == a + b + c + f
  {
    assert b + c + d + [] == b + c + d && a + b + c + d + [] == a + b + c + d;
    assert b + c + [] == b + c && a + b + c + [] == a + b + c;
  }

  /** Scanning again after a scan that deleted subnodes. */
  method Rescan(buf: array<Raw>, start: nat, node: Owner, del: Closer, ghost b: Body, ghost tok: u32)
    returns (first: seq<Event>, second: seq<Event>)
    requires WellFormed(b, false) && tok !in {FDT_BEGIN_NODE, FDT_PROP, FDT_NOP}
    requires start + |Enc(b, tok)| <= buf.Length && buf[start..start + |Enc(b, tok)|] == Enc(b, tok)
    modifies buf
    ensures first == Visit(b, node)
    ensures second == Visit(Drop(b, node, false, [], del), node)
  {
    hide Bswap, Enc, IsName, WellFormed, Prune, Drop, Trace, Visit;
    DropWellFormed(b, node, false, [], del);
    TraceIsPreOrder(Drop(b, node, false, [], del), node, false);
    var next;
    next, first := Scan(buf, start, node, del, [], b, tok);
    ghost var b' := Prune(b, node, false, [], del, 0);
    PruneLength(b, node, false, [], del, 0, tok);
    PruneWellFormed(b, node, false, [], del, 0);
    assert buf[start..start + |Enc(b', tok)|] == Enc(b', tok);
    next, second := Scan(buf, start, node, _ => false, [], b', tok);
    PruneReadsAsDrop(b, node, false, [], del, 0, false);
  }

  const FDT_MAGIC: u32 := 0xd00dfeed
  const FDT_VERSION: u32 := 17
  const FDT_END: u32 := 9

  /** fdt_scan on a whole blob: a blob it does not understand is left alone, any other is scanned from the
      structure block its header points to. */
  method FdtScan(buf: array<Raw>, del: Closer, ghost b: Body) returns (trace: seq<Event>)
    requires buf.Length >= 10
    requires Understood(buf[..]) ==> WellFormed(b, false) && IsBlock(buf[..], b)
    modifies buf
    ensures trace == if old(Understood(buf[..])) then Visit(b, NoNode) else []
    ensures !old(Understood(buf[..])) ==> buf[..] == old(buf[..])
    ensures old(Understood(buf[..])) ==>
              var at: nat := Bswap(old(buf[2])) / 4;
              var end: nat := at + |Enc(b, FDT_END)|;
              && end <= buf.Length
              && buf[..] == old(buf[..at]) + Enc(Prune(b, NoNode, false, [], del, 0), FDT_END) + old(buf[end..])
  {
    hide Enc, IsName, WellFormed, Prune, Trace, Bswap, Visit;
    trace := [];
    if Bswap(buf[0]) != FDT_MAGIC || Bswap(buf[6]) > FDT_VERSION { return; }
    var lex := Bswap(buf[2]) / 4;
    assert buf[lex..lex + |Enc(b, FDT_END)|] == buf[..][lex..lex + |Enc(b, FDT_END)|];
    var next;
    next, trace := Scan(buf, lex, NoNode, del, [], b, FDT_END);
  }

  /** The header's magic number and last compatible version. */
  predicate Understood(s: seq<Raw>)
    requires |s| >= 10
  {
    Bswap(s[0]) == FDT_MAGIC && Bswap(s[6]) <= FDT_VERSION
  }

  lemma Swapped(b0: nat, b1: nat, b2: nat, b3: nat)
    requires b0 < 256 && b1 < 256 && b2 < 256 && b3 < 256
    ensures var x := b0 + 256 * b1 + 65536 * b2 + 0x100_0000 * b3;
            Bswap(x) == b3 + 256 * b2 + 65536 * b1 + 0x100_0000 * b0 && Byte(x, 0) == b0 && Byte(x, 3) == b3
  {
    hide Bswap, Byte;
    BytesOf(b0, b1, b2, b3);
    BswapReverses(FromBytes(b0, b1, b2, b3));
  }

  /** The words themselves, as a little-endian machine finds them in the blob. */
  lemma TokenWords()
    ensures Bswap(FDT_BEGIN_NODE) == 0x0100_0000 && Bswap(FDT_END_NODE) == 0x0200_0000
    ensures Bswap(FDT_PROP) == 0x0300_0000 && Bswap(FDT_NOP) == 0x0400_0000 && Bswap(FDT_END) == 0x0900_0000
    ensures Bswap(FDT_MAGIC) == 0xedfe_0dd0 && Bswap(FDT_VERSION) == 0x1100_0000
  {
    hide Bswap, Byte;
    Swapped(1, 0, 0, 0);
    Swapped(2, 0, 0, 0);
    Swapped(3, 0, 0, 0);
    Swapped(4, 0, 0, 0);
    Swapped(9, 0, 0, 0);
    Swapped(17, 0, 0, 0);
    Swapped(0xed, 0xfe, 0x0d, 0xd0);
  }

  lemma {:induction false} BlockWords(name: seq<Raw>, off: u32, len: u32, value: seq<Raw>)
    ensures Enc(End(0), FDT_END) == [0x0900_0000] && Enc(End(1), FDT_END) == [0x0400_0000, 0x0900_0000]
    ensures Enc(PropThen(0, off, len, value, End(0)), FDT_END)
            == [0x0300_0000, Bswap(len), Bswap(off)] + value + [0x0900_0000]
    ensures Enc(NodeThen(0, name, End(0), End(0)), FDT_END) == [0x0100_0000] + name + [0x0200_0000] + [0x0900_0000]
  {
    hide Bswap;
    TokenWords();
    assert Nops(0) == [] && Nops(1) == [0x0400_0000];
    assert Enc(End(0), FDT_END_NODE) == [0x0200_0000];
  }

  ghost predicate IsBlock(s: seq<Raw>, b: Body)
    requires |s| >= 10
  {
    var at := Bswap(s[2]) / 4;
    Bswap(s[2]) % 4 == 0 && at + |Enc(b, FDT_END)| <= |s| && s[at..at + |Enc(b, FDT_END)|] == Enc(b, FDT_END)
  }
}
