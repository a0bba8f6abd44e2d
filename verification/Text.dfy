/** vsnprintf of util/snprintf.c and atol of util/string.c. Strings are sequences without the final NUL. */
module Text {
  import Sv39

  const NUL: char := 0 as char

  /** One variadic argument, as it lies in its register: a number, or a string. */
  datatype Arg = Num(v: int) | Str(s: string)

  function Digit(d: nat): char
    requires d < 16
  {
    if d < 10 then ('0' as int + d) as char else ('a' as int + d - 10) as char
  }

  /** Decimal digits of a number. */
  function Dec(n: nat): (s: string)
    ensures |s| > 0
  {
    if n < 10 then [Digit(n)] else Dec(n / 10) + [Digit(n % 10)]
  }

  function SignedDec(v: int): string { if v < 0 then "-" + Dec(-v) else Dec(v) }

  function Pow16(k: nat): (p: nat)
    ensures p > 0
  {
    if k == 0 then 1 else 16 * Pow16(k - 1)
  }

  /** The low 4 * w bits of v in two's complement, as w hexadecimal digits. */
  function Hex(v: int, w: nat): (s: string)
    ensures |s| == w
  {
    if w == 0 then [] else [Digit(v / Pow16(w - 1) % 16)] + Hex(v, w - 1)
  }

  /** Digits of a conversion: 8 for an int, 16 for a long. */
  function Width(long: bool): nat { if long then 16 else 8 }

  predicate TakesNumber(c: char) { c in "pxd" }

  /** A register's worth of number; LONG_MIN is not among them. */
  predicate IsNumber(a: Arg) { a.Num? && -0x8000_0000_0000_0000 < a.v < 0x8000_0000_0000_0000 }

  /** The number va_arg fetches: all of a long, the low 32 bits of an int. */
  function Fetched(v: int, long: bool): int
  {
    if long then v else if v % 0x1_0000_0000 < 0x8000_0000 then v % 0x1_0000_0000 else v % 0x1_0000_0000 - 0x1_0000_0000
  }

  /** Room for the text: the n of a call, or no limit at all. */
  datatype Room = NoLimit | Limit(n: nat)

  /** A character at position pos is stored. */
  predicate Fits(pos: nat, room: Room) { room.NoLimit? || pos + 1 < room.n }

  /** The argument that c takes is there and of its kind. */
  predicate Takes(c: char, args: seq<Arg>)
  {
    args != [] && if c == 's' then args[0].Str? && NUL !in args[0].s else IsNumber(args[0])
  }

  predicate IsConversion(c: char) { TakesNumber(c) || c == 's' }

  /** Every conversion finds its argument. A %c takes one only if the character is stored. */
  predicate Matches(s: string, args: seq<Arg>, format: bool, long: bool, pos: nat, room: Room)
  {
    if s == "" then true
    else if !format then Matches(s[1..], args, s[0] == '%', long, if s[0] == '%' then pos else pos + 1, room)
    else if IsConversion(s[0]) then
      Takes(s[0], args) && Matches(s[1..], args[1..], false, false, pos + |Shown(s[0], args[0], long)|, room)
    else if s[0] == 'c' then
      if Fits(pos, room) then Takes('c', args) && Matches(s[1..], args[1..], false, false, pos + 1, room)
      else Matches(s[1..], args, false, false, pos + 1, room)
    else Matches(s[1..], args, true, long || s[0] == 'l', pos, room)
  }

  /** What one conversion character prints. */
  function Shown(c: char, arg: Arg, long: bool): string
    requires if TakesNumber(c) then arg.Num? else c == 's' && arg.Str?
  {
    match c
    case 'p' => "0x" + Hex(arg.v, 16)
    case 'x' => Hex(Fetched(arg.v, long), Width(long))
    case 'd' => SignedDec(Fetched(arg.v, long))
    case _ => arg.s
  }

  /** The character %c prints: the low byte of its argument. */
  function CharOf(arg: Arg): char
    requires arg.Num?
  {
    (arg.v % 256) as char
  }

  /** The text of the rest of a format from position pos on, however long; a %c character that is not
      stored counts as a NUL. After a percent sign 'l' is remembered and any other character that is not
      a conversion is skipped, a second percent sign included. */
  function Render(s: string, args: seq<Arg>, format: bool, long: bool, pos: nat, room: Room): string
    requires Matches(s, args, format, long, pos, room)
  {
    if s == "" then ""
    else if !format then
      if s[0] == '%' then Render(s[1..], args, true, long, pos, room)
      else [s[0]] + Render(s[1..], args, false, long, pos + 1, room)
    else if IsConversion(s[0]) then
      var piece := Shown(s[0], args[0], long);
      piece + Render(s[1..], args[1..], false, false, pos + |piece|, room)
    else if s[0] == 'c' then
      if Fits(pos, room) then [CharOf(args[0])] + Render(s[1..], args[1..], false, false, pos + 1, room)
      else [NUL] + Render(s[1..], args, false, false, pos + 1, room)
    else Render(s[1..], args, true, long || s[0] == 'l', pos, room)
  }

  /** out holds as much of text as fits before position n - 1, and is old elsewhere. */
  ghost predicate Holds(out: seq<char>, was: seq<char>, n: nat, text: string)
  {
    |out| == |was| && forall i :: 0 <= i < |out| ==> out[i] == if i < |text| && i + 1 < n then text[i] else was[i]
  }

  /** if (++pos < n) out[pos - 1] = c */
  method Put(out: array<char>, n: nat, pos: nat, c: char, ghost was: seq<char>, ghost text: string) returns (pos': nat)
    requires n <= out.Length && pos == |text| && Holds(out[..], was, n, text)
    modifies out
    ensures pos' == |text + [c]| && Holds(out[..], was, n, text + [c])
  {
    pos' := pos + 1;
    if pos' < n { out[pos' - 1] := c; }
  }

  method PutString(out: array<char>, n: nat, pos: nat, s2: string, ghost was: seq<char>,
                   ghost text: string) returns (pos': nat)
    requires n <= out.Length && pos == |text| && Holds(out[..], was, n, text)
    modifies out
    ensures pos' == |text + s2| && Holds(out[..], was, n, text + s2)
  {
    pos' := pos;
    assert text + s2[..0] == text;
    for i := 0 to |s2|
      invariant pos' == |text + s2[..i]| && Holds(out[..], was, n, text + s2[..i])
    {
      pos' := Put(out, n, pos', s2[i], was, text + s2[..i]);
      assert text + s2[..i + 1] == text + s2[..i] + [s2[i]];
    }
    assert s2[..|s2|] == s2;
  }

  lemma {:induction false} HexSplit(v: int, w: nat, k: nat)
    requires k < w
    ensures Hex(v, w)[k] == Digit(v / Pow16(w - 1 - k) % 16)
  {
    if k > 0 { HexSplit(v, w - 1, k - 1); }
  }

  method PutHex(out: array<char>, n: nat, pos: nat, num: int, w: nat, ghost was: seq<char>,
                ghost text: string) returns (pos': nat)
    requires n <= out.Length && pos == |text| && Holds(out[..], was, n, text)
    modifies out
    ensures pos' == |text + Hex(num, w)| && Holds(out[..], was, n, text + Hex(num, w))
  {
    pos' := pos;
    ghost var h := Hex(num, w);
    assert text + h[..0] == text;
    var i := w - 1;
    while i >= 0
      invariant -1 <= i < w
      invariant pos' == |text + h[..w - 1 - i]| && Holds(out[..], was, n, text + h[..w - 1 - i])
    {
      HexSplit(num, w, w - 1 - i);
      assert text + h[..w - i] == text + h[..w - 1 - i] + [h[w - 1 - i]];
      pos' := Put(out, n, pos', Digit(num / Pow16(i) % 16), was, text + h[..w - 1 - i]);
      i := i - 1;
    }
    assert h[..w] == h;
  }

  /** The loop that counts the digits of num. */
  method CountDigits(num: nat) returns (digits: nat)
    ensures digits == |Dec(num)|
  {
    digits := 1;
    var nn: nat := num / 10;
    while nn != 0
      invariant digits + (if nn == 0 then 0 else |Dec(nn)|) == |Dec(num)|
    {
      nn, digits := nn / 10, digits + 1;
    }
  }

  /** num without its last k digits. */
  function Shifted(num: nat, k: nat): nat { if k == 0 then num else Shifted(num / 10, k - 1) }

  /** The digit that is k from the end. */
  lemma {:induction false} DecFromEnd(num: nat, k: nat)
    requires k < |Dec(num)|
    ensures Dec(num)[|Dec(num)| - 1 - k] == Digit(Shifted(num, k) % 10)
  {
    if k > 0 { DecFromEnd(num / 10, k - 1); }
  }

  lemma {:induction false} ShiftedStep(num: nat, k: nat)
    ensures Shifted(num, k + 1) == Shifted(num, k) / 10
  {
    if k > 0 { ShiftedStep(num / 10, k - 1); }
  }

  /** out while the digits d of a number are being written behind text, last first, from index i on. */
  ghost predicate Filling(out: seq<char>, was: seq<char>, n: nat, text: string, d: string, i: int)
  {
    |out| == |was| && forall j :: 0 <= j < |out| ==>
      out[j] == if j + 1 < n && j < |text| then text[j]
                else if j + 1 < n && |text| + i <= j < |text| + |d| then d[j - |text|] else was[j]
  }

  /** The digits are written backwards, those that fit. */
  method PutDigits(out: array<char>, n: nat, pos: nat, num: nat, ghost was: seq<char>,
                   ghost text: string) returns (pos': nat)
    requires n <= out.Length && pos == |text| && Holds(out[..], was, n, text)
    modifies out
    ensures pos' == |text + Dec(num)| && Holds(out[..], was, n, text + Dec(num))
  {
    var digits := CountDigits(num);
    ghost var d := Dec(num);
    var left: nat, i: int := num, digits - 1;
    while i >= 0
      invariant -1 <= i < digits == |d| && left == Shifted(num, digits - 1 - i)
      invariant Filling(out[..], was, n, text, d, i + 1)
    {
      DecFromEnd(num, digits - 1 - i);
      ShiftedStep(num, digits - 1 - i);
      if pos + i + 1 < n { out[pos + i] := Digit(left % 10); }
      left, i := left / 10, i - 1;
    }
    pos' := pos + digits;
  }

  method PutDec(out: array<char>, n: nat, pos: nat, v: int, ghost was: seq<char>,
                ghost text: string) returns (pos': nat)
    requires n <= out.Length && pos == |text| && Holds(out[..], was, n, text)
    modifies out
    ensures pos' == |text + SignedDec(v)| && Holds(out[..], was, n, text + SignedDec(v))
  {
    hide Holds, Dec;
    var num := v;
    pos' := pos;
    if num < 0 {
      num := -num;
      pos' := Put(out, n, pos', '-', was, text);
      assert text + SignedDec(v) == text + ['-'] + Dec(num);
      pos' := PutDigits(out, n, pos', num, was, text + ['-']);
    } else {
      pos' := PutDigits(out, n, pos', num, was, text);
    }
  }

  method PutConversion(out: array<char>, n: nat, pos: nat, c: char, arg: Arg, long: bool, ghost was: seq<char>,
                       ghost text: string)
    returns (pos': nat)
    requires n <= out.Length && pos == |text| && Holds(out[..], was, n, text)
    requires if TakesNumber(c) then arg.Num? else c == 's' && arg.Str?
    modifies out
    ensures pos' == |text + Shown(c, arg, long)| && Holds(out[..], was, n, text + Shown(c, arg, long))
  {
    hide Holds, Hex, SignedDec, Dec;
    if c == 'p' {
      pos' := Put(out, n, pos, '0', was, text);
      pos' := Put(out, n, pos', 'x', was, text + ['0']);
      pos' := PutHex(out, n, pos', arg.v, 16, was, text + ['0'] + ['x']);
      assert text + Shown(c, arg, long) == text + ['0'] + ['x'] + Hex(arg.v, 16);
    } else if c == 'x' {
      pos' := PutHex(out, n, pos, Fetched(arg.v, long), Width(long), was, text);
    } else if c == 'd' {
      pos' := PutDec(out, n, pos, Fetched(arg.v, long), was, text);
    } else {
      pos' := PutString(out, n, pos, arg.s, was, text);
    }
  }

  /** The loop of vsnprintf: the text goes to out as far as it fits, and its length is the result. */
  method Format(out: array<char>, n: nat, s: string, args: seq<Arg>) returns (pos: nat)
    requires n <= out.Length && Matches(s, args, false, false, 0, Limit(n))
    modifies out
    ensures pos == |Render(s, args, false, false, 0, Limit(n))|
    ensures Holds(out[..], old(out[..]), n, Render(s, args, false, false, 0, Limit(n)))
  {
    hide Holds, Shown, TakesNumber, IsConversion, IsNumber, Matches, Render, Fits, CharOf;
    ghost var was, all, text := out[..], Render(s, args, false, false, 0, Limit(n)), "";
    Unwritten(was, n);
    var format, longarg := false, false;
    var rest, vl := s, args;
    pos := 0;
    while rest != ""
      invariant Matches(rest, vl, format, longarg, pos, Limit(n))
      invariant pos == |text| && Holds(out[..], was, n, text)
      invariant text + Render(rest, vl, format, longarg, pos, Limit(n)) == all
      decreases |rest|
    {
      var c := rest[0];
      if format {
        if IsConversion(c) {
          RenderConversion(rest, vl, longarg, pos, Limit(n));
          pos := PutConversion(out, n, pos, c, vl[0], longarg, was, text);
          text := text + Shown(c, vl[0], longarg);
          format, longarg, vl := false, false, vl[1..];
        } else if c == 'c' {
          RenderChar(rest, vl, longarg, pos, Limit(n));
          pos, vl, text := PutChar(out, n, pos, vl, was, text);
          format, longarg := false, false;
        } else {
          RenderSkip(rest, vl, longarg, pos, Limit(n));
          if c == 'l' { longarg := true; }
        }
      } else if c == '%' {
        RenderPlain(rest, vl, longarg, pos, Limit(n));
        format := true;
      } else {
        RenderPlain(rest, vl, longarg, pos, Limit(n));
        pos := Put(out, n, pos, c, was, text);
        text := text + [c];
      }
      rest := rest[1..];
    }
    RenderEnd(vl, format, longarg, pos, Limit(n));
    assert text == all;
  }

  /** vsnprintf into a buffer of n characters: it returns the length of the text, stores the longest prefix
      of it that leaves room for the terminator, and writes nothing else. */
  method Vsnprintf(out: array<char>, n: nat, s: string, args: seq<Arg>) returns (ret: nat)
    requires n <= out.Length && Matches(s, args, false, false, 0, Limit(n))
    modifies out
    ensures ret == |Render(s, args, false, false, 0, Limit(n))|
    ensures n == 0 ==> out[..] == old(out[..])
    ensures n > 0 ==> var k := if ret < n then ret else n - 1;
                      && out[..k] == Render(s, args, false, false, 0, Limit(n))[..k] && out[k] == NUL
                      && forall i :: k < i < out.Length ==> out[i] == old(out[i])
  {
    hide Holds, Matches, Render;
    ret := Format(out, n, s, args);
    Stored(out[..], old(out[..]), n, Render(s, args, false, false, 0, Limit(n)));
    if ret < n {
      out[ret] := NUL;
    } else if n > 0 {
      out[n - 1] := NUL;
    }
  }

  /** The %c case: the argument is fetched in the branch that stores it. */
  method PutChar(out: array<char>, n: nat, pos: nat, vl: seq<Arg>, ghost was: seq<char>, ghost text: string)
    returns (pos': nat, vl': seq<Arg>, ghost text': string)
    requires n <= out.Length && pos == |text| && Holds(out[..], was, n, text)
    requires Fits(pos, Limit(n)) ==> vl != [] && vl[0].Num?
    modifies out
    ensures pos' == pos + 1 == |text'| && Holds(out[..], was, n, text')
    ensures text' == text + [if Fits(pos, Limit(n)) then CharOf(vl[0]) else NUL]
    ensures vl' == if Fits(pos, Limit(n)) then vl[1..] else vl
  {
    pos', vl', text' := pos + 1, vl, text + [NUL];
    if pos' < n {
      out[pos' - 1] := CharOf(vl[0]);
      vl', text' := vl[1..], text + [CharOf(vl[0])];
    }
  }

  lemma Unwritten(was: seq<char>, n: nat)
    ensures Holds(was, was, n, "")
  {
  }

  lemma {:induction false} RenderEnd(args: seq<Arg>, format: bool, long: bool, pos: nat, room: Room)
    ensures Matches("", args, format, long, pos, room) && Render("", args, format, long, pos, room) == ""
  {
  }

  /** What the rest of the text is after one character of the format, case by case. */
  lemma RenderPlain(s: string, args: seq<Arg>, long: bool, pos: nat, room: Room)
    requires s != "" && Matches(s, args, false, long, pos, room)
    ensures s[0] == '%' ==> Matches(s[1..], args, true, long, pos, room)
    ensures s[0] == '%' ==> Render(s, args, false, long, pos, room) == Render(s[1..], args, true, long, pos, room)
    ensures s[0] != '%' ==> Matches(s[1..], args, false, long, pos + 1, room)
    ensures s[0] != '%' ==>
              Render(s, args, false, long, pos, room) == [s[0]] + Render(s[1..], args, false, long, pos + 1, room)
  {
  }

  lemma {:induction false} RenderConversion(s: string, args: seq<Arg>, long: bool, pos: nat, room: Room)
    requires s != "" && IsConversion(s[0]) && Matches(s, args, true, long, pos, room)
    ensures args != [] && if TakesNumber(s[0]) then args[0].Num? else s[0] == 's' && args[0].Str?
    ensures var piece := Shown(s[0], args[0], long);
            && Matches(s[1..], args[1..], false, false, pos + |piece|, room)
            && Render(s, args, true, long, pos, room)
               == piece + Render(s[1..], args[1..], false, false, pos + |piece|, room)
  {
    hide Shown;
  }

  lemma {:induction false} RenderChar(s: string, args: seq<Arg>, long: bool, pos: nat, room: Room)
    requires s != "" && s[0] == 'c' && Matches(s, args, true, long, pos, room)
    ensures Fits(pos, room) ==> args != [] && args[0].Num? && Matches(s[1..], args[1..], false, false, pos + 1, room)
    ensures Fits(pos, room) ==>
              Render(s, args, true, long, pos, room)
              == [CharOf(args[0])] + Render(s[1..], args[1..], false, false, pos + 1, room)
    ensures !Fits(pos, room) ==> Matches(s[1..], args, false, false, pos + 1, room)
    ensures !Fits(pos, room) ==>
              Render(s, args, true, long, pos, room) == [NUL] + Render(s[1..], args, false, false, pos + 1, room)
  {
    hide CharOf;
  }

  lemma RenderSkip(s: string, args: seq<Arg>, long: bool, pos: nat, room: Room)
    requires s != "" && !IsConversion(s[0]) && s[0] != 'c' && Matches(s, args, true, long, pos, room)
    ensures Matches(s[1..], args, true, long || s[0] == 'l', pos, room)
    ensures Render(s, args, true, long, pos, room) == Render(s[1..], args, true, long || s[0] == 'l', pos, room)
  {
  }

  /** After a %c (seen) no %d and no %s follows. */
  predicate OnlyHexAfterC(s: string, format: bool, seen: bool)
  {
    if s == "" then true
    else if !format then OnlyHexAfterC(s[1..], s[0] == '%', seen)
    else if IsConversion(s[0]) then !(seen && s[0] in "ds") && OnlyHexAfterC(s[1..], false, seen)
    else if s[0] == 'c' then OnlyHexAfterC(s[1..], false, true)
    else OnlyHexAfterC(s[1..], true, seen)
  }

  /** Two texts from position pos on that a buffer of n characters cannot tell apart, of one length. */
  ghost predicate SameStored(t: string, u: string, pos: nat, n: nat)
  {
    |t| == |u| && forall i :: 0 <= i < |t| && pos + i + 1 < n ==> t[i] == u[i]
  }

  lemma SamePiece(p: string, t: string, u: string, pos: nat, n: nat)
    requires SameStored(t, u, pos + |p|, n)
    ensures SameStored(p + t, p + u, pos, n)
  {
  }

  predicate AllNumbers(args: seq<Arg>) { forall i :: 0 <= i < |args| ==> IsNumber(args[i]) }

  lemma {:induction false} HexLength(c: char, a: Arg, b: Arg, long: bool)
    requires TakesNumber(c) && c != 'd' && a.Num? && b.Num?
    ensures |Shown(c, a, long)| == |Shown(c, b, long)|
  {
    hide Hex;
  }

  /** Behind a %c that was not stored the arguments are late, those of extra still waiting, but the
      length stays the same as long as only hexadecimal conversions follow. */
  lemma {:induction false} LateArguments(s: string, args: seq<Arg>, extra: seq<Arg>, format: bool, long: bool, pos: nat,
                                         n: nat)
    requires Matches(s, args, format, long, pos, NoLimit) && OnlyHexAfterC(s, format, true) && pos + 1 >= n
    requires AllNumbers(extra)
    ensures Matches(s, extra + args, format, long, pos, Limit(n))
    ensures |Render(s, extra + args, format, long, pos, Limit(n))| == |Render(s, args, format, long, pos, NoLimit)|
    decreases |s|
  {
    hide Shown, IsNumber, CharOf;
    if s != "" {
      if !format {
        LateArguments(s[1..], args, extra, s[0] == '%', long, if s[0] == '%' then pos else pos + 1, n);
      } else if IsConversion(s[0]) {
        var all := extra + args;
        assert all[1..] == (extra + [args[0]])[1..] + args[1..];
        assert IsNumber(all[0]);
        Numeric(args[0]);
        Numeric(all[0]);
        HexLength(s[0], args[0], all[0], long);
        LateArguments(s[1..], args[1..], (extra + [args[0]])[1..], false, false, pos + |Shown(s[0], args[0], long)|, n);
      } else if s[0] == 'c' {
        assert extra + args == (extra + [args[0]]) + args[1..];
        LateArguments(s[1..], args[1..], extra + [args[0]], false, false, pos + 1, n);
      } else {
        LateArguments(s[1..], args, extra, true, long || s[0] == 'l', pos, n);
      }
    }
  }

  lemma Numeric(a: Arg)
    ensures IsNumber(a) ==> a.Num?
  {
  }

  lemma BeyondRoom(t: string, u: string, pos: nat, n: nat)
    requires |t| == |u| && (t == "" || pos + 1 >= n)
    ensures SameStored(t, u, pos, n)
  {
  }

  /** Where no %d and no %s follows a %c, what is stored is a prefix of the unbounded text, and the length
      returned is its length, whatever n is. */
  lemma {:induction false} RoomDoesNotMatter(s: string, args: seq<Arg>, format: bool, long: bool, seen: bool, pos: nat,
                                             n: nat)
    requires Matches(s, args, format, long, pos, NoLimit) && OnlyHexAfterC(s, format, seen)
    ensures Matches(s, args, format, long, pos, Limit(n))
    ensures SameStored(Render(s, args, format, long, pos, Limit(n)), Render(s, args, format, long, pos, NoLimit), pos,
                       n)
    decreases |s|
  {
    hide Shown, CharOf, SameStored;
    if s == "" {
      BeyondRoom("", "", pos, n);
    } else if !format && s[0] == '%' {
      RoomDoesNotMatter(s[1..], args, true, long, seen, pos, n);
    } else if !format {
      RoomDoesNotMatter(s[1..], args, false, long, seen, pos + 1, n);
      SamePiece([s[0]], Render(s[1..], args, false, long, pos + 1, Limit(n)),
                Render(s[1..], args, false, long, pos + 1, NoLimit), pos, n);
    } else if IsConversion(s[0]) {
      var p := Shown(s[0], args[0], long);
      RoomDoesNotMatter(s[1..], args[1..], false, false, seen, pos + |p|, n);
      SamePiece(p, Render(s[1..], args[1..], false, false, pos + |p|, Limit(n)),
                Render(s[1..], args[1..], false, false, pos + |p|, NoLimit), pos, n);
    } else if s[0] == 'c' && Fits(pos, Limit(n)) {
      RoomDoesNotMatter(s[1..], args[1..], false, false, true, pos + 1, n);
      SamePiece([CharOf(args[0])], Render(s[1..], args[1..], false, false, pos + 1, Limit(n)),
                Render(s[1..], args[1..], false, false, pos + 1, NoLimit), pos, n);
    } else if s[0] == 'c' {
      assert args == [args[0]] + args[1..];
      LateArguments(s[1..], args[1..], [args[0]], false, false, pos + 1, n);
      BeyondRoom(Render(s, args, true, long, pos, Limit(n)), Render(s, args, true, long, pos, NoLimit), pos, n);
    } else {
      RoomDoesNotMatter(s[1..], args, true, long || s[0] == 'l', seen, pos, n);
    }
  }

  /** Arguments that tell the two texts apart: a 10 for each %d behind a %c, nothing of length elsewhere. */
  function Telling(s: string, format: bool, seen: bool): seq<Arg>
  {
    if s == "" then []
    else if !format then Telling(s[1..], s[0] == '%', seen)
    else if s[0] == 's' then [Str("")] + Telling(s[1..], false, seen)
    else if IsConversion(s[0]) then [Num(if seen && s[0] == 'd' then 10 else 0)] + Telling(s[1..], false, seen)
    else if s[0] == 'c' then [Num(0)] + Telling(s[1..], false, true)
    else Telling(s[1..], true, seen)
  }

  lemma {:induction false} TellingMatches(s: string, format: bool, seen: bool, long: bool, pos: nat)
    ensures Matches(s, Telling(s, format, seen), format, long, pos, NoLimit)
    decreases |s|
  {
    hide Shown, CharOf;
    if s != "" {
      if !format {
        TellingMatches(s[1..], s[0] == '%', seen, long, if s[0] == '%' then pos else pos + 1);
      } else if IsConversion(s[0]) {
        var args := Telling(s, format, seen);
        assert args[1..] == Telling(s[1..], false, seen) && Takes(s[0], args);
        TellingMatches(s[1..], false, seen, false, pos + |Shown(s[0], args[0], long)|);
      } else if s[0] == 'c' {
        assert Telling(s, format, seen)[1..] == Telling(s[1..], false, true);
        TellingMatches(s[1..], false, true, false, pos + 1);
      } else {
        TellingMatches(s[1..], true, seen, long || s[0] == 'l', pos);
      }
    }
  }

  predicate AllSmall(args: seq<Arg>) { forall i :: 0 <= i < |args| ==> args[i] in {Num(0), Num(10), Str("")} }

  lemma {:induction false} SmallLength(c: char, a: Arg, b: Arg, long: bool)
    requires if TakesNumber(c) then a.Num? && b.Num? else c == 's' && a.Str? && b.Str?
    requires a in {Num(0), Num(10), Str("")} && if c == 's' then b == Str("") else b == Num(if c == 'd' then 10 else 0)
    ensures |Shown(c, a, long)| <= |Shown(c, b, long)|
    ensures c == 'd' && a == Num(0) ==> |Shown(c, a, long)| < |Shown(c, b, long)|
  {
    hide Hex;
    assert Dec(0) == "0" && Dec(10) == "10";
  }

  /** With no room at all, small arguments in any order print no more than the telling ones. */
  lemma {:induction false} NoLonger(s: string, late: seq<Arg>, format: bool, long: bool, pos: nat, pos': nat)
    requires AllSmall(late) && Matches(s, late, format, long, pos, Limit(1))
    requires Matches(s, Telling(s, format, true), format, long, pos', NoLimit)
    ensures |Render(s, late, format, long, pos, Limit(1))|
            <= |Render(s, Telling(s, format, true), format, long, pos', NoLimit)|
    decreases |s|
  {
    hide Shown, CharOf;
    if s != "" {
      var args := Telling(s, format, true);
      if !format {
        NoLonger(s[1..], late, s[0] == '%', long, if s[0] == '%' then pos else pos + 1,
                 if s[0] == '%' then pos' else pos' + 1);
      } else if IsConversion(s[0]) {
        assert args[1..] == Telling(s[1..], false, true);
        SmallLength(s[0], late[0], args[0], long);
        NoLonger(s[1..], late[1..], false, false, pos + |Shown(s[0], late[0], long)|,
                 pos' + |Shown(s[0], args[0], long)|);
      } else if s[0] == 'c' {
        assert args[1..] == Telling(s[1..], false, true);
        NoLonger(s[1..], late, false, false, pos + 1, pos' + 1);
      } else {
        NoLonger(s[1..], late, true, long || s[0] == 'l', pos, pos');
      }
    }
  }

  predicate Zeros(args: seq<Arg>) { args != [] && forall i :: 0 <= i < |args| ==> args[i] == Num(0) }

  lemma {:induction false} TellingSmall(s: string, format: bool, seen: bool)
    ensures AllSmall(Telling(s, format, seen))
    decreases |s|
  {
    if s != "" {
      if !format {
        TellingSmall(s[1..], s[0] == '%', seen);
      } else if IsConversion(s[0]) {
        TellingSmall(s[1..], false, seen);
      } else if s[0] == 'c' {
        TellingSmall(s[1..], false, true);
      } else {
        TellingSmall(s[1..], true, seen);
      }
    }
  }

  /** The conversion behind the %c comes: a %s finds a number, or a %d prints a zero in place of a 10. */
  lemma {:induction false} Shorter(s: string, extra: seq<Arg>, format: bool, long: bool, pos: nat, pos': nat)
    requires !OnlyHexAfterC(s, format, true) && Zeros(extra)
    requires Matches(s, extra + Telling(s, format, true), format, long, pos, Limit(1))
    requires Matches(s, Telling(s, format, true), format, long, pos', NoLimit)
    ensures |Render(s, extra + Telling(s, format, true), format, long, pos, Limit(1))|
          < |Render(s, Telling(s, format, true), format, long, pos', NoLimit)|
    decreases |s|
  {
    hide Shown, CharOf;
    var args := Telling(s, format, true);
    if !format {
      Shorter(s[1..], extra, s[0] == '%', long, if s[0] == '%' then pos else pos + 1,
              if s[0] == '%' then pos' else pos' + 1);
    } else if s[0] == 'd' {
      var late := (extra + args)[1..];
      TellingSmall(s, format, true);
      assert AllSmall(late);
      assert args[1..] == Telling(s[1..], false, true);
      SmallLength('d', extra[0], args[0], long);
      NoLonger(s[1..], late, false, false, pos + |Shown('d', extra[0], long)|, pos' + |Shown('d', args[0], long)|);
    } else if IsConversion(s[0]) {
      assert Takes(s[0], extra + args);
      var extra' := (extra + [Num(0)])[1..];
      assert args == [Num(0)] + Telling(s[1..], false, true);
      assert (extra + args)[1..] == extra' + Telling(s[1..], false, true) && args[1..] == Telling(s[1..], false, true);
      Shorter(s[1..], extra', false, false, pos + |Shown(s[0], extra[0], long)|, pos' + |Shown(s[0], args[0], long)|);
    } else if s[0] == 'c' {
      assert args == [Num(0)] + Telling(s[1..], false, true) && args[1..] == Telling(s[1..], false, true);
      assert extra + args == (extra + [Num(0)]) + Telling(s[1..], false, true);
      Shorter(s[1..], extra + [Num(0)], false, false, pos + 1, pos' + 1);
    } else {
      Shorter(s[1..], extra, true, long || s[0] == 'l', pos, pos');
    }
  }

  /** Where a %d or %s follows a %c, no room at all gives another length, or a conversion of the wrong argument. */
  lemma {:induction false} RoomMatters(s: string, format: bool, long: bool, pos: nat)
    requires !OnlyHexAfterC(s, format, false) && Matches(s, Telling(s, format, false), format, long, pos, NoLimit)
    requires Matches(s, Telling(s, format, false), format, long, pos, Limit(1))
    ensures |Render(s, Telling(s, format, false), format, long, pos, Limit(1))|
          < |Render(s, Telling(s, format, false), format, long, pos, NoLimit)|
    decreases |s|
  {
    hide Shown, CharOf;
    var args := Telling(s, format, false);
    if !format {
      RoomMatters(s[1..], s[0] == '%', long, if s[0] == '%' then pos else pos + 1);
    } else if IsConversion(s[0]) {
      assert args[1..] == Telling(s[1..], false, false);
      RoomMatters(s[1..], false, false, pos + |Shown(s[0], args[0], long)|);
    } else if s[0] == 'c' {
      assert args == [Num(0)] + Telling(s[1..], false, true) && args[1..] == Telling(s[1..], false, true);
      Shorter(s[1..], [Num(0)], false, false, pos + 1, pos + 1);
    } else {
      RoomMatters(s[1..], true, long || s[0] == 'l', pos);
    }
  }

  /** A call with room n finds its arguments, returns the length of the unbounded text and stores a prefix of it. */
  ghost predicate Truncates(s: string, args: seq<Arg>, n: nat)
  {
    && Matches(s, args, false, false, 0, NoLimit) && Matches(s, args, false, false, 0, Limit(n))
    && SameStored(Render(s, args, false, false, 0, Limit(n)), Render(s, args, false, false, 0, NoLimit), 0, n)
  }

  /** Exactly the formats with no %d and no %s behind a %c are truncated as snprintf promises, whatever the
      arguments and the room. */
  lemma {:induction false} TruncatesIff(s: string)
    ensures OnlyHexAfterC(s, false, false) <==>
              forall args: seq<Arg>, n: nat :: Matches(s, args, false, false, 0, NoLimit) ==> Truncates(s, args, n)
  {
    hide Matches, Render, OnlyHexAfterC;
    if OnlyHexAfterC(s, false, false) {
      forall args: seq<Arg>, n: nat | Matches(s, args, false, false, 0, NoLimit) ensures Truncates(s, args, n) {
        RoomDoesNotMatter(s, args, false, false, false, 0, n);
      }
    } else {
      var args := Telling(s, false, false);
      TellingMatches(s, false, false, false, 0);
      if Truncates(s, args, 1) { RoomMatters(s, false, false, 0); }
      assert !Truncates(s, args, 1);
    }
  }

  /** One such format: where the character is not stored its argument stays, and %d prints it instead. */
  lemma PercentCDependsOnRoom()
    ensures var s, args := "%c%d", [Num(65), Num(7)];
            && Matches(s, args, false, false, 0, NoLimit) && |Render(s, args, false, false, 0, NoLimit)| == 2
            && Matches(s, args, false, false, 0, Limit(1)) && |Render(s, args, false, false, 0, Limit(1))| == 3
  {
    CharThenNumber(NoLimit);
    CharThenNumber(Limit(1));
  }

  lemma {:induction false} CharThenNumber(room: Room)
    ensures var s, args := "%c%d", [Num(65), Num(7)];
            && Matches(s, args, false, false, 0, room)
            && |Render(s, args, false, false, 0, room)| == if Fits(0, room) then 2 else 3
  {
    var s, args := "%c%d", [Num(65), Num(7)];
    assert s[1..] == "c%d" && s[1..][1..] == "%d" && args[1..] == [Num(7)];
    assert Dec(7) == "7" && Dec(65) == "65";
    if Fits(0, room) { NumberText([Num(7)], 1, room); } else { NumberText(args, 1, room); }
    assert Matches("c%d", args, true, false, 0, room);
    RenderPlain(s, args, false, 0, room);
    RenderChar(s[1..], args, false, 0, room);
  }

  lemma {:induction false} NumberText(args: seq<Arg>, pos: nat, room: Room)
    requires args != [] && args[0].Num? && 0 <= args[0].v < 100
    ensures Matches("%d", args, false, false, pos, room)
    ensures |Render("%d", args, false, false, pos, room)| == |Dec(args[0].v)|
  {
    hide Dec, Fits;
    var f := "%d";
    assert f[1..] == "d" && f[1..][1..] == "";
    assert Matches("d", args, true, false, pos, room);
    RenderPlain(f, args, false, pos, room);
    RenderConversion(f[1..], args, false, pos, room);
  }

  lemma Stored(out: seq<char>, was: seq<char>, n: nat, text: string)
    requires Holds(out, was, n, text) && n <= |out|
    ensures n == 0 ==> out == was
    ensures n > 0 ==> var k := if |text| < n then |text| else n - 1;
                      out[..k] == text[..k] && forall i :: k < i < |out| ==> out[i] == was[i]
  {
  }

  /** The number a run of characters adds up to, most significant first, each counted from '0'. */
  function Accumulate(s: string, acc: int): int
  {
    if s == "" then acc else Accumulate(s[1..], acc * 10 + (s[0] as int - '0' as int))
  }

  function SkipSpaces(s: string): string { if s != "" && s[0] == ' ' then SkipSpaces(s[1..]) else s }

  function AtolValue(s: string): int
  {
    var t := SkipSpaces(s);
    if t != "" && t[0] == '-' then -Accumulate(t[1..], 0)
    else if t != "" && t[0] == '+' then Accumulate(t[1..], 0)
    else Accumulate(t, 0)
  }

  method Atol(str: string) returns (r: int)
    ensures r == AtolValue(str)
  {
    var res, sign, i := 0, false, 0;
    while i < |str| && str[i] == ' '
      invariant 0 <= i <= |str| && SkipSpaces(str) == SkipSpaces(str[i..])
    {
      i := i + 1;
    }
    ghost var t := str[i..];
    if i < |str| && (str[i] == '-' || str[i] == '+') {
      sign := str[i] == '-';
      i := i + 1;
    }
    ghost var from := str[i..];
    while i < |str|
      invariant 0 <= i <= |str| && Accumulate(from, 0) == Accumulate(str[i..], res)
    {
      res := res * 10;
      res := res + (str[i] as int - '0' as int);
      i := i + 1;
    }
    r := if sign then -res else res;
  }

  lemma {:induction false} AccumulateAppend(a: string, b: string, acc: int)
    ensures Accumulate(a + b, acc) == Accumulate(b, Accumulate(a, acc))
  {
    if a == "" {
      assert a + b == b;
    } else {
      assert (a + b)[1..] == a[1..] + b;
      AccumulateAppend(a[1..], b, acc * 10 + (a[0] as int - '0' as int));
    }
  }

  lemma {:induction false} AccumulateDec(n: nat)
    ensures Accumulate(Dec(n), 0) == n && Dec(n)[0] !in " -+"
  {
    if n >= 10 {
      AccumulateDec(n / 10);
      AccumulateAppend(Dec(n / 10), [Digit(n % 10)], 0);
    }
  }

  /** Printing any long above LONG_MIN with %ld and reading the text with atol gives the number back; the text has
      at most 20 characters, 21 with the terminator, and no NUL. */
  lemma PrintThenRead(v: int, n: nat)
    requires -0x8000_0000_0000_0000 < v < 0x8000_0000_0000_0000
    ensures Matches("%ld", [Num(v)], false, false, 0, Limit(n))
    ensures AtolValue(Render("%ld", [Num(v)], false, false, 0, Limit(n))) == v
    ensures |Render("%ld", [Num(v)], false, false, 0, Limit(n))| <= 20
    ensures NUL !in Render("%ld", [Num(v)], false, false, 0, Limit(n))
  {
    hide SignedDec, Dec, AtolValue, Render, Matches;
    OneConversion('d', Num(v), true, Limit(n));
    assert "%ld" == ['%', 'l', 'd'];
    SignedReads(v);
    Pow10At19();
    DecLength(if v < 0 then -v else v, 19);
  }

  lemma {:induction false} DecNoNul(n: nat)
    ensures NUL !in Dec(n)
  {
    if n >= 10 { DecNoNul(n / 10); }
  }

  /** The C string at the start of a buffer. */
  function CString(b: seq<char>): string { if b == [] || b[0] == NUL then "" else [b[0]] + CString(b[1..]) }

  lemma {:induction false} CStringUpTo(b: seq<char>, k: nat)
    requires k < |b| && NUL !in b[..k] && b[k] == NUL
    ensures CString(b) == b[..k]
  {
    if k > 0 {
      assert b[..k][0] == b[0] && b[..k][1..] == b[1..][..k - 1];
      CStringUpTo(b[1..], k - 1);
    }
  }

  /** snprintf with %ld into any buffer of 21 characters or more, then atol on the buffer: the number comes back. */
  method PrintAndRead(out: array<char>, n: nat, v: int) returns (ret: nat, r: int)
    requires 21 <= n <= out.Length && -0x8000_0000_0000_0000 < v < 0x8000_0000_0000_0000
    modifies out
    ensures r == v && ret <= 20 && |CString(out[..])| == ret && AtolValue(CString(out[..])) == v
    ensures forall i :: ret < i < out.Length ==> out[i] == old(out[i])
  {
    hide Render, Matches, AtolValue;
    PrintThenRead(v, n);
    ret := Vsnprintf(out, n, "%ld", [Num(v)]);
    ghost var text := Render("%ld", [Num(v)], false, false, 0, Limit(n));
    assert out[..][..ret] == out[..ret] == text[..ret] == text;
    CStringUpTo(out[..], ret);
    r := Atol(CString(out[..]));
  }

  function Pow10(k: nat): nat { if k == 0 then 1 else 10 * Pow10(k - 1) }

  lemma Pow10At19()
    ensures Pow10(19) == 10_000_000_000_000_000_000
  {
    assert Pow10(4) == 10_000;
    assert Pow10(8) == 100_000_000;
    assert Pow10(12) == 1_000_000_000_000;
    assert Pow10(16) == 10_000_000_000_000_000;
  }

  lemma {:induction false} DecLength(n: nat, k: nat)
    requires k >= 1 && n < Pow10(k)
    ensures |Dec(n)| <= k
  {
    if n >= 10 { DecLength(n / 10, k - 1); }
  }

  function Undigit(c: char): int { if c <= '9' then c as int - '0' as int else c as int - 'a' as int + 10 }

  function HexValue(s: string): int { if s == "" then 0 else Undigit(s[0]) * Pow16(|s| - 1) + HexValue(s[1..]) }

  /** The digits of %x read back as the number, modulo the width printed. */
  lemma {:induction false} HexReadsBack(v: int, w: nat)
    ensures HexValue(Hex(v, w)) == v % Pow16(w)
  {
    if w > 0 {
      HexReadsBack(v, w - 1);
      var p := Pow16(w - 1);
      assert Hex(v, w)[1..] == Hex(v, w - 1);
      TopDigit(v, p);
    }
  }

  /** A format that is one conversion, %c or %lc. */
  lemma {:induction false} OneConversion(c: char, arg: Arg, long: bool, room: Room)
    requires IsConversion(c) && Takes(c, [arg])
    ensures var f := if long then ['%', 'l', c] else ['%', c];
            && Matches(f, [arg], false, false, 0, room)
            && Render(f, [arg], false, false, 0, room) == Shown(c, arg, long)
  {
    hide Shown;
    var f, args := if long then ['%', 'l', c] else ['%', c], [arg];
    assert [c][1..] == [] && args[1..] == [];
    RenderEnd([], false, false, |Shown(c, arg, long)|, room);
    assert Matches([c], args, true, long, 0, room);
    RenderConversion([c], args, long, 0, room);
    if long {
      assert f[1..] == ['l', c] && f[1..][1..] == [c];
      assert Matches(['l', c], args, true, false, 0, room);
      RenderSkip(['l', c], args, false, 0, room);
    } else {
      assert f[1..] == [c];
    }
    assert Matches(f, args, false, false, 0, room);
    RenderPlain(f, args, false, 0, room);
  }

  lemma SignedReads(v: int)
    ensures AtolValue(SignedDec(v)) == v && NUL !in SignedDec(v)
    ensures var m := if v < 0 then -v else v; |SignedDec(v)| == |Dec(m)| + if v < 0 then 1 else 0
  {
    hide Dec;
    var m: nat := if v < 0 then -v else v;
    AccumulateDec(m);
    DecNoNul(m);
    if v < 0 { assert SignedDec(v)[1..] == Dec(m); }
  }

  /** What %d prints of any argument reads as an int that is the argument modulo 2^32; an int is printed as it is. */
  lemma PrintInt(v: int, n: nat)
    requires IsNumber(Num(v))
    ensures Matches("%d", [Num(v)], false, false, 0, Limit(n))
    ensures var t := Render("%d", [Num(v)], false, false, 0, Limit(n));
            && -0x8000_0000 <= AtolValue(t) < 0x8000_0000 && (AtolValue(t) - v) % 0x1_0000_0000 == 0
            && (-0x8000_0000 <= v < 0x8000_0000 ==> AtolValue(t) == v) && |t| <= 11 && NUL !in t
  {
    hide SignedDec, Dec, AtolValue, Render, Matches;
    OneConversion('d', Num(v), false, Limit(n));
    assert "%d" == ['%', 'd'];
    var x := Fetched(v, false);
    SignedReads(x);
    FetchedIs(v);
    assert Pow10(10) == 10_000_000_000 by { assert Pow10(4) == 10_000 && Pow10(8) == 100_000_000; }
    DecLength(if x < 0 then -x else x, 10);
  }

  lemma FetchedIs(v: int)
    ensures var x := Fetched(v, false);
            && -0x8000_0000 <= x < 0x8000_0000 && (x - v) % 0x1_0000_0000 == 0
            && (-0x8000_0000 <= v < 0x8000_0000 ==> x == v)
  {
    var d, q := 0x1_0000_0000, v / 0x1_0000_0000;
    var x := Fetched(v, false);
    Sv39.Unique(x - v, d, if v % d < 0x8000_0000 then -q else -q - 1, 0);
    if 0 <= v < 0x8000_0000 { Sv39.Unique(v, d, 0, v); }
    if -0x8000_0000 <= v < 0 { Sv39.Unique(v, d, -1, v + d); }
  }

  predicate HexDigits(s: string) { forall i :: 0 <= i < |s| ==> s[i] in "0123456789abcdef" }

  lemma {:induction false} HexIsDigits(v: int, w: nat)
    ensures HexDigits(Hex(v, w))
  {
    if w > 0 {
      HexIsDigits(v, w - 1);
      DigitIn(v / Pow16(w - 1) % 16);
    }
  }

  lemma DigitIn(d: nat)
    requires d < 16
    ensures Digit(d) in "0123456789abcdef"
  {
    assert "0123456789abcdef"[d] == Digit(d);
  }

  lemma Pow16At()
    ensures Pow16(8) == 0x1_0000_0000 && Pow16(16) == 0x1_0000_0000_0000_0000
  {
    assert Pow16(4) == 0x1_0000;
    assert Pow16(8) == 0x1_0000_0000;
    assert Pow16(12) == 0x1_0000_0000_0000;
  }

  /** %x prints eight digits, which read back as the argument modulo 2^32. */
  lemma PrintHex(v: int, n: nat)
    requires IsNumber(Num(v))
    ensures Matches("%x", [Num(v)], false, false, 0, Limit(n))
    ensures var t := Render("%x", [Num(v)], false, false, 0, Limit(n));
            |t| == 8 && HexDigits(t) && HexValue(t) == v % 0x1_0000_0000
  {
    hide Hex, Render, Matches, Pow16, HexValue, HexDigits;
    OneConversion('x', Num(v), false, Limit(n));
    assert "%x" == ['%', 'x'];
    var x := Fetched(v, false);
    FetchedIs(v);
    Pow16At();
    HexReadsBack(x, 8);
    HexIsDigits(x, 8);
    SameRest(x, v, 0x1_0000_0000);
  }

  lemma SameRest(x: int, v: int, d: nat)
    requires d > 0 && (x - v) % d == 0
    ensures x % d == v % d
  {
    Shift(v, d, v / d, v % d, (x - v) / d);
    Sv39.Unique(x, d, v / d + (x - v) / d, v % d);
  }

  lemma Shift(v: int, d: nat, q: int, r: int, k: int)
    requires v == d * q + r
    ensures v + d * k == d * (q + k) + r
  {
  }

  /** %lx prints sixteen, and %p the same behind 0x. */
  lemma PrintLongHex(v: int, n: nat)
    requires IsNumber(Num(v))
    ensures Matches("%lx", [Num(v)], false, false, 0, Limit(n)) && Matches("%p", [Num(v)], false, false, 0, Limit(n))
    ensures var t := Render("%lx", [Num(v)], false, false, 0, Limit(n));
            && |t| == 16 && HexDigits(t) && HexValue(t) == v % 0x1_0000_0000_0000_0000
            && Render("%p", [Num(v)], false, false, 0, Limit(n)) == "0x" + t
  {
    hide Hex, Render, Matches, Pow16, HexValue, HexDigits;
    OneConversion('x', Num(v), true, Limit(n));
    assert "%lx" == ['%', 'l', 'x'];
    OneConversion('p', Num(v), false, Limit(n));
    assert "%p" == ['%', 'p'];
    Pow16At();
    HexReadsBack(v, 16);
    HexIsDigits(v, 16);
  }

  /** %s prints the argument itself, %c the character of that code; a %% prints nothing and what follows it counts as
      a conversion. */
  lemma {:induction false} PrintText(t: string, c: char, n: nat)
    requires NUL !in t && c as int < 256
    ensures Matches("%s", [Str(t)], false, false, 0, Limit(n))
    ensures Render("%s", [Str(t)], false, false, 0, Limit(n)) == t
    ensures n >= 2 ==> Matches("%c", [Num(c as int)], false, false, 0, Limit(n))
                       && Render("%c", [Num(c as int)], false, false, 0, Limit(n)) == [c]
    ensures Matches("%%s", [Str(t)], false, false, 0, Limit(n))
    ensures Render("%%s", [Str(t)], false, false, 0, Limit(n)) == t
  {
    OneConversion('s', Str(t), false, Limit(n));
    assert "%s" == ['%', 's'];
    if n >= 2 { OneChar(c, Limit(n)); }
    DoubledPercent(t, Limit(n));
  }

  lemma {:induction false} OneChar(c: char, room: Room)
    requires c as int < 256 && Fits(0, room)
    ensures Matches("%c", [Num(c as int)], false, false, 0, room)
    ensures Render("%c", [Num(c as int)], false, false, 0, room) == [c]
  {
    var f, args := "%c", [Num(c as int)];
    assert f[1..] == "c" && f[1..][1..] == "" && args[1..] == [];
    RenderEnd([], false, false, 1, room);
    assert Matches("c", args, true, false, 0, room);
    RenderChar("c", args, false, 0, room);
    RenderPlain(f, args, false, 0, room);
  }

  lemma {:induction false} DoubledPercent(t: string, room: Room)
    requires NUL !in t
    ensures Matches("%%s", [Str(t)], false, false, 0, room) && Render("%%s", [Str(t)], false, false, 0, room) == t
  {
    var f, args := "%%s", [Str(t)];
    assert f[1..] == "%s" && f[1..][1..] == "s" && f[1..][1..][1..] == "" && args[1..] == [];
    RenderEnd([], false, false, |t|, room);
    assert Matches("s", args, true, false, 0, room) && Matches("%s", args, true, false, 0, room);
    RenderConversion("s", args, false, 0, room);
    RenderSkip("%s", args, false, 0, room);
    RenderPlain(f, args, false, 0, room);
  }

  lemma TopDigit(v: int, p: nat)
    requires p > 0
    ensures v % (16 * p) == v / p % 16 * p + v % p
  {
    var q, r := v / p, v % p;
    Regroup(p, q, q / 16, q % 16, r);
    Sv39.Unique(v, 16 * p, q / 16, q % 16 * p + r);
  }

  lemma Regroup(p: nat, q: int, a: int, d: nat, r: nat)
    requires q == 16 * a + d && d < 16 && r < p
    ensures p * q + r == 16 * p * a + (d * p + r) && 0 <= d * p + r < 16 * p
  {
    assert p * q == p * (16 * a) + p * d;
    assert p * d <= p * 15;
  }
}
