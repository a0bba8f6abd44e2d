/** The command parser of user/sh.c. Pointers into the line are indices. */
module Shell {
  import Text

  const NUL: char := Text.NUL
  const MAXARGS: nat := 10

  predicate IsSpace(c: char) { c == ' ' || c == '\t' || c == '\r' || c == '\n' || c == 11 as char }

  predicate IsSymbol(c: char) { c == '<' || c == '|' || c == '>' || c == '&' || c == ';' || c == '(' || c == ')' }

  predicate NoSymbols(s: string) { forall i :: 0 <= i < |s| ==> !IsSymbol(s[i]) }

  predicate IsLine(s: string) { NUL !in s }

  /** Length of the word at the front of s. */
  function WordLength(s: string): (k: nat)
    ensures k <= |s| && forall i :: 0 <= i < k ==> !IsSpace(s[i])
    ensures k < |s| ==> IsSpace(s[k])
  {
    if s == "" || IsSpace(s[0]) then 0 else 1 + WordLength(s[1..])
  }

  /** The line split at white space. */
  function Words(s: string): seq<string>
    decreases |s|
  {
    if s == "" then []
    else if IsSpace(s[0]) then Words(s[1..])
    else [s[..WordLength(s)]] + Words(s[WordLength(s)..])
  }

  lemma {:induction false} SkipOne(s: string, i: nat)
    requires i <= |s| && forall j :: 0 <= j < i ==> IsSpace(s[j])
    ensures Words(s) == Words(s[i..])
    decreases i
  {
    if i > 0 {
      SkipOne(s[1..], i - 1);
      assert s[1..][i - 1..] == s[i..];
    } else {
      assert s[0..] == s;
    }
  }

  predicate OtherSpace(c: char) { c == '\t' || c == '\r' || c == '\n' || c == 11 as char }

  /** The line with tabs, carriage returns, newlines and vertical tabs turned into blanks. */
  function Blanked(s: string): (t: string)
    ensures |t| == |s| && forall i :: 0 <= i < |s| ==> t[i] == if OtherSpace(s[i]) then ' ' else s[i]
  {
    seq(|s|, i requires 0 <= i < |s| => if OtherSpace(s[i]) then ' ' else s[i])
  }

  /** They separate words as blanks do. */
  lemma {:induction false} BlanksAlike(s: string)
    ensures Words(Blanked(s)) == Words(s)
    decreases |s|
  {
    if s != "" {
      var t, k := Blanked(s), WordLength(s);
      BlankedLength(s);
      assert t[1..] == Blanked(s[1..]) && t[k..] == Blanked(s[k..]);
      if IsSpace(s[0]) {
        BlanksAlike(s[1..]);
      } else {
        BlanksAlike(s[k..]);
        assert t[..k] == s[..k];
      }
    }
  }

  lemma {:induction false} BlankedLength(s: string)
    ensures WordLength(Blanked(s)) == WordLength(s)
  {
    if s != "" {
      assert Blanked(s)[1..] == Blanked(s[1..]);
      BlankedLength(s[1..]);
    }
  }

  /** No other character separates words. */
  lemma {:induction false} OneCharacter(c: char)
    ensures Words([c]) == if c in [' ', '\t', '\r', '\n', 11 as char] then [] else [[c]]
  {
    assert [c][1..] == "" && Words("") == [];
    if !IsSpace(c) {
      assert WordLength([c]) == 1;
      assert [c][..1] == [c];
    }
  }

  /** while (s < es && strchr(whitespace, *s)) s++ */
  method SkipSpace(buf: array<char>, from: nat, es: nat) returns (s: nat)
    requires from <= es < buf.Length
    ensures from <= s <= es && (forall j :: from <= j < s ==> IsSpace(buf[j])) && (s < es ==> !IsSpace(buf[s]))
    ensures Words(buf[from..es]) == Words(buf[s..es])
  {
    s := from;
    while s < es && IsSpace(buf[s])
      invariant from <= s <= es && forall j :: from <= j < s ==> IsSpace(buf[j])
    {
      s := s + 1;
    }
    SkipOne(buf[from..es], s - from);
    assert buf[from..es][s - from..] == buf[s..es];
  }

  /** The loop over a word. */
  method WordEnd(buf: array<char>, q: nat, es: nat) returns (s: nat)
    requires q < es < buf.Length && !IsSpace(buf[q]) && !IsSymbol(buf[q])
    ensures IsWord(buf[..], q, s, es)
  {
    hide IsSpace, IsSymbol;
    s := q;
    while s < es && !IsSpace(buf[s]) && !IsSymbol(buf[s])
      invariant q <= s <= es && forall j :: q <= j < s ==> !IsSpace(buf[j]) && !IsSymbol(buf[j])
    {
      s := s + 1;
    }
  }

  /** A word without symbols lies at q .. eq and ends there. */
  ghost predicate IsWord(b: string, q: nat, eq: nat, es: nat)
  {
    && q < eq <= es < |b|
    && (forall j :: q <= j < eq ==> !IsSpace(b[j]) && !IsSymbol(b[j]))
    && (eq < es ==> IsSpace(b[eq]) || IsSymbol(b[eq]))
  }

  ghost predicate AllSpace(b: string, i: nat, j: nat)
    requires j <= |b|
  {
    forall k :: i <= k < j ==> IsSpace(b[k])
  }

  /** gettoken from ps: 'a' and the bounds of a word, a symbol, or NUL at the end of the line. */
  method GetToken(buf: array<char>, ps: nat, es: nat) returns (tok: char, q: nat, eq: nat, s: nat)
    requires ps <= es < buf.Length && buf[es] == NUL && forall j :: 0 <= j < es ==> buf[j] != NUL
    ensures ps <= q <= eq <= s <= es && AllSpace(buf[..], ps, q) && AllSpace(buf[..], eq, s)
    ensures (s < es ==> !IsSpace(buf[s]))
    ensures tok == NUL <==> q == es
    ensures q < es && IsSymbol(buf[q]) ==> tok == if buf[q] == buf[q + 1] == '>' then '+' else buf[q]
    ensures q < es && !IsSymbol(buf[q]) ==> tok == 'a' && IsWord(buf[..], q, eq, es)
  {
    hide IsSpace, Words;
    s := SkipSpace(buf, ps, es);
    q := s;
    tok := buf[s];
    if tok == NUL {
    } else if tok == '|' || tok == '(' || tok == ')' || tok == ';' || tok == '&' || tok == '<' {
      s := s + 1;
    } else if tok == '>' {
      s := s + 1;
      if buf[s] == '>' {
        tok := '+';
        s := s + 1;
      }
    } else {
      tok := 'a';
      s := WordEnd(buf, q, es);
    }
    eq := s;
    s := SkipSpace(buf, s, es);
  }

  /** Splitting distributes over a cut behind white space. */
  lemma {:induction false} WordsAppend(p: string, t: string)
    requires p == "" || IsSpace(p[|p| - 1])
    ensures Words(p + t) == Words(p) + Words(t)
    decreases |p|
  {
    hide IsSpace;
    if p == "" {
      assert p + t == t;
    } else if IsSpace(p[0]) {
      assert (p + t)[1..] == p[1..] + t;
      WordsAppend(p[1..], t);
    } else {
      AppendWord(p, t);
      WordsAppend(p[WordLength(p)..], t);
    }
  }

  lemma {:induction false} AppendWord(p: string, t: string)
    requires p != "" && !IsSpace(p[0]) && IsSpace(p[|p| - 1])
    ensures 0 < WordLength(p) < |p|
    ensures Words(p) == [p[..WordLength(p)]] + Words(p[WordLength(p)..])
    ensures Words(p + t) == [p[..WordLength(p)]] + Words(p[WordLength(p)..] + t)
  {
    hide IsSpace;
    var k := WordLength(p);
    SameWord(p, t);
    assert (p + t)[..k] == p[..k] && (p + t)[k..] == p[k..] + t;
  }

  lemma {:induction false} SameWord(p: string, t: string)
    requires WordLength(p) < |p|
    ensures WordLength(p + t) == WordLength(p)
    decreases |p|
  {
    if !IsSpace(p[0]) {
      assert (p + t)[1..] == p[1..] + t;
      SameWord(p[1..], t);
    }
  }

  /** A longer line has no fewer words. */
  lemma {:induction false} MoreWords(p: string, t: string)
    ensures |Words(p)| <= |Words(p + t)|
    decreases |p|
  {
    hide IsSpace;
    if p != "" {
      if IsSpace(p[0]) {
        assert (p + t)[1..] == p[1..] + t;
        MoreWords(p[1..], t);
      } else if WordLength(p) < |p| {
        var k := WordLength(p);
        SameWord(p, t);
        assert (p + t)[k..] == p[k..] + t;
        MoreWords(p[k..], t);
      } else {
        assert Words(p) == [p] by { assert p[..|p|] == p && p[|p|..] == ""; }
      }
    }
  }

  lemma {:induction false} OneWord(w: string, t: string)
    requires w != "" && (forall i :: 0 <= i < |w| ==> !IsSpace(w[i])) && (forall i :: 0 <= i < |t| ==> IsSpace(t[i]))
    ensures Words(w + t) == [w]
  {
    hide IsSpace;
    WordLengthOf(w, t);
    assert (w + t)[..|w|] == w && (w + t)[|w|..] == t;
    SkipOne(t, |t|);
    assert t[|t|..] == "";
  }

  lemma {:induction false} WordLengthOf(w: string, t: string)
    requires (forall i :: 0 <= i < |w| ==> !IsSpace(w[i])) && (t != "" ==> IsSpace(t[0]))
    ensures WordLength(w + t) == |w|
    decreases |w|
  {
    hide IsSpace;
    if w == "" {
      assert w + t == t;
    } else {
      assert (w + t)[1..] == w[1..] + t;
      WordLengthOf(w[1..], t);
    }
  }

  /** The words found so far. */
  function Slices(b: string, q: seq<nat>, eq: seq<nat>): seq<string>
    requires |q| == |eq| && forall i :: 0 <= i < |q| ==> q[i] <= eq[i] <= |b|
  {
    seq(|q|, i requires 0 <= i < |q| => b[q[i]..eq[i]])
  }

  /** Words lie in the line, apart from each other and in order. */
  ghost predicate InOrder(q: seq<nat>, eq: seq<nat>, s: nat)
  {
    && |q| == |eq|
    && (forall i :: 0 <= i < |q| ==> q[i] < eq[i] <= s)
    && (forall i, j :: 0 <= i < j < |q| ==> eq[i] < q[j])
  }

  /** The line up to s is read: no symbol yet, and its words are those found. */
  ghost predicate ReadTo(b: string, es: nat, s: nat, q: seq<nat>, eq: seq<nat>)
  {
    && s <= es < |b| && InOrder(q, eq, s) && NoSymbols(b[..s]) && Slices(b, q, eq) == Words(b[..s])
    && (s == 0 || IsSpace(b[s - 1]) || s == es || IsSymbol(b[s]))
  }

  /** White space read on. */
  lemma ReadSpace(b: string, es: nat, s: nat, s': nat, q: seq<nat>, eq: seq<nat>)
    requires ReadTo(b, es, s, q, eq) && s <= s' <= es && AllSpace(b, s, s')
    ensures ReadTo(b, es, s', q, eq)
  {
    if s < s' {
      assert b[..s'] == b[..s] + b[s..s'];
      WordsSpace(b[..s], b[s..s']);
      assert NoSymbols(b[..s']);
    }
  }

  lemma {:induction false} WordsSpace(p: string, t: string)
    requires (p == "" || IsSpace(p[|p| - 1])) && forall i :: 0 <= i < |t| ==> IsSpace(t[i])
    ensures Words(p + t) == Words(p)
  {
    hide IsSpace;
    WordsAppend(p, t);
    SkipOne(t, |t|);
    assert t[|t|..] == "";
  }

  /** A word and the white space behind it read on. */
  lemma ReadWord(b: string, es: nat, s: nat, eq0: nat, s': nat, q: seq<nat>, eq: seq<nat>)
    requires ReadTo(b, es, s, q, eq) && IsWord(b, s, eq0, es) && eq0 <= s' <= es && AllSpace(b, eq0, s')
    requires s' < es ==> !IsSpace(b[s'])
    ensures ReadTo(b, es, s', q + [s], eq + [eq0])
  {
    hide IsSpace, IsSymbol, Words;
    assert b[..s'] == b[..s] + (b[s..eq0] + b[eq0..s']);
    NotBoth(b[s]);
    OneWord(b[s..eq0], b[eq0..s']);
    WordsAppend(b[..s], b[s..eq0] + b[eq0..s']);
    assert NoSymbols(b[..s']) by {
      forall i | 0 <= i < s' ensures !IsSymbol(b[..s'][i]) {
        NotBoth(b[i]);
        assert i < s ==> b[..s'][i] == b[..s][i];
      }
    }
    assert Slices(b, q + [s], eq + [eq0]) == Slices(b, q, eq) + [b[s..eq0]];
    Behind(b, es, s, q, eq);
  }

  lemma NotBoth(c: char)
    ensures !(IsSpace(c) && IsSymbol(c))
  {
  }

  /** The last word found ends before the next one begins. */
  lemma Behind(b: string, es: nat, s: nat, q: seq<nat>, eq: seq<nat>)
    requires ReadTo(b, es, s, q, eq) && s < es && !IsSymbol(b[s]) && !IsSpace(b[s])
    ensures forall i :: 0 <= i < |q| ==> eq[i] < s
  {
    forall i | 0 <= i < |q| ensures eq[i] < s {
      if eq[i] == s {
        var w := Slices(b, q, eq)[i];
        assert w[|w| - 1] == b[s - 1];
        assert w in Words(b[..s]);
        WordsHaveNoSpace(b[..s], w);
      }
    }
  }

  lemma {:induction false} WordsHaveNoSpace(s: string, w: string)
    requires w in Words(s)
    ensures w != "" && forall i :: 0 <= i < |w| ==> !IsSpace(w[i])
    decreases |s|
  {
    hide IsSpace;
    if s != "" {
      if IsSpace(s[0]) {
        WordsHaveNoSpace(s[1..], w);
      } else if w != s[..WordLength(s)] {
        WordsHaveNoSpace(s[WordLength(s)..], w);
      }
    }
  }

  /** peek: the position behind white space, and whether a character of toks stands there. */
  method Peek(buf: array<char>, ps: nat, es: nat, toks: string) returns (found: bool, s: nat)
    requires ps <= es < buf.Length && buf[es] == NUL && forall j :: 0 <= j < es ==> buf[j] != NUL
    ensures ps <= s <= es && AllSpace(buf[..], ps, s) && (s < es ==> !IsSpace(buf[s]))
    ensures found <==> s < es && buf[s] in toks
  {
    hide IsSpace, Words;
    s := SkipSpace(buf, ps, es);
    found := buf[s] != NUL && buf[s] in toks;
  }

  /** Both panics of the parser, or the bounds of the arguments. */
  datatype Parsed = Syntax | TooMany | Args(q: seq<nat>, eq: seq<nat>)

  /** What a parse up to s says about the line. */
  ghost predicate Explains(r: Parsed, b: string, es: nat, s: nat)
  {
    && s <= es < |b|
    && match r
       case Syntax => !NoSymbols(b[..es])
       case TooMany => |Words(b[..es])| >= MAXARGS
       case Args(q, eq) => ReadTo(b, es, s, q, eq) && |q| < MAXARGS && (s < es ==> IsSymbol(b[s]))
  }

  lemma HasSymbol(b: string, es: nat, j: nat)
    requires j < es < |b| && IsSymbol(b[j])
    ensures !NoSymbols(b[..es])
  {
    assert b[..es][j] == b[j];
  }

  lemma ReadEnough(b: string, es: nat, s: nat, q: seq<nat>, eq: seq<nat>)
    requires ReadTo(b, es, s, q, eq) && |q| >= MAXARGS
    ensures |Words(b[..es])| >= MAXARGS
  {
    hide Words;
    assert b[..es] == b[..s] + b[s..es];
    MoreWords(b[..s], b[s..es]);
  }

  /** parseexec. */
  method ParseExec(buf: array<char>, ps: nat, es: nat) returns (r: Parsed, s: nat)
    requires ps == 0 && es < buf.Length && buf[es] == NUL && forall j :: 0 <= j < es ==> buf[j] != NUL
    ensures Explains(r, buf[..], es, s)
  {
    hide IsSpace, IsSymbol, Words, ReadTo, IsWord, AllSpace, NoSymbols;
    var q, eq := [], [];
    var stop;
    stop, s := Peek(buf, ps, es, "|)&;");
    StopsAtSymbol(buf[s]);
    ReadNothing(buf[..], es);
    ReadSpace(buf[..], es, 0, s, q, eq);
    while !stop
      invariant ReadTo(buf[..], es, s, q, eq) && s <= es && |q| < MAXARGS && |q| == |eq|
      invariant s < es ==> !IsSpace(buf[s])
      invariant stop ==> s < es && IsSymbol(buf[s])
      decreases MAXARGS - |q|
    {
      var tok, q0, eq0, s0 := GetToken(buf, s, es);
      NoSpaceSkipped(buf[..], s, q0, es);
      if tok == NUL {
        return Args(q, eq), s0;
      }
      if tok != 'a' {
        HasSymbol(buf[..], es, q0);
        return Syntax, s0;
      }
      SymbolIsNotA(buf[q0]);
      ReadWord(buf[..], es, s, eq0, s0, q, eq);
      q, eq := q + [q0], eq + [eq0];
      if |q| >= MAXARGS {
        ReadEnough(buf[..], es, s0, q, eq);
        return TooMany, s0;
      }
      stop, s := Peek(buf, s0, es, "|)&;");
      StopsAtSymbol(buf[s]);
      ReadSpace(buf[..], es, s0, s, q, eq);
    }
    r := Args(q, eq);
  }

  lemma ReadNothing(b: string, es: nat)
    requires es < |b|
    ensures ReadTo(b, es, 0, [], [])
  {
    assert b[..0] == "";
  }

  lemma NoSpaceSkipped(b: string, s: nat, q: nat, es: nat)
    requires s <= q <= es < |b| && AllSpace(b, s, q) && (s < es ==> !IsSpace(b[s]))
    ensures q == s
  {
  }

  lemma StopsAtSymbol(c: char)
    ensures c in "|)&;" ==> IsSymbol(c)
  {
  }

  lemma SymbolIsNotA(c: char)
    ensures IsSymbol(c) ==> c != 'a' && c != NUL
  {
  }

  /** What the caller of parsecmd may rely on: b is the buffer on return, line the text handed in. */
  ghost predicate ParsesAs(r: Parsed, line: string, b: string)
  {
    match r
    case Syntax => !NoSymbols(line)
    case TooMany => |Words(line)| >= 10
    case Args(q, eq) =>
      && NoSymbols(line) && |Words(line)| <= 9 && |q| == |eq| == |Words(line)|
      && forall i :: 0 <= i < |q| ==> CString(b, q[i], Words(line)[i])
  }

  /** The C string at index q of b is w. */
  ghost predicate CString(b: string, q: nat, w: string)
  {
    q + |w| < |b| && b[q..q + |w|] == w && NUL !in w && b[q + |w|] == NUL
  }

  /** strlen. */
  method Strlen(buf: array<char>) returns (n: nat)
    requires NUL in buf[..]
    ensures n < buf.Length && buf[n] == NUL && forall j :: 0 <= j < n ==> buf[j] != NUL
  {
    n := 0;
    while buf[n] != NUL
      invariant n < buf.Length && NUL in buf[n..] && forall j :: 0 <= j < n ==> buf[j] != NUL
      decreases buf.Length - n
    {
      n := n + 1;
    }
  }

  /** nulterminate. */
  method NulTerminate(buf: array<char>, q: seq<nat>, eq: seq<nat>)
    requires |q| == |eq| && forall i :: 0 <= i < |eq| ==> eq[i] < buf.Length
    modifies buf
    ensures Terminated(old(buf[..]), buf[..], eq)
  {
    var i := 0;
    while i < |q|
      invariant 0 <= i <= |q| && Terminated(old(buf[..]), buf[..], eq[..i])
    {
      buf[eq[i]] := NUL;
      assert eq[..i + 1] == eq[..i] + [eq[i]];
      i := i + 1;
    }
    assert eq[..|q|] == eq;
  }

  ghost predicate Terminated(b0: string, b: string, eq: seq<nat>)
  {
    |b| == |b0| && forall j :: 0 <= j < |b| ==> b[j] == if j in eq then NUL else b0[j]
  }

  /** No terminator lands in an argument. */
  lemma ArgumentsIntact(b0: string, b: string, es: nat, q: seq<nat>, eq: seq<nat>)
    requires ReadTo(b0, es, es, q, eq) && Terminated(b0, b, eq) && |q| < MAXARGS && NUL !in b0[..es]
    ensures ParsesAs(Args(q, eq), b0[..es], b)
  {
    hide IsSpace, IsSymbol, Words, NoSymbols;
    forall i | 0 <= i < |q| ensures CString(b, q[i], Words(b0[..es])[i]) {
      var w := Slices(b0, q, eq)[i];
      assert w == Words(b0[..es])[i] && w == b0[q[i]..eq[i]] == b0[..es][q[i]..eq[i]];
      forall j | q[i] <= j < eq[i] ensures j !in eq {
        Apart(q, eq, es, i, j);
      }
      assert b[q[i]..eq[i]] == w;
    }
  }

  lemma Apart(q: seq<nat>, eq: seq<nat>, es: nat, i: nat, j: nat)
    requires InOrder(q, eq, es) && i < |q| && q[i] <= j < eq[i]
    ensures j !in eq
  {
    forall k | 0 <= k < |eq| ensures eq[k] != j {
      assert k < i ==> eq[k] < q[i];
      assert i < k ==> eq[i] < q[k] < eq[k];
    }
  }

  /**
   * parsecmd: a line of words without symbols, at most nine of them, becomes an argument vector of
   * the very words of the line, each terminated in place; every other line is refused.
   */
  method ParseCmd(buf: array<char>, ghost line: string) returns (r: Parsed)
    requires IsLine(line) && line + [NUL] <= buf[..]
    modifies buf
    ensures ParsesAs(r, line, buf[..])
    ensures Terminated(old(buf[..]), buf[..], if r.Args? then r.eq else [])
  {
    hide IsSpace, IsSymbol, Words, ReadTo, AllSpace, NoSymbols;
    assert buf[|line|] == NUL by { assert (line + [NUL])[|line|] == NUL; }
    var es := Strlen(buf);
    LineEnd(buf[..], line, es);
    var s, left;
    r, s := ParseExec(buf, 0, es);
    if !r.Args? {
      return;
    }
    ghost var parsed := s;
    left, s := Peek(buf, s, es, "");
    if s != es {
      StoppedAt(r, buf[..], es, parsed, s);
      return Syntax;
    }
    ReadSpace(buf[..], es, parsed, es, r.q, r.eq);
    EndsInside(buf[..], es, r.q, r.eq);
    ghost var b0 := buf[..];
    NulTerminate(buf, r.q, r.eq);
    ArgumentsIntact(b0, buf[..], es, r.q, r.eq);
  }

  lemma LineEnd(b: string, line: string, es: nat)
    requires IsLine(line) && line + [NUL] <= b && es < |b| && b[es] == NUL && NUL !in b[..es]
    ensures es == |line| && b[..es] == line
  {
    assert b[..|line|] == line && b[|line|] == NUL by { assert b[..|line| + 1] == line + [NUL]; }
  }

  lemma StoppedAt(r: Parsed, b: string, es: nat, s: nat, s': nat)
    requires r.Args? && Explains(r, b, es, s) && s <= s' < es && AllSpace(b, s, s')
    ensures !NoSymbols(b[..es])
  {
    hide Words;
    NotBoth(b[s]);
    HasSymbol(b, es, s);
  }

  lemma EndsInside(b: string, es: nat, q: seq<nat>, eq: seq<nat>)
    requires ReadTo(b, es, es, q, eq)
    ensures |q| == |eq| && forall i :: 0 <= i < |eq| ==> eq[i] < |b|
  {
  }

  /** Words set side by side, one blank behind each. */
  function Join(ws: seq<string>): string
  {
    if ws == [] then "" else ws[0] + " " + Join(ws[1..])
  }

  /** Splitting undoes joining, for any list of nonempty words without white space. */
  lemma {:induction false} SplitUndoesJoin(ws: seq<string>)
    requires forall w :: w in ws ==> w != "" && forall i :: 0 <= i < |w| ==> !IsSpace(w[i])
    ensures Words(Join(ws)) == ws
  {
    hide IsSpace, Words;
    if ws == [] {
      Nothing();
    } else {
      Blank();
      OneWord(ws[0], " ");
      WordsAppend(ws[0] + " ", Join(ws[1..]));
      SplitUndoesJoin(ws[1..]);
      assert ws == [ws[0]] + ws[1..];
    }
  }

  lemma Nothing()
    ensures Words("") == []
  {
  }

  lemma Blank()
    ensures IsSpace(' ')
  {
  }

  /** The argument vector of a line, joined with blanks and parsed again, is the same vector. */
  lemma {:induction false} RejoinedLine(line: string)
    ensures Words(Join(Words(line))) == Words(line)
    ensures NoSymbols(line) ==> NoSymbols(Join(Words(line)))
  {
    hide IsSpace, IsSymbol, Words, NoSymbols;
    forall w | w in Words(line)
      ensures w != "" && forall i :: 0 <= i < |w| ==> !IsSpace(w[i])
    {
      WordsHaveNoSpace(line, w);
    }
    SplitUndoesJoin(Words(line));
    if NoSymbols(line) {
      forall w | w in Words(line) ensures NoSymbols(w) { WordsHaveNoSymbols(line, w); }
      JoinHasNoSymbols(Words(line));
    }
  }

  lemma {:induction false} WordsHaveNoSymbols(s: string, w: string)
    requires NoSymbols(s) && w in Words(s)
    ensures NoSymbols(w)
    decreases |s|
  {
    hide IsSpace, IsSymbol;
    if s != "" {
      if IsSpace(s[0]) {
        WordsHaveNoSymbols(s[1..], w);
      } else if w != s[..WordLength(s)] {
        WordsHaveNoSymbols(s[WordLength(s)..], w);
      }
    }
  }

  lemma {:induction false} JoinHasNoSymbols(ws: seq<string>)
    requires forall w :: w in ws ==> NoSymbols(w)
    ensures NoSymbols(Join(ws))
  {
    if ws != [] {
      JoinHasNoSymbols(ws[1..]);
      assert NoSymbols(ws[0]);
    }
  }
}
