/** sh.c's tokens as they lie in the input line, and the round trip from trees to text and back. */
module ShellLex {
  import opened ShellSpec

  function SkipSpace(s: string, i: nat): (j: nat)
    requires i <= |s|
    ensures i <= j <= |s| && (j < |s| ==> !IsSpace(s[j])) && forall k :: i <= k < j ==> IsSpace(s[k])
    decreases |s| - i
  {
    if i < |s| && IsSpace(s[i]) then SkipSpace(s, i + 1) else i
  }

  function WordEnd(s: string, i: nat): (j: nat)
    requires i <= |s|
    ensures i <= j <= |s| && (j < |s| ==> IsSpace(s[j]) || IsSymbol(s[j])) && forall k :: i <= k < j ==> !IsSpace(s[k]) && !IsSymbol(s[k])
    decreases |s| - i
  {
    if i < |s| && !IsSpace(s[i]) && !IsSymbol(s[i]) then WordEnd(s, i + 1) else i
  }

  predicate IsAppend(s: string, i: nat) { i + 1 < |s| && s[i] == '>' && s[i + 1] == '>' }

  /** Where the token that starts at i ends. */
  function TokEnd(s: string, i: nat): (j: nat)
    requires i < |s| && !IsSpace(s[i])
    ensures i < j <= |s|
  {
    if IsAppend(s, i) then i + 2 else if IsSymbol(s[i]) then i + 1 else WordEnd(s, i)
  }

  function TokAt(s: string, i: nat): (t: Tok)
    requires i < |s| && !IsSpace(s[i])
  {
    if IsAppend(s, i) then Sym('+') else if IsSymbol(s[i]) then Sym(s[i]) else Word(s[i..WordEnd(s, i)])
  }

  /** The tokens from position i on. */
  function Lex(s: string, i: nat): (ts: seq<Tok>)
    requires i <= |s|
    decreases |s| - i
  {
    if SkipSpace(s, i) == |s| then [] else [TokAt(s, SkipSpace(s, i))] + Lex(s, TokEnd(s, SkipSpace(s, i)))
  }

  lemma LexSkips(s: string, i: nat)
    requires i <= |s|
    ensures SkipSpace(s, SkipSpace(s, i)) == SkipSpace(s, i) && Lex(s, SkipSpace(s, i)) == Lex(s, i)
  {}

  // ---------------------------------------------------------------- printing as text

  function TokText(t: Tok): (u: string) {
    match t
    case Sym(c) => if c == '+' then ">>" else [c]
    case Word(w) => w
  }

  /** Every token followed by a blank. */
  function Render(ts: seq<Tok>): (s: string) {
    if ts == [] then "" else TokText(ts[0]) + " " + Render(ts[1..])
  }

  predicate TokOk(t: Tok) {
    match t
    case Sym(c) => IsSymbol(c) || c == '+'
    case Word(w) => IsWord(w)
  }

  /** One token and a blank at position i. */
  lemma LexToken(s: string, i: nat, t: Tok)
    requires TokOk(t) && i + |TokText(t)| < |s| && s[i..i + |TokText(t)|] == TokText(t) && s[i + |TokText(t)|] == ' '
    ensures !IsSpace(s[i]) && TokAt(s, i) == t && TokEnd(s, i) == i + |TokText(t)|
  {
    var u := TokText(t);
    assert forall k :: 0 <= k < |u| ==> s[i + k] == u[k];
    if t.Word? {
      WordEndsAt(s, i, i + |u|);
    }
  }

  lemma {:induction false} WordEndsAt(s: string, i: nat, j: nat)
    requires i <= j < |s| && IsSpace(s[j]) && forall k :: i <= k < j ==> IsWordChar(s[k])
    ensures WordEnd(s, i) == j
    decreases j - i
  {
    if i < j {
      WordEndsAt(s, i + 1, j);
    }
  }

  lemma {:induction false} LexRendered(s: string, i: nat, ts: seq<Tok>)
    requires i <= |s| && s[i..] == Render(ts) && forall k :: 0 <= k < |ts| ==> TokOk(ts[k])
    ensures Lex(s, i) == ts
    decreases |ts|
  {
    hide TokText, TokOk, TokAt, TokEnd, Lex, SkipSpace;
    if ts == [] {
      LexEnd(s, i);
    } else {
      hide Render;
      var e := i + |TokText(ts[0])|;
      RenderedFirst(s, i, ts);
      LexToken(s, i, ts[0]);
      LexRendered(s, e + 1, ts[1..]);
      LexBlank(s, e);
      LexNext(s, i);
      assert [ts[0]] + ts[1..] == ts;
    }
  }

  lemma LexEnd(s: string, i: nat)
    requires i <= |s| && s[i..] == ""
    ensures Lex(s, i) == []
  {}

  lemma LexBlank(s: string, e: nat)
    requires e < |s| && IsSpace(s[e])
    ensures Lex(s, e) == Lex(s, e + 1)
  {
    LexSkips(s, e);
    LexSkips(s, e + 1);
  }

  lemma LexNext(s: string, i: nat)
    requires i < |s| && !IsSpace(s[i])
    ensures Lex(s, i) == [TokAt(s, i)] + Lex(s, TokEnd(s, i))
  {}

  lemma RenderedFirst(s: string, i: nat, ts: seq<Tok>)
    requires i <= |s| && ts != [] && s[i..] == Render(ts)
    ensures var e := i + |TokText(ts[0])|;
      e < |s| && s[i..e] == TokText(ts[0]) && s[e] == ' ' && s[e + 1..] == Render(ts[1..])
  {
    Pieces(s, i, TokText(ts[0]), Render(ts[1..]));
  }

  lemma Pieces(s: string, i: nat, u: string, rest: string)
    requires i <= |s| && s[i..] == u + " " + rest
    ensures var e := i + |u|; e < |s| && s[i..e] == u && s[e] == ' ' && s[e + 1..] == rest
  {
    var e, t := i + |u|, s[i..];
    assert t[..|u|] == u && t[|u|] == ' ' && t[|u| + 1..] == rest;
    assert s[i..e] == t[..|u|] && s[e] == t[|u|] && s[e + 1..] == t[|u| + 1..];
  }

  lemma {:induction false} ToksOk(level: nat, t: Cmd<string>)
    requires level < 4 && Printable(t)
    ensures forall k :: 0 <= k < |Toks(level, t)| ==> TokOk(Toks(level, t)[k])
    decreases t, (Level(t) + 4 - level) % 4
  {
    if level != Level(t) {
      ToksOk(if level == 3 then 0 else level + 1, t);
    } else {
      match t
      case List(l, r) => ToksOk(1, l); ToksOk(0, r);
      case Back(c) => ToksOk(1, c);
      case Pipe(l, r) => ToksOk(3, l); ToksOk(2, r);
      case Exec(args) =>
      case Redir(_, _, _) =>
        var b := Base(t);
        RedirsOk(t);
        if !b.Exec? {
          ToksOk(0, b);
        }
        hide Toks, RedirToks;
        RedirBody(t);
    }
  }

  lemma RedirBody(t: Cmd<string>)
    requires t.Redir?
    ensures Toks(3, t) == (if Base(t).Exec? then Words(Base(t).args) else [Sym('(')] + Toks(0, Base(t)) + [Sym(')')]) + RedirToks(RedirsOf(t))
  {}

  lemma {:induction false} RedirsOk(t: Cmd<string>)
    requires Printable(t)
    ensures Printable(Base(t))
    ensures forall k :: 0 <= k < |RedirToks(RedirsOf(t))| ==> TokOk(RedirToks(RedirsOf(t))[k])
  {
    if t.Redir? {
      RedirsOk(t.cmd);
      RedirToksAppend(RedirsOf(t.cmd), (t.file, t.out));
    }
  }

  lemma {:induction false} RedirToksAppend(rs: seq<(string, bool)>, r: (string, bool))
    ensures RedirToks(rs + [r]) == RedirToks(rs) + [Sym(if r.1 then '>' else '<'), Word(r.0)]
  {
    if rs == [] {
      assert [r][1..] == [];
    } else {
      RedirToksAppend(rs[1..], r);
      assert (rs + [r])[1..] == rs[1..] + [r];
    }
  }

  function Print(t: Cmd<string>): (s: string) { Render(Toks(0, t)) }

  /** The shell's reading of a line: a tree that uses the whole line, or a panic. */
  function ParseText(s: string): (r: Parsed)
  {
    match ParseLine(Lex(s, 0))
    case Panic => Panic
    case Ok(c, rest) => if rest == [] then Ok(c, []) else Panic
  }

  /** Printing a tree, with parentheses only where precedence needs them, and parsing the text gives
      the tree back. */
  lemma RoundTrip(t: Cmd<string>)
    requires Printable(t)
    ensures ParseText(Print(t)) == Ok(t, [])
  {
    ToksOk(0, t);
    LexRendered(Print(t), 0, Toks(0, t));
    ParsePrinted(0, t, []);
    assert Toks(0, t) + [] == Toks(0, t);
  }

  // ---------------------------------------------------------------- any spacing

  predicate Blank(g: string) { forall k :: 0 <= k < |g| ==> IsSpace(g[k]) }

  /** Two tokens that would be read as something else with nothing between them. */
  predicate Glue(a: Tok, b: Tok) {
    (a.Word? && b.Word?) || (a == Sym('>') && (b == Sym('>') || b == Sym('+')))
  }

  predicate Legal(t: Tok) {
    match t
    case Sym(c) => IsSymbol(c) || c == '+'
    case Word(w) => w != "" && forall k :: 0 <= k < |w| ==> !IsSpace(w[k]) && !IsSymbol(w[k])
  }

  /** From position i on, s is these tokens in this order, with any blanks before, between and behind
      them, and some where they are needed. */
  ghost predicate Spelled(s: string, i: nat, gaps: seq<string>, ts: seq<Tok>)
    decreases |ts|
  {
    && |gaps| == |ts| + 1 && Blank(gaps[0])
    && if ts == [] then i <= |s| && s[i..] == gaps[0]
       else
         var j := i + |gaps[0]|;
         var e := j + |TokText(ts[0])|;
         && Legal(ts[0]) && e <= |s| && s[i..j] == gaps[0] && s[j..e] == TokText(ts[0])
         && (|ts| > 1 && Glue(ts[0], ts[1]) ==> gaps[1] != "")
         && Spelled(s, e, gaps[1..], ts[1..])
  }

  lemma {:induction false} SkipsBlank(s: string, i: nat, n: nat)
    requires i + n <= |s| && (forall k :: i <= k < i + n ==> IsSpace(s[k])) && (i + n < |s| ==> !IsSpace(s[i + n]))
    ensures SkipSpace(s, i) == i + n
    decreases n
  {
    if n > 0 {
      SkipsBlank(s, i + 1, n - 1);
    }
  }

  lemma {:induction false} WordStops(s: string, i: nat, j: nat)
    requires i <= j <= |s| && (forall k :: i <= k < j ==> !IsSpace(s[k]) && !IsSymbol(s[k])) && (j < |s| ==> IsSpace(s[j]) || IsSymbol(s[j]))
    ensures WordEnd(s, i) == j
    decreases j - i
  {
    if i < j {
      WordStops(s, i + 1, j);
    }
  }

  /** What may stand right behind a token. */
  predicate Parts(t: Tok, s: string, e: nat) {
    e < |s| ==> (t.Word? ==> IsSpace(s[e]) || IsSymbol(s[e])) && (t == Sym('>') ==> s[e] != '>')
  }

  lemma SpelledBlank(s: string, i: nat, gaps: seq<string>, ts: seq<Tok>)
    requires Spelled(s, i, gaps, ts)
    ensures |gaps| == |ts| + 1 && i + |gaps[0]| <= |s| && s[i..i + |gaps[0]|] == gaps[0]
    ensures forall k :: i <= k < i + |gaps[0]| ==> IsSpace(s[k])
    ensures ts == [] ==> i + |gaps[0]| == |s|
  {
    var n := |gaps[0]|;
    assert s[i..i + n] == gaps[0];
    forall k | i <= k < i + n ensures IsSpace(s[k]) {
      assert s[k] == s[i..i + n][k - i];
    }
  }

  lemma SpelledStarts(s: string, i: nat, gaps: seq<string>, ts: seq<Tok>, t: Tok)
    requires Spelled(s, i, gaps, ts) && (ts != [] && Glue(t, ts[0]) ==> gaps[0] != "")
    ensures Parts(t, s, i)
  {
    SpelledBlank(s, i, gaps, ts);
    if gaps[0] == "" && ts != [] {
      assert s[i] == s[i..i + |TokText(ts[0])|][0] == TokText(ts[0])[0];
    }
  }

  /** One token with whatever may stand behind it. */
  lemma TokenThere(s: string, j: nat, t: Tok)
    requires Legal(t) && j + |TokText(t)| <= |s| && s[j..j + |TokText(t)|] == TokText(t) && Parts(t, s, j + |TokText(t)|)
    ensures j < |s| && !IsSpace(s[j]) && TokAt(s, j) == t && TokEnd(s, j) == j + |TokText(t)|
  {
    var u := TokText(t);
    assert forall k :: 0 <= k < |u| ==> s[j + k] == u[k];
    if t.Word? {
      WordStops(s, j, j + |u|);
    }
  }

  lemma {:induction false} SpelledLexes(s: string, i: nat, gaps: seq<string>, ts: seq<Tok>)
    requires i <= |s| && Spelled(s, i, gaps, ts)
    ensures Lex(s, i) == ts
    decreases |ts|
  {
    hide TokText, Legal, Glue, Parts, TokAt, TokEnd, SkipSpace, Blank;
    SpelledBlank(s, i, gaps, ts);
    if ts == [] {
      SkipsBlank(s, i, |gaps[0]|);
    } else {
      var j := i + |gaps[0]|;
      var e := j + |TokText(ts[0])|;
      SpelledStarts(s, e, gaps[1..], ts[1..], ts[0]);
      TokenThere(s, j, ts[0]);
      SkipsBlank(s, i, |gaps[0]|);
      SpelledLexes(s, e, gaps[1..], ts[1..]);
      assert [ts[0]] + ts[1..] == ts;
    }
  }

  /** A token as it is found. */
  lemma TokenFound(s: string, j: nat)
    requires j < |s| && !IsSpace(s[j])
    ensures var t, e := TokAt(s, j), TokEnd(s, j); Legal(t) && e == j + |TokText(t)| && s[j..e] == TokText(t)
  {}

  lemma FoundParts(s: string, j: nat, k: nat)
    requires j < |s| && !IsSpace(s[j]) && TokEnd(s, j) == k < |s| && !IsSpace(s[k])
    ensures !Glue(TokAt(s, j), TokAt(s, k))
  {}

  lemma BlankSkipped(s: string, i: nat)
    requires i <= |s|
    ensures Blank(s[i..SkipSpace(s, i)])
  {}

  lemma {:induction false} LexSpells(s: string, i: nat) returns (gaps: seq<string>)
    requires i <= |s|
    ensures Spelled(s, i, gaps, Lex(s, i)) && gaps[0] == s[i..SkipSpace(s, i)]
    decreases |s| - i
  {
    hide TokText, Legal, Glue, TokAt, TokEnd, SkipSpace, Blank;
    var j := SkipSpace(s, i);
    BlankSkipped(s, i);
    if j == |s| {
      gaps := [s[i..j]];
    } else {
      hide Spelled;
      var e := TokEnd(s, j);
      TokenFound(s, j);
      var more := LexSpells(s, e);
      SpelledBlank(s, e, more, Lex(s, e));
      if Lex(s, e) != [] && more[0] == "" {
        LexFirst(s, e);
        FoundParts(s, j, e);
      }
      gaps := [s[i..j]] + more;
      SpelledMore(s, i, s[i..j], TokAt(s, j), more, Lex(s, e));
    }
  }

  lemma SpelledMore(s: string, i: nat, g: string, t: Tok, gaps: seq<string>, ts: seq<Tok>)
    requires Blank(g) && Legal(t) && i + |g| + |TokText(t)| <= |s| && Spelled(s, i + |g| + |TokText(t)|, gaps, ts)
    requires s[i..i + |g|] == g && s[i + |g|..i + |g| + |TokText(t)|] == TokText(t) && |gaps| == |ts| + 1
    requires ts != [] && Glue(t, ts[0]) ==> gaps[0] != ""
    ensures Spelled(s, i, [g] + gaps, [t] + ts)
  {
    hide Spelled, TokText, Legal, Glue, Blank;
    ConsTail(g, gaps);
    ConsTail(t, ts);
    SpelledCons(s, i, [g] + gaps, [t] + ts, gaps, ts);
  }

  lemma ConsTail<T>(x: T, xs: seq<T>)
    ensures ([x] + xs)[0] == x && ([x] + xs)[1..] == xs && (xs != [] ==> ([x] + xs)[1] == xs[0])
  {}

  lemma SpelledCons(s: string, i: nat, gs: seq<string>, us: seq<Tok>, gaps: seq<string>, ts: seq<Tok>)
    requires |gs| == |us| + 1 && us != [] && gs[1..] == gaps && us[1..] == ts && Blank(gs[0]) && Legal(us[0])
    requires i + |gs[0]| + |TokText(us[0])| <= |s| && Spelled(s, i + |gs[0]| + |TokText(us[0])|, gaps, ts)
    requires s[i..i + |gs[0]|] == gs[0] && s[i + |gs[0]|..i + |gs[0]| + |TokText(us[0])|] == TokText(us[0])
    requires |us| > 1 && Glue(us[0], us[1]) ==> gs[1] != ""
    ensures Spelled(s, i, gs, us)
  {
    hide TokText, Legal, Glue, Blank;
  }

  lemma LexFirst(s: string, e: nat)
    requires e <= |s| && Lex(s, e) != [] && s[e..SkipSpace(s, e)] == ""
    ensures e < |s| && !IsSpace(s[e]) && Lex(s, e)[0] == TokAt(s, e)
  {
    assert SkipSpace(s, e) == e;
  }

  /** The tokens of a line are the only ones it spells: gettoken takes the longest token, and blanks
      matter only between two words and behind '>'. */
  lemma LexIff(s: string, ts: seq<Tok>)
    ensures Lex(s, 0) == ts <==> exists gaps :: Spelled(s, 0, gaps, ts)
  {
    hide Lex, Spelled;
    if Lex(s, 0) == ts {
      var gaps := LexSpells(s, 0);
    }
    if gaps :| Spelled(s, 0, gaps, ts) {
      SpelledLexes(s, 0, gaps, ts);
    }
  }
}
