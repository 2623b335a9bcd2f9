/** sh.c's parser in place: it walks the line with an index and reports words as spans of the line;
    afterwards a terminator is written into the line behind every word. */
module Shell {
  import opened ShellSpec
  import opened ShellLex

  /** The characters from q up to eq. */
  datatype Span = Span(q: nat, eq: nat)

  datatype Result = Got(cmd: Cmd<Span>) | Panicked

  /** A whole word of the line. */
  predicate InLine(s: string, x: Span) {
    && x.q < x.eq <= |s| && (forall k :: x.q <= k < x.eq ==> !IsSpace(s[k]) && !IsSymbol(s[k]))
    && (x.eq < |s| ==> IsSpace(s[x.eq]) || IsSymbol(s[x.eq]))
  }

  function Text(s: string, x: Span): (w: string) { if x.q <= x.eq <= |s| then s[x.q..x.eq] else "" }

  function Texts(s: string, xs: seq<Span>): (ws: seq<string>)
    ensures |ws| == |xs| && forall i :: 0 <= i < |xs| ==> ws[i] == Text(s, xs[i])
  {
    seq(|xs|, i requires 0 <= i < |xs| => Text(s, xs[i]))
  }

  function RedirTexts(s: string, rs: seq<(Span, bool)>): (r: seq<(string, bool)>)
    ensures |r| == |rs| && forall i :: 0 <= i < |rs| ==> r[i] == (Text(s, rs[i].0), rs[i].1)
  {
    seq(|rs|, i requires 0 <= i < |rs| => (Text(s, rs[i].0), rs[i].1))
  }

  /** A tree of spans as a tree of words. */
  function TreeText(s: string, c: Cmd<Span>): (t: Cmd<string>) {
    match c
    case Exec(args) => Exec(Texts(s, args))
    case Redir(d, x, out) => Redir(TreeText(s, d), Text(s, x), out)
    case Pipe(l, r) => Pipe(TreeText(s, l), TreeText(s, r))
    case List(l, r) => List(TreeText(s, l), TreeText(s, r))
    case Back(d) => Back(TreeText(s, d))
  }

  predicate TreeInLine(s: string, c: Cmd<Span>) {
    match c
    case Exec(args) => forall i :: 0 <= i < |args| ==> InLine(s, args[i])
    case Redir(d, x, _) => TreeInLine(s, d) && InLine(s, x)
    case Pipe(l, r) => TreeInLine(s, l) && TreeInLine(s, r)
    case List(l, r) => TreeInLine(s, l) && TreeInLine(s, r)
    case Back(d) => TreeInLine(s, d)
  }

  /** What a parsing method returns, against the grammar over tokens. */
  predicate Agrees(s: string, r: Result, ps: nat, p: Parsed) {
    match r
    case Panicked => p.Panic?
    case Got(c) => ps <= |s| && TreeInLine(s, c) && p == Ok(TreeText(s, c), Lex(s, ps))
  }

  lemma {:induction false} WrapText(s: string, c: Cmd<Span>, rs: seq<(Span, bool)>)
    requires TreeInLine(s, c) && forall i :: 0 <= i < |rs| ==> InLine(s, rs[i].0)
    ensures TreeInLine(s, Wrap(c, rs)) && TreeText(s, Wrap(c, rs)) == Wrap(TreeText(s, c), RedirTexts(s, rs))
    decreases |rs|
  {
    if rs != [] {
      var n := |rs| - 1;
      WrapText(s, c, rs[..n]);
      assert RedirTexts(s, rs)[..n] == RedirTexts(s, rs[..n]);
    }
  }

  // ---------------------------------------------------------------- tokens

  function Kind(t: Tok): (c: char) { if t.Sym? then t.c else 'a' }

  /** The loops of gettoken and peek over white space. */
  method SkipWhite(s: string, ps: nat) returns (i: nat)
    requires ps <= |s|
    ensures i == SkipSpace(s, ps) && Lex(s, i) == Lex(s, ps) && SkipSpace(s, i) == i
  {
    i := ps;
    while i < |s| && IsSpace(s[i])
      invariant ps <= i <= |s| && SkipSpace(s, ps) == SkipSpace(s, i)
    {
      i := i + 1;
    }
    LexSkips(s, ps);
  }

  /** gettoken's switch. */
  method ScanToken(s: string, q: nat) returns (ret: char, i: nat)
    requires q < |s| && !IsSpace(s[q])
    ensures ret == Kind(TokAt(s, q)) && i == TokEnd(s, q) && q < i && ret != '\0'
    ensures ret == 'a' ==> TokAt(s, q) == Word(s[q..i]) && InLine(s, Span(q, i))
  {
    i := q;
    match s[i] {
      case '|' => ret := '|'; i := i + 1;
      case '(' => ret := '('; i := i + 1;
      case ')' => ret := ')'; i := i + 1;
      case ';' => ret := ';'; i := i + 1;
      case '&' => ret := '&'; i := i + 1;
      case '<' => ret := '<'; i := i + 1;
      case '>' =>
        ret := '>';
        i := i + 1;
        if i < |s| && s[i] == '>' {
          ret := '+';
          i := i + 1;
        }
      case _ =>
        ret := 'a';
        while i < |s| && !IsSpace(s[i]) && !IsSymbol(s[i])
          invariant q <= i <= |s| && WordEnd(s, q) == WordEnd(s, i)
        {
          i := i + 1;
        }
    }
  }

  /** The next token's kind, 0 at the end of the line; where it lies; and where the next one starts. */
  method Gettoken(s: string, ps: nat) returns (ret: char, x: Span, ps': nat)
    requires ps <= |s| && forall k :: 0 <= k < |s| ==> s[k] != '\0'
    ensures x.q == SkipSpace(s, ps) && x.q <= x.eq <= ps' <= |s| && ps' == SkipSpace(s, x.eq)
    ensures ret == '\0' <==> x.q == |s|
    ensures x.q == |s| ==> Lex(s, ps) == [] && Lex(s, ps') == []
    ensures x.q < |s| ==> ret == Kind(TokAt(s, x.q)) && x.eq == TokEnd(s, x.q) && Lex(s, ps) == [TokAt(s, x.q)] + Lex(s, ps')
    ensures ret == 'a' ==> x.q < |s| && InLine(s, x) && TokAt(s, x.q) == Word(Text(s, x))
  {
    hide TokAt, TokEnd, InLine;
    var q := SkipWhite(s, ps);
    if q == |s| {
      return '\0', Span(q, q), q;
    }
    var i;
    ret, i := ScanToken(s, q);
    x := Span(q, i);
    ps' := SkipWhite(s, i);
  }

  method Peek(s: string, ps: nat, toks: string) returns (b: bool, ps': nat)
    requires ps <= |s|
    ensures ps' == SkipSpace(s, ps) && Lex(s, ps') == Lex(s, ps)
    ensures b <==> ps' < |s| && s[ps'] in toks
  {
    ps' := SkipWhite(s, ps);
    return ps' < |s| && s[ps'] in toks, ps';
  }

  /** peek looks at a character, the grammar at a token: the same for symbols, except that '>' also
      begins '>>'. */
  lemma PeekStarts(s: string, ps: nat, toks: string, cs: string)
    requires ps <= |s| && (forall c :: c in toks ==> IsSymbol(c)) && (forall c :: c in cs <==> c in toks || (c == '+' && '>' in toks))
    ensures SkipSpace(s, ps) < |s| && s[SkipSpace(s, ps)] in toks <==> Starts(Lex(s, ps), cs)
  {}

  /** The tests the parser makes. */
  lemma Peeks(s: string, ps: nat)
    requires ps <= |s|
    ensures SkipSpace(s, ps) < |s| && s[SkipSpace(s, ps)] in "&" <==> Starts(Lex(s, ps), "&")
    ensures SkipSpace(s, ps) < |s| && s[SkipSpace(s, ps)] in ";" <==> Starts(Lex(s, ps), ";")
    ensures SkipSpace(s, ps) < |s| && s[SkipSpace(s, ps)] in "|" <==> Starts(Lex(s, ps), "|")
    ensures SkipSpace(s, ps) < |s| && s[SkipSpace(s, ps)] in "(" <==> Starts(Lex(s, ps), "(")
    ensures SkipSpace(s, ps) < |s| && s[SkipSpace(s, ps)] in ")" <==> Starts(Lex(s, ps), ")")
    ensures SkipSpace(s, ps) < |s| && s[SkipSpace(s, ps)] in "<>" <==> Starts(Lex(s, ps), "<>+")
    ensures SkipSpace(s, ps) < |s| && s[SkipSpace(s, ps)] in "|)&;" <==> Starts(Lex(s, ps), "|)&;")
  {
    PeekStarts(s, ps, "&", "&");
    PeekStarts(s, ps, ";", ";");
    PeekStarts(s, ps, "|", "|");
    PeekStarts(s, ps, "(", "(");
    PeekStarts(s, ps, ")", ")");
    PeekStarts(s, ps, "<>", "<>+");
    PeekStarts(s, ps, "|)&;", "|)&;");
  }

  // ---------------------------------------------------------------- the parser

  predicate NoNul(s: string) { forall k :: 0 <= k < |s| ==> s[k] != '\0' }

  predicate RedirsInLine(s: string, rs: seq<(Span, bool)>) { forall i :: 0 <= i < |rs| ==> InLine(s, rs[i].0) }

  /** parseredirs: the redirections read so far and those that follow. */
  method Parseredirs(s: string, ps: nat, rs: seq<(Span, bool)>) returns (ok: bool, rs': seq<(Span, bool)>, ps': nat)
    requires NoNul(s) && ps <= |s| && RedirsInLine(s, rs)
    ensures ps' <= |s| && RedirsInLine(s, rs')
    ensures TakeRedirs(RedirTexts(s, rs), Lex(s, ps)) == if ok then Redirs(RedirTexts(s, rs'), Lex(s, ps')) else NoFile
  {
    hide Lex, InLine, Text, RedirTexts, TokAt;
    rs', ps' := rs, ps;
    while true
      invariant ps' <= |s| && RedirsInLine(s, rs')
      invariant TakeRedirs(RedirTexts(s, rs), Lex(s, ps)) == TakeRedirs(RedirTexts(s, rs'), Lex(s, ps'))
      decreases |Lex(s, ps')|
    {
      Peeks(s, ps');
      var more;
      more, ps' := Peek(s, ps', "<>");
      if !more {
        return true, rs', ps';
      }
      ghost var ts := Lex(s, ps');
      var tok, x, file;
      tok, x, ps' := Gettoken(s, ps');
      ghost var ts1 := Lex(s, ps');
      file, x, ps' := Gettoken(s, ps');
      FileAfter(ts, ts1, Lex(s, ps'), s, x, file);
      if file != 'a' {
        return false, rs', ps';
      }
      RedirTextsAppend(s, rs', (x, tok != '<'));
      rs' := rs' + [(x, tok != '<')];
    }
  }

  lemma RedirTextsAppend(s: string, rs: seq<(Span, bool)>, r: (Span, bool))
    ensures RedirTexts(s, rs + [r]) == RedirTexts(s, rs) + [(Text(s, r.0), r.1)]
  {}

  /** The token after a redirection symbol is a word exactly when gettoken says so. */
  lemma FileAfter(ts: seq<Tok>, ts1: seq<Tok>, ts2: seq<Tok>, s: string, x: Span, kind: char)
    requires ts != [] && ts1 == ts[1..]
    requires kind == 'a' ==> ts1 == [Word(Text(s, x))] + ts2
    requires kind != 'a' ==> ts1 == [] || (ts1[0].Sym? && ts1[0].c == kind)
    ensures kind == 'a' <==> |ts| >= 2 && ts[1].Word?
    ensures kind == 'a' ==> ts[1].w == Text(s, x) && ts[2..] == ts2
  {}

  /** parseexec: the arguments go into one node under the redirections read around them. */
  method Parseexec(s: string, ps: nat) returns (r: Result, ps': nat)
    requires NoNul(s) && ps <= |s|
    ensures Agrees(s, r, ps', ParseExec(Lex(s, ps)))
    decreases |Lex(s, ps)|, 0
  {
    hide Lex, InLine, Text, RedirTexts, Texts, TokAt, TakeRedirs, ParseLine, Wrap;
    var block, ok;
    Peeks(s, ps);
    block, ps' := Peek(s, ps, "(");
    if block {
      r, ps' := Parseblock(s, ps');
      return;
    }
    var args, rs: seq<(Span, bool)> := [], [];
    ghost var none := RedirTexts(s, rs);
    ok, rs, ps' := Parseredirs(s, ps', rs);
    assert none == [] && Texts(s, args) == [];
    if !ok {
      return Panicked, ps';
    }
    while true
      invariant ps' <= |s| && |args| < MAXARGS && RedirsInLine(s, rs) && (forall i :: 0 <= i < |args| ==> InLine(s, args[i]))
      invariant ParseExec(Lex(s, ps)) == ParseArgs(Texts(s, args), RedirTexts(s, rs), Lex(s, ps'))
      decreases |Lex(s, ps')|
    {
      var stop, tok, x;
      Peeks(s, ps');
      stop, ps' := Peek(s, ps', "|)&;");
      if stop {
        break;
      }
      ghost var ts := Lex(s, ps');
      tok, x, ps' := Gettoken(s, ps');
      if tok == '\0' {
        break;
      }
      if tok != 'a' {
        return Panicked, ps';
      }
      TextsAppend(s, args, x);
      args := args + [x];
      if |args| >= MAXARGS {
        return Panicked, ps';
      }
      ok, rs, ps' := Parseredirs(s, ps', rs);
      if !ok {
        return Panicked, ps';
      }
    }
    WrapText(s, Exec(args), rs);
    return Got(Wrap(Exec(args), rs)), ps';
  }

  lemma TextsAppend(s: string, xs: seq<Span>, x: Span)
    ensures Texts(s, xs + [x]) == Texts(s, xs) + [Text(s, x)]
  {}

  method Parseblock(s: string, ps: nat) returns (r: Result, ps': nat)
    requires NoNul(s) && ps <= |s| && Starts(Lex(s, ps), "(")
    ensures Agrees(s, r, ps', ParseBlock(Lex(s, ps)))
    decreases |Lex(s, ps)| - 1, 9
  {
    hide Lex, InLine, Text, RedirTexts, TokAt, TakeRedirs, ParseLine, Wrap, TreeText, TreeInLine;
    var open, close, tok, x, ok;
    Peeks(s, ps);
    open, ps' := Peek(s, ps, "(");
    tok, x, ps' := Gettoken(s, ps');
    r, ps' := Parseline(s, ps');
    if r.Panicked? {
      return;
    }
    Peeks(s, ps');
    close, ps' := Peek(s, ps', ")");
    if !close {
      return Panicked, ps';
    }
    tok, x, ps' := Gettoken(s, ps');
    var rs: seq<(Span, bool)> := [];
    assert RedirTexts(s, rs) == [];
    ok, rs, ps' := Parseredirs(s, ps', rs);
    if !ok {
      return Panicked, ps';
    }
    WrapText(s, r.cmd, rs);
    return Got(Wrap(r.cmd, rs)), ps';
  }

  method Parsepipe(s: string, ps: nat) returns (r: Result, ps': nat)
    requires NoNul(s) && ps <= |s|
    ensures Agrees(s, r, ps', ParsePipe(Lex(s, ps)))
    decreases |Lex(s, ps)|, 1
  {
    hide Lex, InLine, TokAt, ParseExec;
    r, ps' := Parseexec(s, ps);
    if r.Panicked? {
      return;
    }
    var more, tok, x, right;
    Peeks(s, ps');
    more, ps' := Peek(s, ps', "|");
    if more {
      tok, x, ps' := Gettoken(s, ps');
      right, ps' := Parsepipe(s, ps');
      if right.Panicked? {
        return Panicked, ps';
      }
      return Got(Pipe(r.cmd, right.cmd)), ps';
    }
  }

  /** parseline's loop over the background marks. */
  method Parseback(s: string, ps: nat, cmd0: Cmd<Span>) returns (cmd: Cmd<Span>, ps': nat)
    requires NoNul(s) && ps <= |s| && TreeInLine(s, cmd0)
    ensures ps' <= |s| && TreeInLine(s, cmd) && Backs(TreeText(s, cmd0), Lex(s, ps)) == Ok(TreeText(s, cmd), Lex(s, ps'))
    ensures |Lex(s, ps')| <= |Lex(s, ps)|
  {
    hide Lex, InLine, TokAt;
    cmd, ps' := cmd0, ps;
    var more, tok, x;
    Peeks(s, ps');
    more, ps' := Peek(s, ps', "&");
    while more
      invariant ps' <= |s| && TreeInLine(s, cmd) && Backs(TreeText(s, cmd0), Lex(s, ps)) == Backs(TreeText(s, cmd), Lex(s, ps'))
      invariant more == Starts(Lex(s, ps'), "&") && |Lex(s, ps')| <= |Lex(s, ps)|
      decreases |Lex(s, ps')|
    {
      tok, x, ps' := Gettoken(s, ps');
      cmd := Back(cmd);
      Peeks(s, ps');
      more, ps' := Peek(s, ps', "&");
    }
  }

  method Parseline(s: string, ps: nat) returns (r: Result, ps': nat)
    requires NoNul(s) && ps <= |s|
    ensures Agrees(s, r, ps', ParseLine(Lex(s, ps)))
    decreases |Lex(s, ps)|, 3
  {
    hide Lex, InLine, TokAt, ParsePipe;
    r, ps' := Parsepipe(s, ps);
    if r.Panicked? {
      return;
    }
    var cmd := r.cmd;
    var more, tok, x, right;
    cmd, ps' := Parseback(s, ps', cmd);
    Peeks(s, ps');
    more, ps' := Peek(s, ps', ";");
    if more {
      tok, x, ps' := Gettoken(s, ps');
      right, ps' := Parseline(s, ps');
      if right.Panicked? {
        return Panicked, ps';
      }
      return Got(List(cmd, right.cmd)), ps';
    }
    return Got(cmd), ps';
  }

  // ---------------------------------------------------------------- terminators

  /** The words of a tree, left to right. */
  function Spans(c: Cmd<Span>): (xs: seq<Span>) {
    match c
    case Exec(args) => args
    case Redir(d, x, _) => Spans(d) + [x]
    case Pipe(l, r) => Spans(l) + Spans(r)
    case List(l, r) => Spans(l) + Spans(r)
    case Back(d) => Spans(d)
  }

  /** A terminator behind each of the words. */
  function Cut(b: seq<char>, xs: seq<Span>): (r: seq<char>)
    ensures |r| == |b|
  {
    if xs == [] then b
    else
      var r := Cut(b, xs[..|xs| - 1]);
      if xs[|xs| - 1].eq < |b| then r[xs[|xs| - 1].eq := '\0'] else r
  }

  /** The C string at q. */
  function CString(b: seq<char>, q: nat): (w: string)
    requires q <= |b|
    decreases |b| - q
  {
    if q == |b| || b[q] == '\0' then "" else [b[q]] + CString(b, q + 1)
  }

  lemma {:induction false} CutAt(s: string, b: seq<char>, xs: seq<Span>, k: nat)
    requires b == s + ['\0'] && (forall i :: 0 <= i < |xs| ==> InLine(s, xs[i])) && k <= |s|
    ensures (exists i :: 0 <= i < |xs| && xs[i].eq == k) ==> Cut(b, xs)[k] == '\0'
    ensures (forall i :: 0 <= i < |xs| ==> xs[i].eq != k) ==> Cut(b, xs)[k] == b[k]
    decreases |xs|
  {
    if xs != [] {
      CutAt(s, b, xs[..|xs| - 1], k);
    }
  }

  lemma {:induction false} CStringIs(b: seq<char>, q: nat, eq: nat)
    requires q <= eq < |b| && b[eq] == '\0' && forall k :: q <= k < eq ==> b[k] != '\0'
    ensures CString(b, q) == b[q..eq]
    decreases eq - q
  {
    if q < eq {
      CStringIs(b, q + 1, eq);
      assert b[q..eq] == [b[q]] + b[q + 1..eq];
    }
  }

  /** Once the terminators are in, every argument and file name reads back as its own token: no
      terminator falls inside another word. */
  lemma WordsReadBack(s: string, xs: seq<Span>, j: nat)
    requires NoNul(s) && (forall i :: 0 <= i < |xs| ==> InLine(s, xs[i])) && j < |xs|
    ensures xs[j].q <= |s| && CString(Cut(s + ['\0'], xs), xs[j].q) == Text(s, xs[j])
  {
    var b := s + ['\0'];
    var r, x := Cut(b, xs), xs[j];
    forall k | x.q <= k < x.eq ensures r[k] == s[k] {
      assert forall i :: 0 <= i < |xs| ==> xs[i].eq != k;
      CutAt(s, b, xs, k);
    }
    CutAt(s, b, xs, x.eq);
    CStringIs(r, x.q, x.eq);
    assert r[x.q..x.eq] == s[x.q..x.eq];
  }

  lemma {:induction false} SpansInLine(s: string, c: Cmd<Span>)
    requires TreeInLine(s, c)
    ensures forall i :: 0 <= i < |Spans(c)| ==> InLine(s, Spans(c)[i])
  {
    match c
    case Exec(_) =>
    case Redir(d, _, _) => SpansInLine(s, d);
    case Pipe(l, r) => SpansInLine(s, l); SpansInLine(s, r);
    case List(l, r) => SpansInLine(s, l); SpansInLine(s, r);
    case Back(d) => SpansInLine(s, d);
  }

  lemma {:induction false} CutBoth(b: seq<char>, xs: seq<Span>, ys: seq<Span>)
    ensures Cut(Cut(b, xs), ys) == Cut(b, xs + ys)
    decreases |ys|
  {
    if ys == [] {
      assert xs + ys == xs;
    } else {
      CutBoth(b, xs, ys[..|ys| - 1]);
      assert (xs + ys)[..|xs + ys| - 1] == xs + ys[..|ys| - 1];
    }
  }

  predicate EndBelow(xs: seq<Span>, n: nat) { forall i :: 0 <= i < |xs| ==> xs[i].eq < n }

  lemma EndParts(xs: seq<Span>, ys: seq<Span>, n: nat)
    requires EndBelow(xs + ys, n)
    ensures EndBelow(xs, n) && EndBelow(ys, n)
  {
    assert forall i :: 0 <= i < |xs| ==> (xs + ys)[i] == xs[i];
    assert forall i :: 0 <= i < |ys| ==> (xs + ys)[|xs| + i] == ys[i];
  }

  method Nulterminate(buf: array<char>, c: Cmd<Span>)
    requires EndBelow(Spans(c), buf.Length)
    modifies buf
    ensures buf[..] == Cut(old(buf[..]), Spans(c))
    decreases c
  {
    match c
    case Exec(args) =>
      var i := 0;
      while i < |args|
        invariant 0 <= i <= |args| && buf[..] == Cut(old(buf[..]), args[..i])
      {
        assert args[..i + 1][..i] == args[..i];
        buf[args[i].eq] := '\0';
        i := i + 1;
      }
      assert args[..|args|] == args;
    case Redir(d, x, _) =>
      EndParts(Spans(d), [x], buf.Length);
      assert [x][0] == x;
      Nulterminate(buf, d);
      buf[x.eq] := '\0';
      assert (Spans(d) + [x])[..|Spans(d)|] == Spans(d);
    case Pipe(l, r) =>
      EndParts(Spans(l), Spans(r), buf.Length);
      Nulterminate(buf, l);
      Nulterminate(buf, r);
      CutBoth(old(buf[..]), Spans(l), Spans(r));
    case List(l, r) =>
      EndParts(Spans(l), Spans(r), buf.Length);
      Nulterminate(buf, l);
      Nulterminate(buf, r);
      CutBoth(old(buf[..]), Spans(l), Spans(r));
    case Back(d) => Nulterminate(buf, d);
  }

  lemma AtEnd(s: string, ps: nat)
    requires ps <= |s|
    ensures SkipSpace(s, ps) == |s| <==> Lex(s, ps) == []
  {}

  lemma SpansEnd(s: string, xs: seq<Span>)
    requires forall i :: 0 <= i < |xs| ==> InLine(s, xs[i])
    ensures EndBelow(xs, |s| + 1)
  {}

  /** parsecmd: the tree of the whole line, its words now C strings in the line's buffer. */
  method Parsecmd(buf: array<char>) returns (r: Result)
    requires buf.Length > 0 && buf[buf.Length - 1] == '\0' && NoNul(buf[..buf.Length - 1])
    modifies buf
    ensures r.Panicked? <==> ParseText(old(buf[..buf.Length - 1])).Panic?
    ensures r.Panicked? ==> buf[..] == old(buf[..])
    ensures r.Got? ==> ParseText(old(buf[..buf.Length - 1])) == Ok(TreeText(old(buf[..buf.Length - 1]), r.cmd), [])
    ensures r.Got? ==> forall i :: 0 <= i < |Spans(r.cmd)| ==> Spans(r.cmd)[i].q <= buf.Length && CString(buf[..], Spans(r.cmd)[i].q) == Text(old(buf[..buf.Length - 1]), Spans(r.cmd)[i])
  {
    hide Lex, InLine, Text, ParseLine, CString, Cut, TreeText, TreeInLine, Spans;
    var s := buf[..buf.Length - 1];
    var ps, more;
    r, ps := Parseline(s, 0);
    if r.Panicked? {
      return;
    }
    more, ps := Peek(s, ps, "");
    AtEnd(s, ps);
    if ps != |s| {
      return Panicked;
    }
    SpansInLine(s, r.cmd);
    SpansEnd(s, Spans(r.cmd));
    Nulterminate(buf, r.cmd);
    assert old(buf[..]) == s + ['\0'];
    forall i | 0 <= i < |Spans(r.cmd)| ensures Spans(r.cmd)[i].q <= |s| && CString(buf[..], Spans(r.cmd)[i].q) == Text(s, Spans(r.cmd)[i]) {
      WordsReadBack(s, Spans(r.cmd), i);
    }
  }
}
