/** sh.c's grammar over tokens: what the recursive-descent parser computes, how command trees are
    printed, and that parsing undoes printing. */
module ShellSpec {

  /** A parsed command; W is the type of words. out tells the two kinds of redirection apart:
      standard output to a file opened for writing, or standard input from one opened for reading. */
  datatype Cmd<W> = Exec(args: seq<W>) | Redir(cmd: Cmd<W>, file: W, out: bool)
    | Pipe(left: Cmd<W>, right: Cmd<W>) | List(left: Cmd<W>, right: Cmd<W>) | Back(cmd: Cmd<W>)

  /** Symbols are | ( ) ; & < > and + for >>. */
  datatype Tok = Sym(c: char) | Word(w: string)

  const MAXARGS: nat := 10

  datatype Parsed = Ok(cmd: Cmd<string>, rest: seq<Tok>) | Panic

  datatype Redirs<W> = Redirs(rs: seq<(W, bool)>, rest: seq<Tok>) | NoFile

  predicate Starts(ts: seq<Tok>, cs: string) { ts != [] && ts[0].Sym? && ts[0].c in cs }

  /** Redirections are wrapped around a command in the order in which they are read. */
  function Wrap<W>(c: Cmd<W>, rs: seq<(W, bool)>): (r: Cmd<W>) {
    if rs == [] then c else Redir(Wrap(c, rs[..|rs| - 1]), rs[|rs| - 1].0, rs[|rs| - 1].1)
  }

  // ---------------------------------------------------------------- parsing

  /** parseredirs. */
  function TakeRedirs(rs: seq<(string, bool)>, ts: seq<Tok>): (r: Redirs<string>)
    ensures r.Redirs? ==> |r.rest| <= |ts|
    decreases |ts|
  {
    if !Starts(ts, "<>+") then Redirs(rs, ts)
    else if |ts| < 2 || !ts[1].Word? then NoFile
    else TakeRedirs(rs + [(ts[1].w, ts[0].c != '<')], ts[2..])
  }

  /** parseexec's loop over arguments; redirections may come anywhere. */
  function ParseArgs(args: seq<string>, rs: seq<(string, bool)>, ts: seq<Tok>): (r: Parsed)
    ensures r.Ok? ==> |r.rest| <= |ts|
    decreases |ts|
  {
    if ts == [] || Starts(ts, "|)&;") then Ok(Wrap(Exec(args), rs), ts)
    else if ts[0].Sym? || |args| + 1 >= MAXARGS then Panic
    else
      match TakeRedirs(rs, ts[1..])
      case NoFile => Panic
      case Redirs(rs', rest) => ParseArgs(args + [ts[0].w], rs', rest)
  }

  function ParseExec(ts: seq<Tok>): (r: Parsed)
    ensures r.Ok? ==> |r.rest| <= |ts|
    decreases |ts|, 0
  {
    if Starts(ts, "(") then ParseBlock(ts)
    else
      match TakeRedirs([], ts)
      case NoFile => Panic
      case Redirs(rs, rest) => ParseArgs([], rs, rest)
  }

  function ParseBlock(ts: seq<Tok>): (r: Parsed)
    requires Starts(ts, "(")
    ensures r.Ok? ==> |r.rest| <= |ts|
    decreases |ts| - 1, 9
  {
    match ParseLine(ts[1..])
    case Panic => Panic
    case Ok(c, rest) =>
      if !Starts(rest, ")") then Panic
      else
        match TakeRedirs([], rest[1..])
        case NoFile => Panic
        case Redirs(rs, rest') => Ok(Wrap(c, rs), rest')
  }

  function ParsePipe(ts: seq<Tok>): (r: Parsed)
    ensures r.Ok? ==> |r.rest| <= |ts|
    decreases |ts|, 1
  {
    match ParseExec(ts)
    case Panic => Panic
    case Ok(c, rest) =>
      if !Starts(rest, "|") then Ok(c, rest)
      else
        match ParsePipe(rest[1..])
        case Panic => Panic
        case Ok(d, rest') => Ok(Pipe(c, d), rest')
  }

  /** parseline's loop over '&'. */
  function Backs(c: Cmd<string>, ts: seq<Tok>): (r: Parsed)
    ensures r.Ok? && |r.rest| <= |ts| && !Starts(r.rest, "&")
    decreases |ts|
  {
    if Starts(ts, "&") then Backs(Back(c), ts[1..]) else Ok(c, ts)
  }

  function ParseBg(ts: seq<Tok>): (r: Parsed)
    ensures r.Ok? ==> |r.rest| <= |ts|
    decreases |ts|, 2
  {
    match ParsePipe(ts)
    case Panic => Panic
    case Ok(c, rest) => Backs(c, rest)
  }

  function ParseLine(ts: seq<Tok>): (r: Parsed)
    ensures r.Ok? ==> |r.rest| <= |ts|
    decreases |ts|, 3
  {
    match ParseBg(ts)
    case Panic => Panic
    case Ok(c, rest) =>
      if !Starts(rest, ";") then Ok(c, rest)
      else
        match ParseLine(rest[1..])
        case Panic => Panic
        case Ok(d, rest') => Ok(List(c, d), rest')
  }

  // ---------------------------------------------------------------- printing

  function Words(args: seq<string>): (ts: seq<Tok>)
    ensures |ts| == |args| && forall i :: 0 <= i < |ts| ==> ts[i] == Word(args[i])
  {
    seq(|args|, i requires 0 <= i < |args| => Word(args[i]))
  }

  function RedirToks(rs: seq<(string, bool)>): (ts: seq<Tok>) {
    if rs == [] then [] else [Sym(if rs[0].1 then '>' else '<'), Word(rs[0].0)] + RedirToks(rs[1..])
  }

  /** A command under its redirections. */
  function Base(t: Cmd<string>): (c: Cmd<string>)
    ensures !c.Redir? && (t.Redir? ==> c < t) && (!t.Redir? ==> c == t)
  {
    if t.Redir? then Base(t.cmd) else t
  }

  function RedirsOf(t: Cmd<string>): (rs: seq<(string, bool)>)
    ensures Wrap(Base(t), rs) == t
  {
    if t.Redir? then
      var rs := RedirsOf(t.cmd);
      assert (rs + [(t.file, t.out)])[..|rs|] == rs;
      rs + [(t.file, t.out)]
    else []
  }

  /** The level of the grammar a command belongs to: 0 line, 1 line without ';', 2 pipeline,
      3 simple command or parenthesised line. */
  function Level(t: Cmd<string>): (n: nat)
    ensures n < 4
  {
    if t.List? then 0 else if t.Back? then 1 else if t.Pipe? then 2 else 3
  }

  /** A tree printed where the grammar has the given level, in parentheses only if its own level is
      lower. */
  function Toks(level: nat, t: Cmd<string>): (ts: seq<Tok>)
    requires level < 4
    decreases t, (Level(t) + 4 - level) % 4
  {
    if level != Level(t) then
      if level == 3 then [Sym('(')] + Toks(0, t) + [Sym(')')] else Toks(level + 1, t)
    else
      match t
      case List(l, r) => Toks(1, l) + [Sym(';')] + Toks(0, r)
      case Back(c) => Toks(1, c) + [Sym('&')]
      case Pipe(l, r) => Toks(3, l) + [Sym('|')] + Toks(2, r)
      case Exec(args) => Words(args)
      case Redir(_, _, _) =>
        var b := Base(t);
        (if b.Exec? then Words(b.args) else [Sym('(')] + Toks(0, b) + [Sym(')')]) + RedirToks(RedirsOf(t))
  }

  /** Words can be printed, and no command has more arguments than fit. */
  predicate IsWord(w: string) { w != "" && forall i :: 0 <= i < |w| ==> IsWordChar(w[i]) }

  predicate IsSpace(c: char) { c == ' ' || c == '\t' || c == '\r' || c == '\n' || c == '\U{00000B}' }

  predicate IsSymbol(c: char) { c in "<|>&;()" }

  predicate IsWordChar(c: char) { !IsSpace(c) && !IsSymbol(c) && c != '\0' }

  predicate Printable(t: Cmd<string>) {
    match t
    case Exec(args) => |args| < MAXARGS && forall i :: 0 <= i < |args| ==> IsWord(args[i])
    case Redir(c, f, _) => Printable(c) && IsWord(f)
    case Pipe(l, r) => Printable(l) && Printable(r)
    case List(l, r) => Printable(l) && Printable(r)
    case Back(c) => Printable(c)
  }

  // ---------------------------------------------------------------- parsing what was printed

  /** What may follow a phrase of each level. */
  predicate Follows(level: nat, ts: seq<Tok>) {
    ts == [] || (ts[0].Sym? && (ts[0].c == ')' || (level >= 1 && ts[0].c == ';') || (level >= 2 && ts[0].c == '&') || (level >= 3 && ts[0].c == '|')))
  }

  function ParseAt(level: nat, ts: seq<Tok>): (r: Parsed)
    requires level < 4
  {
    if level == 0 then ParseLine(ts) else if level == 1 then ParseBg(ts) else if level == 2 then ParsePipe(ts) else ParseExec(ts)
  }

  lemma FirstRedir(rs: seq<(string, bool)>, rest: seq<Tok>)
    requires rs != []
    ensures var ts := RedirToks(rs) + rest;
      |ts| >= 2 && ts[0] == Sym(if rs[0].1 then '>' else '<') && ts[1] == Word(rs[0].0) && ts[2..] == RedirToks(rs[1..]) + rest
  {
    var a := [Sym(if rs[0].1 then '>' else '<'), Word(rs[0].0)];
    assert RedirToks(rs) == a + RedirToks(rs[1..]);
    hide RedirToks;
    TwoThenRest(a, RedirToks(rs[1..]), rest);
  }

  lemma TwoThenRest(a: seq<Tok>, b: seq<Tok>, c: seq<Tok>)
    requires |a| == 2
    ensures (a + b + c)[0] == a[0] && (a + b + c)[1] == a[1] && (a + b + c)[2..] == b + c
  {}

  lemma {:induction false} ReadRedirs(done: seq<(string, bool)>, rs: seq<(string, bool)>, rest: seq<Tok>)
    requires !Starts(rest, "<>+")
    ensures TakeRedirs(done, RedirToks(rs) + rest) == Redirs(done + rs, rest)
    decreases |rs|
  {
    if rs == [] {
      assert RedirToks(rs) + rest == rest && done + rs == done;
    } else {
      hide RedirToks;
      ReadRedirs(done + [rs[0]], rs[1..], rest);
      FirstRedir(rs, rest);
      assert done + [rs[0]] + rs[1..] == done + rs;
    }
  }

  lemma ReadWord(done: seq<string>, ts: seq<Tok>, rs: seq<(string, bool)>, rest: seq<Tok>)
    requires ts != [] && ts[0].Word? && |done| + 1 < MAXARGS && TakeRedirs([], ts[1..]) == Redirs(rs, rest)
    ensures ParseArgs(done, [], ts) == ParseArgs(done + [ts[0].w], rs, rest)
  {}

  lemma ArgsDone(args: seq<string>, rs: seq<(string, bool)>, rest: seq<Tok>)
    requires Follows(3, rest)
    ensures ParseArgs(args, rs, rest) == Ok(Wrap(Exec(args), rs), rest) && !Starts(rest, "<>+")
  {}

  lemma WordsFirst(args: seq<string>, more: seq<Tok>)
    requires args != []
    ensures (Words(args) + more)[0] == Word(args[0]) && (Words(args) + more)[1..] == Words(args[1..]) + more
  {}

  lemma NoRedirs(ts: seq<Tok>)
    requires ts != [] && ts[0].Word?
    ensures TakeRedirs([], ts) == Redirs([], ts)
  {}

  /** The arguments not yet read, then the redirections. */
  lemma {:induction false} ReadArgs(done: seq<string>, args: seq<string>, rs: seq<(string, bool)>, rest: seq<Tok>)
    requires Follows(3, rest) && args != [] && |done| + |args| < MAXARGS
    ensures ParseArgs(done, [], Words(args) + (RedirToks(rs) + rest)) == Ok(Wrap(Exec(done + args), rs), rest)
    decreases |args|
  {
    hide ParseArgs, TakeRedirs, RedirToks, Words, Wrap, Follows;
    var more := RedirToks(rs) + rest;
    var ts := Words(args) + more;
    WordsFirst(args, more);
    if |args| == 1 {
      assert Words(args[1..]) + more == more;
      ArgsDone(done + [args[0]], rs, rest);
      ReadRedirs([], rs, rest);
      assert [] + rs == rs && done + [args[0]] == done + args;
      ReadWord(done, ts, rs, rest);
    } else {
      WordsFirst(args[1..], more);
      NoRedirs(ts[1..]);
      ReadWord(done, ts, [], ts[1..]);
      ReadArgs(done + [args[0]], args[1..], rs, rest);
      assert done + [args[0]] + args[1..] == done + args;
    }
  }

  lemma RedirsFirst(rs: seq<(string, bool)>, rest: seq<Tok>)
    requires Follows(3, rest)
    ensures !Starts(RedirToks(rs) + rest, "(")
  {
    if rs != [] {
      assert (RedirToks(rs) + rest)[0] == Sym(if rs[0].1 then '>' else '<');
    }
  }

  lemma ReadExec(args: seq<string>, rs: seq<(string, bool)>, rest: seq<Tok>)
    requires Follows(3, rest) && |args| < MAXARGS
    ensures ParseExec(Words(args) + (RedirToks(rs) + rest)) == Ok(Wrap(Exec(args), rs), rest)
  {
    hide ParseArgs, TakeRedirs, RedirToks, Words, Wrap, Follows;
    var ts := Words(args) + (RedirToks(rs) + rest);
    if args == [] {
      assert ts == RedirToks(rs) + rest;
      RedirsFirst(rs, rest);
      ArgsDone([], rs, rest);
      ReadRedirs([], rs, rest);
      assert [] + rs == rs;
    } else {
      WordsFirst(args, RedirToks(rs) + rest);
      NoRedirs(ts);
      ReadArgs([], args, rs, rest);
      assert [] + args == args;
    }
  }

  /** A parenthesised line and its redirections. */
  lemma ReadBlock(t: Cmd<string>, rs: seq<(string, bool)>, inner: seq<Tok>, rest: seq<Tok>)
    requires Follows(3, rest) && ParseLine(inner + ([Sym(')')] + (RedirToks(rs) + rest))) == Ok(t, [Sym(')')] + (RedirToks(rs) + rest))
    ensures ParseExec([Sym('(')] + inner + ([Sym(')')] + (RedirToks(rs) + rest))) == Ok(Wrap(t, rs), rest)
  {
    hide Wrap, RedirToks, ParseLine, TakeRedirs;
    var ts := [Sym('(')] + inner + ([Sym(')')] + (RedirToks(rs) + rest));
    assert ts[1..] == inner + ([Sym(')')] + (RedirToks(rs) + rest));
    ReadRedirs([], rs, rest);
    assert [] + rs == rs;
    assert ([Sym(')')] + (RedirToks(rs) + rest))[1..] == RedirToks(rs) + rest;
  }

  lemma Assoc(a: seq<Tok>, b: seq<Tok>, c: seq<Tok>)
    ensures a + b + c == a + (b + c)
  {}

  /** Parsing what was printed gives the tree back, at every level and before anything that may
      follow a phrase of that level. */
  lemma {:induction false} ParsePrinted(level: nat, t: Cmd<string>, rest: seq<Tok>)
    requires level < 4 && Printable(t) && Follows(level, rest)
    ensures ParseAt(level, Toks(level, t) + rest) == Ok(t, rest)
    decreases t, (Level(t) + 4 - level) % 4, 1
  {
    if level == 1 {
      ParsePrintedBg(t, rest);
      BacksStop(t, rest);
    } else if level != Level(t) {
      if level == 3 {
        ParsePrintedBlock(t, [], rest);
        var block := [Sym('(')] + Toks(0, t) + [Sym(')')];
        assert block + RedirToks([]) == block;
      } else {
        ParsePrinted(level + 1, t, rest);
        Passes(level, Toks(level + 1, t) + rest, t, rest);
      }
    } else if t.List? {
      ParsePrintedList(t.left, t.right, rest);
    } else if t.Pipe? {
      ParsePrintedPipe(t.left, t.right, rest);
    } else {
      ParsePrintedSimple(t, rest);
    }
  }

  /** A phrase of a higher level, with nothing after it that the lower level could take. */
  lemma Passes(level: nat, ts: seq<Tok>, t: Cmd<string>, rest: seq<Tok>)
    requires (level == 0 || level == 2) && ParseAt(level + 1, ts) == Ok(t, rest) && Follows(level, rest)
    ensures ParseAt(level, ts) == Ok(t, rest)
  {}

  lemma BacksStop(t: Cmd<string>, rest: seq<Tok>)
    requires Follows(1, rest)
    ensures Backs(t, rest) == Ok(t, rest)
  {}

  /** Before any number of '&': what parsepipe leaves, parseline's loop finishes. */
  lemma {:induction false} ParsePrintedBg(t: Cmd<string>, rest: seq<Tok>)
    requires Printable(t) && Follows(2, rest)
    ensures ParseBg(Toks(1, t) + rest) == Backs(t, rest)
    decreases t, (Level(t) + 3) % 4, 0
  {
    if t.Back? {
      var amp := [Sym('&')];
      Assoc(Toks(1, t.cmd), amp, rest);
      ParsePrintedBg(t.cmd, amp + rest);
      assert (amp + rest)[1..] == rest;
    } else {
      ParsePrinted(2, t, rest);
    }
  }

  lemma {:induction false} ParsePrintedList(l: Cmd<string>, r: Cmd<string>, rest: seq<Tok>)
    requires Printable(l) && Printable(r) && Follows(0, rest)
    ensures ParseLine(Toks(0, List(l, r)) + rest) == Ok(List(l, r), rest)
    decreases List(l, r), 0, 0
  {
    var semi := [Sym(';')];
    Assoc(Toks(1, l) + semi, Toks(0, r), rest);
    Assoc(Toks(1, l), semi, Toks(0, r) + rest);
    ParsePrinted(1, l, semi + (Toks(0, r) + rest));
    ParsePrinted(0, r, rest);
    assert (semi + (Toks(0, r) + rest))[1..] == Toks(0, r) + rest;
  }

  lemma {:induction false} ParsePrintedPipe(l: Cmd<string>, r: Cmd<string>, rest: seq<Tok>)
    requires Printable(l) && Printable(r) && Follows(2, rest)
    ensures ParsePipe(Toks(2, Pipe(l, r)) + rest) == Ok(Pipe(l, r), rest)
    decreases Pipe(l, r), 0, 0
  {
    var bar := [Sym('|')];
    Assoc(Toks(3, l) + bar, Toks(2, r), rest);
    Assoc(Toks(3, l), bar, Toks(2, r) + rest);
    ParsePrinted(3, l, bar + (Toks(2, r) + rest));
    ParsePrinted(2, r, rest);
    assert (bar + (Toks(2, r) + rest))[1..] == Toks(2, r) + rest;
  }

  lemma {:induction false} ParsePrintedBlock(t: Cmd<string>, rs: seq<(string, bool)>, rest: seq<Tok>)
    requires Printable(t) && Level(t) < 3 && Follows(3, rest)
    ensures ParseExec([Sym('(')] + Toks(0, t) + [Sym(')')] + RedirToks(rs) + rest) == Ok(Wrap(t, rs), rest)
    decreases t, Level(t) + 1, 0
  {
    var after := [Sym(')')] + (RedirToks(rs) + rest);
    ParsePrinted(0, t, after);
    ReadBlock(t, rs, Toks(0, t), rest);
    Assoc([Sym('(')] + Toks(0, t) + [Sym(')')], RedirToks(rs), rest);
    Assoc([Sym('(')] + Toks(0, t), [Sym(')')], RedirToks(rs) + rest);
  }

  lemma {:induction false} ParsePrintedSimple(t: Cmd<string>, rest: seq<Tok>)
    requires Printable(t) && Level(t) == 3 && Follows(3, rest)
    ensures ParseExec(Toks(3, t) + rest) == Ok(t, rest)
    decreases t, 0, 0
  {
    var b, rs := Base(t), RedirsOf(t);
    PrintableBase(t);
    if b.Exec? {
      ReadExec(b.args, rs, rest);
      Assoc(Words(b.args), RedirToks(rs), rest);
      if t.Exec? {
        assert RedirToks(rs) == [];
        assert Words(b.args) + [] == Words(b.args);
      }
    } else {
      ParsePrintedBlock(b, rs, rest);
    }
  }

  lemma {:induction false} PrintableBase(t: Cmd<string>)
    requires Printable(t)
    ensures Printable(Base(t))
  {
    if t.Redir? {
      PrintableBase(t.cmd);
    }
  }
}
