/** The language of sh.c's parser: a line is a concrete syntax tree, with redirections anywhere among
    the arguments, any nesting of parentheses and either spelling of an output redirection; the parser
    accepts exactly these and gives them exactly their meaning. */
module ShellGrammar {
  import opened ShellSpec

  /** A word of a simple command, or a redirection; the operator + is >>. */
  datatype Item = Arg(w: string) | Re(op: char, file: string)

  datatype Tree = Simple(items: seq<Item>) | Block(line: Tree, redirs: seq<Item>)
    | Bar(left: Tree, right: Tree) | Amp(cmd: Tree) | Semi(left: Tree, right: Tree)

  function ItemToks(items: seq<Item>): (ts: seq<Tok>) {
    if items == [] then []
    else ItemTok(items[0]) + ItemToks(items[1..])
  }

  function ItemTok(it: Item): (ts: seq<Tok>) {
    match it
    case Arg(w) => [Word(w)]
    case Re(op, f) => [Sym(op), Word(f)]
  }

  function ArgsIn(items: seq<Item>): (args: seq<string>) {
    if items == [] then [] else (if items[0].Arg? then [items[0].w] else []) + ArgsIn(items[1..])
  }

  function RedirsIn(items: seq<Item>): (rs: seq<(string, bool)>) {
    if items == [] then [] else (if items[0].Re? then [(items[0].file, items[0].op != '<')] else []) + RedirsIn(items[1..])
  }

  predicate ItemOk(it: Item) { it.Re? ==> it.op in "<>+" }

  predicate ItemsOk(items: seq<Item>) { forall i :: 0 <= i < |items| ==> ItemOk(items[i]) }

  predicate OnlyRedirs(items: seq<Item>) { forall i :: 0 <= i < |items| ==> items[i].Re? && ItemOk(items[i]) }

  /** The tokens of a tree, and the command it stands for. */
  function Tokens(t: Tree): (ts: seq<Tok>) {
    match t
    case Simple(items) => ItemToks(items)
    case Block(l, rs) => [Sym('(')] + Tokens(l) + [Sym(')')] + ItemToks(rs)
    case Bar(l, r) => Tokens(l) + [Sym('|')] + Tokens(r)
    case Amp(c) => Tokens(c) + [Sym('&')]
    case Semi(l, r) => Tokens(l) + [Sym(';')] + Tokens(r)
  }

  function Meaning(t: Tree): (c: Cmd<string>) {
    match t
    case Simple(items) => Wrap(Exec(ArgsIn(items)), RedirsIn(items))
    case Block(l, rs) => Wrap(Meaning(l), RedirsIn(rs))
    case Bar(l, r) => Pipe(Meaning(l), Meaning(r))
    case Amp(c) => Back(Meaning(c))
    case Semi(l, r) => List(Meaning(l), Meaning(r))
  }

  /** The grammar: levels as for Toks. */
  predicate Wf(level: nat, t: Tree)
    decreases t
  {
    match t
    case Simple(items) => ItemsOk(items) && |ArgsIn(items)| < MAXARGS
    case Block(l, rs) => Wf(0, l) && OnlyRedirs(rs)
    case Bar(l, r) => level <= 2 && Wf(3, l) && Wf(2, r)
    case Amp(c) => level <= 1 && Wf(1, c)
    case Semi(l, r) => level == 0 && Wf(1, l) && Wf(0, r)
  }

  /** The phrase cannot be continued with what comes next. */
  predicate Ends(level: nat, t: Tree, rest: seq<Tok>)
    decreases t
  {
    match t
    case Simple(_) => (rest == [] || Starts(rest, "|)&;")) && Stop(level, rest)
    case Block(_, _) => !Starts(rest, "<>+") && Stop(level, rest)
    case Bar(_, r) => Ends(2, r, rest) && Stop(level, rest)
    case Amp(_) => !Starts(rest, "&") && (level == 0 ==> !Starts(rest, ";"))
    case Semi(_, r) => Ends(0, r, rest)
  }

  predicate Stop(level: nat, rest: seq<Tok>) {
    (level <= 2 ==> !Starts(rest, "|")) && (level <= 1 ==> !Starts(rest, "&")) && (level == 0 ==> !Starts(rest, ";"))
  }

  // ---------------------------------------------------------------- items

  lemma FirstItem(it: Item, more: seq<Item>)
    ensures ItemToks([it] + more) == ItemTok(it) + ItemToks(more)
    ensures ArgsIn([it] + more) == (if it.Arg? then [it.w] else []) + ArgsIn(more)
    ensures RedirsIn([it] + more) == (if it.Re? then [(it.file, it.op != '<')] else []) + RedirsIn(more)
  {
    assert ([it] + more)[1..] == more;
  }

  lemma Assoc3<T>(a: seq<T>, b: seq<T>, c: seq<T>)
    ensures a + b + c == a + (b + c)
  {}

  lemma {:induction false} ItemsAppend(a: seq<Item>, b: seq<Item>)
    ensures ItemToks(a + b) == ItemToks(a) + ItemToks(b)
    ensures ArgsIn(a + b) == ArgsIn(a) + ArgsIn(b) && RedirsIn(a + b) == RedirsIn(a) + RedirsIn(b)
  {
    if a == [] {
      assert a + b == b;
    } else {
      hide ItemToks, ArgsIn, RedirsIn, ItemTok;
      assert a == [a[0]] + a[1..] && a + b == [a[0]] + (a[1..] + b);
      FirstItem(a[0], a[1..]);
      FirstItem(a[0], a[1..] + b);
      ItemsAppend(a[1..], b);
      Assoc3(ItemTok(a[0]), ItemToks(a[1..]), ItemToks(b));
      Assoc3(if a[0].Arg? then [a[0].w] else [], ArgsIn(a[1..]), ArgsIn(b));
      Assoc3(if a[0].Re? then [(a[0].file, a[0].op != '<')] else [], RedirsIn(a[1..]), RedirsIn(b));
    }
  }

  lemma NoItems(ts: seq<Tok>, args: seq<string>, rs: seq<(string, bool)>)
    ensures ItemToks([]) + ts == ts && args + ArgsIn([]) == args && rs + RedirsIn([]) == rs
  {}

  lemma TakeOne(done: seq<(string, bool)>, op: char, f: string, tail: seq<Tok>)
    requires op in "<>+"
    ensures TakeRedirs(done, [Sym(op), Word(f)] + tail) == TakeRedirs(done + [(f, op != '<')], tail)
  {
    assert ([Sym(op), Word(f)] + tail)[2..] == tail;
  }

  /** parseredirs takes the redirections at hand, whatever their operators, and no more. */
  lemma {:induction false} RedirsTaken(done: seq<(string, bool)>, rs: seq<Item>, rest: seq<Tok>)
    requires OnlyRedirs(rs) && !Starts(rest, "<>+")
    ensures TakeRedirs(done, ItemToks(rs) + rest) == Redirs(done + RedirsIn(rs), rest) && ArgsIn(rs) == []
    decreases |rs|
  {
    if rs == [] {
      NoItems(rest, [], done);
    } else {
      hide TakeRedirs, ItemToks, RedirsIn, ArgsIn;
      var r, more := (rs[0].file, rs[0].op != '<'), rs[1..];
      assert rs == [rs[0]] + more && ItemOk(rs[0]);
      FirstItem(rs[0], more);
      RedirsTaken(done + [r], more, rest);
      TakeOne(done, rs[0].op, rs[0].file, ItemToks(more) + rest);
      Assoc3(ItemTok(rs[0]), ItemToks(more), rest);
      Assoc3(done, [r], RedirsIn(more));
    }
  }

  lemma {:induction false} RedirsFound(done: seq<(string, bool)>, ts: seq<Tok>) returns (rs: seq<Item>)
    requires TakeRedirs(done, ts).Redirs?
    ensures OnlyRedirs(rs) && ts == ItemToks(rs) + TakeRedirs(done, ts).rest && TakeRedirs(done, ts).rs == done + RedirsIn(rs)
    ensures !Starts(TakeRedirs(done, ts).rest, "<>+") && ArgsIn(rs) == []
    decreases |ts|
  {
    if !Starts(ts, "<>+") {
      rs := [];
      NoItems(ts, [], done);
    } else {
      var it, r := Re(ts[0].c, ts[1].w), (ts[1].w, ts[0].c != '<');
      assert ts == [ts[0], ts[1]] + ts[2..];
      TakeOne(done, it.op, it.file, ts[2..]);
      hide TakeRedirs, ItemToks, RedirsIn, ArgsIn;
      var more := RedirsFound(done + [r], ts[2..]);
      rs := [it] + more;
      FirstItem(it, more);
      Assoc3(ItemTok(it), ItemToks(more), TakeRedirs(done, ts).rest);
      Assoc3(done, [r], RedirsIn(more));
    }
  }

  /** The redirections that come next. */
  function Lead(items: seq<Item>): (k: nat)
    ensures k <= |items| && (forall i :: 0 <= i < k ==> items[i].Re?) && (k < |items| ==> items[k].Arg?)
  {
    if items == [] || items[0].Arg? then 0 else 1 + Lead(items[1..])
  }

  /** What stands after the redirections does not start with one. */
  lemma AfterLead(items: seq<Item>, rest: seq<Tok>)
    requires (items == [] || items[0].Arg?) && (rest == [] || Starts(rest, "|)&;"))
    ensures !Starts(ItemToks(items) + rest, "<>+")
  {
    if items == [] {
      NoItems(rest, [], []);
    }
  }

  lemma LeadTaken(done: seq<(string, bool)>, items: seq<Item>, rest: seq<Tok>)
    requires ItemsOk(items) && (rest == [] || Starts(rest, "|)&;"))
    ensures var k := Lead(items);
      && TakeRedirs(done, ItemToks(items) + rest) == Redirs(done + RedirsIn(items[..k]), ItemToks(items[k..]) + rest)
      && ArgsIn(items) == ArgsIn(items[k..]) && RedirsIn(items) == RedirsIn(items[..k]) + RedirsIn(items[k..])
  {
    hide TakeRedirs, ItemToks, RedirsIn, ArgsIn;
    var k := Lead(items);
    var lead, more := items[..k], items[k..];
    assert items == lead + more;
    ItemsAppend(lead, more);
    AfterLead(more, rest);
    RedirsTaken(done, lead, ItemToks(more) + rest);
    Assoc3(ItemToks(lead), ItemToks(more), rest);
    assert [] + ArgsIn(more) == ArgsIn(more);
  }

  lemma ArgOne(args: seq<string>, rs: seq<(string, bool)>, w: string, tail: seq<Tok>)
    requires |args| + 1 < MAXARGS && TakeRedirs(rs, tail).Redirs?
    ensures ParseArgs(args, rs, [Word(w)] + tail) == ParseArgs(args + [w], TakeRedirs(rs, tail).rs, TakeRedirs(rs, tail).rest)
  {
    assert ([Word(w)] + tail)[1..] == tail;
  }

  lemma ArgsOver(args: seq<string>, rs: seq<(string, bool)>, rest: seq<Tok>)
    requires rest == [] || Starts(rest, "|)&;")
    ensures ParseArgs(args, rs, rest) == Ok(Wrap(Exec(args), rs), rest)
  {}

  /** parseexec's loop, wherever the redirections stand. */
  lemma {:induction false} ArgsTaken(args: seq<string>, rs: seq<(string, bool)>, items: seq<Item>, rest: seq<Tok>)
    requires ItemsOk(items) && (items == [] || items[0].Arg?) && |args| + |ArgsIn(items)| < MAXARGS
    requires rest == [] || Starts(rest, "|)&;")
    ensures ParseArgs(args, rs, ItemToks(items) + rest) == Ok(Wrap(Exec(args + ArgsIn(items)), rs + RedirsIn(items)), rest)
    decreases |items|
  {
    hide ParseArgs, TakeRedirs, ItemToks, RedirsIn, ArgsIn, Wrap, Lead;
    if items == [] {
      NoItems(rest, args, rs);
      ArgsOver(args, rs, rest);
    } else {
      var w, more := items[0].w, items[1..];
      var k := Lead(more);
      assert items == [items[0]] + more;
      FirstItem(items[0], more);
      Assoc3([Word(w)], ItemToks(more), rest);
      LeadTaken(rs, more, rest);
      ArgOne(args, rs, w, ItemToks(more) + rest);
      ArgsTaken(args + [w], rs + RedirsIn(more[..k]), more[k..], rest);
      Assoc3(args, [w], ArgsIn(more));
      Assoc3(rs, RedirsIn(more[..k]), RedirsIn(more[k..]));
      assert [] + RedirsIn(more) == RedirsIn(more);
    }
  }

  /** A word was read and the rest went well. */
  lemma ArgWas(args: seq<string>, rs: seq<(string, bool)>, ts: seq<Tok>)
    requires ParseArgs(args, rs, ts).Ok? && ts != [] && !Starts(ts, "|)&;")
    ensures ts[0].Word? && |args| + 1 < MAXARGS && TakeRedirs(rs, ts[1..]).Redirs?
    ensures var t := TakeRedirs(rs, ts[1..]); ParseArgs(args, rs, ts) == ParseArgs(args + [ts[0].w], t.rs, t.rest) && |t.rest| < |ts|
  {}

  lemma {:induction false} ArgsFound(args: seq<string>, rs: seq<(string, bool)>, ts: seq<Tok>) returns (items: seq<Item>)
    requires ParseArgs(args, rs, ts).Ok? && |args| < MAXARGS
    ensures var r := ParseArgs(args, rs, ts);
      && ItemsOk(items) && |args| + |ArgsIn(items)| < MAXARGS && ts == ItemToks(items) + r.rest
      && r.cmd == Wrap(Exec(args + ArgsIn(items)), rs + RedirsIn(items)) && (r.rest == [] || Starts(r.rest, "|)&;"))
    decreases |ts|
  {
    hide ParseArgs, TakeRedirs, ItemToks, RedirsIn, ArgsIn, Wrap;
    if ts == [] || Starts(ts, "|)&;") {
      items := [];
      NoItems(ts, args, rs);
      ArgsOver(args, rs, ts);
    } else {
      ArgWas(args, rs, ts);
      var t := TakeRedirs(rs, ts[1..]);
      var lead := RedirsFound(rs, ts[1..]);
      var more := ArgsFound(args + [ts[0].w], t.rs, t.rest);
      items := [Arg(ts[0].w)] + (lead + more);
      FoundWord(args, rs, ts, lead, more, ParseArgs(args, rs, ts).rest);
    }
  }

  lemma FoundWord(args: seq<string>, rs: seq<(string, bool)>, ts: seq<Tok>, lead: seq<Item>, more: seq<Item>, rest: seq<Tok>)
    requires ts != [] && ts[0].Word? && OnlyRedirs(lead) && ItemsOk(more) && ArgsIn(lead) == []
    requires ts[1..] == ItemToks(lead) + (ItemToks(more) + rest)
    ensures var items := [Arg(ts[0].w)] + (lead + more);
      && ItemsOk(items) && ts == ItemToks(items) + rest
      && args + [ts[0].w] + ArgsIn(more) == args + ArgsIn(items) && rs + RedirsIn(lead) + RedirsIn(more) == rs + RedirsIn(items)
  {
    hide ItemToks, RedirsIn, ArgsIn;
    var it := Arg(ts[0].w);
    ItemsAppend(lead, more);
    FirstItem(it, lead + more);
    assert [] + ArgsIn(more) == ArgsIn(more) && [] + RedirsIn(lead + more) == RedirsIn(lead + more);
    Assoc3(ItemToks(lead), ItemToks(more), rest);
    Assoc3([ts[0]], ItemToks(lead + more), rest);
    assert ts == [ts[0]] + ts[1..];
    Assoc3(args, [ts[0].w], ArgsIn(more));
    Assoc3(rs, RedirsIn(lead), RedirsIn(more));
  }

  // ---------------------------------------------------------------- every tree is parsed

  lemma {:induction false} WfLower(level: nat, t: Tree)
    requires 0 < level && Wf(level, t)
    ensures Wf(level - 1, t) && !t.Semi? && (level >= 2 ==> !t.Amp?) && (level >= 3 ==> !t.Bar?)
  {}

  lemma EndsHigher(level: nat, t: Tree, rest: seq<Tok>)
    requires Wf(level + 1, t) && Ends(level, t, rest)
    ensures Ends(level + 1, t, rest)
  {}

  /** A separator ends a phrase that it cannot be part of. */
  lemma {:induction false} EndsSym(level: nat, t: Tree, c: char, more: seq<Tok>)
    requires Wf(level, t) && c in "|)&;" && Stop(level, [Sym(c)] + more)
    ensures Ends(level, t, [Sym(c)] + more)
    decreases t
  {
    match t
    case Bar(_, r) => EndsSym(2, r, c, more);
    case Semi(_, r) => EndsSym(0, r, c, more);
    case _ =>
  }

  lemma NotBlock(items: seq<Item>, rest: seq<Tok>)
    requires ItemsOk(items) && (rest == [] || Starts(rest, "|)&;"))
    ensures !Starts(ItemToks(items) + rest, "(")
  {
    if items == [] {
      NoItems(rest, [], []);
    } else {
      assert ItemOk(items[0]);
      assert (ItemToks(items) + rest)[0] == ItemTok(items[0])[0];
    }
  }

  lemma SimpleParses(items: seq<Item>, rest: seq<Tok>)
    requires Wf(3, Simple(items)) && (rest == [] || Starts(rest, "|)&;"))
    ensures ParseExec(ItemToks(items) + rest) == Ok(Wrap(Exec(ArgsIn(items)), RedirsIn(items)), rest)
  {
    hide ParseArgs, TakeRedirs, ItemToks, RedirsIn, ArgsIn, Wrap, Lead;
    var k := Lead(items);
    NotBlock(items, rest);
    LeadTaken([], items, rest);
    ArgsTaken([], [] + RedirsIn(items[..k]), items[k..], rest);
    assert [] + ArgsIn(items) == ArgsIn(items) && [] + RedirsIn(items[..k]) + RedirsIn(items[k..]) == RedirsIn(items);
  }

  lemma BlockParses(l: Cmd<string>, inner: seq<Tok>, rs: seq<Item>, rest: seq<Tok>)
    requires OnlyRedirs(rs) && !Starts(rest, "<>+")
    requires ParseLine(inner + ([Sym(')')] + (ItemToks(rs) + rest))) == Ok(l, [Sym(')')] + (ItemToks(rs) + rest))
    ensures ParseExec([Sym('(')] + inner + [Sym(')')] + ItemToks(rs) + rest) == Ok(Wrap(l, RedirsIn(rs)), rest)
  {
    hide ParseLine, TakeRedirs, ItemToks, RedirsIn, Wrap;
    var after := [Sym(')')] + (ItemToks(rs) + rest);
    var ts := [Sym('(')] + (inner + after);
    assert [Sym('(')] + inner + [Sym(')')] + ItemToks(rs) + rest == ts;
    assert ts[1..] == inner + after && after[1..] == ItemToks(rs) + rest;
    RedirsTaken([], rs, rest);
    assert [] + RedirsIn(rs) == RedirsIn(rs);
  }

  /** Whatever follows, a tree is read whole and with its meaning. */
  lemma {:induction false} TreeParses(level: nat, t: Tree, rest: seq<Tok>)
    requires level < 4 && Wf(level, t) && Ends(level, t, rest)
    ensures ParseAt(level, Tokens(t) + rest) == Ok(Meaning(t), rest)
    decreases t, 4 - level, 1
  {
    if level == 3 {
      ExecTree(t, rest);
    } else if level == 2 {
      PipeTree(t, rest);
    } else if level == 1 {
      if !t.Amp? {
        EndsHigher(1, t, rest);
      }
      BgTree(t, rest);
      hide ParseBg, Tokens, Meaning;
      BacksOver(Meaning(t), t, rest);
    } else {
      LineTree(t, rest);
    }
  }

  lemma BacksOver(c: Cmd<string>, t: Tree, rest: seq<Tok>)
    requires Wf(1, t) && Ends(1, t, rest)
    ensures Backs(c, rest) == Ok(c, rest)
  {}

  lemma {:induction false} ExecTree(t: Tree, rest: seq<Tok>)
    requires Wf(3, t) && Ends(3, t, rest)
    ensures ParseExec(Tokens(t) + rest) == Ok(Meaning(t), rest)
    decreases t, 1, 0
  {
    match t
    case Simple(items) => SimpleParses(items, rest);
    case Block(l, rs) =>
      EndsSym(0, l, ')', ItemToks(rs) + rest);
      TreeParses(0, l, [Sym(')')] + (ItemToks(rs) + rest));
      BlockParses(Meaning(l), Tokens(l), rs, rest);
  }

  lemma PipeOne(ts: seq<Tok>, c: Cmd<string>, rest: seq<Tok>)
    requires ParseExec(ts) == Ok(c, rest) && !Starts(rest, "|")
    ensures ParsePipe(ts) == Ok(c, rest)
  {}

  lemma PipeTwo(ts: seq<Tok>, c: Cmd<string>, tail: seq<Tok>, d: Cmd<string>, rest: seq<Tok>)
    requires ParseExec(ts) == Ok(c, [Sym('|')] + tail) && ParsePipe(tail) == Ok(d, rest)
    ensures ParsePipe(ts) == Ok(Pipe(c, d), rest)
  {
    assert ([Sym('|')] + tail)[1..] == tail;
  }

  lemma {:induction false} PipeTree(t: Tree, rest: seq<Tok>)
    requires Wf(2, t) && Ends(2, t, rest)
    ensures ParsePipe(Tokens(t) + rest) == Ok(Meaning(t), rest)
    decreases t, 2, 0
  {
    hide ParsePipe, ParseExec;
    if t.Bar? {
      var tail := Tokens(t.right) + rest;
      EndsSym(3, t.left, '|', tail);
      ExecTree(t.left, [Sym('|')] + tail);
      PipeTree(t.right, rest);
      Assoc3(Tokens(t.left) + [Sym('|')], Tokens(t.right), rest);
      Assoc3(Tokens(t.left), [Sym('|')], tail);
      PipeTwo(Tokens(t) + rest, Meaning(t.left), tail, Meaning(t.right), rest);
    } else {
      ExecTree(t, rest);
      PipeOne(Tokens(t) + rest, Meaning(t), rest);
    }
  }

  lemma {:induction false} BgTree(t: Tree, rest: seq<Tok>)
    requires Wf(1, t) && (t.Amp? || Ends(2, t, rest))
    ensures ParseBg(Tokens(t) + rest) == Backs(Meaning(t), rest)
    decreases t, 3, 0
  {
    if t.Amp? {
      var more := [Sym('&')] + rest;
      if !t.cmd.Amp? {
        EndsSym(2, t.cmd, '&', rest);
      }
      BgTree(t.cmd, more);
      Assoc3(Tokens(t.cmd), [Sym('&')], rest);
      assert more[1..] == rest;
    } else {
      PipeTree(t, rest);
    }
  }

  lemma LineOne(ts: seq<Tok>, c: Cmd<string>, rest: seq<Tok>)
    requires ParseBg(ts) == Ok(c, rest) && !Starts(rest, ";")
    ensures ParseLine(ts) == Ok(c, rest)
  {}

  lemma LineTwo(ts: seq<Tok>, c: Cmd<string>, tail: seq<Tok>, d: Cmd<string>, rest: seq<Tok>)
    requires ParseBg(ts) == Ok(c, [Sym(';')] + tail) && ParseLine(tail) == Ok(d, rest)
    ensures ParseLine(ts) == Ok(List(c, d), rest)
  {
    assert ([Sym(';')] + tail)[1..] == tail;
  }

  lemma {:induction false} LineTree(t: Tree, rest: seq<Tok>)
    requires Wf(0, t) && Ends(0, t, rest)
    ensures ParseLine(Tokens(t) + rest) == Ok(Meaning(t), rest)
    decreases t, 4, 0
  {
    hide ParseLine, ParseBg;
    if t.Semi? {
      var tail := Tokens(t.right) + rest;
      EndsSym(1, t.left, ';', tail);
      TreeParses(1, t.left, [Sym(';')] + tail);
      LineTree(t.right, rest);
      Assoc3(Tokens(t.left) + [Sym(';')], Tokens(t.right), rest);
      Assoc3(Tokens(t.left), [Sym(';')], tail);
      LineTwo(Tokens(t) + rest, Meaning(t.left), tail, Meaning(t.right), rest);
    } else {
      EndsHigher(0, t, rest);
      TreeParses(1, t, rest);
      LineOne(Tokens(t) + rest, Meaning(t), rest);
    }
  }

  // ---------------------------------------------------------------- everything parsed is a tree

  /** t is what was read from ts up to rest. */
  ghost predicate Reads(level: nat, ts: seq<Tok>, t: Tree, c: Cmd<string>, rest: seq<Tok>) {
    Wf(level, t) && ts == Tokens(t) + rest && Meaning(t) == c && Ends(level, t, rest)
  }

  lemma SimpleFound(ts: seq<Tok>) returns (t: Tree)
    requires ParseExec(ts).Ok? && !Starts(ts, "(")
    ensures Reads(3, ts, t, ParseExec(ts).cmd, ParseExec(ts).rest)
  {
    hide ParseArgs, TakeRedirs, ItemToks, RedirsIn, ArgsIn, Wrap;
    var r := TakeRedirs([], ts);
    var lead := RedirsFound([], ts);
    var more := ArgsFound([], r.rs, r.rest);
    ItemsAppend(lead, more);
    t := Simple(lead + more);
    assert [] + ArgsIn(more) == ArgsIn(more) && [] + RedirsIn(lead) == RedirsIn(lead);
    Assoc3(ItemToks(lead), ItemToks(more), ParseExec(ts).rest);
  }

  lemma BlockReads(ts: seq<Tok>, l: Tree, c: Cmd<string>, mid: seq<Tok>, rs: seq<Item>, rest: seq<Tok>)
    requires Starts(ts, "(") && Reads(0, ts[1..], l, c, mid) && Starts(mid, ")") && OnlyRedirs(rs)
    requires mid[1..] == ItemToks(rs) + rest && !Starts(rest, "<>+")
    ensures Reads(3, ts, Block(l, rs), Wrap(c, RedirsIn(rs)), rest)
  {
    hide ItemToks, RedirsIn, Wrap, Ends;
    assert ts == [Sym('(')] + (Tokens(l) + ([Sym(')')] + (ItemToks(rs) + rest)));
    assert Tokens(Block(l, rs)) + rest == ts;
    BlockEnds(l, rs, rest);
  }

  lemma BlockEnds(l: Tree, rs: seq<Item>, rest: seq<Tok>)
    requires !Starts(rest, "<>+")
    ensures Ends(3, Block(l, rs), rest)
  {}

  lemma BlockWas(ts: seq<Tok>)
    requires ParseExec(ts).Ok? && Starts(ts, "(")
    ensures var r := ParseLine(ts[1..]);
      && r.Ok? && Starts(r.rest, ")") && TakeRedirs([], r.rest[1..]).Redirs?
      && ParseExec(ts) == Ok(Wrap(r.cmd, TakeRedirs([], r.rest[1..]).rs), TakeRedirs([], r.rest[1..]).rest)
  {
    hide ParseLine, TakeRedirs, Wrap;
  }

  lemma {:induction false} TreeFound(level: nat, ts: seq<Tok>) returns (t: Tree)
    requires level < 4 && ParseAt(level, ts).Ok?
    ensures Reads(level, ts, t, ParseAt(level, ts).cmd, ParseAt(level, ts).rest)
    decreases |ts|, 4 - level
  {
    hide Reads, TakeRedirs;
    if level == 3 {
      if Starts(ts, "(") {
        BlockWas(ts);
        var r := ParseLine(ts[1..]);
        var l := TreeFound(0, ts[1..]);
        var rs := RedirsFound([], r.rest[1..]);
        t := Block(l, rs);
        BlockReads(ts, l, r.cmd, r.rest, rs, ParseExec(ts).rest);
        assert [] + RedirsIn(rs) == RedirsIn(rs);
      } else {
        t := SimpleFound(ts);
      }
    } else if level == 2 {
      var r := ParseExec(ts);
      t := TreeFound(3, ts);
      if Starts(r.rest, "|") {
        ReadsShorter(3, ts, t, r.cmd, r.rest);
        var right := TreeFound(2, r.rest[1..]);
        BarReads(ts, t, r.cmd, r.rest, right, ParsePipe(r.rest[1..]).cmd, ParsePipe(ts).rest);
        t := Bar(t, right);
      } else {
        ReadsPipe(ts, t, r.cmd, r.rest);
      }
    } else if level == 1 {
      var r := ParsePipe(ts);
      t := TreeFound(2, ts);
      t := BacksFound(ts, t, r.cmd, r.rest);
    } else {
      var r := ParseBg(ts);
      t := TreeFound(1, ts);
      if Starts(r.rest, ";") {
        ReadsShorter(1, ts, t, r.cmd, r.rest);
        var right := TreeFound(0, r.rest[1..]);
        SemiReads(ts, t, r.cmd, r.rest, right, ParseLine(r.rest[1..]).cmd, ParseLine(ts).rest);
        t := Semi(t, right);
      } else {
        ReadsLine(ts, t, r.cmd, r.rest);
      }
    }
  }

  lemma ReadsShorter(level: nat, ts: seq<Tok>, t: Tree, c: Cmd<string>, rest: seq<Tok>)
    requires Reads(level, ts, t, c, rest)
    ensures |rest| <= |ts|
  {}

  lemma ReadsPipe(ts: seq<Tok>, t: Tree, c: Cmd<string>, rest: seq<Tok>)
    requires Reads(3, ts, t, c, rest) && !Starts(rest, "|")
    ensures Reads(2, ts, t, c, rest)
  {
    WfLower(3, t);
  }

  lemma ReadsLine(ts: seq<Tok>, t: Tree, c: Cmd<string>, rest: seq<Tok>)
    requires Reads(1, ts, t, c, rest) && !Starts(rest, ";")
    ensures Reads(0, ts, t, c, rest)
  {
    WfLower(1, t);
  }

  lemma BarReads(ts: seq<Tok>, l: Tree, c: Cmd<string>, mid: seq<Tok>, r: Tree, d: Cmd<string>, rest: seq<Tok>)
    requires Reads(3, ts, l, c, mid) && Starts(mid, "|") && Reads(2, mid[1..], r, d, rest)
    ensures Reads(2, ts, Bar(l, r), Pipe(c, d), rest)
  {
    hide Starts;
    StartsWith(mid, '|');
    Between(Tokens(l), Sym('|'), Tokens(r), rest, mid);
  }

  lemma SemiReads(ts: seq<Tok>, l: Tree, c: Cmd<string>, mid: seq<Tok>, r: Tree, d: Cmd<string>, rest: seq<Tok>)
    requires Reads(1, ts, l, c, mid) && Starts(mid, ";") && Reads(0, mid[1..], r, d, rest)
    ensures Reads(0, ts, Semi(l, r), List(c, d), rest)
  {
    hide Starts;
    StartsWith(mid, ';');
    Between(Tokens(l), Sym(';'), Tokens(r), rest, mid);
  }

  lemma StartsWith(ts: seq<Tok>, c: char)
    requires Starts(ts, [c])
    ensures ts != [] && ts[0] == Sym(c)
  {}

  lemma Between(a: seq<Tok>, t: Tok, b: seq<Tok>, rest: seq<Tok>, mid: seq<Tok>)
    requires mid != [] && mid[0] == t && mid[1..] == b + rest
    ensures a + mid == a + [t] + b + rest
  {
    assert mid == [t] + mid[1..];
  }

  /** A phrase at parseline's loop over '&': all of level 1 but the test for one more. */
  ghost predicate Backing(ts: seq<Tok>, t: Tree, c: Cmd<string>, rest: seq<Tok>) {
    Wf(1, t) && ts == Tokens(t) + rest && Meaning(t) == c && (t.Amp? || Ends(2, t, rest))
  }

  lemma {:induction false} BackingFound(ts: seq<Tok>, t: Tree, c: Cmd<string>, mid: seq<Tok>) returns (u: Tree)
    requires Backing(ts, t, c, mid)
    ensures Reads(1, ts, u, Backs(c, mid).cmd, Backs(c, mid).rest)
    decreases |mid|
  {
    if Starts(mid, "&") {
      assert ts == Tokens(t) + ([Sym('&')] + mid[1..]);
      Assoc3(Tokens(t), [Sym('&')], mid[1..]);
      u := BackingFound(ts, Amp(t), Back(c), mid[1..]);
    } else {
      u := t;
    }
  }

  lemma BacksFound(ts: seq<Tok>, t: Tree, c: Cmd<string>, mid: seq<Tok>) returns (u: Tree)
    requires Reads(2, ts, t, c, mid)
    ensures Reads(1, ts, u, Backs(c, mid).cmd, Backs(c, mid).rest)
  {
    WfLower(2, t);
    u := BackingFound(ts, t, c, mid);
  }

  /** The parser is the grammar: at every level it reads a command and stops somewhere if and only if
      what it has read is a phrase of the grammar with that meaning which cannot be continued there.
      So it panics exactly where no such phrase begins. */
  lemma ParseIff(level: nat, ts: seq<Tok>, c: Cmd<string>, rest: seq<Tok>)
    requires level < 4
    ensures ParseAt(level, ts) == Ok(c, rest) <==> exists t :: Reads(level, ts, t, c, rest)
  {
    hide ParseAt;
    if ParseAt(level, ts) == Ok(c, rest) {
      var t := TreeFound(level, ts);
    }
    if t :| Reads(level, ts, t, c, rest) {
      TreeParses(level, t, rest);
    }
  }

  // ---------------------------------------------------------------- the two output operators

  /** Every >> written as >. */
  function Plain(ts: seq<Tok>): (us: seq<Tok>)
    ensures |us| == |ts| && forall i :: 0 <= i < |ts| ==> us[i] == if ts[i] == Sym('+') then Sym('>') else ts[i]
  {
    seq(|ts|, i requires 0 <= i < |ts| => if ts[i] == Sym('+') then Sym('>') else ts[i])
  }

  function PlainRest(r: Parsed): (p: Parsed) { if r.Ok? then Ok(r.cmd, Plain(r.rest)) else Panic }

  lemma PlainStarts(ts: seq<Tok>, cs: string)
    requires ('+' !in cs && '>' !in cs) || cs == "<>+"
    ensures Starts(Plain(ts), cs) == Starts(ts, cs)
  {}

  lemma PlainTail(ts: seq<Tok>, k: nat)
    requires k <= |ts|
    ensures Plain(ts[k..]) == Plain(ts)[k..]
  {}

  lemma {:induction false} PlainRedirs(rs: seq<(string, bool)>, ts: seq<Tok>)
    ensures var r := TakeRedirs(rs, ts);
      TakeRedirs(rs, Plain(ts)) == if r.Redirs? then Redirs(r.rs, Plain(r.rest)) else NoFile
    decreases |ts|
  {
    PlainStarts(ts, "<>+");
    if Starts(ts, "<>+") && |ts| >= 2 && ts[1].Word? {
      PlainRedirs(rs + [(ts[1].w, ts[0].c != '<')], ts[2..]);
      PlainTail(ts, 2);
    }
  }

  lemma {:induction false} PlainArgs(args: seq<string>, rs: seq<(string, bool)>, ts: seq<Tok>)
    ensures ParseArgs(args, rs, Plain(ts)) == PlainRest(ParseArgs(args, rs, ts))
    decreases |ts|
  {
    PlainStarts(ts, "|)&;");
    if ts != [] && !Starts(ts, "|)&;") && ts[0].Word? {
      PlainTail(ts, 1);
      PlainRedirs(rs, ts[1..]);
      var r := TakeRedirs(rs, ts[1..]);
      if r.Redirs? {
        PlainArgs(args + [ts[0].w], r.rs, r.rest);
      }
    }
  }

  lemma {:induction false} PlainBacks(c: Cmd<string>, ts: seq<Tok>)
    ensures Backs(c, Plain(ts)) == PlainRest(Backs(c, ts))
    decreases |ts|
  {
    PlainStarts(ts, "&");
    if Starts(ts, "&") {
      PlainTail(ts, 1);
      PlainBacks(Back(c), ts[1..]);
    }
  }

  /** A line with >> is read as the same line with >: the same tree, the same end, or a panic either
      way. */
  lemma {:induction false} AppendIsPlain(level: nat, ts: seq<Tok>)
    requires level < 4
    ensures ParseAt(level, Plain(ts)) == PlainRest(ParseAt(level, ts))
    decreases |ts|, 4 - level
  {
    hide Plain;
    if level == 3 {
      PlainStarts(ts, "(");
      if Starts(ts, "(") {
        PlainTail(ts, 1);
        AppendIsPlain(0, ts[1..]);
        PlainBlock(ts);
      } else {
        PlainRedirs([], ts);
        var r := TakeRedirs([], ts);
        if r.Redirs? {
          PlainArgs([], r.rs, r.rest);
        }
      }
    } else if level == 2 {
      AppendIsPlain(3, ts);
      PlainThen(2, ParseExec(ts), |ts|, "|");
    } else if level == 1 {
      AppendIsPlain(2, ts);
      var r := ParsePipe(ts);
      if r.Ok? {
        PlainBacks(r.cmd, r.rest);
      }
    } else {
      AppendIsPlain(1, ts);
      PlainThen(0, ParseBg(ts), |ts|, ";");
    }
  }

  lemma {:induction false} PlainThen(level: nat, r: Parsed, n: nat, cs: string)
    requires (level == 0 || level == 2) && (r.Ok? ==> |r.rest| <= n) && (cs == "|" || cs == ";")
    ensures r.Ok? ==> Starts(Plain(r.rest), cs) == Starts(r.rest, cs)
    ensures r.Ok? && Starts(r.rest, cs) ==> Plain(r.rest)[1..] == Plain(r.rest[1..])
    ensures r.Ok? && Starts(r.rest, cs) ==> ParseAt(level, Plain(r.rest[1..])) == PlainRest(ParseAt(level, r.rest[1..]))
    decreases n, 0
  {
    if r.Ok? {
      PlainStarts(r.rest, cs);
      if Starts(r.rest, cs) {
        PlainTail(r.rest, 1);
        AppendIsPlain(level, r.rest[1..]);
      }
    }
  }

  lemma PlainBlock(ts: seq<Tok>)
    requires Starts(ts, "(") && Starts(Plain(ts), "(") && Plain(ts)[1..] == Plain(ts[1..])
    requires ParseLine(Plain(ts[1..])) == PlainRest(ParseLine(ts[1..]))
    ensures ParseBlock(Plain(ts)) == PlainRest(ParseBlock(ts))
  {
    hide Plain, ParseLine;
    var r := ParseLine(ts[1..]);
    if r.Ok? {
      PlainStarts(r.rest, ")");
      if Starts(r.rest, ")") {
        PlainTail(r.rest, 1);
        PlainRedirs([], r.rest[1..]);
      }
    }
  }
}
