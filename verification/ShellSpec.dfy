/** The command language of the shell: its words and symbols, its grammar as syntax trees, and
    a parser on symbols that is proved to accept exactly that grammar. */
module ShellSpec {
  import opened Optional

  const MAXARGS := 10

  datatype Span = Span(q: nat, eq: nat)
  datatype Token = Word(span: Span) | Sym(c: char)

  // ----- Syntax trees

  datatype Redirect = Redirect(op: char, file: Span)
  datatype Arg = Arg(word: Span, redirs: seq<Redirect>)
  datatype LineTree = LineTree(pipe: PipeTree, amps: nat, next: Option<LineTree>)
  datatype PipeTree = PipeTree(exec: ExecTree, next: Option<PipeTree>)
  datatype ExecTree =
    | Block(line: LineTree, after: seq<Redirect>)
    | Simple(before: seq<Redirect>, args: seq<Arg>)

  predicate IsRedirectOp(c: char) { c == '<' || c == '>' || c == '+' }

  predicate OpsOk(rs: seq<Redirect>) { forall i | 0 <= i < |rs| :: IsRedirectOp(rs[i].op) }

  predicate ArgsOk(args: seq<Arg>) { forall i | 0 <= i < |args| :: OpsOk(args[i].redirs) }

  predicate LineOk(t: LineTree) { PipeOk(t.pipe) && (t.next.Some? ==> LineOk(t.next.value)) }

  predicate PipeOk(t: PipeTree) { ExecOk(t.exec) && (t.next.Some? ==> PipeOk(t.next.value)) }

  predicate ExecOk(t: ExecTree) {
    match t
    case Block(line, after) => LineOk(line) && OpsOk(after)
    case Simple(before, args) => OpsOk(before) && ArgsOk(args) && |args| < MAXARGS
  }

  // ----- The tokens a tree stands for

  function RedirTokens(rs: seq<Redirect>): (ts: seq<Token>) {
    if rs == [] then [] else [Sym(rs[0].op), Word(rs[0].file)] + RedirTokens(rs[1..])
  }

  function ArgTokens(args: seq<Arg>): (ts: seq<Token>) {
    if args == [] then [] else [Word(args[0].word)] + RedirTokens(args[0].redirs) + ArgTokens(args[1..])
  }

  function Amps(n: nat): (ts: seq<Token>) {
    seq(n, _ => Sym('&'))
  }

  function LineTokens(t: LineTree): (ts: seq<Token>) {
    PipeTokens(t.pipe) + Amps(t.amps) + if t.next.None? then [] else [Sym(';')] + LineTokens(t.next.value)
  }

  function PipeTokens(t: PipeTree): (ts: seq<Token>) {
    ExecTokens(t.exec) + if t.next.None? then [] else [Sym('|')] + PipeTokens(t.next.value)
  }

  function ExecTokens(t: ExecTree): (ts: seq<Token>) {
    match t
    case Block(line, after) => [Sym('(')] + LineTokens(line) + [Sym(')')] + RedirTokens(after)
    case Simple(before, args) => RedirTokens(before) + ArgTokens(args)
  }

  // ----- The parser on tokens

  datatype Result<T> = Ok(value: T, rest: seq<Token>) | Error

  predicate Starts(ts: seq<Token>, c: char) { ts != [] && ts[0] == Sym(c) }

  predicate StartsRedirect(ts: seq<Token>) { ts != [] && ts[0].Sym? && IsRedirectOp(ts[0].c) }

  predicate Stops(ts: seq<Token>) {
    ts == [] || Starts(ts, '|') || Starts(ts, ')') || Starts(ts, '&') || Starts(ts, ';')
  }

  function ParseRedirs(ts: seq<Token>): (r: Result<seq<Redirect>>)
    ensures r.Ok? ==> |r.rest| <= |ts|
  {
    if !StartsRedirect(ts) then Ok([], ts)
    else if |ts| < 2 || !ts[1].Word? then Error
    else
      match ParseRedirs(ts[2..])
      case Error => Error
      case Ok(rs, rest) => Ok([Redirect(ts[0].c, ts[1].span)] + rs, rest)
  }

  /** The words, each with the redirections after it; n words have been read before. */
  function ParseArgs(ts: seq<Token>, n: nat): (r: Result<seq<Arg>>)
    decreases |ts|
    ensures r.Ok? ==> |r.rest| <= |ts|
  {
    if Stops(ts) then Ok([], ts)
    else if !ts[0].Word? || n + 1 >= MAXARGS then Error
    else
      match ParseRedirs(ts[1..])
      case Error => Error
      case Ok(rs, rest) =>
        match ParseArgs(rest, n + 1)
        case Error => Error
        case Ok(args, rest') => Ok([Arg(ts[0].span, rs)] + args, rest')
  }

  function ParseExec(ts: seq<Token>): (r: Result<ExecTree>)
    decreases |ts|, 0
    ensures r.Ok? ==> |r.rest| <= |ts|
  {
    if Starts(ts, '(') then
      match ParseLine(ts[1..])
      case Error => Error
      case Ok(line, rest) =>
        if !Starts(rest, ')') then Error
        else
          match ParseRedirs(rest[1..])
          case Error => Error
          case Ok(after, rest') => Ok(Block(line, after), rest')
    else
      match ParseRedirs(ts)
      case Error => Error
      case Ok(before, rest) =>
        match ParseArgs(rest, 0)
        case Error => Error
        case Ok(args, rest') => Ok(Simple(before, args), rest')
  }

  function ParsePipe(ts: seq<Token>): (r: Result<PipeTree>)
    decreases |ts|, 1
    ensures r.Ok? ==> |r.rest| <= |ts|
  {
    match ParseExec(ts)
    case Error => Error
    case Ok(exec, rest) =>
      if !Starts(rest, '|') then Ok(PipeTree(exec, None), rest)
      else
        match ParsePipe(rest[1..])
        case Error => Error
        case Ok(next, rest') => Ok(PipeTree(exec, Some(next)), rest')
  }

  function CountAmps(ts: seq<Token>): (n: nat)
    ensures n <= |ts|
  {
    if Starts(ts, '&') then 1 + CountAmps(ts[1..]) else 0
  }

  function ParseLine(ts: seq<Token>): (r: Result<LineTree>)
    decreases |ts|, 2
    ensures r.Ok? ==> |r.rest| <= |ts|
  {
    match ParsePipe(ts)
    case Error => Error
    case Ok(pipe, rest) =>
      var n := CountAmps(rest);
      var rest' := rest[n..];
      if !Starts(rest', ';') then Ok(LineTree(pipe, n, None), rest')
      else
        match ParseLine(rest'[1..])
        case Error => Error
        case Ok(next, rest'') => Ok(LineTree(pipe, n, Some(next)), rest'')
  }

  lemma Join(a: seq<Token>, b: seq<Token>, c: seq<Token>)
    ensures a + (b + c) == a + b + c
  {
  }

  // ----- Soundness: what is parsed is a tree of the grammar, over the tokens consumed

  lemma {:induction false} RedirsSound(ts: seq<Token>)
    requires ParseRedirs(ts).Ok?
    ensures OpsOk(ParseRedirs(ts).value) && !StartsRedirect(ParseRedirs(ts).rest)
    ensures ts == RedirTokens(ParseRedirs(ts).value) + ParseRedirs(ts).rest
  {
    if StartsRedirect(ts) {
      RedirsSound(ts[2..]);
      var rs := ParseRedirs(ts).value;
      assert rs[1..] == ParseRedirs(ts[2..]).value;
      assert ts == [ts[0], ts[1]] + ts[2..];
    }
  }

  lemma NoArgs()
    ensures ArgTokens([]) == [] && ArgsOk([])
  {
  }

  lemma MoreArgs(a: Arg, args: seq<Arg>)
    ensures ArgTokens([a] + args) == [Word(a.word)] + RedirTokens(a.redirs) + ArgTokens(args)
    ensures ArgsOk([a] + args) <==> OpsOk(a.redirs) && ArgsOk(args)
  {
    var l := [a] + args;
    assert l[1..] == args;
    if ArgsOk(l) {
      forall i | 0 <= i < |args|
        ensures OpsOk(args[i].redirs)
      {
        assert args[i] == l[i + 1];
      }
      assert OpsOk(l[0].redirs);
    }
  }

  lemma {:induction false} ArgsSound(ts: seq<Token>, n: nat)
    requires ParseArgs(ts, n).Ok? && n < MAXARGS
    ensures ArgsOk(ParseArgs(ts, n).value) && n + |ParseArgs(ts, n).value| < MAXARGS
    ensures ts == ArgTokens(ParseArgs(ts, n).value) + ParseArgs(ts, n).rest
    decreases |ts|
  {
    hide RedirTokens, ParseRedirs, OpsOk, ArgsOk;
    if Stops(ts) {
      NoArgs();
    } else {
      RedirsSound(ts[1..]);
      var r := ParseRedirs(ts[1..]);
      ArgsSound(r.rest, n + 1);
      var r' := ParseArgs(r.rest, n + 1);
      MoreArgs(Arg(ts[0].span, r.value), r'.value);
      assert ts == [ts[0]] + ts[1..];
      Join([ts[0]], RedirTokens(r.value), ArgTokens(r'.value) + r'.rest);
      Join([ts[0]] + RedirTokens(r.value), ArgTokens(r'.value), r'.rest);
    }
  }

  lemma {:induction false} ExecSound(ts: seq<Token>)
    requires ParseExec(ts).Ok?
    ensures ExecOk(ParseExec(ts).value)
    ensures ts == ExecTokens(ParseExec(ts).value) + ParseExec(ts).rest
    decreases |ts|, 0
  {
    hide RedirTokens, ParseRedirs, OpsOk, ArgTokens, ParseArgs, ArgsOk, LineTokens, ParseLine, LineOk;
    if Starts(ts, '(') {
      LineSound(ts[1..]);
      var r := ParseLine(ts[1..]);
      RedirsSound(r.rest[1..]);
      var r' := ParseRedirs(r.rest[1..]);
      assert ts == [Sym('(')] + ts[1..] && r.rest == [Sym(')')] + r.rest[1..];
      Join([Sym('(')], LineTokens(r.value), r.rest);
      Join([Sym('(')] + LineTokens(r.value), [Sym(')')], r.rest[1..]);
      Join([Sym('(')] + LineTokens(r.value) + [Sym(')')], RedirTokens(r'.value), r'.rest);
    } else {
      RedirsSound(ts);
      var r := ParseRedirs(ts);
      ArgsSound(r.rest, 0);
      Join(RedirTokens(r.value), ArgTokens(ParseArgs(r.rest, 0).value), ParseArgs(r.rest, 0).rest);
    }
  }

  lemma {:induction false} PipeSound(ts: seq<Token>)
    requires ParsePipe(ts).Ok?
    ensures PipeOk(ParsePipe(ts).value)
    ensures ts == PipeTokens(ParsePipe(ts).value) + ParsePipe(ts).rest
    decreases |ts|, 1
  {
    hide ExecTokens, ParseExec, ExecOk;
    ExecSound(ts);
    var r := ParseExec(ts);
    if Starts(r.rest, '|') {
      PipeSound(r.rest[1..]);
      var r' := ParsePipe(r.rest[1..]);
      assert r.rest == [Sym('|')] + r.rest[1..];
      Join([Sym('|')], PipeTokens(r'.value), r'.rest);
      Join(ExecTokens(r.value), [Sym('|')] + PipeTokens(r'.value), r'.rest);
    }
  }

  lemma {:induction false} AmpsSound(ts: seq<Token>)
    ensures ts == Amps(CountAmps(ts)) + ts[CountAmps(ts)..] && !Starts(ts[CountAmps(ts)..], '&')
  {
    if Starts(ts, '&') {
      AmpsSound(ts[1..]);
      assert ts == [Sym('&')] + ts[1..];
      assert ts[CountAmps(ts)..] == ts[1..][CountAmps(ts[1..])..];
    }
  }

  lemma {:induction false} LineSound(ts: seq<Token>)
    requires ParseLine(ts).Ok?
    ensures LineOk(ParseLine(ts).value)
    ensures ts == LineTokens(ParseLine(ts).value) + ParseLine(ts).rest
    decreases |ts|, 2
  {
    hide PipeTokens, ParsePipe, PipeOk, CountAmps, Amps;
    PipeSound(ts);
    var r := ParsePipe(ts);
    AmpsSound(r.rest);
    var n := CountAmps(r.rest);
    var rest := r.rest[n..];
    Join(PipeTokens(r.value), Amps(n), rest);
    if Starts(rest, ';') {
      LineSound(rest[1..]);
      var r' := ParseLine(rest[1..]);
      assert rest == [Sym(';')] + rest[1..];
      Join([Sym(';')], LineTokens(r'.value), r'.rest);
      Join(PipeTokens(r.value) + Amps(n), [Sym(';')] + LineTokens(r'.value), r'.rest);
    }
  }

  // ----- Completeness: every tree of the grammar is found again from its tokens

  lemma {:induction false} RedirsComplete(rs: seq<Redirect>, rest: seq<Token>)
    requires OpsOk(rs) && !StartsRedirect(rest)
    ensures ParseRedirs(RedirTokens(rs) + rest) == Ok(rs, rest)
  {
    var ts := RedirTokens(rs) + rest;
    if rs == [] {
      assert ts == rest;
    } else {
      RedirsComplete(rs[1..], rest);
      assert ts[2..] == RedirTokens(rs[1..]) + rest;
      assert rs == [Redirect(ts[0].c, ts[1].span)] + rs[1..];
    }
  }

  /** Words, like what ends a command, never start with a redirection. */
  lemma StartsArgs(args: seq<Arg>, rest: seq<Token>)
    requires Stops(rest)
    ensures !StartsRedirect(ArgTokens(args) + rest) && !Starts(ArgTokens(args) + rest, '(')
  {
    if args == [] {
      assert ArgTokens(args) + rest == rest;
    }
  }

  lemma {:induction false} ArgsComplete(args: seq<Arg>, rest: seq<Token>, n: nat)
    requires ArgsOk(args) && n + |args| < MAXARGS && Stops(rest)
    ensures ParseArgs(ArgTokens(args) + rest, n) == Ok(args, rest)
    decreases |args|
  {
    hide RedirTokens, ParseRedirs, OpsOk, ArgsOk;
    var ts := ArgTokens(args) + rest;
    if args == [] {
      assert ts == rest;
    } else {
      var a := args[0];
      assert args == [a] + args[1..];
      MoreArgs(a, args[1..]);
      var tail := ArgTokens(args[1..]) + rest;
      Join([Word(a.word)] + RedirTokens(a.redirs), ArgTokens(args[1..]), rest);
      Join([Word(a.word)], RedirTokens(a.redirs), tail);
      assert ts[1..] == RedirTokens(a.redirs) + tail;
      StartsArgs(args[1..], rest);
      RedirsComplete(a.redirs, tail);
      ArgsComplete(args[1..], rest, n + 1);
    }
  }

  lemma StartsSimple(before: seq<Redirect>, rest: seq<Token>)
    requires OpsOk(before) && !Starts(rest, '(')
    ensures !Starts(RedirTokens(before) + rest, '(')
  {
    if before == [] {
      assert RedirTokens(before) + rest == rest;
    }
  }

  lemma {:induction false} ExecComplete(t: ExecTree, rest: seq<Token>)
    requires ExecOk(t) && Stops(rest)
    ensures ParseExec(ExecTokens(t) + rest) == Ok(t, rest)
    decreases t
  {
    hide RedirTokens, ParseRedirs, OpsOk, ArgTokens, ParseArgs, ArgsOk, LineTokens, ParseLine, LineOk;
    match t
    case Block(line, after) =>
      var tail := [Sym(')')] + (RedirTokens(after) + rest);
      Join([Sym('(')] + LineTokens(line) + [Sym(')')], RedirTokens(after), rest);
      Join([Sym('(')] + LineTokens(line), [Sym(')')], RedirTokens(after) + rest);
      Join([Sym('(')], LineTokens(line), tail);
      assert (ExecTokens(t) + rest)[1..] == LineTokens(line) + tail;
      LineComplete(line, tail);
      assert tail[1..] == RedirTokens(after) + rest;
      RedirsComplete(after, rest);
    case Simple(before, args) =>
      var tail := ArgTokens(args) + rest;
      Join(RedirTokens(before), ArgTokens(args), rest);
      StartsArgs(args, rest);
      RedirsComplete(before, tail);
      ArgsComplete(args, rest, 0);
      StartsSimple(before, tail);
  }

  lemma {:induction false} PipeComplete(t: PipeTree, rest: seq<Token>)
    requires PipeOk(t) && Stops(rest) && !Starts(rest, '|')
    ensures ParsePipe(PipeTokens(t) + rest) == Ok(t, rest)
    decreases t
  {
    hide ExecTokens, ParseExec, ExecOk;
    if t.next.None? {
      assert PipeTokens(t) == ExecTokens(t.exec);
      ExecComplete(t.exec, rest);
    } else {
      var tail := [Sym('|')] + (PipeTokens(t.next.value) + rest);
      Join(ExecTokens(t.exec), [Sym('|')] + PipeTokens(t.next.value), rest);
      Join([Sym('|')], PipeTokens(t.next.value), rest);
      ExecComplete(t.exec, tail);
      assert tail[1..] == PipeTokens(t.next.value) + rest;
      PipeComplete(t.next.value, rest);
    }
  }

  lemma {:induction false} AmpsComplete(n: nat, rest: seq<Token>)
    requires !Starts(rest, '&')
    ensures CountAmps(Amps(n) + rest) == n && (Amps(n) + rest)[n..] == rest
    ensures Stops(rest) && !Starts(rest, '|') ==> Stops(Amps(n) + rest) && !Starts(Amps(n) + rest, '|')
  {
    if n == 0 {
      assert Amps(n) + rest == rest;
    } else {
      AmpsComplete(n - 1, rest);
      assert (Amps(n) + rest)[1..] == Amps(n - 1) + rest;
    }
  }

  lemma {:induction false} LineComplete(t: LineTree, rest: seq<Token>)
    requires LineOk(t) && (rest == [] || Starts(rest, ')'))
    ensures ParseLine(LineTokens(t) + rest) == Ok(t, rest)
    decreases t
  {
    hide PipeTokens, ParsePipe, PipeOk, CountAmps, Amps;
    if t.next.None? {
      assert LineTokens(t) == PipeTokens(t.pipe) + Amps(t.amps);
      Join(PipeTokens(t.pipe), Amps(t.amps), rest);
      AmpsComplete(t.amps, rest);
      PipeComplete(t.pipe, Amps(t.amps) + rest);
    } else {
      var tail := [Sym(';')] + (LineTokens(t.next.value) + rest);
      Join(PipeTokens(t.pipe) + Amps(t.amps), [Sym(';')] + LineTokens(t.next.value), rest);
      Join([Sym(';')], LineTokens(t.next.value), rest);
      Join(PipeTokens(t.pipe), Amps(t.amps), tail);
      AmpsComplete(t.amps, tail);
      PipeComplete(t.pipe, Amps(t.amps) + tail);
      assert tail[1..] == LineTokens(t.next.value) + rest;
      LineComplete(t.next.value, rest);
    }
  }

  /** The parser accepts exactly the grammar, and returns the one tree of what it accepts. */
  lemma ParseIsGrammar(ts: seq<Token>, t: LineTree)
    ensures ParseLine(ts) == Ok(t, []) <==> LineOk(t) && LineTokens(t) == ts
  {
    if ParseLine(ts) == Ok(t, []) {
      LineSound(ts);
      assert LineTokens(t) + [] == LineTokens(t);
    }
    if LineOk(t) && LineTokens(t) == ts {
      LineComplete(t, []);
      assert LineTokens(t) + [] == ts;
    }
  }

  /** No sequence of tokens has two trees. */
  lemma GrammarIsUnambiguous(t: LineTree, u: LineTree)
    requires LineOk(t) && LineOk(u) && LineTokens(t) == LineTokens(u)
    ensures t == u
  {
    ParseIsGrammar(LineTokens(t), t);
    ParseIsGrammar(LineTokens(u), u);
  }
}
