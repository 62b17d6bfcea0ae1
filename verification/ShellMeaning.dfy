/** What the command of a text says, told from the tokens of the text and from the command, with
    no syntax tree in between; and a text for every command. */
module ShellMeaning {

  import opened Optional
  import opened ShellSpec
  import opened ShellText

  // ----- What a command opens, and the rest of it

  /** A file to open, how, and on which descriptor. */
  datatype Opening = Opening(file: Span, mode: Mode, fd: nat)

  /** The files a command opens, an outer redirection after the ones inside it. */
  function Opens(c: Cmd): (os: seq<Opening>) {
    match c
    case Exec(_) => []
    case Redir(d, file, mode, fd) => Opens(d) + [Opening(file, mode, fd)]
    case Pipe(l, r) => Opens(l) + Opens(r)
    case List(l, r) => Opens(l) + Opens(r)
    case Back(d) => Opens(d)
  }

  /** Its words and symbols without redirections and parentheses. */
  function Skeleton(c: Cmd): (ts: seq<Token>) {
    match c
    case Exec(argv) => seq(|argv|, i requires 0 <= i < |argv| => Word(argv[i]))
    case Redir(d, _, _, _) => Skeleton(d)
    case Pipe(l, r) => Skeleton(l) + [Sym('|')] + Skeleton(r)
    case List(l, r) => Skeleton(l) + [Sym(';')] + Skeleton(r)
    case Back(d) => Skeleton(d) + [Sym('&')]
  }

  predicate IsOpening(ts: seq<Token>) {
    |ts| >= 2 && ts[0] in [Sym('<'), Sym('>'), Sym('+')] && ts[1].Word?
  }

  /** The files that tokens ask to open, in order: for reading on descriptor 0 after <, for
      writing on descriptor 1 after > and >>. */
  function OpensIn(ts: seq<Token>): (os: seq<Opening>) {
    if ts == [] then []
    else if IsOpening(ts) then
      [if ts[0] == Sym('<') then Opening(ts[1].span, ReadOnly, 0) else Opening(ts[1].span, WriteCreate, 1)]
      + OpensIn(ts[2..])
    else OpensIn(ts[1..])
  }

  /** The other tokens, without parentheses. */
  function Others(ts: seq<Token>): (us: seq<Token>) {
    if ts == [] then []
    else if IsOpening(ts) then Others(ts[2..])
    else if ts[0] == Sym('(') || ts[0] == Sym(')') then Others(ts[1..])
    else [ts[0]] + Others(ts[1..])
  }

  /** No redirection is left unfinished at the end. */
  predicate Closed(ts: seq<Token>) {
    ts == [] || ts[|ts| - 1] !in [Sym('<'), Sym('>'), Sym('+')]
  }

  lemma {:induction false} JoinOpens(a: seq<Token>, b: seq<Token>)
    requires Closed(a)
    ensures OpensIn(a + b) == OpensIn(a) + OpensIn(b)
  {
    hide IsOpening, Closed;
    if a == [] {
      assert a + b == b;
    } else {
      JoinStep(a, b);
      JoinOpens(if IsOpening(a) then a[2..] else a[1..], b);
    }
  }

  lemma {:induction false} JoinOthers(a: seq<Token>, b: seq<Token>)
    requires Closed(a)
    ensures Others(a + b) == Others(a) + Others(b)
  {
    hide IsOpening, Closed;
    if a == [] {
      assert a + b == b;
    } else {
      JoinStep(a, b);
      JoinOthers(if IsOpening(a) then a[2..] else a[1..], b);
    }
  }

  lemma Join(a: seq<Token>, b: seq<Token>)
    requires Closed(a)
    ensures OpensIn(a + b) == OpensIn(a) + OpensIn(b) && Others(a + b) == Others(a) + Others(b)
  {
    JoinOpens(a, b);
    JoinOthers(a, b);
  }

  lemma JoinStep(a: seq<Token>, b: seq<Token>)
    requires Closed(a) && a != []
    ensures IsOpening(a + b) <==> IsOpening(a)
    ensures IsOpening(a) ==> |a| >= 2 && (a + b)[2..] == a[2..] + b && Closed(a[2..])
    ensures (a + b)[1..] == a[1..] + b && Closed(a[1..])
  {
  }

  /** The command says what the tokens say. */
  ghost predicate Says(c: Cmd, ts: seq<Token>) {
    Closed(ts) && Opens(c) == OpensIn(ts) && Skeleton(c) == Others(ts)
  }

  lemma Nothing()
    ensures OpensIn([]) == [] && Others([]) == []
  {
  }

  lemma One(t: Token)
    requires Closed([t])
    ensures OpensIn([t]) == [] && Others([t]) == if t == Sym('(') || t == Sym(')') then [] else [t]
  {
    assert Others([t][1..]) == [] && OpensIn([t][1..]) == [];
  }

  lemma OneOpening(c: Cmd, r: Redirect)
    requires IsRedirectOp(r.op)
    ensures var ts := [Sym(r.op), Word(r.file)];
      && Closed(ts) && Others(ts) == []
      && Opens(RedirCmd(c, r)) == Opens(c) + OpensIn(ts) && Skeleton(RedirCmd(c, r)) == Skeleton(c)
  {
    var ts := [Sym(r.op), Word(r.file)];
    assert IsOpening(ts) && ts[2..] == [];
    Nothing();
  }

  /** Redirections after what a command says are redirections around it, the last outermost. */
  lemma {:induction false} WrapSays(c: Cmd, rs: seq<Redirect>)
    requires OpsOk(rs)
    ensures Closed(RedirTokens(rs)) && Others(RedirTokens(rs)) == []
    ensures Opens(Wrap(c, rs)) == Opens(c) + OpensIn(RedirTokens(rs)) && Skeleton(Wrap(c, rs)) == Skeleton(c)
  {
    hide OpensIn, Others, Opens, Skeleton, RedirCmd, IsRedirectOp;
    if rs == [] {
      Nothing();
      assert Opens(c) + [] == Opens(c);
    } else {
      var n := |rs| - 1;
      var front, last := RedirTokens(rs[..n]), [Sym(rs[n].op), Word(rs[n].file)];
      WrapSays(c, rs[..n]);
      assert rs == rs[..n] + [rs[n]];
      RedirTokensJoin(rs[..n], [rs[n]]);
      assert RedirTokens([rs[n]]) == last;
      Join(front, last);
      OneOpening(Wrap(c, rs[..n]), rs[n]);
    }
  }

  lemma {:induction false} ArgsSay(args: seq<Arg>)
    requires ArgsOk(args)
    ensures Closed(ArgTokens(args))
    ensures OpensIn(ArgTokens(args)) == OpensIn(RedirTokens(Redirects(args)))
    ensures Others(ArgTokens(args)) == Skeleton(Exec(Words(args)))
  {
    hide OpensIn, Others, Skeleton, OpsOk, Wrap;
    if args == [] {
      Nothing();
      NoWords();
    } else {
      ArgsSay(args[1..]);
      WrapSays(Exec([]), args[0].redirs);
      RedirTokensJoin(args[0].redirs, Redirects(args[1..]));
      WordsStep(args[0].word, Words(args[1..]));
      ArgSays(args[0].word, RedirTokens(args[0].redirs), ArgTokens(args[1..]), RedirTokens(Redirects(args[1..])));
    }
  }

  lemma NoWords()
    ensures Skeleton(Exec([])) == []
  {
  }

  lemma WordsStep(w: Span, ws: seq<Span>)
    ensures Skeleton(Exec([w] + ws)) == [Word(w)] + Skeleton(Exec(ws))
  {
  }

  lemma ArgSays(w: Span, redirs: seq<Token>, rest: seq<Token>, later: seq<Token>)
    requires Closed(redirs) && Closed(rest) && Others(redirs) == [] && OpensIn(rest) == OpensIn(later)
    ensures Closed([Word(w)] + redirs + rest)
    ensures OpensIn([Word(w)] + redirs + rest) == OpensIn(redirs + later)
    ensures Others([Word(w)] + redirs + rest) == [Word(w)] + Others(rest)
  {
    hide OpensIn, Others;
    var front := [Word(w)] + redirs;
    One(Word(w));
    Join([Word(w)], redirs);
    assert OpensIn(front) == OpensIn(redirs) && Others(front) == [Word(w)] && Closed(front);
    Join(front, rest);
    JoinOpens(redirs, later);
  }

  lemma {:induction false} RedirectsOk(args: seq<Arg>)
    requires ArgsOk(args)
    ensures OpsOk(Redirects(args))
  {
    if args != [] {
      RedirectsOk(args[1..]);
    }
  }

  lemma BlockSays(c: Cmd, ts: seq<Token>, after: seq<Redirect>)
    requires Says(c, ts) && OpsOk(after)
    ensures Says(Wrap(c, after), [Sym('(')] + ts + [Sym(')')] + RedirTokens(after))
  {
    hide OpensIn, Others, Opens, Skeleton, Wrap;
    WrapSays(c, after);
    var open, close := [Sym('(')], [Sym(')')];
    One(open[0]);
    One(close[0]);
    Join(open, ts);
    Join(open + ts, close);
    Join(open + ts + close, RedirTokens(after));
  }

  lemma SimpleSays(before: seq<Redirect>, args: seq<Arg>)
    requires OpsOk(before) && ArgsOk(args)
    ensures Says(Wrap(Exec(Words(args)), before + Redirects(args)), RedirTokens(before) + ArgTokens(args))
  {
    hide OpensIn, Others, Skeleton, Wrap;
    ArgsSay(args);
    RedirectsOk(args);
    WrapSays(Exec([]), before);
    WrapSays(Exec(Words(args)), before + Redirects(args));
    RedirTokensJoin(before, Redirects(args));
    Join(RedirTokens(before), RedirTokens(Redirects(args)));
    Join(RedirTokens(before), ArgTokens(args));
  }

  lemma JoinedBy(a: seq<Token>, t: Token, b: seq<Token>)
    requires Closed(a) && Closed(b) && Closed([t]) && t != Sym('(') && t != Sym(')')
    ensures Closed(a + ([t] + b))
    ensures OpensIn(a + ([t] + b)) == OpensIn(a) + OpensIn(b) && Others(a + ([t] + b)) == Others(a) + [t] + Others(b)
  {
    hide OpensIn, Others;
    One(t);
    Join([t], b);
    Join(a, [t] + b);
  }

  lemma PipeJoins(l: Cmd, a: seq<Token>, r: Cmd, b: seq<Token>)
    requires Says(l, a) && Says(r, b)
    ensures Says(Pipe(l, r), a + ([Sym('|')] + b))
  {
    hide OpensIn, Others;
    JoinedBy(a, Sym('|'), b);
  }

  lemma ListJoins(l: Cmd, a: seq<Token>, r: Cmd, b: seq<Token>)
    requires Says(l, a) && Says(r, b)
    ensures Says(List(l, r), a + ([Sym(';')] + b))
  {
    hide OpensIn, Others;
    JoinedBy(a, Sym(';'), b);
  }

  lemma {:induction false} ExecSays(t: ExecTree)
    requires ExecOk(t)
    ensures Says(ExecCmd(t), ExecTokens(t))
    decreases t
  {
    hide Says;
    match t
    case Block(line, after) =>
      LineSays(line);
      BlockSays(LineCmd(line), LineTokens(line), after);
    case Simple(before, args) =>
      SimpleSays(before, args);
  }

  lemma {:induction false} PipeSays(t: PipeTree)
    requires PipeOk(t)
    ensures Says(PipeCmd(t), PipeTokens(t))
    decreases t
  {
    hide Says;
    ExecSays(t.exec);
    if t.next.Some? {
      PipeSays(t.next.value);
      PipeJoins(ExecCmd(t.exec), ExecTokens(t.exec), PipeCmd(t.next.value), PipeTokens(t.next.value));
    } else {
      assert ExecTokens(t.exec) + [] == ExecTokens(t.exec);
    }
  }

  lemma {:induction false} BacksSay(c: Cmd, ts: seq<Token>, n: nat)
    requires Says(c, ts)
    ensures Says(Backs(c, n), ts + Amps(n))
  {
    hide OpensIn, Others;
    if n == 0 {
      assert ts + Amps(n) == ts;
    } else {
      BacksSay(c, ts, n - 1);
      One(Sym('&'));
      Join(ts + Amps(n - 1), [Sym('&')]);
      assert ts + Amps(n) == ts + Amps(n - 1) + [Sym('&')];
    }
  }

  lemma {:induction false} LineSays(t: LineTree)
    requires LineOk(t)
    ensures Says(LineCmd(t), LineTokens(t))
    decreases t
  {
    hide Says;
    PipeSays(t.pipe);
    var c, ts := Backs(PipeCmd(t.pipe), t.amps), PipeTokens(t.pipe) + Amps(t.amps);
    BacksSay(PipeCmd(t.pipe), PipeTokens(t.pipe), t.amps);
    if t.next.Some? {
      LineSays(t.next.value);
      ListJoins(c, ts, LineCmd(t.next.value), LineTokens(t.next.value));
    } else {
      assert ts + [] == ts;
    }
  }

  // ----- A text for every command

  /** Few enough words in each command, and redirections as the shell can make them. */
  predicate Printable(c: Cmd) {
    match c
    case Exec(argv) => |argv| < 10
    case Redir(d, _, mode, fd) => Printable(d) && fd == if mode == ReadOnly then 0 else 1
    case Pipe(l, r) => Printable(l) && Printable(r)
    case List(l, r) => Printable(l) && Printable(r)
    case Back(d) => Printable(d)
  }

  predicate Plain(c: Cmd) { c.Exec? || c.Redir? }

  /** A command as the grammar writes it as one of a pipe: in parentheses if need be. */
  function ExecText(c: Cmd): (ts: seq<Token>)
    decreases c, if Plain(c) then 0 else if c.Pipe? then 3 else 2
  {
    match c
    case Exec(argv) => seq(|argv|, i requires 0 <= i < |argv| => Word(argv[i]))
    case Redir(d, file, mode, _) => ExecText(d) + [Sym(if mode == ReadOnly then '<' else '>'), Word(file)]
    case _ => [Sym('(')] + LineText(c) + [Sym(')')]
  }

  function PipeText(c: Cmd): (ts: seq<Token>)
    decreases c, if Plain(c) then 4 else if c.Pipe? then 0 else 3
  {
    match c
    case Pipe(l, r) => ExecText(l) + [Sym('|')] + PipeText(r)
    case _ => ExecText(c)
  }

  function BackText(c: Cmd): (ts: seq<Token>)
    decreases c, if c.Back? then 0 else 5
  {
    match c
    case Back(d) => BackText(d) + [Sym('&')]
    case _ => PipeText(c)
  }

  function LineText(c: Cmd): (ts: seq<Token>)
    decreases c, if Plain(c) then 6 else if c.Pipe? then 2 else 1
  {
    match c
    case Exec(_) => BackText(c)
    case Redir(_, _, _, _) => BackText(c)
    case Pipe(_, _) => PipeText(c)
    case List(l, r) => BackText(l) + [Sym(';')] + LineText(r)
    case Back(_) => BackText(c)
  }

  // ----- Only such commands come out

  lemma {:induction false} WrapPrintable(c: Cmd, rs: seq<Redirect>)
    requires Printable(c)
    ensures Printable(Wrap(c, rs))
  {
    if rs != [] {
      WrapPrintable(c, rs[..|rs| - 1]);
    }
  }

  lemma {:induction false} BacksPrintable(c: Cmd, n: nat)
    requires Printable(c)
    ensures Printable(Backs(c, n))
  {
    if n > 0 {
      BacksPrintable(c, n - 1);
    }
  }

  lemma {:induction false} WordCount(args: seq<Arg>)
    ensures |Words(args)| == |args|
  {
    if args != [] {
      WordCount(args[1..]);
    }
  }

  lemma {:induction false} ExecPrintable(t: ExecTree)
    requires ExecOk(t)
    ensures Printable(ExecCmd(t))
    decreases t
  {
    match t
    case Block(line, after) =>
      LinePrintable(line);
      WrapPrintable(LineCmd(line), after);
    case Simple(before, args) =>
      WordCount(args);
      WrapPrintable(Exec(Words(args)), before + Redirects(args));
  }

  lemma {:induction false} PipePrintable(t: PipeTree)
    requires PipeOk(t)
    ensures Printable(PipeCmd(t))
    decreases t
  {
    ExecPrintable(t.exec);
    if t.next.Some? {
      PipePrintable(t.next.value);
    }
  }

  lemma {:induction false} LinePrintable(t: LineTree)
    requires LineOk(t)
    ensures Printable(LineCmd(t))
    decreases t
  {
    PipePrintable(t.pipe);
    BacksPrintable(PipeCmd(t.pipe), t.amps);
    if t.next.Some? {
      LinePrintable(t.next.value);
    }
  }

  // ----- The trees of those texts

  function OneRedirect(file: Span, mode: Mode): (r: Redirect) {
    Redirect(if mode == ReadOnly then '<' else '>', file)
  }

  /** The same command with one more redirection at the end. */
  function AddRedirect(t: ExecTree, r: Redirect): (u: ExecTree) {
    match t
    case Block(line, after) => Block(line, after + [r])
    case Simple(before, args) =>
      if args == [] then Simple(before + [r], [])
      else
        var n := |args| - 1;
        Simple(before, args[..n] + [Arg(args[n].word, args[n].redirs + [r])])
  }

  function BareArgs(argv: seq<Span>): (args: seq<Arg>) {
    seq(|argv|, i requires 0 <= i < |argv| => Arg(argv[i], []))
  }

  function ExecFor(c: Cmd): (t: ExecTree)
    decreases c, if Plain(c) then 0 else if c.Pipe? then 3 else 2
  {
    match c
    case Exec(argv) => Simple([], BareArgs(argv))
    case Redir(d, file, mode, _) => AddRedirect(ExecFor(d), OneRedirect(file, mode))
    case _ => Block(LineFor(c), [])
  }

  function PipeFor(c: Cmd): (t: PipeTree)
    decreases c, if Plain(c) then 4 else if c.Pipe? then 0 else 3
  {
    match c
    case Pipe(l, r) => PipeTree(ExecFor(l), Some(PipeFor(r)))
    case _ => PipeTree(ExecFor(c), None)
  }

  /** A line of one pipe. */
  function BackFor(c: Cmd): (t: LineTree)
    decreases c, if c.Back? then 0 else 5
  {
    match c
    case Back(d) => var t := BackFor(d); t.(amps := t.amps + 1)
    case _ => LineTree(PipeFor(c), 0, None)
  }

  function LineFor(c: Cmd): (t: LineTree)
    decreases c, if Plain(c) then 6 else if c.Pipe? then 2 else 1
  {
    match c
    case Exec(_) => BackFor(c)
    case Redir(_, _, _, _) => BackFor(c)
    case Pipe(_, _) => LineTree(PipeFor(c), 0, None)
    case List(l, r) => BackFor(l).(next := Some(LineFor(r)))
    case Back(_) => BackFor(c)
  }

  /** Tree t is in the grammar, is written ts and stands for c. */
  ghost predicate ExecIs(t: ExecTree, ts: seq<Token>, c: Cmd) {
    ExecOk(t) && ExecTokens(t) == ts && ExecCmd(t) == c
  }

  ghost predicate PipeIs(t: PipeTree, ts: seq<Token>, c: Cmd) {
    PipeOk(t) && PipeTokens(t) == ts && PipeCmd(t) == c
  }

  ghost predicate LineIs(t: LineTree, ts: seq<Token>, c: Cmd) {
    LineOk(t) && LineTokens(t) == ts && LineCmd(t) == c
  }

  lemma {:induction false} BareIs(argv: seq<Span>)
    ensures var args := BareArgs(argv);
      && ArgsOk(args) && |args| == |argv| && Words(args) == argv && Redirects(args) == []
      && ArgTokens(args) == seq(|argv|, i requires 0 <= i < |argv| => Word(argv[i]))
  {
    if argv != [] {
      BareIs(argv[1..]);
      var args := BareArgs(argv);
      assert args[1..] == BareArgs(argv[1..]);
      assert argv == [argv[0]] + argv[1..];
    }
  }

  lemma {:induction false} LastArg(args: seq<Arg>, r: Redirect)
    requires args != []
    ensures var n := |args| - 1;
      var more := args[..n] + [Arg(args[n].word, args[n].redirs + [r])];
      && Words(more) == Words(args) && Redirects(more) == Redirects(args) + [r]
      && ArgTokens(more) == ArgTokens(args) + [Sym(r.op), Word(r.file)]
  {
    hide RedirTokens;
    var n := |args| - 1;
    var more := args[..n] + [Arg(args[n].word, args[n].redirs + [r])];
    if n == 0 {
      RedirTokensJoin(args[0].redirs, [r]);
      OneRedirTokens(r);
      assert args[1..] == [] && more[1..] == [];
    } else {
      LastArg(args[1..], r);
      assert more[1..] == args[1..][..n - 1] + [Arg(args[1..][n - 1].word, args[1..][n - 1].redirs + [r])];
    }
  }

  lemma WrapMore(c: Cmd, rs: seq<Redirect>, r: Redirect)
    ensures Wrap(c, rs + [r]) == RedirCmd(Wrap(c, rs), r)
  {
    assert (rs + [r])[..|rs|] == rs;
  }

  /** One more redirection in the tree is one more in the tokens and around the command. */
  lemma AddIs(t: ExecTree, r: Redirect)
    requires ExecOk(t) && IsRedirectOp(r.op)
    ensures ExecIs(AddRedirect(t, r), ExecTokens(t) + [Sym(r.op), Word(r.file)], RedirCmd(ExecCmd(t), r))
  {
    hide Wrap, RedirCmd, RedirTokens, ArgTokens, Words, Redirects;
    OneRedirTokens(r);
    match t
    case Block(line, after) =>
      WrapMore(LineCmd(line), after, r);
      RedirTokensJoin(after, [r]);
    case Simple(before, args) =>
      if args == [] {
        NoArgs();
        WrapMore(Exec([]), before, r);
        RedirTokensJoin(before, [r]);
        assert before + [r] + [] == before + [r] && before + [] == before;
      } else {
        AddToWords(before, args, r);
      }
  }

  lemma AddToWords(before: seq<Redirect>, args: seq<Arg>, r: Redirect)
    requires ExecOk(Simple(before, args)) && args != [] && IsRedirectOp(r.op)
    ensures var t := Simple(before, args);
      ExecIs(AddRedirect(t, r), ExecTokens(t) + [Sym(r.op), Word(r.file)], RedirCmd(ExecCmd(t), r))
  {
    hide Wrap, RedirCmd, RedirTokens, ArgTokens, Words, Redirects;
    WrapMore(Exec(Words(args)), before + Redirects(args), r);
    LastArg(args, r);
    assert before + (Redirects(args) + [r]) == before + Redirects(args) + [r];
  }

  lemma OneRedirTokens(r: Redirect)
    ensures RedirTokens([r]) == [Sym(r.op), Word(r.file)]
  {
  }

  lemma NoArgs()
    ensures ArgTokens([]) == [] && Words([]) == [] && Redirects([]) == []
  {
  }

  lemma {:induction false} ExecForIs(c: Cmd)
    requires Printable(c)
    ensures ExecIs(ExecFor(c), ExecText(c), c)
    decreases c, if Plain(c) then 0 else if c.Pipe? then 3 else 2
  {
    match c
    case Exec(argv) => BareIs(argv);
    case Redir(d, file, mode, _) =>
      ExecForIs(d);
      AddIs(ExecFor(d), OneRedirect(file, mode));
    case _ => LineForIs(c);
  }

  lemma {:induction false} PipeForIs(c: Cmd)
    requires Printable(c)
    ensures PipeIs(PipeFor(c), PipeText(c), c)
    decreases c, if Plain(c) then 4 else if c.Pipe? then 0 else 3
  {
    match c
    case Pipe(l, r) =>
      ExecForIs(l);
      PipeForIs(r);
    case _ => ExecForIs(c);
  }

  lemma {:induction false} BackForIs(c: Cmd)
    requires Printable(c)
    ensures LineIs(BackFor(c), BackText(c), c) && BackFor(c).next.None?
    decreases c, if c.Back? then 0 else 5
  {
    match c
    case Back(d) =>
      BackForIs(d);
      var t := BackFor(d);
      assert Amps(t.amps + 1) == Amps(t.amps) + [Sym('&')];
    case _ =>
      PipeForIs(c);
      assert PipeText(c) + Amps(0) + [] == PipeText(c);
  }

  /** Every command has a text: the one that LineText writes is in the grammar and stands for
      that command, so the parser gives it back. */
  lemma {:induction false} LineForIs(c: Cmd)
    requires Printable(c)
    ensures LineIs(LineFor(c), LineText(c), c)
    decreases c, if Plain(c) then 6 else if c.Pipe? then 2 else 1
  {
    match c
    case Pipe(_, _) =>
      PipeForIs(c);
      assert PipeText(c) + Amps(0) + [] == PipeText(c);
    case List(l, r) =>
      BackForIs(l);
      LineForIs(r);
    case _ => BackForIs(c);
  }
}
