/** The shell's recursive-descent parser, which moves along the text in place and then
    terminates the words in place. */
module ShellCode {

  import opened Optional
  import opened ShellSpec
  import opened ShellText
  import opened ShellMeaning

  class Parser {
    const buf: array<char>
    const es: nat
    ghost const text: string
    var pos: nat

    /** The buffer still holds the text and the NUL after it, and pos is in it. */
    ghost predicate Valid()
      reads this, buf
    {
      && es == |text| && buf.Length == es + 1 && buf[..] == text + [NUL] && NUL !in text
      && pos <= |text|
    }

    /** The tokens not yet read. */
    ghost function Ahead(): (ts: seq<Token>)
      reads this
      requires pos <= |text|
    {
      Lex(text, pos)
    }

    lemma BufIs(i: nat)
      requires Valid() && i <= |text|
      ensures buf[i] == if i == |text| then NUL else text[i]
      ensures buf[i] == NUL <==> i == |text|
    {
      assert buf[i] == buf[..][i];
    }

    constructor (line: array<char>, ghost text: string)
      requires line.Length == |text| + 1 && line[..] == text + [NUL] && NUL !in text
      ensures Valid() && pos == 0 && buf == line && this.text == text
    {
      buf := line;
      es := line.Length - 1;
      this.text := text;
      pos := 0;
    }

    method SkipSpace()
      requires Valid()
      modifies `pos
      ensures Valid() && Ahead() == old(Ahead()) && pos >= old(pos)
      ensures pos < |text| ==> !IsSpace(text[pos])
      ensures forall i | old(pos) <= i < pos :: IsSpace(text[i])
    {
      BufIs(pos);
      while pos < es && IsSpace(buf[pos])
        invariant Valid() && Ahead() == old(Ahead()) && pos >= old(pos)
        invariant forall i | old(pos) <= i < pos :: IsSpace(text[i])
        decreases |text| - pos
      {
        BufIs(pos);
        pos := pos + 1;
        BufIs(pos);
      }
      BufIs(pos);
    }

    /** Reads one token: its kind, a word being an 'a' and the end a NUL, and where it is. */
    method GetToken() returns (kind: char, span: Span)
      requires Valid()
      modifies `pos
      ensures Valid()
      ensures old(Ahead()) == [] ==> kind == NUL && Ahead() == []
      ensures old(Ahead()) != [] ==>
                && Ahead() == old(Ahead())[1..]
                && match old(Ahead())[0] {
                     case Word(s) => kind == 'a' && span == s
                     case Sym(c) => kind == c && kind != 'a' && kind != NUL
                   }
      ensures TokenAt(text, old(pos), kind, span)
    {
      SkipSpace();
      BufIs(pos);
      var q := pos;
      kind := buf[pos];
      if kind == NUL {
      } else if kind == '>' {
        pos := pos + 1;
        BufIs(pos);
        if buf[pos] == '>' {
          kind := '+';
          pos := pos + 1;
        }
      } else if kind == '|' || kind == '(' || kind == ')' || kind == ';' || kind == '&' || kind == '<' {
        pos := pos + 1;
      } else {
        kind := 'a';
        ScanWord();
      }
      span := Span(q, pos);
      SkipSpace();
    }

    method ScanWord()
      requires Valid() && pos < |text| && InWord(text[pos])
      modifies `pos
      ensures Valid() && pos == WordEnd(text, old(pos) + 1)
      ensures old(pos) < pos && (forall i | old(pos) <= i < pos :: InWord(text[i]))
      ensures pos < |text| ==> !InWord(text[pos])
    {
      BufIs(pos);
      while pos < es && !IsSpace(buf[pos]) && !IsSymbol(buf[pos])
        invariant Valid() && old(pos) <= pos && WordEnd(text, pos) == WordEnd(text, old(pos) + 1)
        invariant (forall i | old(pos) <= i < pos :: InWord(text[i])) && (pos == old(pos) ==> InWord(text[pos]))
        decreases |text| - pos
      {
        BufIs(pos);
        pos := pos + 1;
        BufIs(pos);
      }
      BufIs(pos);
    }

    /** Does the next token start with one of some symbols? */
    method Peek(toks: string) returns (b: bool)
      requires Valid() && forall i | 0 <= i < |toks| :: IsSymbol(toks[i])
      modifies `pos
      ensures Valid() && Ahead() == old(Ahead())
      ensures b <==> Ahead() != [] && Ahead()[0].Sym? && FirstOf(Ahead()[0].c) in toks
      ensures Ahead() == [] <==> pos == |text|
    {
      SkipSpace();
      BufIs(pos);
      b := buf[pos] != NUL && buf[pos] in toks;
    }

    // ----- The grammar

    /** Reads redirections, adding them to those already there. */
    method ReadRedirs(rs: seq<Redirect>) returns (r: Option<seq<Redirect>>)
      requires Valid()
      modifies `pos
      ensures Valid() && Reads(RedirsFrom(rs, old(Ahead())), r, Ahead())
    {
      hide Lex, RedirsFrom;
      var done := rs;
      ghost var goal := RedirsFrom(rs, Ahead());
      var more := Peek("<>");
      while more
        invariant Valid() && (more <==> StartsRedirect(Ahead())) && RedirsFrom(done, Ahead()) == goal
        decreases |Ahead()|
      {
        RedirsStep(done, Ahead());
        var tok, _ := GetToken();
        var kind, span := GetToken();
        if kind != 'a' {
          return None;
        }
        done := done + [Redirect(tok, span)];
        more := Peek("<>");
      }
      RedirsStep(done, Ahead());
      return Some(done);
    }

    method ReadExec() returns (r: Option<Cmd>)
      requires Valid()
      modifies `pos
      ensures Valid() && Reads(ExecFrom(old(Ahead())), r, Ahead())
      decreases |Ahead()|, 1
    {
      hide Lex, RedirsFrom, ExecFrom, ArgsFrom;
      var block := Peek("(");
      ExecStep(Ahead());
      if block {
        r := ReadBlock();
        return;
      }
      var before := ReadRedirs([]);
      if before.None? {
        return None;
      }
      r := ReadArgs(before.value);
    }

    /** Reads the words of a command and the redirections between them. */
    method ReadArgs(before: seq<Redirect>) returns (r: Option<Cmd>)
      requires Valid()
      modifies `pos
      ensures Valid() && Reads(ArgsFrom([], before, old(Ahead())), r, Ahead())
    {
      hide Lex, RedirsFrom, ArgsFrom;
      var argv, redirs := [], before;
      ghost var goal := ArgsFrom(argv, redirs, Ahead());
      var stop := Peek("|)&;");
      while !stop
        invariant Valid() && (stop ==> Stops(Ahead())) && (Stops(Ahead()) && !stop ==> Ahead() == [])
        invariant |argv| < MAXARGS && ArgsFrom(argv, redirs, Ahead()) == goal
        decreases |Ahead()|
      {
        ArgsStep(argv, redirs, Ahead());
        var kind, span := GetToken();
        if kind == NUL {
          break;
        }
        if kind != 'a' {
          return None;
        }
        argv := argv + [span];
        if |argv| >= MAXARGS {
          return None;
        }
        var more := ReadRedirs(redirs);
        if more.None? {
          return None;
        }
        redirs := more.value;
        stop := Peek("|)&;");
      }
      ArgsStep(argv, redirs, Ahead());
      return Some(Wrap(Exec(argv), redirs));
    }

    method ReadBlock() returns (r: Option<Cmd>)
      requires Valid() && Starts(Ahead(), '(')
      modifies `pos
      ensures Valid() && Reads(ExecFrom(old(Ahead())), r, Ahead())
      decreases |Ahead()|, 0
    {
      hide Lex, RedirsFrom, ExecFrom, LineFrom, ArgsFrom;
      ExecStep(Ahead());
      var _, _ := GetToken();
      var line := ReadLine();
      if line.None? {
        return None;
      }
      var close := Peek(")");
      if !close {
        return None;
      }
      var _, _ := GetToken();
      var after := ReadRedirs([]);
      if after.None? {
        return None;
      }
      return Some(Wrap(line.value, after.value));
    }

    method ReadPipe() returns (r: Option<Cmd>)
      requires Valid()
      modifies `pos
      ensures Valid() && Reads(PipeFrom(old(Ahead())), r, Ahead())
      decreases |Ahead()|, 2
    {
      hide Lex, ExecFrom, PipeFrom;
      PipeStep(Ahead());
      r := ReadExec();
      if r.None? {
        return;
      }
      var bar := Peek("|");
      if bar {
        var _, _ := GetToken();
        var next := ReadPipe();
        if next.None? {
          return None;
        }
        r := Some(Pipe(r.value, next.value));
      }
    }

    method ReadLine() returns (r: Option<Cmd>)
      requires Valid()
      modifies `pos
      ensures Valid() && Reads(LineFrom(old(Ahead())), r, Ahead())
      decreases |Ahead()|, 3
    {
      hide Lex, PipeFrom, LineFrom, AfterPipe;
      LineStep(Ahead());
      r := ReadPipe();
      if r.None? {
        return;
      }
      var cmd := r.value;
      ghost var goal := AfterPipe(cmd, Ahead());
      var amp := Peek("&");
      while amp
        invariant Valid() && (amp <==> Starts(Ahead(), '&')) && AfterPipe(cmd, Ahead()) == goal
        invariant |Ahead()| <= |old(Ahead())|
        decreases |Ahead()|
      {
        AfterPipeStep(cmd, Ahead());
        var _, _ := GetToken();
        cmd := Back(cmd);
        amp := Peek("&");
      }
      AfterPipeStep(cmd, Ahead());
      var semi := Peek(";");
      if semi {
        var _, _ := GetToken();
        var next := ReadLine();
        if next.None? {
          return None;
        }
        cmd := List(cmd, next.value);
      }
      return Some(cmd);
    }

    // ----- Terminating the words

    /** Puts a NUL after each word of a command. */
    method NulTerminate(c: Cmd)
      requires forall s | s in Spans(c) :: s.eq < buf.Length
      modifies buf
      ensures forall i | 0 <= i < buf.Length :: buf[i] == if EndsAt(c, i) then NUL else old(buf[i])
      decreases c
    {
      match c
      case Exec(argv) =>
        for k := 0 to |argv|
          invariant forall i | 0 <= i < buf.Length ::
            buf[i] == if exists j :: 0 <= j < k && argv[j].eq == i then NUL else old(buf[i])
        {
          assert argv[k] in Spans(c);
          buf[argv[k].eq] := NUL;
        }
        ExecEnds(argv);
      case Redir(d, file, _, _) =>
        assert file in Spans(c);
        NulTerminate(d);
        buf[file.eq] := NUL;
        RedirEnds(c);
      case Pipe(l, r) =>
        NulTerminate(l);
        NulTerminate(r);
        BothEnds(c);
      case List(l, r) =>
        NulTerminate(l);
        NulTerminate(r);
        BothEnds(c);
      case Back(d) =>
        NulTerminate(d);
        BackEnds(c);
    }

    /** Parses the whole text: the result is its one command, if it has one, and then each word
        of the text can be read as a C string at its place in the buffer. */
    method ParseCmd() returns (r: Option<Cmd>)
      requires Valid() && pos == 0
      modifies this, buf
      ensures forall c :: IsCommand(text, c) <==> r == Some(c)
      ensures r.Some? ==> Opens(r.value) == OpensIn(Lex(text, 0)) && Skeleton(r.value) == Others(Lex(text, 0))
      ensures r.Some? ==> Printable(r.value)
      ensures forall c | Printable(c) && Lex(text, 0) == LineText(c) :: r == Some(c)
      ensures r.None? ==> buf[..] == old(buf[..])
      ensures r.Some? ==> forall s :: s in Spans(r.value) <==> IsWord(text, s)
      ensures r.Some? ==>
        forall s | s in Spans(r.value) ::
          s.q < s.eq <= |text| < buf.Length && CString(buf[..], s.q) == text[s.q..s.eq]
    {
      hide Lex, LineFrom, CString, IsWord, Opens, OpensIn, Skeleton, Others, LineText, Printable, IsCommand;
      CommandIsParse(text);
      TextHasCommand(text);
      r := ReadLine();
      if r.None? {
        return;
      }
      var _ := Peek("");
      if pos != es {
        return None;
      }
      ghost var t := TreeOf(text, r.value);
      CommandSays(text, r.value);
      assert forall s | s in Spans(r.value) :: IsWord(text, s) && s.eq < buf.Length by {
        forall s | s in Spans(r.value)
          ensures IsWord(text, s) && s.eq < buf.Length
        {
          CommandWords(text, t, s);
          WordEnds(text, s);
        }
      }
      NulTerminate(r.value);
      assert Terminated(text, buf[..], r.value);
      forall s
        ensures s in Spans(r.value) <==> IsWord(text, s)
      {
        CommandWords(text, t, s);
      }
      forall s | s in Spans(r.value)
        ensures s.q < s.eq <= |text| < buf.Length && CString(buf[..], s.q) == text[s.q..s.eq]
      {
        WordsIntact(text, t, buf[..], s);
      }
    }
  }

  /** The next token of the text from `from` on, told from the characters: white space, then
      nothing, a symbol of one character, >> for +, or a longest run of other characters. */
  ghost predicate TokenAt(text: string, from: nat, kind: char, span: Span) {
    && from <= span.q <= span.eq <= |text|
    && (forall i | from <= i < span.q :: IsSpace(text[i]))
    && (span.q < |text| ==> !IsSpace(text[span.q]))
    && if span.q == |text| then kind == NUL && span.eq == span.q
       else if InWord(text[span.q]) then
         && kind == 'a' && span.q < span.eq && (forall i | span.q <= i < span.eq :: InWord(text[i]))
         && (span.eq < |text| ==> !InWord(text[span.eq]))
       else if text[span.q] == '>' && span.q + 1 < |text| && text[span.q + 1] == '>' then
         kind == '+' && span.eq == span.q + 2
       else kind == text[span.q] && span.eq == span.q + 1
  }

  /** The character a symbol is written with: the symbol + stands for two of them. */
  function FirstOf(c: char): (d: char) {
    if c == '+' then '>' else c
  }

  /** What a method read agrees with what the parser on tokens found. */
  ghost predicate Reads<T(!new)>(p: Result<T>, r: Option<T>, ahead: seq<Token>) {
    if p.Error? then r.None? else r == Some(p.value) && ahead == p.rest
  }

  // ----- The parser on tokens, in the steps the methods take

  ghost function RedirsFrom(done: seq<Redirect>, ts: seq<Token>): (r: Result<seq<Redirect>>)
    ensures r.Ok? ==> |r.rest| <= |ts|
  {
    match ParseRedirs(ts)
    case Error => Error
    case Ok(rs, rest) => Ok(done + rs, rest)
  }

  ghost function ArgsFrom(argv: seq<Span>, redirs: seq<Redirect>, ts: seq<Token>): (r: Result<Cmd>)
    ensures r.Ok? ==> |r.rest| <= |ts|
  {
    match ParseArgs(ts, |argv|)
    case Error => Error
    case Ok(args, rest) => Ok(Wrap(Exec(argv + Words(args)), redirs + Redirects(args)), rest)
  }

  ghost function ExecFrom(ts: seq<Token>): (r: Result<Cmd>)
    ensures r.Ok? ==> |r.rest| <= |ts|
  {
    match ParseExec(ts)
    case Error => Error
    case Ok(t, rest) => Ok(ExecCmd(t), rest)
  }

  ghost function PipeFrom(ts: seq<Token>): (r: Result<Cmd>)
    ensures r.Ok? ==> |r.rest| <= |ts|
  {
    match ParsePipe(ts)
    case Error => Error
    case Ok(t, rest) => Ok(PipeCmd(t), rest)
  }

  ghost function LineFrom(ts: seq<Token>): (r: Result<Cmd>)
    ensures r.Ok? ==> |r.rest| <= |ts|
  {
    match ParseLine(ts)
    case Error => Error
    case Ok(t, rest) => Ok(LineCmd(t), rest)
  }

  /** What is left to do once a pipe has been read as the command cmd. */
  ghost function AfterPipe(cmd: Cmd, ts: seq<Token>): (r: Result<Cmd>) {
    var n := CountAmps(ts);
    var rest := ts[n..];
    if !Starts(rest, ';') then Ok(Backs(cmd, n), rest)
    else
      match LineFrom(rest[1..])
      case Error => Error
      case Ok(c, rest') => Ok(List(Backs(cmd, n), c), rest')
  }

  lemma RedirsStep(done: seq<Redirect>, ts: seq<Token>)
    ensures !StartsRedirect(ts) ==> RedirsFrom(done, ts) == Ok(done, ts)
    ensures StartsRedirect(ts) && (|ts[1..]| < 1 || !ts[1..][0].Word?) ==> RedirsFrom(done, ts) == Error
    ensures StartsRedirect(ts) && |ts[1..]| >= 1 && ts[1..][0].Word? ==>
              RedirsFrom(done, ts) == RedirsFrom(done + [Redirect(ts[0].c, ts[1..][0].span)], ts[1..][1..])
  {
    if !StartsRedirect(ts) {
      assert done + [] == done;
    } else if |ts[1..]| >= 1 && ts[1..][0].Word? {
      assert ts[1..][1..] == ts[2..];
      var r := ParseRedirs(ts[2..]);
      if r.Ok? {
        assert done + ([Redirect(ts[0].c, ts[1].span)] + r.value) == done + [Redirect(ts[0].c, ts[1].span)] + r.value;
      }
    }
  }

  lemma ArgsStep(argv: seq<Span>, redirs: seq<Redirect>, ts: seq<Token>)
    requires |argv| < MAXARGS
    ensures Stops(ts) ==> ArgsFrom(argv, redirs, ts) == Ok(Wrap(Exec(argv), redirs), ts)
    ensures !Stops(ts) && (!ts[0].Word? || |argv| + 1 >= MAXARGS) ==> ArgsFrom(argv, redirs, ts) == Error
    ensures !Stops(ts) && ts[0].Word? && |argv| + 1 < MAXARGS ==>
              var r := RedirsFrom(redirs, ts[1..]);
              ArgsFrom(argv, redirs, ts) == if r.Error? then Error else ArgsFrom(argv + [ts[0].span], r.value, r.rest)
  {
    if Stops(ts) {
      assert argv + [] == argv && redirs + [] == redirs;
    } else if ts[0].Word? && |argv| + 1 < MAXARGS {
      var p := ParseRedirs(ts[1..]);
      if p.Ok? {
        var r := ParseArgs(p.rest, |argv| + 1);
        if r.Ok? {
          var args := [Arg(ts[0].span, p.value)] + r.value;
          assert args[1..] == r.value;
          assert argv + ([ts[0].span] + Words(r.value)) == argv + [ts[0].span] + Words(r.value);
          assert redirs + (p.value + Redirects(r.value)) == redirs + p.value + Redirects(r.value);
        }
      }
    }
  }

  lemma ExecStep(ts: seq<Token>)
    ensures !Starts(ts, '(') ==>
              var r := RedirsFrom([], ts);
              ExecFrom(ts) == if r.Error? then Error else ArgsFrom([], r.value, r.rest)
    ensures Starts(ts, '(') ==>
              var l := LineFrom(ts[1..]);
              if l.Error? || !Starts(l.rest, ')') then ExecFrom(ts) == Error
              else var r := RedirsFrom([], l.rest[1..]);
                ExecFrom(ts) == if r.Error? then Error else Ok(Wrap(l.value, r.value), r.rest)
  {
    hide RedirTokens;
    if Starts(ts, '(') {
      var l := ParseLine(ts[1..]);
      if l.Ok? && Starts(l.rest, ')') {
        var r := ParseRedirs(l.rest[1..]);
        if r.Ok? {
          assert [] + r.value == r.value;
        }
      }
    } else {
      var r := ParseRedirs(ts);
      if r.Ok? {
        assert [] + r.value == r.value;
        var a := ParseArgs(r.rest, 0);
        if a.Ok? {
          assert [] + Words(a.value) == Words(a.value);
        }
      }
    }
  }

  lemma PipeStep(ts: seq<Token>)
    ensures var e := ExecFrom(ts);
            if e.Error? then PipeFrom(ts) == Error
            else if !Starts(e.rest, '|') then PipeFrom(ts) == e
            else var p := PipeFrom(e.rest[1..]);
              PipeFrom(ts) == if p.Error? then Error else Ok(Pipe(e.value, p.value), p.rest)
  {
  }

  lemma LineStep(ts: seq<Token>)
    ensures var p := PipeFrom(ts);
            LineFrom(ts) == if p.Error? then Error else AfterPipe(p.value, p.rest)
  {
  }

  lemma AfterPipeStep(cmd: Cmd, ts: seq<Token>)
    ensures Starts(ts, '&') ==> AfterPipe(cmd, ts) == AfterPipe(Back(cmd), ts[1..])
    ensures !Starts(ts, '&') && !Starts(ts, ';') ==> AfterPipe(cmd, ts) == Ok(cmd, ts)
    ensures !Starts(ts, '&') && Starts(ts, ';') ==>
              var l := LineFrom(ts[1..]);
              AfterPipe(cmd, ts) == if l.Error? then Error else Ok(List(cmd, l.value), l.rest)
  {
    if Starts(ts, '&') {
      var n := CountAmps(ts[1..]);
      BacksOut(cmd, n);
      assert ts[CountAmps(ts)..] == ts[1..][n..];
    }
  }

  lemma {:induction false} BacksOut(c: Cmd, n: nat)
    ensures Backs(Back(c), n) == Backs(c, n + 1)
  {
    if n > 0 {
      BacksOut(c, n - 1);
    }
  }

  // ----- Where words end

  lemma ExecEnds(argv: seq<Span>)
    ensures forall i :: EndsAt(Exec(argv), i) <==> exists j :: 0 <= j < |argv| && argv[j].eq == i
  {
    forall i
      ensures EndsAt(Exec(argv), i) <==> exists j :: 0 <= j < |argv| && argv[j].eq == i
    {
      if j :| 0 <= j < |argv| && argv[j].eq == i {
        assert argv[j] in Spans(Exec(argv));
      }
    }
  }

  lemma RedirEnds(c: Cmd)
    requires c.Redir?
    ensures forall i :: EndsAt(c, i) <==> EndsAt(c.cmd, i) || i == c.file.eq
  {
    forall i
      ensures EndsAt(c, i) <==> EndsAt(c.cmd, i) || i == c.file.eq
    {
      assert c.file in Spans(c);
      if s :| s in Spans(c.cmd) && s.eq == i {
        assert s in Spans(c);
      }
    }
  }

  lemma BothEnds(c: Cmd)
    requires c.Pipe? || c.List?
    ensures forall i :: EndsAt(c, i) <==> EndsAt(c.left, i) || EndsAt(c.right, i)
  {
    forall i
      ensures EndsAt(c, i) <==> EndsAt(c.left, i) || EndsAt(c.right, i)
    {
      if s :| s in Spans(c.left) && s.eq == i {
        assert s in Spans(c);
      }
      if s :| s in Spans(c.right) && s.eq == i {
        assert s in Spans(c);
      }
    }
  }

  lemma BackEnds(c: Cmd)
    requires c.Back?
    ensures forall i :: EndsAt(c, i) <==> EndsAt(c.cmd, i)
  {
    assert Spans(c) == Spans(c.cmd);
  }

  lemma WordEnds(text: string, s: Span)
    requires IsWord(text, s)
    ensures s.q < s.eq <= |text|
  {
  }

  // ----- The commands of the grammar

  /** The text is a sentence of the grammar, with c as its command. */
  ghost predicate IsCommand(text: string, c: Cmd) {
    exists t :: LineOk(t) && LineTokens(t) == Lex(text, 0) && LineCmd(t) == c
  }

  ghost function TreeOf(text: string, c: Cmd): (t: LineTree)
    requires IsCommand(text, c)
    ensures LineOk(t) && LineTokens(t) == Lex(text, 0) && LineCmd(t) == c
  {
    var t :| LineOk(t) && LineTokens(t) == Lex(text, 0) && LineCmd(t) == c;
    t
  }

  /** A text that writes out a command is a sentence of the grammar, with that command. */
  lemma TextHasCommand(text: string)
    ensures forall c | Printable(c) && Lex(text, 0) == LineText(c) :: IsCommand(text, c)
  {
    hide Lex, LineText, Printable;
    forall c | Printable(c) && Lex(text, 0) == LineText(c)
      ensures IsCommand(text, c)
    {
      LineForIs(c);
    }
  }

  /** The command opens what the text says it opens, and for the rest has its words and symbols. */
  lemma CommandSays(text: string, c: Cmd)
    requires IsCommand(text, c)
    ensures Opens(c) == OpensIn(Lex(text, 0)) && Skeleton(c) == Others(Lex(text, 0)) && Printable(c)
  {
    hide Lex, Opens, OpensIn, Skeleton, Others, Printable;
    var t := TreeOf(text, c);
    LineSays(t);
    LinePrintable(t);
  }

  lemma CommandIsParse(text: string)
    ensures forall c :: IsCommand(text, c) <==> LineFrom(Lex(text, 0)) == Ok(c, [])
  {
    var ts := Lex(text, 0);
    forall c
      ensures IsCommand(text, c) <==> LineFrom(ts) == Ok(c, [])
    {
      if IsCommand(text, c) {
        var t := TreeOf(text, c);
        ParseIsGrammar(ts, t);
      }
      if LineFrom(ts) == Ok(c, []) {
        ParseIsGrammar(ts, ParseLine(ts).value);
      }
    }
  }
}
