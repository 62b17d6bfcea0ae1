/** From the characters of a command line to tokens, and from syntax trees to commands. */
module ShellText {

  import opened Optional
  import opened ShellSpec

  const NUL: char := '\0'

  // ----- Tokens of a text

  predicate IsSpace(c: char) {
    c == ' ' || c == '\t' || c == '\r' || c == '\n' || c == '\U{0B}'
  }

  predicate IsSymbol(c: char) {
    c == '<' || c == '|' || c == '>' || c == '&' || c == ';' || c == '(' || c == ')'
  }

  predicate InWord(c: char) { !IsSpace(c) && !IsSymbol(c) }

  /** White space, symbols and the rest, as the shell lists them. */
  lemma CharKinds(c: char)
    ensures IsSpace(c) <==> c in " \t\r\n\U{0B}"
    ensures IsSymbol(c) <==> c in "<|>&;()"
    ensures InWord(c) <==> c !in " \t\r\n\U{0B}" && c !in "<|>&;()"
  {
  }

  function WordEnd(t: string, i: nat): (e: nat)
    requires i <= |t|
    decreases |t| - i
    ensures i <= e <= |t|
  {
    if i < |t| && InWord(t[i]) then WordEnd(t, i + 1) else i
  }

  function Lex(t: string, i: nat): (ts: seq<Token>)
    requires i <= |t|
    decreases |t| - i
  {
    if i == |t| then []
    else if IsSpace(t[i]) then Lex(t, i + 1)
    else if t[i] == '>' && i + 1 < |t| && t[i + 1] == '>' then [Sym('+')] + Lex(t, i + 2)
    else if IsSymbol(t[i]) then [Sym(t[i])] + Lex(t, i + 1)
    else [Word(Span(i, WordEnd(t, i + 1)))] + Lex(t, WordEnd(t, i + 1))
  }

  /** A longest run of word characters. */
  ghost predicate IsWord(t: string, s: Span) {
    && s.q < s.eq <= |t|
    && (forall i | s.q <= i < s.eq :: InWord(t[i]))
    && (s.eq < |t| ==> !InWord(t[s.eq]))
    && (s.q > 0 ==> !InWord(t[s.q - 1]))
  }

  /** No word reaches across i. */
  ghost predicate AtBreak(t: string, i: nat)
    requires i <= |t|
  {
    i == 0 || i == |t| || !InWord(t[i - 1]) || !InWord(t[i])
  }

  lemma {:induction false} WordEndMeans(t: string, i: nat)
    requires i <= |t|
    ensures forall k | i <= k < WordEnd(t, i) :: InWord(t[k])
    ensures WordEnd(t, i) < |t| ==> !InWord(t[WordEnd(t, i)])
    decreases |t| - i
  {
    if i < |t| && InWord(t[i]) {
      WordEndMeans(t, i + 1);
    }
  }

  lemma NoWordAt(t: string, i: nat, s: Span)
    requires i < |t| ==> !InWord(t[i])
    ensures IsWord(t, s) && i <= s.q ==> i < s.q && i < |t|
  {
  }

  lemma WordStarts(t: string, w: Span)
    requires w.q < w.eq <= |t| && AtBreak(t, w.q)
    requires (forall i | w.q <= i < w.eq :: InWord(t[i])) && (w.eq < |t| ==> !InWord(t[w.eq]))
    ensures IsWord(t, w)
  {
  }

  /** The words among the tokens are exactly the longest runs of word characters. */
  lemma {:induction false} LexWords(t: string, i: nat, s: Span)
    requires i <= |t| && AtBreak(t, i)
    ensures Word(s) in Lex(t, i) <==> IsWord(t, s) && i <= s.q
    decreases |t| - i
  {
    hide IsWord, WordEnd;
    if i == |t| {
      NoWordAt(t, i, s);
    } else if IsSpace(t[i]) {
      NoWordAt(t, i, s);
      LexWords(t, i + 1, s);
    } else if t[i] == '>' && i + 1 < |t| && t[i + 1] == '>' {
      NoWordAt(t, i, s);
      NoWordAt(t, i + 1, s);
      LexWords(t, i + 2, s);
    } else if IsSymbol(t[i]) {
      NoWordAt(t, i, s);
      LexWords(t, i + 1, s);
    } else {
      WordEndMeans(t, i + 1);
      var w := Span(i, WordEnd(t, i + 1));
      LexWords(t, w.eq, s);
      WordStarts(t, w);
      OneWord(t, w, s);
    }
  }

  /** Two words are the same or do not overlap. */
  lemma OneWord(t: string, a: Span, b: Span)
    ensures IsWord(t, a) && IsWord(t, b) && a.q <= b.q < a.eq ==> a == b
  {
  }

  // ----- Commands

  datatype Mode = ReadOnly | WriteCreate

  datatype Cmd =
    | Exec(argv: seq<Span>)
    | Redir(cmd: Cmd, file: Span, mode: Mode, fd: nat)
    | Pipe(left: Cmd, right: Cmd)
    | List(left: Cmd, right: Cmd)
    | Back(cmd: Cmd)

  function RedirCmd(c: Cmd, r: Redirect): (d: Cmd) {
    if r.op == '<' then Redir(c, r.file, ReadOnly, 0) else Redir(c, r.file, WriteCreate, 1)
  }

  /** The last redirection ends up outermost. */
  function Wrap(c: Cmd, rs: seq<Redirect>): (d: Cmd) {
    if rs == [] then c else RedirCmd(Wrap(c, rs[..|rs| - 1]), rs[|rs| - 1])
  }

  function Words(args: seq<Arg>): (ws: seq<Span>) {
    if args == [] then [] else [args[0].word] + Words(args[1..])
  }

  function Redirects(args: seq<Arg>): (rs: seq<Redirect>) {
    if args == [] then [] else args[0].redirs + Redirects(args[1..])
  }

  function Backs(c: Cmd, n: nat): (d: Cmd) {
    if n == 0 then c else Back(Backs(c, n - 1))
  }

  function LineCmd(t: LineTree): (c: Cmd) {
    var c := Backs(PipeCmd(t.pipe), t.amps);
    if t.next.None? then c else List(c, LineCmd(t.next.value))
  }

  function PipeCmd(t: PipeTree): (c: Cmd) {
    if t.next.None? then ExecCmd(t.exec) else Pipe(ExecCmd(t.exec), PipeCmd(t.next.value))
  }

  function ExecCmd(t: ExecTree): (c: Cmd) {
    match t
    case Block(line, after) => Wrap(LineCmd(line), after)
    case Simple(before, args) => Wrap(Exec(Words(args)), before + Redirects(args))
  }

  // ----- The words of a command

  function Spans(c: Cmd): (ss: set<Span>) {
    match c
    case Exec(argv) => set i | 0 <= i < |argv| :: argv[i]
    case Redir(d, file, _, _) => Spans(d) + {file}
    case Pipe(l, r) => Spans(l) + Spans(r)
    case List(l, r) => Spans(l) + Spans(r)
    case Back(d) => Spans(d)
  }

  lemma {:induction false} WrapSpans(c: Cmd, rs: seq<Redirect>, s: Span)
    ensures s in Spans(Wrap(c, rs)) <==> s in Spans(c) || Word(s) in RedirTokens(rs)
  {
    if rs != [] {
      var n := |rs| - 1;
      WrapSpans(c, rs[..n], s);
      assert rs == rs[..n] + [rs[n]];
      RedirTokensJoin(rs[..n], [rs[n]]);
      assert RedirTokens([rs[n]]) == [Sym(rs[n].op), Word(rs[n].file)];
    }
  }

  lemma {:induction false} RedirTokensJoin(a: seq<Redirect>, b: seq<Redirect>)
    ensures RedirTokens(a + b) == RedirTokens(a) + RedirTokens(b)
  {
    if a == [] {
      assert a + b == b;
    } else {
      RedirTokensJoin(a[1..], b);
      assert (a + b)[1..] == a[1..] + b;
    }
  }

  lemma {:induction false} ArgSpans(args: seq<Arg>, s: Span)
    ensures Word(s) in ArgTokens(args) <==> s in Words(args) || Word(s) in RedirTokens(Redirects(args))
  {
    if args != [] {
      ArgSpans(args[1..], s);
      RedirTokensJoin(args[0].redirs, Redirects(args[1..]));
    }
  }

  lemma {:induction false} BacksSpans(c: Cmd, n: nat)
    ensures Spans(Backs(c, n)) == Spans(c)
  {
    if n > 0 {
      BacksSpans(c, n - 1);
    }
  }

  lemma {:induction false} ExecSpans(t: ExecTree, s: Span)
    ensures s in Spans(ExecCmd(t)) <==> Word(s) in ExecTokens(t)
    decreases t
  {
    match t
    case Block(line, after) =>
      LineSpans(line, s);
      WrapSpans(LineCmd(line), after, s);
    case Simple(before, args) =>
      ArgSpans(args, s);
      RedirTokensJoin(before, Redirects(args));
      WrapSpans(Exec(Words(args)), before + Redirects(args), s);
  }

  lemma {:induction false} PipeSpans(t: PipeTree, s: Span)
    ensures s in Spans(PipeCmd(t)) <==> Word(s) in PipeTokens(t)
    decreases t
  {
    ExecSpans(t.exec, s);
    if t.next.Some? {
      PipeSpans(t.next.value, s);
    }
  }

  /** The words of a command are exactly the words among the tokens it was made from. */
  lemma {:induction false} LineSpans(t: LineTree, s: Span)
    ensures s in Spans(LineCmd(t)) <==> Word(s) in LineTokens(t)
    decreases t
  {
    PipeSpans(t.pipe, s);
    BacksSpans(PipeCmd(t.pipe), t.amps);
    if t.next.Some? {
      LineSpans(t.next.value, s);
    }
  }

  /** The words of the command are exactly the words of the text. */
  lemma CommandWords(text: string, t: LineTree, s: Span)
    requires LineTokens(t) == Lex(text, 0)
    ensures s in Spans(LineCmd(t)) <==> IsWord(text, s)
  {
    LineSpans(t, s);
    LexWords(text, 0, s);
  }

  // ----- Reading words back as C strings

  /** The characters from i up to the first NUL. */
  function CString(buf: string, i: nat): (s: string)
    requires i <= |buf|
    decreases |buf| - i
  {
    if i == |buf| || buf[i] == NUL then [] else [buf[i]] + CString(buf, i + 1)
  }

  lemma {:induction false} CStringIs(buf: string, i: nat, e: nat)
    requires i <= e < |buf| && buf[e] == NUL && forall k | i <= k < e :: buf[k] != NUL
    ensures CString(buf, i) == buf[i..e]
    decreases e - i
  {
    if i < e {
      CStringIs(buf, i + 1, e);
    }
  }

  /** The buffer with a NUL at the end of each word of a command. */
  ghost predicate Terminated(text: string, buf: string, c: Cmd) {
    && |buf| == |text| + 1
    && forall i | 0 <= i < |buf| :: buf[i] == if i == |text| || EndsAt(c, i) then NUL else text[i]
  }

  ghost predicate EndsAt(c: Cmd, i: int) {
    exists s :: s in Spans(c) && s.eq == i
  }

  /** Every word, read as a C string where it starts, is exactly the word in the text: no NUL
      was put inside another word. */
  lemma WordsIntact(text: string, t: LineTree, buf: string, s: Span)
    requires NUL !in text && Terminated(text, buf, LineCmd(t)) && LineTokens(t) == Lex(text, 0)
    requires s in Spans(LineCmd(t))
    ensures s.q < s.eq <= |text| && CString(buf, s.q) == text[s.q..s.eq]
  {
    var c := LineCmd(t);
    CommandWords(text, t, s);
    forall k | s.q <= k < s.eq
      ensures buf[k] == text[k] && buf[k] != NUL
    {
      forall u | u in Spans(c)
        ensures u.eq != k
      {
        CommandWords(text, t, u);
      }
    }
    assert buf[s.eq] == NUL;
    CStringIs(buf, s.q, s.eq);
    assert buf[s.q..s.eq] == text[s.q..s.eq];
  }
}
