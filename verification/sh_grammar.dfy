/** The shell's grammar over tokens (sh.c), the canonical rendering of a command, and that one undoes the other. */
module ShellGrammar {
  import opened ShellTokens

  const MAXARGS := 10
  const O_RDONLY := 0
  const O_WRONLY := 1
  const O_CREATE := 0x200

  /** A parsed command over words, which are strings here and spans of the input buffer in the parser. */
  datatype Cmd<W> =
    | Exec(argv: seq<W>)
    | Redir(cmd: Cmd<W>, redir: Redirection<W>)
    | Pipe(left: Cmd<W>, right: Cmd<W>)
    | List(left: Cmd<W>, right: Cmd<W>)
    | Back(cmd: Cmd<W>)

  datatype Redirection<W> = Redirection(file: W, mode: nat, fd: nat)

  datatype Parse<T> = Parsed(value: T, rest: seq<Token>) | Panic(message: string)

  /** Redirections apply left to right, the last one outermost. */
  function Wrap<W>(c: Cmd<W>, rs: seq<Redirection<W>>): Cmd<W>
    decreases |rs|
  {
    if rs == [] then c else Wrap(Redir(c, rs[0]), rs[1..])
  }

  predicate IsRedirect(t: Token) {
    t == Less || t == Greater || t == Append
  }

  /** Tokens that end a simple command. */
  predicate Stops(t: Token) {
    t == Bar || t == Close || t == Amp || t == Semi
  }

  function RedirectionOf<W>(t: Token, file: W): Redirection<W> {
    if t == Less then Redirection(file, O_RDONLY, 0) else Redirection(file, O_WRONLY + O_CREATE, 1)
  }

  // ---- the grammar -----------------------------------------------------------------------------------------------

  function Redirs(toks: seq<Token>): (p: Parse<seq<Redirection<string>>>)
    ensures p.Parsed? ==> |p.rest| <= |toks|
  {
    if toks == [] || !IsRedirect(toks[0]) then Parsed([], toks)
    else if |toks| < 2 || !toks[1].Word? then Panic("missing file for redirection")
    else
      match Redirs(toks[2..])
      case Parsed(rs, rest) => Parsed([RedirectionOf(toks[0], toks[1].w)] + rs, rest)
      case Panic(m) => Panic(m)
  }

  /** The words and redirections of a simple command, from those seen so far. */
  function Args(ws: seq<string>, rs: seq<Redirection<string>>, toks: seq<Token>): (p: Parse<Cmd<string>>)
    ensures p.Parsed? ==> |p.rest| <= |toks|
    decreases |toks|
  {
    if toks == [] || Stops(toks[0]) then Parsed(Wrap(Exec(ws), rs), toks)
    else if !toks[0].Word? then Panic("syntax")
    else if |ws| + 1 >= MAXARGS then Panic("too many args")
    else
      match Redirs(toks[1..])
      case Parsed(more, rest) => Args(ws + [toks[0].w], rs + more, rest)
      case Panic(m) => Panic(m)
  }

  function Simple(toks: seq<Token>): (p: Parse<Cmd<string>>)
    ensures p.Parsed? ==> |p.rest| <= |toks|
  {
    match Redirs(toks)
    case Parsed(rs, rest) => Args([], rs, rest)
    case Panic(m) => Panic(m)
  }

  function Block(toks: seq<Token>): (p: Parse<Cmd<string>>)
    requires toks != [] && toks[0] == Open
    ensures p.Parsed? ==> |p.rest| < |toks|
    decreases |toks|, 0
  {
    match Line(toks[1..])
    case Panic(m) => Panic(m)
    case Parsed(c, rest) =>
      if rest == [] || rest[0] != Close then Panic("syntax - missing )")
      else
        match Redirs(rest[1..])
        case Panic(m) => Panic(m)
        case Parsed(rs, rest') => Parsed(Wrap(c, rs), rest')
  }

  function Command(toks: seq<Token>): (p: Parse<Cmd<string>>)
    ensures p.Parsed? ==> |p.rest| <= |toks|
    decreases |toks|, 1
  {
    if toks != [] && toks[0] == Open then Block(toks) else Simple(toks)
  }

  function Pipeline(toks: seq<Token>): (p: Parse<Cmd<string>>)
    ensures p.Parsed? ==> |p.rest| <= |toks|
    decreases |toks|, 2
  {
    match Command(toks)
    case Panic(m) => Panic(m)
    case Parsed(c, rest) =>
      if rest == [] || rest[0] != Bar then Parsed(c, rest)
      else
        match Pipeline(rest[1..])
        case Panic(m) => Panic(m)
        case Parsed(right, rest') => Parsed(Pipe(c, right), rest')
  }

  /** Every & puts what came before it into the background. */
  function Amps(c: Cmd<string>, toks: seq<Token>): (p: Parse<Cmd<string>>)
    ensures p.Parsed? && |p.rest| <= |toks|
    decreases |toks|
  {
    if toks == [] || toks[0] != Amp then Parsed(c, toks) else Amps(Back(c), toks[1..])
  }

  function Backgrounds(toks: seq<Token>): (p: Parse<Cmd<string>>)
    ensures p.Parsed? ==> |p.rest| <= |toks|
    decreases |toks|, 3
  {
    match Pipeline(toks)
    case Panic(m) => Panic(m)
    case Parsed(c, rest) => Amps(c, rest)
  }

  function Line(toks: seq<Token>): (p: Parse<Cmd<string>>)
    ensures p.Parsed? ==> |p.rest| <= |toks|
    decreases |toks|, 4
  {
    match Backgrounds(toks)
    case Panic(m) => Panic(m)
    case Parsed(c, rest) =>
      if rest == [] || rest[0] != Semi then Parsed(c, rest)
      else
        match Line(rest[1..])
        case Panic(m) => Panic(m)
        case Parsed(right, rest') => Parsed(List(c, right), rest')
  }

  /** A whole command line. */
  function CommandLine(toks: seq<Token>): Parse<Cmd<string>> {
    match Line(toks)
    case Panic(m) => Panic(m)
    case Parsed(c, rest) => if rest == [] then Parsed(c, []) else Panic("syntax")
  }

  // ---- canonical rendering ---------------------------------------------------------------------------------------

  /** Standard input for reading only, or standard output for writing only, created if missing. */
  predicate GoodRedirection(r: Redirection<string>) {
    GoodWord(r.file) && ((r.fd == 0 && r.mode == 0x000) || (r.fd == 1 && r.mode == 0x201))
  }

  /** The commands a command line can stand for. */
  predicate Good(c: Cmd<string>) {
    match c
    case Exec(ws) => |ws| < MAXARGS && forall k :: 0 <= k < |ws| ==> GoodWord(ws[k])
    case Redir(d, r) => Good(d) && GoodRedirection(r)
    case Pipe(l, r) => Good(l) && Good(r)
    case List(l, r) => Good(l) && Good(r)
    case Back(d) => Good(d)
  }

  function Words(ws: seq<string>): (toks: seq<Token>)
    ensures |toks| == |ws|
  {
    if ws == [] then [] else [Word(ws[0])] + Words(ws[1..])
  }

  function RedirTokens(r: Redirection<string>): seq<Token> {
    [if r.fd == 0 then Less else Greater, Word(r.file)]
  }

  predicate Operator(c: Cmd<string>) {
    c.Pipe? || c.List? || c.Back?
  }

  function Infix(c: Cmd<string>): seq<Token>
    requires Operator(c)
    decreases c, 0
  {
    match c
    case Pipe(l, r) => Atom(l) + [Bar] + PipeTokens(r)
    case List(l, r) => BackTokens(l) + [Semi] + LineTokens(r)
    case Back(d) => BackTokens(d) + [Amp]
  }

  /** As an operand of a pipe: in parentheses unless simple. */
  function Atom(c: Cmd<string>): seq<Token>
    decreases c, 1
  {
    match c
    case Exec(ws) => Words(ws)
    case Redir(d, r) => Atom(d) + RedirTokens(r)
    case _ => [Open] + Infix(c) + [Close]
  }

  function PipeTokens(c: Cmd<string>): seq<Token>
    decreases c, 2
  {
    if c.Pipe? then Infix(c) else Atom(c)
  }

  function BackTokens(c: Cmd<string>): seq<Token>
    decreases c, 3
  {
    if c.Back? then Infix(c) else PipeTokens(c)
  }

  function LineTokens(c: Cmd<string>): seq<Token>
    decreases c, 4
  {
    if c.List? then Infix(c) else BackTokens(c)
  }

  /** The canonical rendering of a command as input text. */
  function Render(c: Cmd<string>): string {
    Spaced(LineTokens(c))
  }

  // ---- parsing a rendering gives the command back ------------------------------------------------------------------

  predicate AtStop(toks: seq<Token>) {
    toks == [] || Stops(toks[0])
  }

  lemma ArgsStep(ws: seq<string>, rs: seq<Redirection<string>>, w: string, toks: seq<Token>)
    requires |ws| + 1 < MAXARGS && Redirs(toks).Parsed?
    ensures Args(ws, rs, [Word(w)] + toks) == Args(ws + [w], rs + Redirs(toks).value, Redirs(toks).rest)
  {
    assert ([Word(w)] + toks)[1..] == toks;
  }

  lemma ArgsDone(ws: seq<string>, rs: seq<Redirection<string>>, toks: seq<Token>)
    requires AtStop(toks)
    ensures Args(ws, rs, toks) == Parsed(Wrap(Exec(ws), rs), toks)
  {
  }

  /** Words followed by redirections. */
  lemma {:induction false} ArgsOfWords(done: seq<string>, rs: seq<Redirection<string>>, ws: seq<string>,
                                       tail: seq<Token>,
                                       more: seq<Redirection<string>>, rest: seq<Token>)
    requires |done| + |ws| < MAXARGS && ws != [] && Redirs(tail) == Parsed(more, rest) && AtStop(rest)
    ensures Args(done, rs, Words(ws) + tail) == Parsed(Wrap(Exec(done + ws), rs + more), rest)
    decreases |ws|
  {
    hide Args, Wrap;
    var next := Words(ws[1..]) + tail;
    assert Words(ws) + tail == [Word(ws[0])] + next;
    assert done + ws == (done + [ws[0]]) + ws[1..];
    if |ws| == 1 {
      assert next == tail && done + ws == done + [ws[0]];
      ArgsDone(done + [ws[0]], rs + more, rest);
    } else {
      assert next[0] == Word(ws[1]);
      assert Redirs(next) == Parsed([], next) && rs + [] == rs;
      ArgsOfWords(done + [ws[0]], rs, ws[1..], tail, more, rest);
    }
    ArgsStep(done, rs, ws[0], next);
  }

  lemma RedirsStep(r: Redirection<string>, toks: seq<Token>)
    requires Redirs(toks).Parsed? && GoodRedirection(r)
    ensures Redirs(RedirTokens(r) + toks) == Parsed([r] + Redirs(toks).value, Redirs(toks).rest)
  {
    assert (RedirTokens(r) + toks)[2..] == toks;
  }

  /** A simple command, and one in parentheses. */
  lemma SimpleParses(ws: seq<string>, tail: seq<Token>, rs: seq<Redirection<string>>, rest: seq<Token>)
    requires |ws| < MAXARGS && Redirs(tail) == Parsed(rs, rest) && AtStop(rest)
    ensures Command(Words(ws) + tail) == Parsed(Wrap(Exec(ws), rs), rest)
  {
    hide Args, Wrap, Block;
    var toks := Words(ws) + tail;
    if ws == [] {
      assert toks == tail;
      ArgsDone([], rs, rest);
    } else {
      assert toks[0] == Word(ws[0]);
      ArgsOfWords([], [], ws, tail, rs, rest);
      assert [] + ws == ws && [] + rs == rs;
    }
  }

  lemma BlockParses(c: Cmd<string>, inner: seq<Token>, tail: seq<Token>, rs: seq<Redirection<string>>, rest: seq<Token>)
    requires Line(inner + ([Close] + tail)) == Parsed(c, [Close] + tail) && Redirs(tail) == Parsed(rs, rest)
    ensures Command([Open] + inner + [Close] + tail) == Parsed(Wrap(c, rs), rest)
  {
    hide Line, Redirs, Simple;
    var toks := [Open] + inner + [Close] + tail;
    assert toks[1..] == inner + ([Close] + tail) && ([Close] + tail)[1..] == tail;
    assert toks[0] == Open && ([Close] + tail)[0] == Close;
  }

  /** tail holds the redirections of the command before it and ends where a command may end. */
  lemma {:induction false} AtomParses(c: Cmd<string>, tail: seq<Token>, rs: seq<Redirection<string>>, rest: seq<Token>)
    requires Good(c) && Redirs(tail) == Parsed(rs, rest) && AtStop(rest)
    ensures Command(Atom(c) + tail) == Parsed(Wrap(c, rs), rest)
    decreases c, 2
  {
    hide Command, Redirs, Args;
    if c.Exec? {
      SimpleParses(c.argv, tail, rs, rest);
    } else if c.Redir? {
      RedirsStep(c.redir, tail);
      AtomParses(c.cmd, RedirTokens(c.redir) + tail, [c.redir] + rs, rest);
      assert Atom(c) + tail == Atom(c.cmd) + (RedirTokens(c.redir) + tail);
    } else {
      InfixParses(c, [Close] + tail);
      BlockParses(c, Infix(c), tail, rs, rest);
    }
  }

  /** Where a pipeline or a backgrounded command may end, and where a line may end. */
  predicate PipelineEnds(toks: seq<Token>) {
    toks == [] || toks[0] == Close || toks[0] == Amp || toks[0] == Semi
  }

  predicate LineEnds(toks: seq<Token>) {
    toks == [] || toks[0] == Close
  }

  lemma CommandParses(c: Cmd<string>, rest: seq<Token>)
    requires Good(c) && AtStop(rest)
    ensures Command(Atom(c) + rest) == Parsed(c, rest)
    decreases c, 3
  {
    AtomParses(c, rest, [], rest);
  }

  lemma {:induction false} PipeParses(c: Cmd<string>, rest: seq<Token>)
    requires Good(c) && c.Pipe? && PipelineEnds(rest)
    ensures Pipeline(Infix(c) + rest) == Parsed(c, rest)
    decreases c, 0
  {
    var tail := [Bar] + (PipeTokens(c.right) + rest);
    assert Infix(c) + rest == Atom(c.left) + tail;
    CommandParses(c.left, tail);
    PipelineParses(c.right, rest);
    assert tail[1..] == PipeTokens(c.right) + rest;
  }

  lemma {:induction false} BackParses(c: Cmd<string>, rest: seq<Token>)
    requires Good(c) && c.Back? && PipelineEnds(rest)
    ensures Backgrounds(Infix(c) + rest) == Amps(c, rest)
    decreases c, 0
  {
    var tail := [Amp] + rest;
    assert Infix(c) + rest == BackTokens(c.cmd) + tail;
    BackgroundsParse(c.cmd, tail);
    assert tail[1..] == rest;
  }

  lemma {:induction false} ListParses(c: Cmd<string>, rest: seq<Token>)
    requires Good(c) && c.List? && LineEnds(rest)
    ensures Line(Infix(c) + rest) == Parsed(c, rest)
    decreases c, 0
  {
    var tail := [Semi] + (LineTokens(c.right) + rest);
    assert Infix(c) + rest == BackTokens(c.left) + tail;
    BackgroundsParse(c.left, tail);
    LineParses(c.right, rest);
    assert tail[1..] == LineTokens(c.right) + rest;
  }

  lemma {:induction false} InfixParses(c: Cmd<string>, rest: seq<Token>)
    requires Good(c) && Operator(c) && LineEnds(rest)
    ensures Line(Infix(c) + rest) == Parsed(c, rest)
    decreases c, 1
  {
    match c
    case Pipe(_, _) => PipeParses(c, rest);
    case List(_, _) => ListParses(c, rest);
    case Back(_) => BackParses(c, rest);
  }

  lemma {:induction false} PipelineParses(c: Cmd<string>, rest: seq<Token>)
    requires Good(c) && PipelineEnds(rest)
    ensures Pipeline(PipeTokens(c) + rest) == Parsed(c, rest)
    decreases c, 4
  {
    if c.Pipe? {
      PipeParses(c, rest);
    } else {
      CommandParses(c, rest);
    }
  }

  lemma {:induction false} BackgroundsParse(c: Cmd<string>, rest: seq<Token>)
    requires Good(c) && PipelineEnds(rest)
    ensures Backgrounds(BackTokens(c) + rest) == Amps(c, rest)
    decreases c, 5
  {
    if c.Back? {
      BackParses(c, rest);
    } else {
      PipelineParses(c, rest);
    }
  }

  lemma {:induction false} LineParses(c: Cmd<string>, rest: seq<Token>)
    requires Good(c) && LineEnds(rest)
    ensures Line(LineTokens(c) + rest) == Parsed(c, rest)
    decreases c, 6
  {
    if c.List? {
      ListParses(c, rest);
    } else {
      BackgroundsParse(c, rest);
    }
  }

  // ---- what can be returned ---------------------------------------------------------------------------------------

  predicate GoodTokens(toks: seq<Token>) {
    forall k :: 0 <= k < |toks| ==> GoodToken(toks[k])
  }

  lemma {:induction false} WordsGood(ws: seq<string>)
    requires forall k :: 0 <= k < |ws| ==> GoodWord(ws[k])
    ensures GoodTokens(Words(ws))
  {
    if ws != [] {
      WordsGood(ws[1..]);
    }
  }

  lemma {:induction false} InfixGood(c: Cmd<string>)
    requires Good(c) && Operator(c)
    ensures GoodTokens(Infix(c))
    decreases c, 0
  {
    match c
    case Pipe(l, r) => AtomGood(l); LineTokensGood(r);
    case List(l, r) => LineTokensGood(l); LineTokensGood(r);
    case Back(d) => LineTokensGood(d);
  }

  lemma {:induction false} AtomGood(c: Cmd<string>)
    requires Good(c)
    ensures GoodTokens(Atom(c))
    decreases c, 1
  {
    match c
    case Exec(ws) => WordsGood(ws);
    case Redir(d, _) => AtomGood(d);
    case _ => InfixGood(c);
  }

  lemma {:induction false} LineTokensGood(c: Cmd<string>)
    requires Good(c)
    ensures GoodTokens(PipeTokens(c)) && GoodTokens(BackTokens(c)) && GoodTokens(LineTokens(c))
    decreases c, 2
  {
    if Operator(c) {
      InfixGood(c);
    }
    AtomGood(c);
  }

  /** Every command that a command line can stand for is read back from its rendering. */
  lemma RoundTrip(c: Cmd<string>)
    requires Good(c)
    ensures NUL !in Render(c) && CommandLine(Tokens(Render(c))) == Parsed(c, [])
  {
    LineTokensGood(c);
    LexRoundTrip(LineTokens(c));
    LineParses(c, []);
    assert LineTokens(c) + [] == LineTokens(c);
  }

  ghost predicate GoodParse(p: Parse<Cmd<string>>) {
    p.Parsed? ==> Good(p.value) && GoodTokens(p.rest)
  }

  lemma {:induction false} RedirsGood(toks: seq<Token>)
    requires GoodTokens(toks)
    ensures var p := Redirs(toks);
            p.Parsed? ==> GoodTokens(p.rest) && forall k :: 0 <= k < |p.value| ==> GoodRedirection(p.value[k])
  {
    if |toks| >= 2 && IsRedirect(toks[0]) && toks[1].Word? {
      assert GoodToken(toks[1]);
      RedirsGood(toks[2..]);
    }
  }

  lemma {:induction false} WrapGood(c: Cmd<string>, rs: seq<Redirection<string>>)
    requires Good(c) && forall k :: 0 <= k < |rs| ==> GoodRedirection(rs[k])
    ensures Good(Wrap(c, rs))
    decreases |rs|
  {
    if rs != [] {
      WrapGood(Redir(c, rs[0]), rs[1..]);
    }
  }

  lemma {:induction false} ArgsGood(ws: seq<string>, rs: seq<Redirection<string>>, toks: seq<Token>)
    requires GoodTokens(toks) && Good(Exec(ws)) && forall k :: 0 <= k < |rs| ==> GoodRedirection(rs[k])
    ensures GoodParse(Args(ws, rs, toks))
    decreases |toks|
  {
    WrapGood(Exec(ws), rs);
    if toks != [] && toks[0].Word? && |ws| + 1 < MAXARGS {
      RedirsGood(toks[1..]);
      var p := Redirs(toks[1..]);
      assert GoodToken(toks[0]);
      if p.Parsed? {
        ArgsGood(ws + [toks[0].w], rs + p.value, p.rest);
      }
    }
  }

  lemma {:induction false} CommandGood(toks: seq<Token>)
    requires GoodTokens(toks)
    ensures GoodParse(Command(toks))
    decreases |toks|, 1
  {
    if toks != [] && toks[0] == Open {
      LineGood(toks[1..]);
      var p := Line(toks[1..]);
      if p.Parsed? && p.rest != [] {
        RedirsGood(p.rest[1..]);
        var q := Redirs(p.rest[1..]);
        if q.Parsed? {
          WrapGood(p.value, q.value);
        }
      }
    } else {
      RedirsGood(toks);
      var p := Redirs(toks);
      if p.Parsed? {
        ArgsGood([], p.value, p.rest);
      }
    }
  }

  lemma {:induction false} PipelineGood(toks: seq<Token>)
    requires GoodTokens(toks)
    ensures GoodParse(Pipeline(toks))
    decreases |toks|, 2
  {
    CommandGood(toks);
    var p := Command(toks);
    if p.Parsed? && p.rest != [] {
      PipelineGood(p.rest[1..]);
    }
  }

  lemma {:induction false} AmpsGood(c: Cmd<string>, toks: seq<Token>)
    requires GoodTokens(toks) && Good(c)
    ensures GoodParse(Amps(c, toks))
    decreases |toks|
  {
    if toks != [] && toks[0] == Amp {
      AmpsGood(Back(c), toks[1..]);
    }
  }

  lemma {:induction false} LineGood(toks: seq<Token>)
    requires GoodTokens(toks)
    ensures GoodParse(Line(toks))
    decreases |toks|, 3
  {
    PipelineGood(toks);
    var p := Pipeline(toks);
    if p.Parsed? {
      AmpsGood(p.value, p.rest);
      var q := Amps(p.value, p.rest);
      if q.rest != [] {
        LineGood(q.rest[1..]);
      }
    }
  }

  /** Exactly the good commands are what some command line stands for. */
  lemma ReturnedIffGood(c: Cmd<string>)
    ensures Good(c) <==> exists s: string :: NUL !in s && CommandLine(Tokens(s)) == Parsed(c, [])
  {
    if Good(c) {
      RoundTrip(c);
    }
    if s: string :| NUL !in s && CommandLine(Tokens(s)) == Parsed(c, []) {
      TokensGood(s);
      LineGood(Tokens(s));
    }
  }

  // ---- >> is > ---------------------------------------------------------------------------------------------------

  /** The same tokens with every >> replaced by >. */
  function Truncating(toks: seq<Token>): (r: seq<Token>)
    ensures |r| == |toks| && forall i :: 0 <= i < |toks| ==> r[i] == if toks[i] == Append then Greater else toks[i]
  {
    seq(|toks|, i requires 0 <= i < |toks| => if toks[i] == Append then Greater else toks[i])
  }

  function TruncatingRest<T>(p: Parse<T>): Parse<T> {
    if p.Parsed? then Parsed(p.value, Truncating(p.rest)) else p
  }

  lemma TruncatingTail(toks: seq<Token>, k: nat)
    requires k <= |toks|
    ensures Truncating(toks)[k..] == Truncating(toks[k..])
  {
  }

  lemma {:induction false} RedirsTruncating(toks: seq<Token>)
    ensures Redirs(Truncating(toks)) == TruncatingRest(Redirs(toks))
  {
    if |toks| >= 2 {
      TruncatingTail(toks, 2);
      RedirsTruncating(toks[2..]);
    }
  }

  lemma {:induction false} ArgsTruncating(ws: seq<string>, rs: seq<Redirection<string>>, toks: seq<Token>)
    ensures Args(ws, rs, Truncating(toks)) == TruncatingRest(Args(ws, rs, toks))
    decreases |toks|
  {
    if toks != [] && toks[0].Word? {
      TruncatingTail(toks, 1);
      RedirsTruncating(toks[1..]);
      if Redirs(toks[1..]).Parsed? {
        ArgsTruncating(ws + [toks[0].w], rs + Redirs(toks[1..]).value, Redirs(toks[1..]).rest);
      }
    }
  }

  lemma {:induction false} BlockTruncating(toks: seq<Token>)
    requires toks != [] && toks[0] == Open
    ensures Block(Truncating(toks)) == TruncatingRest(Block(toks))
    decreases |toks|, 0
  {
    TruncatingTail(toks, 1);
    LineTruncating(toks[1..]);
    var p := Line(toks[1..]);
    if p.Parsed? && p.rest != [] {
      TruncatingTail(p.rest, 1);
      RedirsTruncating(p.rest[1..]);
    }
  }

  lemma {:induction false} CommandTruncating(toks: seq<Token>)
    ensures Command(Truncating(toks)) == TruncatingRest(Command(toks))
    decreases |toks|, 1
  {
    if toks != [] && toks[0] == Open {
      BlockTruncating(toks);
    } else {
      RedirsTruncating(toks);
      if Redirs(toks).Parsed? {
        ArgsTruncating([], Redirs(toks).value, Redirs(toks).rest);
      }
    }
  }

  lemma {:induction false} PipelineTruncating(toks: seq<Token>)
    ensures Pipeline(Truncating(toks)) == TruncatingRest(Pipeline(toks))
    decreases |toks|, 2
  {
    hide Command;
    CommandTruncating(toks);
    var p := Command(toks);
    if p.Parsed? && p.rest != [] && p.rest[0] == Bar {
      TruncatingTail(p.rest, 1);
      PipelineTruncating(p.rest[1..]);
    }
  }

  lemma {:induction false} AmpsTruncating(c: Cmd<string>, toks: seq<Token>)
    ensures Amps(c, Truncating(toks)) == TruncatingRest(Amps(c, toks))
    decreases |toks|
  {
    if toks != [] && toks[0] == Amp {
      TruncatingTail(toks, 1);
      AmpsTruncating(Back(c), toks[1..]);
    }
  }

  lemma {:induction false} LineTruncating(toks: seq<Token>)
    ensures Line(Truncating(toks)) == TruncatingRest(Line(toks))
    decreases |toks|, 4
  {
    hide Pipeline, Amps;
    PipelineTruncating(toks);
    var p := Pipeline(toks);
    if p.Parsed? {
      AmpsTruncating(p.value, p.rest);
      var q := Amps(p.value, p.rest);
      if q.rest != [] && q.rest[0] == Semi {
        TruncatingTail(q.rest, 1);
        LineTruncating(q.rest[1..]);
      }
    }
  }

  /** A command line with >> is the command with >: nothing is ever opened for appending. */
  lemma AppendsLikeGreater(toks: seq<Token>)
    ensures CommandLine(Truncating(toks)) == CommandLine(toks)
  {
    hide Line;
    LineTruncating(toks);
  }
}
