/** What whole command lines mean, read off their characters: simple commands with their words and redirections in any
    order, and how commands in parentheses combine. */
module ShellLines {
  import opened ShellTokens
  import opened ShellGrammar

  // ---- simple commands -------------------------------------------------------------------------------------------

  /** One item of a simple command: a word, < f, > f or >> f. */
  datatype Item = Arg(w: string) | In(f: string) | Out(f: string) | Add(f: string)

  predicate GoodItem(i: Item) {
    match i
    case Arg(w) => GoodWord(w)
    case In(f) => GoodWord(f)
    case Out(f) => GoodWord(f)
    case Add(f) => GoodWord(f)
  }

  function ItemTokens(i: Item): seq<Token> {
    match i
    case Arg(w) => [Word(w)]
    case In(f) => [Less, Word(f)]
    case Out(f) => [Greater, Word(f)]
    case Add(f) => [Append, Word(f)]
  }

  function AllTokens(items: seq<Item>): seq<Token> {
    if items == [] then [] else ItemTokens(items[0]) + AllTokens(items[1..])
  }

  /** The words among the items, the last item last. */
  function WordsOf(items: seq<Item>): (ws: seq<string>)
    ensures |ws| <= |items|
  {
    if items == [] then []
    else
      var n := |items| - 1;
      WordsOf(items[..n]) + if items[n].Arg? then [items[n].w] else []
  }

  /** One more word for the program that is run. */
  function WithWord(c: Cmd<string>, w: string): Cmd<string> {
    match c
    case Exec(ws) => Exec(ws + [w])
    case Redir(d, r) => Redir(WithWord(d, w), r)
    case _ => c
  }

  /** What the items mean: each redirection is put around what the items before it mean, each word goes to the
      program.  < opens standard input for reading, > and >> open standard output for writing and create the file. */
  function Meaning(items: seq<Item>): Cmd<string> {
    if items == [] then Exec([])
    else
      var n := |items| - 1;
      var c := Meaning(items[..n]);
      match items[n]
      case Arg(w) => WithWord(c, w)
      case In(f) => Redir(c, Redirection(f, 0x000, 0))
      case Out(f) => Redir(c, Redirection(f, 0x201, 1))
      case Add(f) => Redir(c, Redirection(f, 0x201, 1))
  }

  function RedirsOf(items: seq<Item>): seq<Redirection<string>> {
    if items == [] then []
    else
      var n := |items| - 1;
      RedirsOf(items[..n])
      + match items[n]
        case Arg(_) => []
        case In(f) => [RedirectionOf(Less, f)]
        case Out(f) => [RedirectionOf(Greater, f)]
        case Add(f) => [RedirectionOf(Append, f)]
  }

  lemma {:induction false} WrapMore(c: Cmd<string>, rs: seq<Redirection<string>>, r: Redirection<string>)
    ensures Wrap(c, rs + [r]) == Redir(Wrap(c, rs), r)
    decreases |rs|
  {
    if rs == [] {
      assert Wrap(Redir(c, r), []) == Redir(c, r);
    } else {
      assert (rs + [r])[1..] == rs[1..] + [r];
      WrapMore(Redir(c, rs[0]), rs[1..], r);
    }
  }

  lemma {:induction false} WrapWord(c: Cmd<string>, rs: seq<Redirection<string>>, w: string)
    ensures WithWord(Wrap(c, rs), w) == Wrap(WithWord(c, w), rs)
    decreases |rs|
  {
    if rs != [] {
      WrapWord(Redir(c, rs[0]), rs[1..], w);
    }
  }

  lemma {:induction false} MeaningWraps(items: seq<Item>)
    ensures Meaning(items) == Wrap(Exec(WordsOf(items)), RedirsOf(items))
  {
    if items != [] {
      var n := |items| - 1;
      var front, rs := items[..n], RedirsOf(items[..n]);
      MeaningWraps(front);
      if items[n].Arg? {
        WrapWord(Exec(WordsOf(front)), rs, items[n].w);
        assert RedirsOf(items) == rs;
      } else {
        assert WordsOf(items) == WordsOf(front);
        WrapMore(Exec(WordsOf(front)), rs, RedirsOf(items)[|rs|]);
      }
    }
  }

  lemma {:induction false} WordsGrow(done: seq<Item>, items: seq<Item>)
    ensures |WordsOf(done)| <= |WordsOf(done + items)|
    decreases |items|
  {
    var n := |items| - 1;
    if n < 0 {
      assert done + items == done;
    } else {
      WordsGrow(done, items[..n]);
      assert (done + items)[..|done| + n] == done + items[..n];
    }
  }

  /** What the parser makes of the tokens of a simple command, the items done before them given. */
  function After(done: seq<Item>, toks: seq<Token>): Parse<Cmd<string>> {
    match Redirs(toks)
    case Parsed(rs, rest) => Args(WordsOf(done), RedirsOf(done) + rs, rest)
    case Panic(m) => Panic(m)
  }

  lemma {:induction false} ItemsParse(done: seq<Item>, items: seq<Item>)
    requires |WordsOf(done)| < MAXARGS
    ensures After(done, AllTokens(items)) == if |WordsOf(done + items)| < MAXARGS then Parsed(Meaning(done + items), [])
                                             else Panic("too many args")
    decreases |items|
  {
    if items == [] {
      assert done + items == done && RedirsOf(done) + [] == RedirsOf(done);
      MeaningWraps(done);
    } else {
      var done', more := done + [items[0]], items[1..];
      assert done + items == done' + more;
      assert done'[..|done|] == done;
      OneItem(done, items[0], AllTokens(more));
      if |WordsOf(done')| < MAXARGS {
        ItemsParse(done', more);
      } else {
        WordsGrow(done', more);
      }
    }
  }

  lemma OneItem(done: seq<Item>, i: Item, toks: seq<Token>)
    requires |WordsOf(done)| < MAXARGS
    ensures After(done, ItemTokens(i) + toks)
            == if |WordsOf(done + [i])| < MAXARGS then After(done + [i], toks) else Panic("too many args")
  {
    hide Wrap, RedirectionOf;
    assert (done + [i])[..|done|] == done;
    var all := ItemTokens(i) + toks;
    if i.Arg? {
      assert all[1..] == toks && RedirsOf(done) + [] == RedirsOf(done) == RedirsOf(done + [i]);
    } else {
      assert all[2..] == toks && WordsOf(done + [i]) == WordsOf(done);
      if Redirs(toks).Parsed? {
        var r := RedirectionOf(all[0], all[1].w);
        assert RedirsOf(done) + ([r] + Redirs(toks).value) == RedirsOf(done + [i]) + Redirs(toks).value;
      }
    }
  }

  lemma {:induction false} AllTokensGood(items: seq<Item>)
    requires forall i :: i in items ==> GoodItem(i)
    ensures forall t :: t in AllTokens(items) ==> GoodToken(t)
  {
    if items != [] {
      assert GoodItem(items[0]);
      AllTokensGood(items[1..]);
    }
  }

  /** A command with nothing behind it is the whole line. */
  lemma CommandAlone(toks: seq<Token>)
    ensures Command(toks).Parsed? && Command(toks).rest == [] ==> CommandLine(toks) == Command(toks)
    ensures Command(toks).Panic? ==> CommandLine(toks) == Command(toks)
  {
    hide Command;
    var p := Command(toks);
    if p.Parsed? && p.rest == [] {
      assert Amps(p.value, []) == Parsed(p.value, []);
      assert Pipeline(toks) == p && Backgrounds(toks) == p;
    } else if p.Panic? {
      assert Pipeline(toks) == p && Backgrounds(toks) == p;
    }
  }

  lemma NotGrouped(items: seq<Item>)
    ensures AllTokens(items) == [] || AllTokens(items)[0] != Open
  {
  }

  lemma SimpleTokens(items: seq<Item>)
    ensures CommandLine(AllTokens(items))
            == if |WordsOf(items)| < 10 then Parsed(Meaning(items), []) else Panic("too many args")
  {
    hide CommandLine, Args, Redirs;
    var toks := AllTokens(items);
    assert WordsOf([]) == [] && RedirsOf([]) == [];
    ItemsParse([], items);
    assert [] + items == items;
    NotGrouped(items);
    assert Redirs(toks).Parsed? ==> [] + Redirs(toks).value == Redirs(toks).value;
    CommandAlone(toks);
  }

  /** A simple command, however it is laid out, redirections before, between and behind the words: it means what its
      items mean if it has fewer than ten words, and is refused otherwise. */
  lemma SimpleLine(gaps: seq<string>, items: seq<Item>)
    requires (forall i :: i in items ==> GoodItem(i)) && Apart(gaps, AllTokens(items))
    ensures NUL !in Laid(gaps, AllTokens(items))
    ensures CommandLine(Tokens(Laid(gaps, AllTokens(items))))
            == if |WordsOf(items)| < 10 then Parsed(Meaning(items), []) else Panic("too many args")
  {
    hide CommandLine, Meaning, GoodItem, GoodToken, Touch, Gap;
    AllTokensGood(items);
    LexLaid(gaps, AllTokens(items));
    SimpleTokens(items);
  }

  // ---- commands in parentheses -----------------------------------------------------------------------------------

  predicate Closes(tail: seq<Token>) {
    tail != [] && tail[0] == Close
  }

  /** The same parse, with more tokens behind. */
  function Longer<T>(p: Parse<T>, tail: seq<Token>): Parse<T> {
    if p.Parsed? then Parsed(p.value, p.rest + tail) else p
  }

  lemma {:induction false} RedirsLonger(toks: seq<Token>, tail: seq<Token>)
    requires Redirs(toks).Parsed? && Closes(tail)
    ensures Redirs(toks + tail) == Longer(Redirs(toks), tail)
  {
    if toks != [] && IsRedirect(toks[0]) {
      RedirsLonger(toks[2..], tail);
      assert (toks + tail)[2..] == toks[2..] + tail;
    }
  }

  lemma {:induction false} ArgsLonger(ws: seq<string>, rs: seq<Redirection<string>>, toks: seq<Token>, tail: seq<Token>)
    requires Args(ws, rs, toks).Parsed? && Closes(tail)
    ensures Args(ws, rs, toks + tail) == Longer(Args(ws, rs, toks), tail)
    decreases |toks|
  {
    hide Wrap;
    if toks != [] && !Stops(toks[0]) {
      assert (toks + tail)[1..] == toks[1..] + tail;
      RedirsLonger(toks[1..], tail);
      ArgsLonger(ws + [toks[0].w], rs + Redirs(toks[1..]).value, Redirs(toks[1..]).rest, tail);
    }
  }

  lemma {:induction false} BlockLonger(toks: seq<Token>, tail: seq<Token>)
    requires toks != [] && toks[0] == Open && Block(toks).Parsed? && Closes(tail)
    ensures Block(toks + tail) == Longer(Block(toks), tail)
    decreases |toks|, 0
  {
    hide Wrap;
    assert (toks + tail)[1..] == toks[1..] + tail;
    LineLonger(toks[1..], tail);
    var rest := Line(toks[1..]).rest;
    assert (rest + tail)[1..] == rest[1..] + tail;
    RedirsLonger(rest[1..], tail);
  }

  lemma {:induction false} CommandLonger(toks: seq<Token>, tail: seq<Token>)
    requires Command(toks).Parsed? && Closes(tail)
    ensures Command(toks + tail) == Longer(Command(toks), tail)
    decreases |toks|, 1
  {
    if toks != [] && toks[0] == Open {
      BlockLonger(toks, tail);
    } else {
      RedirsLonger(toks, tail);
      ArgsLonger([], Redirs(toks).value, Redirs(toks).rest, tail);
    }
  }

  lemma {:induction false} PipelineLonger(toks: seq<Token>, tail: seq<Token>)
    requires Pipeline(toks).Parsed? && Closes(tail)
    ensures Pipeline(toks + tail) == Longer(Pipeline(toks), tail)
    decreases |toks|, 2
  {
    hide Command;
    CommandLonger(toks, tail);
    var rest := Command(toks).rest;
    if rest != [] && rest[0] == Bar {
      assert (rest + tail)[1..] == rest[1..] + tail;
      PipelineLonger(rest[1..], tail);
    }
  }

  lemma {:induction false} AmpsLonger(c: Cmd<string>, toks: seq<Token>, tail: seq<Token>)
    requires Closes(tail)
    ensures Amps(c, toks + tail) == Longer(Amps(c, toks), tail)
    decreases |toks|
  {
    if toks == [] {
      assert toks + tail == tail;
    } else if toks[0] == Amp {
      assert (toks + tail)[1..] == toks[1..] + tail;
      AmpsLonger(Back(c), toks[1..], tail);
    }
  }

  /** A parse does not look beyond the closing parenthesis behind it. */
  lemma {:induction false} LineLonger(toks: seq<Token>, tail: seq<Token>)
    requires Line(toks).Parsed? && Closes(tail)
    ensures Line(toks + tail) == Longer(Line(toks), tail)
    decreases |toks|, 3
  {
    hide Pipeline, Amps;
    PipelineLonger(toks, tail);
    var p := Pipeline(toks);
    AmpsLonger(p.value, p.rest, tail);
    var rest := Amps(p.value, p.rest).rest;
    if rest != [] && rest[0] == Semi {
      assert (rest + tail)[1..] == rest[1..] + tail;
      LineLonger(rest[1..], tail);
    }
  }

  /** The text is a command line for c. */
  predicate Reads(s: string, c: Cmd<string>) {
    NUL !in s && CommandLine(Tokens(s)) == Parsed(c, [])
  }

  /** The tokens of a command in parentheses. */
  function Grouped(toks: seq<Token>): seq<Token> {
    [Open] + toks + [Close]
  }

  lemma GroupParses(toks: seq<Token>, c: Cmd<string>, tail: seq<Token>)
    requires CommandLine(toks) == Parsed(c, []) && Redirs(tail).Parsed?
    ensures Command(Grouped(toks) + tail) == Parsed(Wrap(c, Redirs(tail).value), Redirs(tail).rest)
  {
    LineLonger(toks, [Close] + tail);
    assert [] + ([Close] + tail) == [Close] + tail;
    BlockParses(c, toks, tail, Redirs(tail).value, Redirs(tail).rest);
  }

  /** With no redirection behind it. */
  lemma GroupThen(toks: seq<Token>, c: Cmd<string>, tail: seq<Token>)
    requires CommandLine(toks) == Parsed(c, []) && (tail == [] || !IsRedirect(tail[0]))
    ensures Command(Grouped(toks) + tail) == Parsed(c, tail)
  {
    hide CommandLine, Command, Grouped;
    assert Redirs(tail) == Parsed([], tail);
    GroupParses(toks, c, tail);
  }

  lemma GroupPipes(toks: seq<Token>, more: seq<Token>, c: Cmd<string>, d: Cmd<string>, rest: seq<Token>)
    requires CommandLine(toks) == Parsed(c, []) && Pipeline(more) == Parsed(d, rest)
    ensures Pipeline(Grouped(toks) + ([Bar] + more)) == Parsed(Pipe(c, d), rest)
  {
    hide CommandLine, Command, Grouped;
    GroupThen(toks, c, [Bar] + more);
    assert ([Bar] + more)[1..] == more;
  }

  lemma GroupEnds(toks: seq<Token>, c: Cmd<string>, tail: seq<Token>)
    requires CommandLine(toks) == Parsed(c, []) && PipelineEnds(tail)
    ensures Pipeline(Grouped(toks) + tail) == Parsed(c, tail)
  {
    hide CommandLine, Command, Grouped;
    GroupThen(toks, c, tail);
  }

  /** A pipeline and what its &s make of it are the whole line. */
  lemma LineOfPipeline(toks: seq<Token>, c: Cmd<string>)
    requires Pipeline(toks).Parsed? && Amps(Pipeline(toks).value, Pipeline(toks).rest) == Parsed(c, [])
    ensures CommandLine(toks) == Parsed(c, [])
  {
    hide Pipeline, Amps;
    assert Backgrounds(toks) == Parsed(c, []);
  }

  /** They are the first command of a list. */
  lemma LineOfList(toks: seq<Token>, c: Cmd<string>, more: seq<Token>, d: Cmd<string>)
    requires Pipeline(toks).Parsed? && Amps(Pipeline(toks).value, Pipeline(toks).rest) == Parsed(c, [Semi] + more)
    requires CommandLine(more) == Parsed(d, [])
    ensures CommandLine(toks) == Parsed(List(c, d), [])
  {
    hide Pipeline, Amps;
    assert Backgrounds(toks) == Parsed(c, [Semi] + more);
    assert ([Semi] + more)[1..] == more;
  }

  lemma OneAmp(c: Cmd<string>, tail: seq<Token>)
    requires tail == [] || tail[0] != Amp
    ensures Amps(c, tail) == Parsed(c, tail) && Amps(c, [Amp] + tail) == Parsed(Back(c), tail)
  {
    assert ([Amp] + tail)[1..] == tail;
  }

  /** Alone, in a pipe, in a list, and in the background. */
  lemma CombinedTokens(a: seq<Token>, b: seq<Token>, c: Cmd<string>, d: Cmd<string>)
    requires CommandLine(a) == Parsed(c, []) && CommandLine(b) == Parsed(d, [])
    ensures CommandLine(Grouped(a)) == Parsed(c, [])
    ensures CommandLine(Grouped(a) + ([Bar] + Grouped(b))) == Parsed(Pipe(c, d), [])
    ensures CommandLine(Grouped(a) + [Amp]) == Parsed(Back(c), [])
    ensures CommandLine(Grouped(a) + ([Semi] + Grouped(b))) == Parsed(List(c, d), [])
    ensures CommandLine(Grouped(a) + ([Amp] + ([Semi] + Grouped(b)))) == Parsed(List(Back(c), d), [])
  {
    hide CommandLine, Pipeline, Amps, Grouped;
    assert Grouped(a) + [] == Grouped(a) && Grouped(b) + [] == Grouped(b) && [Amp] + [] == [Amp];
    OneAmp(c, []);
    OneAmp(d, []);
    OneAmp(Pipe(c, d), []);
    OneAmp(c, [Semi] + Grouped(b));
    GroupEnds(a, c, []);
    LineOfPipeline(Grouped(a), c);
    GroupEnds(b, d, []);
    LineOfPipeline(Grouped(b), d);
    GroupPipes(a, Grouped(b), c, d, []);
    LineOfPipeline(Grouped(a) + ([Bar] + Grouped(b)), Pipe(c, d));
    GroupEnds(a, c, [Amp]);
    LineOfPipeline(Grouped(a) + [Amp], Back(c));
    GroupEnds(a, c, [Semi] + Grouped(b));
    LineOfList(Grouped(a) + ([Semi] + Grouped(b)), c, Grouped(b), d);
    GroupEnds(a, c, [Amp] + ([Semi] + Grouped(b)));
    LineOfList(Grouped(a) + ([Amp] + ([Semi] + Grouped(b))), Back(c), Grouped(b), d);
  }

  /** | binds more strongly than &, & more strongly than ;, and | and ; group to the right. */
  lemma PrecedenceTokens(a: seq<Token>, b: seq<Token>, e: seq<Token>, c: Cmd<string>, d: Cmd<string>, f: Cmd<string>)
    requires CommandLine(a) == Parsed(c, []) && CommandLine(b) == Parsed(d, []) && CommandLine(e) == Parsed(f, [])
    ensures CommandLine(Grouped(a) + ([Bar] + (Grouped(b) + ([Bar] + Grouped(e))))) == Parsed(Pipe(c, Pipe(d, f)), [])
    ensures CommandLine(Grouped(a) + ([Semi] + (Grouped(b) + ([Semi] + Grouped(e))))) == Parsed(List(c, List(d, f)), [])
    ensures CommandLine(Grouped(a) + ([Bar] + (Grouped(b) + ([Semi] + Grouped(e))))) == Parsed(List(Pipe(c, d), f), [])
    ensures CommandLine(Grouped(a) + ([Semi] + (Grouped(b) + ([Bar] + Grouped(e))))) == Parsed(List(c, Pipe(d, f)), [])
    ensures CommandLine(Grouped(a) + ([Bar] + (Grouped(b) + [Amp]))) == Parsed(Back(Pipe(c, d)), [])
  {
    hide CommandLine, Pipeline, Amps, Grouped;
    CombinedTokens(b, e, d, f);
    assert Grouped(e) + [] == Grouped(e) && [Amp] + [] == [Amp];
    GroupEnds(e, f, []);
    GroupPipes(b, Grouped(e), d, f, []);
    GroupPipes(a, Grouped(b) + ([Bar] + Grouped(e)), c, Pipe(d, f), []);
    OneAmp(Pipe(c, Pipe(d, f)), []);
    LineOfPipeline(Grouped(a) + ([Bar] + (Grouped(b) + ([Bar] + Grouped(e)))), Pipe(c, Pipe(d, f)));
    AheadOfList(a, c, Grouped(b) + ([Semi] + Grouped(e)), List(d, f));
    AheadOfList(a, c, Grouped(b) + ([Bar] + Grouped(e)), Pipe(d, f));
    CombinedTokens(e, e, f, f);
    GroupEnds(b, d, [Semi] + Grouped(e));
    GroupPipes(a, Grouped(b) + ([Semi] + Grouped(e)), c, d, [Semi] + Grouped(e));
    OneAmp(Pipe(c, d), [Semi] + Grouped(e));
    LineOfList(Grouped(a) + ([Bar] + (Grouped(b) + ([Semi] + Grouped(e)))), Pipe(c, d), Grouped(e), f);
    GroupEnds(b, d, [Amp]);
    GroupPipes(a, Grouped(b) + [Amp], c, d, [Amp]);
    OneAmp(Pipe(c, d), []);
    LineOfPipeline(Grouped(a) + ([Bar] + (Grouped(b) + [Amp])), Back(Pipe(c, d)));
  }

  lemma AheadOfList(a: seq<Token>, c: Cmd<string>, more: seq<Token>, d: Cmd<string>)
    requires CommandLine(a) == Parsed(c, []) && CommandLine(more) == Parsed(d, [])
    ensures CommandLine(Grouped(a) + ([Semi] + more)) == Parsed(List(c, d), [])
  {
    hide CommandLine, Pipeline, Amps, Grouped;
    GroupEnds(a, c, [Semi] + more);
    OneAmp(c, [Semi] + more);
    LineOfList(Grouped(a) + ([Semi] + more), c, more, d);
  }

  lemma LexGroup(s: string, more: string)
    requires NUL !in s && NUL !in more
    ensures NUL !in "(" + s + ")" + more && Tokens("(" + s + ")" + more) == Grouped(Tokens(s)) + Tokens(more)
  {
    hide Tokens;
    var rest := s + (")" + more);
    LexUpToClose(s, more);
    LexOther(Open, rest);
    assert "(" + s + ")" + more == Text(Open) + rest;
    assert [Open] + (Tokens(s) + ([Close] + Tokens(more))) == Grouped(Tokens(s)) + Tokens(more);
  }

  /** A symbol between two groups. */
  lemma LexTwo(s: string, m: Token, t: string)
    requires NUL !in s && NUL !in t && m in [Bar, Semi]
    ensures NUL !in "(" + s + ")" + Text(m) + "(" + t + ")"
    ensures Tokens("(" + s + ")" + Text(m) + "(" + t + ")") == Grouped(Tokens(s)) + ([m] + Grouped(Tokens(t)))
  {
    hide Tokens, Text, Grouped;
    var more := "(" + t + ")";
    LexAlone(t);
    LexOther(m, more);
    LexGroup(s, Text(m) + more);
    assert "(" + s + ")" + Text(m) + "(" + t + ")" == "(" + s + ")" + (Text(m) + more);
  }

  lemma LexAlone(s: string)
    requires NUL !in s
    ensures NUL !in "(" + s + ")" && Tokens("(" + s + ")") == Grouped(Tokens(s))
  {
    LexGroup(s, "");
    assert "(" + s + ")" + "" == "(" + s + ")" && Tokens("") == [];
    assert Grouped(Tokens(s)) + [] == Grouped(Tokens(s));
  }

  lemma LexAmp(s: string)
    requires NUL !in s
    ensures NUL !in "(" + s + ")&" && Tokens("(" + s + ")&") == Grouped(Tokens(s)) + [Amp]
  {
    hide Grouped;
    LexOther(Amp, "");
    assert Tokens("") == [] && Text(Amp) + "" == "&" && [Amp] + [] == [Amp];
    LexGroup(s, "&");
    assert "(" + s + ")&" == "(" + s + ")" + "&";
  }

  lemma LexAmpTwo(s: string, t: string)
    requires NUL !in s && NUL !in t
    ensures NUL !in "(" + s + ")&;(" + t + ")"
    ensures Tokens("(" + s + ")&;(" + t + ")") == Grouped(Tokens(s)) + ([Amp] + ([Semi] + Grouped(Tokens(t))))
  {
    hide Tokens, Grouped;
    var more := "(" + t + ")";
    LexAlone(t);
    LexOther(Semi, more);
    LexOther(Amp, Text(Semi) + more);
    LexGroup(s, Text(Amp) + (Text(Semi) + more));
    assert "(" + s + ")&;(" + t + ")" == "(" + s + ")" + (Text(Amp) + (Text(Semi) + more));
  }

  /** Whatever command lines stand between the parentheses: what each operator makes of them. */
  lemma Combined(s: string, t: string, c: Cmd<string>, d: Cmd<string>)
    requires Reads(s, c) && Reads(t, d)
    ensures Reads("(" + s + ")", c)
    ensures Reads("(" + s + ")|(" + t + ")", Pipe(c, d))
    ensures Reads("(" + s + ");(" + t + ")", List(c, d))
    ensures Reads("(" + s + ")&", Back(c))
    ensures Reads("(" + s + ")&;(" + t + ")", List(Back(c), d))
  {
    hide CommandLine, Tokens, Grouped;
    CombinedTokens(Tokens(s), Tokens(t), c, d);
    LexAlone(s);
    LexAmp(s);
    LexAmpTwo(s, t);
    LexTwo(s, Bar, t);
    LexTwo(s, Semi, t);
    assert "(" + s + ")" + Text(Bar) + "(" + t + ")" == "(" + s + ")|(" + t + ")";
    assert "(" + s + ")" + Text(Semi) + "(" + t + ")" == "(" + s + ");(" + t + ")";
  }

  // ---- redirections ----------------------------------------------------------------------------------------------

  lemma LexRedirection(m: Token, f: string)
    requires m in [Less, Greater, Append] && GoodWord(f)
    ensures NUL !in Text(m) + f && Tokens(Text(m) + f) == [m, Word(f)]
  {
    hide Tokens;
    LexEnd(f);
    LexOther(m, f);
  }

  lemma OneRedirection(m: Token, f: string, tail: seq<Token>)
    requires IsRedirect(m) && (tail == [] || !IsRedirect(tail[0]))
    ensures Redirs([m, Word(f)] + tail) == Parsed([RedirectionOf(m, f)], tail)
  {
    var r := RedirectionOf(m, f);
    assert ([m, Word(f)] + tail)[2..] == tail;
    assert Redirs(tail) == Parsed([], tail) && [r] + [] == [r];
  }

  lemma WrapOne(c: Cmd<string>, r: Redirection<string>)
    ensures Wrap(c, [r]) == Redir(c, r)
  {
    assert Wrap(Redir(c, r), []) == Redir(c, r);
  }

  /** A redirection behind a group. */
  lemma GroupRedirected(a: seq<Token>, c: Cmd<string>, m: Token, f: string)
    requires CommandLine(a) == Parsed(c, []) && IsRedirect(m)
    ensures CommandLine(Grouped(a) + [m, Word(f)]) == Parsed(Redir(c, RedirectionOf(m, f)), [])
  {
    hide CommandLine, Command, Grouped, Redirs, Wrap;
    OneRedirection(m, f, []);
    assert [m, Word(f)] + [] == [m, Word(f)];
    GroupParses(a, c, [m, Word(f)]);
    WrapOne(c, RedirectionOf(m, f));
    CommandAlone(Grouped(a) + [m, Word(f)]);
  }

  /** A redirection behind a word, and before it. */
  lemma WordRedirected(w: string, m: Token, f: string)
    requires IsRedirect(m)
    ensures CommandLine([Word(w), m, Word(f)]) == Parsed(Redir(Exec([w]), RedirectionOf(m, f)), [])
    ensures CommandLine([m, Word(f), Word(w)]) == Parsed(Redir(Exec([w]), RedirectionOf(m, f)), [])
  {
    hide CommandLine, Wrap, RedirectionOf;
    var r := RedirectionOf(m, f);
    OneRedirection(m, f, []);
    OneRedirection(m, f, [Word(w)]);
    WrapOne(Exec([w]), r);
    assert [m, Word(f)] + [] == [m, Word(f)] && [m, Word(f)] + [Word(w)] == [m, Word(f), Word(w)];
    assert [] + [w] == [w] && [] + [r] == [r] && [r] + [] == [r];
    ArgsDone([w], [r], []);
    ArgsStep([], [], w, [m, Word(f)]);
    assert [Word(w)] + [m, Word(f)] == [Word(w), m, Word(f)];
    assert Redirs([Word(w), m, Word(f)]) == Parsed([], [Word(w), m, Word(f)]);
    CommandAlone([Word(w), m, Word(f)]);
    ArgsStep([], [r], w, []);
    assert [Word(w)] + [] == [Word(w)];
    CommandAlone([m, Word(f), Word(w)]);
  }

  /** The same on characters. */
  lemma RedirectedText(s: string, c: Cmd<string>, w: string, m: Token, f: string)
    requires Reads(s, c) && GoodWord(w) && GoodWord(f) && IsRedirect(m)
    ensures Reads("(" + s + ")" + (Text(m) + f), Redir(c, RedirectionOf(m, f)))
    ensures Reads(w + (Text(m) + f), Redir(Exec([w]), RedirectionOf(m, f)))
    ensures Reads(Text(m) + (f + (" " + w)), Redir(Exec([w]), RedirectionOf(m, f)))
  {
    hide CommandLine, Tokens, Grouped, RedirectionOf;
    LexRedirection(m, f);
    LexGroup(s, Text(m) + f);
    GroupRedirected(Tokens(s), c, m, f);
    LexNext(Word(w), Text(m) + f);
    WordRedirected(w, m, f);
    assert [Word(w)] + [m, Word(f)] == [Word(w), m, Word(f)];
    LexEnd(w);
    LexGap(" ", w);
    LexNext(Word(f), " " + w);
    LexOther(m, f + (" " + w));
    assert [m] + ([Word(f)] + [Word(w)]) == [m, Word(f), Word(w)];
  }

  /** < opens its file as standard input for reading only, > and >> open theirs as standard output for writing only and
      create it: behind parentheses, and behind or before the word of a command. */
  lemma Redirected(s: string, c: Cmd<string>, w: string, f: string)
    requires Reads(s, c) && GoodWord(w) && GoodWord(f)
    ensures Reads("(" + s + ")<" + f, Redir(c, Redirection(f, 0x000, 0)))
    ensures Reads("(" + s + ")>" + f, Redir(c, Redirection(f, 0x201, 1)))
    ensures Reads("(" + s + ")>>" + f, Redir(c, Redirection(f, 0x201, 1)))
    ensures Reads(w + "<" + f, Redir(Exec([w]), Redirection(f, 0x000, 0)))
    ensures Reads(w + ">" + f, Redir(Exec([w]), Redirection(f, 0x201, 1)))
    ensures Reads(w + ">>" + f, Redir(Exec([w]), Redirection(f, 0x201, 1)))
    ensures Reads("<" + f + " " + w, Redir(Exec([w]), Redirection(f, 0x000, 0)))
    ensures Reads(">" + f + " " + w, Redir(Exec([w]), Redirection(f, 0x201, 1)))
    ensures Reads(">>" + f + " " + w, Redir(Exec([w]), Redirection(f, 0x201, 1)))
  {
    hide Reads;
    RedirectedText(s, c, w, Less, f);
    RedirectedText(s, c, w, Greater, f);
    RedirectedText(s, c, w, Append, f);
    assert "(" + s + ")<" + f == "(" + s + ")" + ("<" + f);
    assert "(" + s + ")>" + f == "(" + s + ")" + (">" + f);
    assert "(" + s + ")>>" + f == "(" + s + ")" + (">>" + f);
    assert w + "<" + f == w + ("<" + f) && w + ">" + f == w + (">" + f) && w + ">>" + f == w + (">>" + f);
    assert "<" + f + " " + w == "<" + (f + (" " + w)) && ">" + f + " " + w == ">" + (f + (" " + w));
    assert ">>" + f + " " + w == ">>" + (f + (" " + w));
  }

  // ---- nothing is lost -------------------------------------------------------------------------------------------

  /** What a token stands for, >> being the same as >, and parentheses only group. */
  function Substance(t: Token): multiset<Token> {
    match t
    case Open => multiset{}
    case Close => multiset{}
    case Append => multiset{Greater}
    case _ => multiset{t}
  }

  function TokenMaterial(toks: seq<Token>): multiset<Token> {
    if toks == [] then multiset{} else Substance(toks[0]) + TokenMaterial(toks[1..])
  }

  function WordMaterial(ws: seq<string>): multiset<Token> {
    if ws == [] then multiset{} else WordMaterial(ws[..|ws| - 1]) + multiset{Word(ws[|ws| - 1])}
  }

  function RedirMaterial(r: Redirection<string>): multiset<Token> {
    multiset{if r.fd == 0 then Less else Greater, Word(r.file)}
  }

  function RedirsMaterial(rs: seq<Redirection<string>>): multiset<Token> {
    if rs == [] then multiset{} else RedirMaterial(rs[0]) + RedirsMaterial(rs[1..])
  }

  /** The tokens a command is made of. */
  function Material(c: Cmd<string>): multiset<Token> {
    match c
    case Exec(ws) => WordMaterial(ws)
    case Redir(d, r) => Material(d) + RedirMaterial(r)
    case Pipe(l, r) => Material(l) + multiset{Bar} + Material(r)
    case List(l, r) => Material(l) + multiset{Semi} + Material(r)
    case Back(d) => Material(d) + multiset{Amp}
  }

  lemma {:induction false} WrapMaterial(c: Cmd<string>, rs: seq<Redirection<string>>)
    ensures Material(Wrap(c, rs)) == Material(c) + RedirsMaterial(rs)
    decreases |rs|
  {
    if rs != [] {
      WrapMaterial(Redir(c, rs[0]), rs[1..]);
    }
  }

  lemma {:induction false} RedirsMaterialAppends(rs: seq<Redirection<string>>, more: seq<Redirection<string>>)
    ensures RedirsMaterial(rs + more) == RedirsMaterial(rs) + RedirsMaterial(more)
    decreases |rs|
  {
    if rs == [] {
      assert rs + more == more;
    } else {
      assert (rs + more)[1..] == rs[1..] + more;
      RedirsMaterialAppends(rs[1..], more);
    }
  }

  lemma FirstRedirection(toks: seq<Token>)
    requires |toks| >= 2 && IsRedirect(toks[0]) && toks[1].Word?
    ensures TokenMaterial(toks) == RedirMaterial(RedirectionOf(toks[0], toks[1].w)) + TokenMaterial(toks[2..])
  {
    assert toks[1..][1..] == toks[2..];
    assert TokenMaterial(toks[1..]) == Substance(toks[1]) + TokenMaterial(toks[2..]);
    SubstanceOfTwo(toks[0], toks[1].w);
  }

  lemma SubstanceOfTwo(t: Token, f: string)
    requires IsRedirect(t)
    ensures Substance(t) + Substance(Word(f)) == RedirMaterial(RedirectionOf(t, f))
  {
  }

  lemma {:induction false} RedirsKeep(toks: seq<Token>)
    requires Redirs(toks).Parsed?
    ensures TokenMaterial(toks) == RedirsMaterial(Redirs(toks).value) + TokenMaterial(Redirs(toks).rest)
  {
    hide TokenMaterial, RedirMaterial, RedirectionOf;
    if toks != [] && IsRedirect(toks[0]) {
      RedirsKeep(toks[2..]);
      FirstRedirection(toks);
      var r := RedirectionOf(toks[0], toks[1].w);
      assert ([r] + Redirs(toks[2..]).value)[1..] == Redirs(toks[2..]).value;
    }
  }

  lemma ArgsUnfold(ws: seq<string>, rs: seq<Redirection<string>>, toks: seq<Token>)
    requires Args(ws, rs, toks).Parsed?
    ensures toks == [] || Stops(toks[0]) ==> Args(ws, rs, toks) == Parsed(Wrap(Exec(ws), rs), toks)
    ensures toks != [] && !Stops(toks[0]) ==>
              && toks[0].Word? && Redirs(toks[1..]).Parsed?
              && Args(ws, rs, toks)
                 == Args(ws + [toks[0].w], rs + Redirs(toks[1..]).value, Redirs(toks[1..]).rest)
  {
  }

  lemma MoreWords(ws: seq<string>, w: string)
    ensures WordMaterial(ws + [w]) == WordMaterial(ws) + multiset{Word(w)} && Substance(Word(w)) == multiset{Word(w)}
  {
    assert (ws + [w])[..|ws|] == ws;
  }

  lemma Regrouped(a: multiset<Token>, b: multiset<Token>, c: multiset<Token>, d: multiset<Token>, e: multiset<Token>)
    ensures a + b + (c + (d + e)) == a + c + (b + d) + e
  {
  }

  lemma {:induction false} ArgsKeep(ws: seq<string>, rs: seq<Redirection<string>>, toks: seq<Token>)
    requires Args(ws, rs, toks).Parsed?
    ensures WordMaterial(ws) + RedirsMaterial(rs) + TokenMaterial(toks)
            == Material(Args(ws, rs, toks).value) + TokenMaterial(Args(ws, rs, toks).rest)
    decreases |toks|
  {
    ArgsUnfold(ws, rs, toks);
    hide Args, Redirs, Wrap, RedirsMaterial, WordMaterial, Substance, Stops;
    if toks == [] || Stops(toks[0]) {
      WrapMaterial(Exec(ws), rs);
    } else {
      var p, w := Redirs(toks[1..]), toks[0].w;
      RedirsKeep(toks[1..]);
      RedirsMaterialAppends(rs, p.value);
      MoreWords(ws, w);
      ArgsKeep(ws + [w], rs + p.value, p.rest);
      Regrouped(WordMaterial(ws), RedirsMaterial(rs), Substance(Word(w)), RedirsMaterial(p.value),
                TokenMaterial(p.rest));
    }
  }

  lemma {:induction false} BlockKeeps(toks: seq<Token>)
    requires toks != [] && toks[0] == Open && Block(toks).Parsed?
    ensures TokenMaterial(toks) == Material(Block(toks).value) + TokenMaterial(Block(toks).rest)
    decreases |toks|, 0
  {
    hide Wrap, Line, Redirs, RedirsMaterial, Material;
    var p := Line(toks[1..]);
    LineKeeps(toks[1..]);
    RedirsKeep(p.rest[1..]);
    WrapMaterial(p.value, Redirs(p.rest[1..]).value);
    assert Substance(Open) == Substance(Close) == multiset{};
  }

  lemma {:induction false} CommandKeeps(toks: seq<Token>)
    requires Command(toks).Parsed?
    ensures TokenMaterial(toks) == Material(Command(toks).value) + TokenMaterial(Command(toks).rest)
    decreases |toks|, 1
  {
    hide Args, Block, Redirs, TokenMaterial, Material;
    if toks != [] && toks[0] == Open {
      BlockKeeps(toks);
    } else {
      RedirsKeep(toks);
      ArgsKeep([], Redirs(toks).value, Redirs(toks).rest);
      assert WordMaterial([]) == multiset{};
    }
  }

  lemma {:induction false} PipelineKeeps(toks: seq<Token>)
    requires Pipeline(toks).Parsed?
    ensures TokenMaterial(toks) == Material(Pipeline(toks).value) + TokenMaterial(Pipeline(toks).rest)
    decreases |toks|, 2
  {
    hide Command;
    CommandKeeps(toks);
    var rest := Command(toks).rest;
    if rest != [] && rest[0] == Bar {
      PipelineKeeps(rest[1..]);
    }
  }

  lemma {:induction false} AmpsKeep(c: Cmd<string>, toks: seq<Token>)
    ensures Material(c) + TokenMaterial(toks) == Material(Amps(c, toks).value) + TokenMaterial(Amps(c, toks).rest)
    decreases |toks|
  {
    if toks != [] && toks[0] == Amp {
      AmpsKeep(Back(c), toks[1..]);
    }
  }

  lemma {:induction false} LineKeeps(toks: seq<Token>)
    requires Line(toks).Parsed?
    ensures TokenMaterial(toks) == Material(Line(toks).value) + TokenMaterial(Line(toks).rest)
    decreases |toks|, 3
  {
    hide Pipeline, Amps;
    PipelineKeeps(toks);
    var p := Pipeline(toks);
    AmpsKeep(p.value, p.rest);
    var rest := Amps(p.value, p.rest).rest;
    if rest != [] && rest[0] == Semi {
      LineKeeps(rest[1..]);
    }
  }

  /** Whatever the line, every word, redirection and operator of it is in the command it stands for, as often as in the
      line, and nothing else is. */
  lemma NothingLost(s: string, c: Cmd<string>)
    requires Reads(s, c)
    ensures Material(c) == TokenMaterial(Tokens(s))
  {
    hide Tokens, Line;
    LineKeeps(Tokens(s));
  }
}
