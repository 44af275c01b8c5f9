/** The shell's recursive descent parser (sh.c) over a character buffer and a shared cursor.  Words are spans of the
    buffer until nulterminate cuts them off in place; a panic ends the parse. */
module Shell {
  import opened ShellTokens
  import opened ShellGrammar

  datatype Span = Span(q: nat, eq: nat)

  datatype Result<+T> = Ok(value: T) | Fail(message: string)

  // ---- what spans and C strings stand for --------------------------------------------------------------

  function WordAt(s: seq<char>, w: Span): string {
    if w.q <= w.eq <= |s| then s[w.q..w.eq] else ""
  }

  function RedirText(r: Redirection<Span>, s: seq<char>): Redirection<string> {
    Redirection(WordAt(s, r.file), r.mode, r.fd)
  }

  function ArgTexts(argv: seq<Span>, s: seq<char>): (ws: seq<string>)
    ensures |ws| == |argv|
  {
    seq(|argv|, i requires 0 <= i < |argv| => WordAt(s, argv[i]))
  }

  function RedirTexts(rs: seq<Redirection<Span>>, s: seq<char>): seq<Redirection<string>> {
    seq(|rs|, i requires 0 <= i < |rs| => RedirText(rs[i], s))
  }

  /** The command with the words its spans delimit. */
  function TextOf(c: Cmd<Span>, s: seq<char>): Cmd<string> {
    match c
    case Exec(argv) => Exec(ArgTexts(argv, s))
    case Redir(d, r) => Redir(TextOf(d, s), RedirText(r, s))
    case Pipe(l, r) => Pipe(TextOf(l, s), TextOf(r, s))
    case List(l, r) => List(TextOf(l, s), TextOf(r, s))
    case Back(d) => Back(TextOf(d, s))
  }

  /** The C string at q. */
  function CString(s: seq<char>, q: nat): string
    decreases |s| - q
  {
    if q < |s| && s[q] != NUL then [s[q]] + CString(s, q + 1) else ""
  }

  function CRedir(r: Redirection<Span>, s: seq<char>): Redirection<string> {
    Redirection(CString(s, r.file.q), r.mode, r.fd)
  }

  /** The command with the C strings its word pointers point to: what runcmd sees. */
  function CStrings(c: Cmd<Span>, s: seq<char>): Cmd<string> {
    match c
    case Exec(argv) => Exec(seq(|argv|, i requires 0 <= i < |argv| => CString(s, argv[i].q)))
    case Redir(d, r) => Redir(CStrings(d, s), CRedir(r, s))
    case Pipe(l, r) => Pipe(CStrings(l, s), CStrings(r, s))
    case List(l, r) => List(CStrings(l, s), CStrings(r, s))
    case Back(d) => Back(CStrings(d, s))
  }

  /** A span is a maximal run of word characters with something behind it that is none. */
  predicate Delimits(w: Span, s: seq<char>) {
    w.q < w.eq < |s| && (forall k :: w.q <= k < w.eq ==> WordChar(s[k])) && !WordChar(s[w.eq])
  }

  ghost predicate Delimited(c: Cmd<Span>, s: seq<char>) {
    match c
    case Exec(argv) => ArgsDelimited(argv, s)
    case Redir(d, r) => Delimited(d, s) && Delimits(r.file, s)
    case Pipe(l, r) => Delimited(l, s) && Delimited(r, s)
    case List(l, r) => Delimited(l, s) && Delimited(r, s)
    case Back(d) => Delimited(d, s)
  }

  /** The positions nulterminate writes to. */
  function Ends(c: Cmd<Span>): set<nat> {
    match c
    case Exec(argv) => set i | 0 <= i < |argv| :: argv[i].eq
    case Redir(d, r) => Ends(d) + {r.file.eq}
    case Pipe(l, r) => Ends(l) + Ends(r)
    case List(l, r) => Ends(l) + Ends(r)
    case Back(d) => Ends(d)
  }

  /** s with the positions in ends cleared. */
  ghost predicate Cut(s: seq<char>, s': seq<char>, ends: set<nat>) {
    |s'| == |s| && forall k: nat :: k < |s| ==> s'[k] == if k in ends then NUL else s[k]
  }

  // ---- nulterminate destroys no word -------------------------------------------------------------------

  lemma {:induction false} EndsOutsideWords(c: Cmd<Span>, s: seq<char>)
    requires Delimited(c, s)
    ensures forall e :: e in Ends(c) ==> e < |s| && !WordChar(s[e])
  {
    match c
    case Exec(_) =>
    case Redir(d, _) => EndsOutsideWords(d, s);
    case Pipe(l, r) => EndsOutsideWords(l, s); EndsOutsideWords(r, s);
    case List(l, r) => EndsOutsideWords(l, s); EndsOutsideWords(r, s);
    case Back(d) => EndsOutsideWords(d, s);
  }

  lemma {:induction false} CStringIs(s: seq<char>, q: nat, e: nat)
    requires q <= e < |s| && s[e] == NUL && forall k :: q <= k < e ==> s[k] != NUL
    ensures CString(s, q) == s[q..e]
    decreases e - q
  {
    if q < e {
      CStringIs(s, q + 1, e);
    }
  }

  lemma WordSurvives(w: Span, s: seq<char>, s': seq<char>, ends: set<nat>)
    requires Cut(s, s', ends) && Delimits(w, s) && w.eq in ends
    requires forall e :: e in ends ==> e < |s| && !WordChar(s[e])
    ensures CString(s', w.q) == WordAt(s, w)
  {
    CStringIs(s', w.q, w.eq);
  }

  /** Cutting at the ends of all words leaves every word intact, as a C string. */
  lemma {:induction false} WordsSurvive(c: Cmd<Span>, s: seq<char>, s': seq<char>, ends: set<nat>)
    requires Cut(s, s', ends) && Delimited(c, s) && Ends(c) <= ends
    requires forall e :: e in ends ==> e < |s| && !WordChar(s[e])
    ensures CStrings(c, s') == TextOf(c, s)
  {
    match c
    case Exec(argv) =>
      forall i | 0 <= i < |argv|
        ensures CString(s', argv[i].q) == WordAt(s, argv[i])
      {
        WordSurvives(argv[i], s, s', ends);
      }
    case Redir(d, r) => WordsSurvive(d, s, s', ends); WordSurvives(r.file, s, s', ends);
    case Pipe(l, r) => WordsSurvive(l, s, s', ends); WordsSurvive(r, s, s', ends);
    case List(l, r) => WordsSurvive(l, s, s', ends); WordsSurvive(r, s, s', ends);
    case Back(d) => WordsSurvive(d, s, s', ends);
  }

  // ---- redirections wrapped around a command -----------------------------------------------------------

  /** Filling in argv through the pointer to an exec command that redirections are already wrapped around. */
  function WithArgv<W>(c: Cmd<W>, argv: seq<W>): Cmd<W> {
    match c
    case Exec(_) => Exec(argv)
    case Redir(d, r) => Redir(WithArgv(d, argv), r)
    case _ => c
  }

  lemma {:induction false} WrapMore<W>(c: Cmd<W>, rs: seq<Redirection<W>>, r: Redirection<W>)
    ensures Wrap(c, rs + [r]) == Redir(Wrap(c, rs), r)
    decreases |rs|
  {
    if rs == [] {
      assert rs + [r] == [r];
    } else {
      assert (rs + [r])[1..] == rs[1..] + [r];
      WrapMore(Redir(c, rs[0]), rs[1..], r);
    }
  }

  lemma {:induction false} WrapWrap<W>(c: Cmd<W>, rs: seq<Redirection<W>>, more: seq<Redirection<W>>)
    ensures Wrap(Wrap(c, rs), more) == Wrap(c, rs + more)
    decreases |rs|
  {
    if rs == [] {
      assert rs + more == more;
    } else {
      assert (rs + more)[1..] == rs[1..] + more;
      WrapWrap(Redir(c, rs[0]), rs[1..], more);
    }
  }

  lemma {:induction false} WithArgvWrap<W>(c: Cmd<W>, argv: seq<W>, rs: seq<Redirection<W>>)
    ensures WithArgv(Wrap(c, rs), argv) == Wrap(WithArgv(c, argv), rs)
    decreases |rs|
  {
    if rs != [] {
      WithArgvWrap(Redir(c, rs[0]), argv, rs[1..]);
    }
  }

  lemma {:induction false} WrapText(c: Cmd<Span>, rs: seq<Redirection<Span>>, s: seq<char>)
    ensures TextOf(Wrap(c, rs), s) == Wrap(TextOf(c, s), RedirTexts(rs, s))
    decreases |rs|
  {
    if rs != [] {
      WrapText(Redir(c, rs[0]), rs[1..], s);
      assert RedirTexts(rs, s)[1..] == RedirTexts(rs[1..], s);
    }
  }

  ghost predicate RedirsDelimited(rs: seq<Redirection<Span>>, s: seq<char>) {
    forall i :: 0 <= i < |rs| ==> Delimits(rs[i].file, s)
  }

  lemma {:induction false} WrapDelimited(c: Cmd<Span>, rs: seq<Redirection<Span>>, s: seq<char>)
    ensures Delimited(Wrap(c, rs), s) <==> Delimited(c, s) && RedirsDelimited(rs, s)
    decreases |rs|
  {
    if rs != [] {
      WrapDelimited(Redir(c, rs[0]), rs[1..], s);
      assert RedirsDelimited(rs, s) <==> Delimits(rs[0].file, s) && RedirsDelimited(rs[1..], s);
    }
  }

  ghost predicate ArgsDelimited(argv: seq<Span>, s: seq<char>) {
    forall i :: 0 <= i < |argv| ==> Delimits(argv[i], s)
  }

  /** A parse of redirections that follow those already seen. */
  function Behind(done: seq<Redirection<string>>, p: Parse<seq<Redirection<string>>>): Parse<seq<Redirection<string>>> {
    match p
    case Parsed(rs, rest) => Parsed(done + rs, rest)
    case Panic(m) => Panic(m)
  }

  // ---- the parser --------------------------------------------------------------------------------------

  class Parser {
    const buf: array<char>
    const es: nat
    var ps: nat   // the shared cursor

    ghost predicate Valid()
      reads this, buf
    {
      es < buf.Length && buf[es] == NUL && NUL !in buf[..es] && ps <= es
    }

    constructor (buf: array<char>, es: nat)
      requires es < buf.Length && buf[es] == NUL && NUL !in buf[..es]
      ensures this.buf == buf && this.es == es && ps == 0 && Valid()
    {
      this.buf, this.es, ps := buf, es, 0;
    }

    ghost function From(i: nat): seq<Token>
      reads this, buf
      requires Valid() && i <= es
    {
      assert forall k :: i <= k < es ==> buf[k] == buf[..es][k];
      Tokens(buf[i..es])
    }

    /** The tokens still to come. */
    ghost function Rest(): seq<Token>
      reads this, buf
      requires Valid()
    {
      From(ps)
    }

    lemma Blank(i: nat)
      requires Valid() && i < es && White(buf[i])
      ensures From(i) == From(i + 1)
    {
      assert buf[i..es][1..] == buf[i + 1..es];
    }

    lemma AtSymbol(i: nat)
      requires Valid() && i < es && Symbol(buf[i])
      ensures buf[i] != '>' ==> From(i) == [OfSymbol(buf[i])] + From(i + 1)
      ensures buf[i] == '>' && buf[i + 1] != '>' ==> From(i) == [Greater] + From(i + 1)
      ensures buf[i] == '>' && buf[i + 1] == '>' ==> i + 2 <= es && From(i) == [Append] + From(i + 2)
    {
      assert buf[i..es][1..] == buf[i + 1..es];
      if buf[i + 1] == '>' {
        assert buf[i..es][2..] == buf[i + 2..es];
      }
    }

    lemma AtWord(i: nat, e: nat)
      requires Valid() && i < e <= es && (forall k :: i <= k < e ==> WordChar(buf[k])) && !WordChar(buf[e])
      ensures From(i) == [Word(buf[i..e])] + From(e)
    {
      assert buf[i..es] == buf[i..e] + buf[e..es];
      WordLengthOf(buf[i..e], buf[e..es]);
    }

    lemma AtEnd()
      requires Valid()
      ensures From(es) == []
    {
    }

    /** gettoken: the kind of the next token, its span, and the cursor behind it and the blanks after it. */
    method GetToken() returns (ret: char, q: nat, eq: nat)
      requires Valid()
      modifies this`ps
      ensures Valid() && old(ps) <= ps
      ensures old(Rest()) == [] ==> ret == NUL && Rest() == []
      ensures old(Rest()) != [] ==> ret == Code(old(Rest())[0]) && Rest() == old(Rest())[1..] && old(ps) < ps
      ensures ret == 'a' ==>
                && Delimits(Span(q, eq), buf[..]) && old(Rest()) != []
                && old(Rest())[0] == Word(WordAt(buf[..], Span(q, eq)))
    {
      hide Tokens;
      var s := SkipWhite(ps);
      q := s;
      ret := buf[s];
      if buf[s] == NUL {
        AtEnd();
      } else if buf[s] == '|' || buf[s] == '(' || buf[s] == ')' || buf[s] == ';' || buf[s] == '&' || buf[s] == '<' {
        AtSymbol(s);
        s := s + 1;
      } else if buf[s] == '>' {
        AtSymbol(s);
        s := s + 1;
        if buf[s] == '>' {
          ret := '+';
          s := s + 1;
        }
      } else {
        ret := 'a';
        while s < es && !White(buf[s]) && !Symbol(buf[s])
          invariant q <= s <= es && (forall k :: q <= k < s ==> WordChar(buf[k]))
          invariant s == q ==> s < es && !White(buf[s]) && !Symbol(buf[s])
        {
          s := s + 1;
        }
        AtWord(q, s);
      }
      eq := s;
      s := SkipWhite(s);
      ps := s;
    }

    /** The loop over blanks. */
    method SkipWhite(i: nat) returns (s: nat)
      requires Valid() && i <= es
      ensures i <= s <= es && From(s) == From(i) && !White(buf[s])
      ensures s < es ==> buf[s] != NUL
    {
      s := i;
      while s < es && White(buf[s])
        invariant i <= s <= es && From(s) == From(i)
      {
        Blank(s);
        s := s + 1;
      }
      assert s < es ==> buf[s] == buf[..es][s];
    }

    /** The character a token starts with, if it is a symbol. */
    static function First(t: Token): char {
      if t == Append then '>' else Code(t)
    }

    /** peek: does the next token start with one of the symbols toks? */
    method Peek(toks: string) returns (found: bool)
      requires Valid() && forall c :: c in toks ==> Symbol(c)
      modifies this`ps
      ensures Valid() && old(ps) <= ps && Rest() == old(Rest())
      ensures found <==> Rest() != [] && First(Rest()[0]) in toks
      ensures ps == es <==> Rest() == []
    {
      var s := SkipWhite(ps);
      ps := s;
      found := buf[s] != NUL && buf[s] in toks;
      if s == es {
        AtEnd();
      } else if Symbol(buf[s]) {
        AtSymbol(s);
      }
    }

    /** What a parsing method returns agrees with the grammar. */
    ghost predicate Agrees(r: Result<Cmd<Span>>, p: Parse<Cmd<string>>)
      reads this, buf
      requires Valid()
    {
      match r
      case Fail(m) => p == Panic(m)
      case Ok(c) => p == Parsed(TextOf(c, buf[..]), Rest()) && Delimited(c, buf[..])
    }

    /** How the grammar of lines unfolds. */
    static lemma LineUnfold(toks: seq<Token>)
      ensures Backgrounds(toks).Panic? ==> Line(toks) == Backgrounds(toks)
      ensures Backgrounds(toks).Parsed? ==>
                var c, rest := Backgrounds(toks).value, Backgrounds(toks).rest;
                if rest == [] || rest[0] != Semi then Line(toks) == Parsed(c, rest)
                else if Line(rest[1..]).Panic? then Line(toks) == Line(rest[1..])
                else Line(toks) == Parsed(List(c, Line(rest[1..]).value), Line(rest[1..]).rest)
    {
    }

    static lemma AmpsUnfold(c: Cmd<string>, toks: seq<Token>)
      ensures toks == [] || toks[0] != Amp ==> Amps(c, toks) == Parsed(c, toks)
      ensures toks != [] && toks[0] == Amp ==> Amps(c, toks) == Amps(Back(c), toks[1..])
    {
    }

    /** parseline: one command, in the background as often as & follows, and the rest of the list. */
    method ParseLine() returns (r: Result<Cmd<Span>>)
      requires Valid()
      modifies this`ps
      ensures Valid() && old(ps) <= ps && Agrees(r, Line(old(Rest())))
      decreases es - ps, 5
    {
      hide Tokens, Backgrounds, Line;
      LineUnfold(Rest());
      r := ParseBackgrounds();
      if r.Fail? {
        return;
      }
      var cmd := r.value;
      var found := Peek(";");
      if found {
        var _, _, _ := GetToken();
        var right := ParseLine();
        if right.Fail? {
          return right;
        }
        r := Ok(List(cmd, right.value));
      }
    }

    /** The first statements of parseline. */
    method ParseBackgrounds() returns (r: Result<Cmd<Span>>)
      requires Valid()
      modifies this`ps
      ensures Valid() && old(ps) <= ps && Agrees(r, Backgrounds(old(Rest())))
      decreases es - ps, 4
    {
      hide Tokens, Pipeline, Amps;
      ghost var toks := Rest();
      r := ParsePipe();
      if r.Fail? {
        return;
      }
      var cmd := r.value;
      var found := Peek("&");
      while found
        invariant Valid() && old(ps) <= ps && Delimited(cmd, buf[..])
        invariant Backgrounds(toks) == Amps(TextOf(cmd, buf[..]), Rest())
        invariant found <==> Rest() != [] && First(Rest()[0]) in "&"
        decreases es - ps
      {
        AmpsUnfold(TextOf(cmd, buf[..]), Rest());
        var _, _, _ := GetToken();
        cmd := Back(cmd);
        found := Peek("&");
      }
      AmpsUnfold(TextOf(cmd, buf[..]), Rest());
      r := Ok(cmd);
    }

    /** parsepipe. */
    method ParsePipe() returns (r: Result<Cmd<Span>>)
      requires Valid()
      modifies this`ps
      ensures Valid() && old(ps) <= ps && Agrees(r, Pipeline(old(Rest())))
      decreases es - ps, 3
    {
      hide Tokens, Command, Block, Redirs, Args;
      r := ParseExec();
      if r.Fail? {
        return;
      }
      var cmd := r.value;
      var found := Peek("|");
      if found {
        var _, _, _ := GetToken();
        var right := ParsePipe();
        if right.Fail? {
          return right;
        }
        r := Ok(Pipe(cmd, right.value));
      }
    }

    /** parseredirs: the command wrapped in the redirections that follow. */
    method ParseRedirs(c: Cmd<Span>) returns (r: Result<Cmd<Span>>, ghost rs: seq<Redirection<Span>>)
      requires Valid()
      modifies this`ps
      ensures Valid() && old(ps) <= ps
      ensures r.Fail? ==> Redirs(old(Rest())) == Panic(r.message)
      ensures r.Ok? ==> Redirs(old(Rest())) == Parsed(RedirTexts(rs, buf[..]), Rest())
      ensures r.Ok? ==> r.value == Wrap(c, rs) && RedirsDelimited(rs, buf[..])
    {
      hide Redirs, Tokens, Behind, Wrap, RedirTexts, Delimits;
      ghost var toks := Rest();
      var cmd := c;
      rs := [];
      NothingBehind(c, buf[..], Redirs(toks));
      var found := Peek("<>");
      while found
        invariant Valid() && old(ps) <= ps && RedirsDelimited(rs, buf[..]) && cmd == Wrap(c, rs)
        invariant Redirs(toks) == Behind(RedirTexts(rs, buf[..]), Redirs(Rest()))
        invariant found <==> Rest() != [] && First(Rest()[0]) in "<>"
        decreases es - ps
      {
        ghost var now := Rest();
        var tok, _, _ := GetToken();
        var file, q, eq := GetToken();
        RedirsUnfold(now);
        BehindLast(RedirTexts(rs, buf[..]), Redirs(now));
        if file != 'a' {
          return Fail("missing file for redirection"), rs;
        }
        var redir := if tok == '<' then Redirection(Span(q, eq), O_RDONLY, 0)
                     else Redirection(Span(q, eq), O_WRONLY + O_CREATE, 1);
        WrapMore(c, rs, redir);
        RedirTextsMore(rs, redir, buf[..], Redirs(Rest()));
        assert RedirText(redir, buf[..]) == RedirectionOf(now[0], now[1].w) && Rest() == now[2..];
        cmd := Redir(cmd, redir);
        rs := rs + [redir];
        found := Peek("<>");
      }
      RedirsUnfold(Rest());
      BehindLast(RedirTexts(rs, buf[..]), Redirs(Rest()));
      r := Ok(cmd);
    }

    static lemma NothingBehind(c: Cmd<Span>, s: seq<char>, p: Parse<seq<Redirection<string>>>)
      ensures Wrap(c, []) == c && Behind(RedirTexts([], s), p) == p
    {
      assert RedirTexts([], s) == [];
      assert p.Parsed? ==> [] + p.value == p.value;
    }

    static lemma BehindLast(done: seq<Redirection<string>>, p: Parse<seq<Redirection<string>>>)
      ensures p.Panic? ==> Behind(done, p) == p
      ensures p.Parsed? && p.value == [] ==> Behind(done, p) == Parsed(done, p.rest)
    {
      assert done + [] == done;
    }

    static lemma RedirTextsMore(rs: seq<Redirection<Span>>, r: Redirection<Span>, s: seq<char>,
                                p: Parse<seq<Redirection<string>>>)
      ensures Behind(RedirTexts(rs, s), Behind([RedirText(r, s)], p)) == Behind(RedirTexts(rs + [r], s), p)
    {
      assert RedirTexts(rs + [r], s) == RedirTexts(rs, s) + [RedirText(r, s)];
      if p.Parsed? {
        assert RedirTexts(rs, s) + ([RedirText(r, s)] + p.value) == RedirTexts(rs + [r], s) + p.value;
      }
    }

    /** One step of the grammar of redirections. */
    static lemma RedirsUnfold(toks: seq<Token>)
      ensures toks == [] || !IsRedirect(toks[0]) ==> Redirs(toks) == Parsed([], toks)
      ensures toks != [] && IsRedirect(toks[0]) && (|toks| < 2 || !toks[1].Word?) ==>
                Redirs(toks) == Panic("missing file for redirection")
      ensures |toks| >= 2 && IsRedirect(toks[0]) && toks[1].Word? ==>
                Redirs(toks) == Behind([RedirectionOf(toks[0], toks[1].w)], Redirs(toks[2..]))
    {
    }

    /** parseblock. */
    method ParseBlock() returns (r: Result<Cmd<Span>>)
      requires Valid() && Rest() != [] && Rest()[0] == Open
      modifies this`ps
      ensures Valid() && old(ps) <= ps && Agrees(r, Block(old(Rest())))
      decreases es - ps, 0
    {
      hide Tokens, Line, Redirs;
      var found := Peek("(");
      if !found {
        return Fail("parseblock");
      }
      var _, _, _ := GetToken();
      r := ParseLine();
      if r.Fail? {
        return;
      }
      var cmd := r.value;
      found := Peek(")");
      if !found {
        return Fail("syntax - missing )");
      }
      var _, _, _ := GetToken();
      ghost var rs;
      r, rs := ParseRedirs(cmd);
      WrapText(cmd, rs, buf[..]);
      WrapDelimited(cmd, rs, buf[..]);
    }

    /** How the grammar of simple commands unfolds. */
    static lemma SimpleUnfold(toks: seq<Token>)
      requires toks == [] || toks[0] != Open
      ensures Redirs(toks).Parsed? ==> Command(toks) == Args([], Redirs(toks).value, Redirs(toks).rest)
      ensures Redirs(toks).Panic? ==> Command(toks) == Panic(Redirs(toks).message)
    {
    }

    static lemma ArgsUnfold(ws: seq<string>, rs: seq<Redirection<string>>, toks: seq<Token>)
      ensures AtStop(toks) ==> Args(ws, rs, toks) == Parsed(Wrap(Exec(ws), rs), toks)
      ensures !AtStop(toks) && !toks[0].Word? ==> Args(ws, rs, toks) == Panic("syntax")
      ensures !AtStop(toks) && toks[0].Word? && |ws| + 1 >= MAXARGS ==> Args(ws, rs, toks) == Panic("too many args")
      ensures !AtStop(toks) && toks[0].Word? && |ws| + 1 < MAXARGS ==>
                Redirs(toks[1..]).Parsed? ==>
                  Args(ws, rs, toks) == Args(ws + [toks[0].w], rs + Redirs(toks[1..]).value, Redirs(toks[1..]).rest)
      ensures !AtStop(toks) && toks[0].Word? && |ws| + 1 < MAXARGS ==>
                Redirs(toks[1..]).Panic? ==> Args(ws, rs, toks) == Panic(Redirs(toks[1..]).message)
    {
    }

    static lemma TextsMore(argv: seq<Span>, w: Span, rs: seq<Redirection<Span>>, more: seq<Redirection<Span>>,
                           s: seq<char>)
      ensures ArgTexts([], s) == [] && ArgTexts(argv + [w], s) == ArgTexts(argv, s) + [WordAt(s, w)]
      ensures RedirTexts(rs + more, s) == RedirTexts(rs, s) + RedirTexts(more, s)
    {
    }

    static lemma WrappedExec(argv: seq<Span>, rs: seq<Redirection<Span>>, s: seq<char>)
      ensures TextOf(Wrap(Exec(argv), rs), s) == Wrap(Exec(ArgTexts(argv, s)), RedirTexts(rs, s))
      ensures Delimited(Wrap(Exec(argv), rs), s) <==> RedirsDelimited(rs, s) && ArgsDelimited(argv, s)
    {
      WrapText(Exec(argv), rs, s);
      WrapDelimited(Exec(argv), rs, s);
    }

    /** parseexec. */
    method ParseExec() returns (r: Result<Cmd<Span>>)
      requires Valid()
      modifies this`ps
      ensures Valid() && old(ps) <= ps && Agrees(r, Command(old(Rest())))
      decreases es - ps, 2
    {
      hide Tokens, Line, Redirs, Block, Args, Wrap, TextOf, Delimited, Delimits;
      ghost var toks := Rest();
      var found := Peek("(");
      if found {
        r := ParseBlock();
        return;
      }
      r := ParseSimple();
    }

    /** The part of parseexec for commands without parentheses. */
    method ParseSimple() returns (r: Result<Cmd<Span>>)
      requires Valid() && (Rest() != [] ==> Rest()[0] != Open)
      modifies this`ps
      ensures Valid() && old(ps) <= ps && Agrees(r, Command(old(Rest())))
    {
      hide Tokens, Command, Redirs, Args, Wrap, TextOf, Delimited, Delimits, ArgTexts, RedirTexts, RedirsDelimited;
      ghost var toks, text := Rest(), buf[..];
      SimpleUnfold(toks);
      var argv: seq<Span> := [];
      ghost var rs;
      r, rs := ParseRedirs(Exec([]));
      if r.Fail? {
        return;
      }
      var ret := r.value;
      TextsMore([], Span(0, 0), rs, [], text);
      var found := Peek("|)&;");
      while !found
        invariant Valid() && old(ps) <= ps && |argv| < MAXARGS
        invariant ret == Wrap(Exec(argv), rs) && RedirsDelimited(rs, text) && ArgsDelimited(argv, text)
        invariant Command(toks) == Args(ArgTexts(argv, text), RedirTexts(rs, text), Rest())
        invariant found <==> Rest() != [] && First(Rest()[0]) in "|)&;"
        decreases es - ps
      {
        ghost var now := Rest();
        ArgsUnfold(ArgTexts(argv, text), RedirTexts(rs, text), now);
        var tok, q, eq := GetToken();
        if tok == NUL {
          break;
        }
        if tok != 'a' {
          return Fail("syntax");
        }
        WithArgvWrap(Exec(argv), argv + [Span(q, eq)], rs);
        ret := WithArgv(ret, argv + [Span(q, eq)]);
        if |argv| + 1 >= MAXARGS {
          return Fail("too many args");
        }
        ghost var more;
        r, more := ParseRedirs(ret);
        if r.Fail? {
          return;
        }
        TextsMore(argv, Span(q, eq), rs, more, text);
        argv := argv + [Span(q, eq)];
        WrapWrap(Exec(argv), rs, more);
        MoreDelimited(rs, more, text);
        ret, rs := r.value, rs + more;
        found := Peek("|)&;");
      }
      ArgsUnfold(ArgTexts(argv, text), RedirTexts(rs, text), Rest());
      WrappedExec(argv, rs, text);
      r := Ok(ret);
    }

    static lemma MoreDelimited(rs: seq<Redirection<Span>>, more: seq<Redirection<Span>>, s: seq<char>)
      requires RedirsDelimited(rs, s) && RedirsDelimited(more, s)
      ensures RedirsDelimited(rs + more, s)
    {
    }

    /** nulterminate. */
    method NulTerminate(c: Cmd<Span>)
      requires forall e :: e in Ends(c) ==> e < buf.Length
      modifies buf
      ensures Cut(old(buf[..]), buf[..], Ends(c))
      decreases c
    {
      match c
      case Exec(argv) =>
        var i := 0;
        while i < |argv|
          invariant i <= |argv|
          invariant Cut(old(buf[..]), buf[..], Ends(Exec(argv[..i])))
        {
          assert argv[i].eq in Ends(c);
          buf[argv[i].eq] := NUL;
          assert Ends(Exec(argv[..i + 1])) == Ends(Exec(argv[..i])) + {argv[i].eq};
          i := i + 1;
        }
        assert argv[..|argv|] == argv;
      case Redir(d, r) =>
        assert Ends(c) == Ends(d) + {r.file.eq};
        NulTerminate(d);
        buf[r.file.eq] := NUL;
      case Pipe(left, right) =>
        assert Ends(c) == Ends(left) + Ends(right);
        NulTerminate(left);
        NulTerminate(right);
      case List(left, right) =>
        assert Ends(c) == Ends(left) + Ends(right);
        NulTerminate(left);
        NulTerminate(right);
      case Back(d) =>
        assert Ends(c) == Ends(d);
        NulTerminate(d);
    }
  }

  /** parsecmd, on the C string in buf: the parse of the line, whose words are C strings in the buffer afterwards. */
  method ParseCmd(buf: array<char>) returns (r: Result<Cmd<Span>>)
    requires NUL in buf[..]
    modifies buf
    ensures NUL !in CString(old(buf[..]), 0)
    ensures r.Fail? ==> CommandLine(Tokens(CString(old(buf[..]), 0))) == Panic(r.message) && buf[..] == old(buf[..])
    ensures r.Ok? ==> CommandLine(Tokens(CString(old(buf[..]), 0))) == Parsed(CStrings(r.value, buf[..]), [])
    ensures r.Ok? ==> Good(CStrings(r.value, buf[..]))
    ensures forall c :: Good(c) && CString(old(buf[..]), 0) == Render(c) ==> r.Ok? && CStrings(r.value, buf[..]) == c
  {
    var es := 0;
    while buf[es] != NUL
      invariant es < buf.Length && NUL !in buf[..es] && NUL in buf[es..]
      decreases buf.Length - es
    {
      assert buf[es..] == [buf[es]] + buf[es + 1..];
      es := es + 1;
    }
    ghost var input := buf[..];
    CStringIs(input, 0, es);
    var parser := new Parser(buf, es);
    assert buf[0..es] == CString(input, 0);
    forall c | Good(c) && CString(input, 0) == Render(c)
      ensures CommandLine(parser.Rest()) == Parsed(c, [])
    {
      RoundTrip(c);
    }
    r := parser.ParseLine();
    if r.Fail? {
      return;
    }
    var _ := parser.Peek("");
    if parser.ps != es {
      return Fail("syntax");
    }
    EndsOutsideWords(r.value, input);
    parser.NulTerminate(r.value);
    WordsSurvive(r.value, input, buf[..], Ends(r.value));
    TokensGood(CString(input, 0));
    LineGood(Tokens(CString(input, 0)));
  }
}
