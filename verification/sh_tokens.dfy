/** The shell's characters and tokens (sh.c), as gettoken sees them. */
module ShellTokens {

  const NUL: char := '\0'

  predicate White(c: char) {
    c == ' ' || c == '\t' || c == '\r' || c == '\n' || c == '\U{0B}'
  }

  predicate Symbol(c: char) {
    c == '<' || c == '|' || c == '>' || c == '&' || c == ';' || c == '(' || c == ')'
  }

  predicate WordChar(c: char) {
    !White(c) && !Symbol(c) && c != NUL
  }

  datatype Token = Bar | Open | Close | Semi | Amp | Less | Greater | Append | Word(w: string)

  /** gettoken's return value for a token. */
  function Code(t: Token): char {
    match t
    case Bar => '|'
    case Open => '('
    case Close => ')'
    case Semi => ';'
    case Amp => '&'
    case Less => '<'
    case Greater => '>'
    case Append => '+'
    case Word(_) => 'a'
  }

  function OfSymbol(c: char): Token
    requires Symbol(c)
  {
    if c == '|' then Bar else if c == '(' then Open else if c == ')' then Close else if c == ';' then Semi
    else if c == '&' then Amp else if c == '<' then Less else Greater
  }

  /** The length of the word s starts with. */
  function WordLength(s: string): (n: nat)
    ensures n <= |s| && (forall k :: 0 <= k < n ==> WordChar(s[k])) && (n < |s| ==> !WordChar(s[n]))
  {
    if s != "" && WordChar(s[0]) then 1 + WordLength(s[1..]) else 0
  }

  function Tokens(s: string): seq<Token>
    requires NUL !in s
  {
    if s == "" then []
    else if White(s[0]) then Tokens(s[1..])
    else if s[0] == '>' && |s| > 1 && s[1] == '>' then [Append] + Tokens(s[2..])
    else if Symbol(s[0]) then [OfSymbol(s[0])] + Tokens(s[1..])
    else [Word(s[..WordLength(s)])] + Tokens(s[WordLength(s)..])
  }

  predicate GoodWord(w: string) {
    w != "" && forall k :: 0 <= k < |w| ==> WordChar(w[k])
  }

  predicate GoodToken(t: Token) {
    t.Word? ==> GoodWord(t.w)
  }

  /** Words of the input are not empty and hold no blanks or symbols. */
  lemma {:induction false} TokensGood(s: string)
    requires NUL !in s
    ensures forall t :: t in Tokens(s) ==> GoodToken(t)
  {
    if s == "" {
    } else if White(s[0]) {
      TokensGood(s[1..]);
    } else if s[0] == '>' && |s| > 1 && s[1] == '>' {
      TokensGood(s[2..]);
    } else if Symbol(s[0]) {
      TokensGood(s[1..]);
    } else {
      TokensGood(s[WordLength(s)..]);
    }
  }

  // ---- writing tokens down -------------------------------------------------------------------------------------

  function Text(t: Token): string {
    match t
    case Append => ">>"
    case Word(w) => w
    case _ => [Code(t)]
  }

  /** Tokens with a blank behind each. */
  function Spaced(toks: seq<Token>): string {
    if toks == [] then "" else Text(toks[0]) + " " + Spaced(toks[1..])
  }

  lemma {:induction false} SpacedTerminated(toks: seq<Token>)
    requires forall t :: t in toks ==> GoodToken(t)
    ensures NUL !in Spaced(toks)
  {
    if toks != [] {
      assert GoodToken(toks[0]);
      SpacedTerminated(toks[1..]);
    }
  }

  lemma {:induction false} WordLengthOf(w: string, s: string)
    requires (forall k :: 0 <= k < |w| ==> WordChar(w[k])) && (s == "" || !WordChar(s[0]))
    ensures WordLength(w + s) == |w|
  {
    if w != "" {
      WordLengthOf(w[1..], s);
      assert (w + s)[1..] == w[1..] + s;
    } else {
      assert w + s == s;
    }
  }

  lemma LexWord(w: string, s: string)
    requires GoodToken(Word(w)) && NUL !in s && s != "" && !WordChar(s[0])
    ensures NUL !in w + s && Tokens(w + s) == [Word(w)] + Tokens(s)
  {
    WordLengthOf(w, s);
    assert (w + s)[|w|..] == s && (w + s)[..|w|] == w;
  }

  /** One step of the lexer at a symbol. */
  lemma TokensAtSymbol(all: string)
    requires NUL !in all && all != "" && Symbol(all[0])
    ensures if all[0] == '>' && |all| > 1 && all[1] == '>' then Tokens(all) == [Append] + Tokens(all[2..])
            else Tokens(all) == [OfSymbol(all[0])] + Tokens(all[1..])
  {
    hide WordLength;
  }

  lemma LexOther(t: Token, s: string)
    requires !t.Word? && NUL !in s && (t == Greater && s != "" ==> s[0] != '>')
    ensures NUL !in Text(t) + s && Tokens(Text(t) + s) == [t] + Tokens(s)
  {
    hide Tokens;
    var all := Text(t) + s;
    TokensAtSymbol(all);
    assert all[|Text(t)|..] == s;
    if !t.Append? {
      assert all[0] == Code(t) && (s != "" ==> all[1] == s[0]);
    }
  }

  lemma LexOne(t: Token, s: string)
    requires GoodToken(t) && NUL !in s
    ensures NUL !in Text(t) + " " + s && Tokens(Text(t) + " " + s) == [t] + Tokens(s)
  {
    var more := " " + s;
    assert Text(t) + " " + s == Text(t) + more && more[1..] == s;
    assert Tokens(more) == Tokens(s);
    if t.Word? {
      LexWord(t.w, more);
    } else {
      LexOther(t, more);
    }
  }

  /** The lexer reads back what was written down. */
  lemma {:induction false} LexRoundTrip(toks: seq<Token>)
    requires forall t :: t in toks ==> GoodToken(t)
    ensures NUL !in Spaced(toks) && Tokens(Spaced(toks)) == toks
  {
    SpacedTerminated(toks);
    if toks != [] {
      LexRoundTrip(toks[1..]);
      hide Tokens, GoodToken, Text;
      LexOne(toks[0], Spaced(toks[1..]));
    } else {
      assert Tokens("") == [];
    }
  }

  // ---- any layout ----------------------------------------------------------------------------------------------

  /** What may stand between tokens. */
  predicate Gap(g: string) {
    forall k :: 0 <= k < |g| ==> g[k] in " \t\r\n\U{0B}"
  }

  /** The tokens keep apart without a gap: one of them is a symbol, and no > runs into another. */
  predicate Touch(a: Token, b: Token) {
    !(a.Word? && b.Word?) && !(a == Greater && (b == Greater || b == Append))
  }

  predicate Apart(gaps: seq<string>, toks: seq<Token>) {
    && |gaps| == |toks| + 1 && (forall k :: 0 <= k < |gaps| ==> Gap(gaps[k]))
    && forall k :: 0 < k < |toks| && gaps[k] == "" ==> Touch(toks[k - 1], toks[k])
  }

  /** The tokens, each behind its gap, and the last gap. */
  function Laid(gaps: seq<string>, toks: seq<Token>): string
    requires |gaps| == |toks| + 1
  {
    if toks == [] then gaps[0] else gaps[0] + (Text(toks[0]) + Laid(gaps[1..], toks[1..]))
  }

  lemma {:induction false} LexGap(g: string, s: string)
    requires Gap(g) && NUL !in s
    ensures NUL !in g + s && Tokens(g + s) == Tokens(s)
  {
    if g == "" {
      assert g + s == s;
    } else {
      LexGap(g[1..], s);
      assert g[0] in " \t\r\n\U{0B}";
      assert (g + s)[1..] == g[1..] + s && g + s == [g[0]] + (g[1..] + s);
    }
  }

  lemma LexEnd(w: string)
    requires GoodWord(w)
    ensures NUL !in w && Tokens(w) == [Word(w)]
  {
    WordLengthOf(w, "");
    assert w + "" == w && w[..|w|] == w && w[|w|..] == "";
    assert Tokens("") == [];
  }

  /** How a layout goes on behind a token. */
  lemma LaidStarts(gaps: seq<string>, toks: seq<Token>, before: Token)
    requires Apart(gaps, toks) && (forall t :: t in toks ==> GoodToken(t))
    requires toks != [] && gaps[0] == "" ==> Touch(before, toks[0])
    ensures var s := Laid(gaps, toks);
            s != "" ==> (before.Word? ==> !WordChar(s[0])) && (before == Greater ==> s[0] != '>')
  {
    var s := Laid(gaps, toks);
    if gaps[0] != "" {
      assert s[0] == gaps[0][0];
      assert gaps[0][0] in " \t\r\n\U{0B}";
    } else if toks != [] {
      assert GoodToken(toks[0]);
      assert s[0] == Text(toks[0])[0];
    }
  }

  /** However the tokens are laid out: with any spaces, tabs, carriage returns, newlines and vertical tabs between them,
      or none next to a symbol, they are read back. */
  lemma {:induction false} LexLaid(gaps: seq<string>, toks: seq<Token>)
    requires Apart(gaps, toks) && forall t :: t in toks ==> GoodToken(t)
    ensures NUL !in Laid(gaps, toks) && Tokens(Laid(gaps, toks)) == toks
  {
    if toks == [] {
      LexGap(gaps[0], "");
      assert gaps[0] + "" == gaps[0] && Tokens("") == [];
    } else {
      var t, more := toks[0], Laid(gaps[1..], toks[1..]);
      assert GoodToken(t);
      LexLaid(gaps[1..], toks[1..]);
      LaidStarts(gaps[1..], toks[1..], t);
      LexNext(t, more);
      LexGap(gaps[0], Text(t) + more);
    }
  }

  lemma LexNext(t: Token, s: string)
    requires GoodToken(t) && NUL !in s
    requires s != "" ==> (t.Word? ==> !WordChar(s[0])) && (t == Greater ==> s[0] != '>')
    ensures NUL !in Text(t) + s && Tokens(Text(t) + s) == [t] + Tokens(s)
  {
    if !t.Word? {
      LexOther(t, s);
    } else if s == "" {
      LexEnd(t.w);
      assert t.w + s == t.w;
    } else {
      LexWord(t.w, s);
    }
  }

  /** A closing parenthesis ends whatever token stands before it. */
  lemma {:induction false} LexUpToClose(s: string, more: string)
    requires NUL !in s && NUL !in more
    ensures NUL !in s + (")" + more) && Tokens(s + (")" + more)) == Tokens(s) + ([Close] + Tokens(more))
    decreases |s|, 1
  {
    hide WordLength;
    var tail := ")" + more;
    if s == "" {
      LexOther(Close, more);
      assert s + tail == tail;
    } else if White(s[0]) {
      LexUpToClose(s[1..], more);
      assert (s + tail)[1..] == s[1..] + tail;
    } else if Symbol(s[0]) {
      SymbolUpToClose(s, more);
    } else {
      WordUpToClose(s, more);
    }
  }

  lemma {:induction false} SymbolUpToClose(s: string, more: string)
    requires NUL !in s && NUL !in more && s != "" && Symbol(s[0])
    ensures Tokens(s + (")" + more)) == Tokens(s) + ([Close] + Tokens(more))
    decreases |s|, 0
  {
    hide Tokens, OfSymbol;
    var tail := ")" + more;
    var all := s + tail;
    var n := if s[0] == '>' && |s| > 1 && s[1] == '>' then 2 else 1;
    LexUpToClose(s[n..], more);
    TokensAtSymbol(s);
    TokensAtSymbol(all);
    assert all[n..] == s[n..] + tail && all[1] == if |s| > 1 then s[1] else ')';
  }

  lemma {:induction false} WordUpToClose(s: string, more: string)
    requires NUL !in s && NUL !in more && s != "" && WordChar(s[0])
    ensures Tokens(s + (")" + more)) == Tokens(s) + ([Close] + Tokens(more))
    decreases |s|, 0
  {
    hide Tokens, WordLength, Text;
    var tail := ")" + more;
    var n := WordLength(s);
    var rest := s[n..] + tail;
    assert rest[0] == if n < |s| then s[n] else ')';
    LexUpToClose(s[n..], more);
    WordSplits(s);
    LexNext(Word(s[..n]), rest);
    assert Text(Word(s[..n])) == s[..n] by { TextOfWord(s[..n]); }
    assert s + tail == s[..n] + rest;
  }

  lemma TextOfWord(w: string)
    ensures Text(Word(w)) == w
  {
  }

  /** One step of the lexer at a word. */
  lemma WordSplits(s: string)
    requires NUL !in s && s != "" && WordChar(s[0])
    ensures var n := WordLength(s);
            GoodWord(s[..n]) && (s[n..] != "" ==> !WordChar(s[n])) && Tokens(s) == [Word(s[..n])] + Tokens(s[n..])
  {
  }
}
