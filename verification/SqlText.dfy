/** Reading SQL text back: the part of SQLite's tokenizer that the REST layer's statements use, as
    a machine over characters, and what it makes of quoted names, numbers and joined pieces. Text
    is a sequence of bytes, one char per byte. */
module SqlText {
  import opened Prelude
  import Decimal
  import Strings

  datatype Token = Word(text: string) | Ident(name: string) | Number(digits: string) | Sym(text: string)

  datatype Mode =
    | Between | InWord(text: string) | InNumber(text: string)
    | InQuotes(text: string) | AfterQuote(text: string)
    | AfterBang | AfterLess | AfterGreater | Broken

  datatype State = State(mode: Mode, tokens: seq<Token>)

  predicate IsLetter(c: char)
  {
    'A' <= c <= 'Z' || 'a' <= c <= 'z' || c == '_'
  }

  /** The token under way when the text ends or breaks off. */
  function Pending(m: Mode): seq<Token>
  {
    match m
    case InWord(t) => [Word(t)]
    case InNumber(t) => [Number(t)]
    case AfterQuote(t) => [Ident(t)]
    case AfterLess => [Sym("<")]
    case AfterGreater => [Sym(">")]
    case _ => []
  }

  predicate CanSettle(m: Mode)
  {
    !m.InQuotes? && !m.AfterBang? && !m.Broken?
  }

  function Settle(st: State): State
  {
    State(Between, st.tokens + Pending(st.mode))
  }

  /** A character where a token may start. */
  function Begin(ts: seq<Token>, c: char): State
  {
    if c == ' ' then State(Between, ts)
    else if IsLetter(c) then State(InWord([c]), ts)
    else if Decimal.IsDigit(c) then State(InNumber([c]), ts)
    else if c == '"' then State(InQuotes(""), ts)
    else if c == '!' then State(AfterBang, ts)
    else if c == '<' then State(AfterLess, ts)
    else if c == '>' then State(AfterGreater, ts)
    else if c in ",()?=*" then State(Between, ts + [Sym([c])])
    else State(Broken, ts)
  }

  function Step(st: State, c: char): State
  {
    match st.mode
    case Between => Begin(st.tokens, c)
    case InWord(t) =>
      if IsLetter(c) || Decimal.IsDigit(c) then State(InWord(t + [c]), st.tokens) else Begin(Settle(st).tokens, c)
    case InNumber(t) =>
      if Decimal.IsDigit(c) then State(InNumber(t + [c]), st.tokens)
      else if IsLetter(c) then State(Broken, st.tokens)
      else Begin(Settle(st).tokens, c)
    case InQuotes(t) => if c == '"' then State(AfterQuote(t), st.tokens) else State(InQuotes(t + [c]), st.tokens)
    case AfterQuote(t) => if c == '"' then State(InQuotes(t + [c]), st.tokens) else Begin(Settle(st).tokens, c)
    case AfterBang => if c == '=' then State(Between, st.tokens + [Sym("!=")]) else State(Broken, st.tokens)
    case AfterLess =>
      if c == '=' then State(Between, st.tokens + [Sym("<=")])
      else if c in "<>" then State(Broken, st.tokens)
      else Begin(Settle(st).tokens, c)
    case AfterGreater =>
      if c == '=' then State(Between, st.tokens + [Sym(">=")])
      else if c == '>' then State(Broken, st.tokens)
      else Begin(Settle(st).tokens, c)
    case Broken => st
  }

  function Run(st: State, s: string): State
    decreases |s|
  {
    if s == "" then st else Run(Step(st, s[0]), s[1..])
  }

  /** The tokens of a whole text. */
  function Tokens(s: string): Option<seq<Token>>
  {
    var st := Run(State(Between, []), s);
    if CanSettle(st.mode) then Some(Settle(st).tokens) else None
  }

  lemma {:induction false} RunAppend(st: State, a: string, b: string)
    ensures Run(st, a + b) == Run(Run(st, a), b)
    decreases |a|
  {
    if a == "" {
      assert a + b == b;
    } else {
      RunAppend(Step(st, a[0]), a[1..], b);
      assert (a + b)[1..] == a[1..] + b;
    }
  }

  // ---- Pieces of text -------------------------------------------------------------------

  ghost predicate ReadsAfter(ts: seq<Token>, piece: string, toks: seq<Token>)
  {
    var st := Run(State(Between, ts), piece);
    CanSettle(st.mode) && st.tokens + Pending(st.mode) == ts + toks
  }

  /** Standing on its own, the piece reads as these tokens, whatever came before. */
  ghost predicate Reads(piece: string, toks: seq<Token>)
  {
    forall ts {:trigger ReadsAfter(ts, piece, toks)} :: ReadsAfter(ts, piece, toks)
  }

  predicate IsBreak(c: char)
  {
    c == ' ' || c == ',' || c == '(' || c == ')'
  }

  /** No token can straddle the seam between the two pieces. */
  predicate Seam(a: string, b: string)
  {
    a == "" || b == "" || IsBreak(a[|a| - 1]) || IsBreak(b[0])
  }

  lemma {:induction false} RunOne(st: State, c: char)
    ensures Run(st, [c]) == Step(st, c)
  {
    assert [c][1..] == "";
  }

  lemma BreakSettles(st: State, c: char)
    requires CanSettle(st.mode) && IsBreak(c)
    ensures Step(st, c) == Step(Settle(st), c)
  {
  }

  lemma AfterBreak(st: State, c: char)
    requires IsBreak(c) && CanSettle(Step(st, c).mode)
    ensures Step(st, c).mode == Between
  {
  }

  /** Text that ends in a break leaves nothing pending. */
  lemma {:induction false} EndsClean(st: State, a: string)
    requires a != "" && IsBreak(a[|a| - 1]) && CanSettle(Run(st, a).mode)
    ensures Run(st, a).mode == Between
  {
    var init, c := a[..|a| - 1], a[|a| - 1];
    assert a == init + [c];
    RunAppend(st, init, [c]);
    RunOne(Run(st, init), c);
    AfterBreak(Run(st, init), c);
  }

  lemma GlueAfter(ts: seq<Token>, a: string, ta: seq<Token>, b: string, tb: seq<Token>)
    requires ReadsAfter(ts, a, ta) && ReadsAfter(ts + ta, b, tb) && Seam(a, b)
    ensures ReadsAfter(ts, a + b, ta + tb)
  {
    var s0 := State(Between, ts);
    var st := Run(s0, a);
    RunAppend(s0, a, b);
    assert ts + ta + tb == ts + (ta + tb);
    if b == "" {
      assert a + b == a;
      assert State(Between, ts + ta).tokens + Pending(Between) == ts + ta;
      assert tb == [] by { assert (ts + ta) + tb == ts + ta; assert |tb| == 0; }
    } else if a == "" {
      assert ts + ta == ts;
    } else if IsBreak(a[|a| - 1]) {
      EndsClean(s0, a);
      assert st == State(Between, ts + ta);
    } else {
      BreakSettles(st, b[0]);
      assert Settle(st) == State(Between, ts + ta);
    }
  }

  lemma Glue(a: string, ta: seq<Token>, b: string, tb: seq<Token>)
    requires Reads(a, ta) && Reads(b, tb) && Seam(a, b)
    ensures Reads(a + b, ta + tb)
  {
    forall ts ensures ReadsAfter(ts, a + b, ta + tb) {
      assert ReadsAfter(ts, a, ta) && ReadsAfter(ts + ta, b, tb);
      GlueAfter(ts, a, ta, b, tb);
    }
  }

  lemma EmptyReads()
    ensures Reads("", [])
  {
  }

  /** Reading the whole text is reading it as a piece. */
  lemma TokensOf(s: string, toks: seq<Token>)
    requires Reads(s, toks)
    ensures Tokens(s) == Some(toks)
  {
    assert ReadsAfter([], s, toks);
    assert [] + toks == toks;
  }

  lemma {:induction false} InsideWord(t: string, ts: seq<Token>, w: string)
    requires forall c :: c in w ==> IsLetter(c)
    ensures Run(State(InWord(t), ts), w) == State(InWord(t + w), ts)
    decreases |w|
  {
    if w == "" {
      assert t + w == t;
    } else {
      InsideWord(t + [w[0]], ts, w[1..]);
      assert t + [w[0]] + w[1..] == t + w;
    }
  }

  lemma WordReads(w: string)
    requires w != "" && forall c :: c in w ==> IsLetter(c)
    ensures Reads(w, [Word(w)])
  {
    forall ts ensures ReadsAfter(ts, w, [Word(w)]) {
      InsideWord([w[0]], ts, w[1..]);
      assert IsLetter(w[0]) && [w[0]] + w[1..] == w;
    }
  }

  lemma {:induction false} InsideNumber(t: string, ts: seq<Token>, w: string)
    requires forall c :: c in w ==> Decimal.IsDigit(c)
    ensures Run(State(InNumber(t), ts), w) == State(InNumber(t + w), ts)
    decreases |w|
  {
    if w == "" {
      assert t + w == t;
    } else {
      InsideNumber(t + [w[0]], ts, w[1..]);
      assert t + [w[0]] + w[1..] == t + w;
    }
  }

  lemma {:induction false} NumberReads(n: nat)
    ensures Reads(Decimal.Render(n), [Number(Decimal.Render(n))])
  {
    var w := Decimal.Render(n);
    Decimal.RenderDigits(n);
    forall ts ensures ReadsAfter(ts, w, [Number(w)]) {
      DigitsRead(ts, w);
    }
  }

  lemma DigitsRead(ts: seq<Token>, w: string)
    requires w != "" && forall c :: c in w ==> Decimal.IsDigit(c)
    ensures ReadsAfter(ts, w, [Number(w)])
  {
    assert Decimal.IsDigit(w[0]) && !IsLetter(w[0]);
    InsideNumber([w[0]], ts, w[1..]);
    assert [w[0]] + w[1..] == w;
  }

  /** Single separators and symbols. */
  lemma CharReads(c: char)
    requires c == ' ' || c in ",()?=*"
    ensures Reads([c], if c == ' ' then [] else [Sym([c])])
  {
    var toks := if c == ' ' then [] else [Sym([c])];
    forall ts ensures ReadsAfter(ts, [c], toks) {
      RunOne(State(Between, ts), c);
    }
  }

  /** A word with blanks around it. */
  lemma SpacedWord(w: string)
    requires w != "" && forall c :: c in w ==> IsLetter(c)
    ensures Reads(w + " ", [Word(w)]) && Reads(" " + w, [Word(w)]) && Reads(" " + w + " ", [Word(w)])
  {
    WordReads(w);
    CharReads(' ');
    assert [] + [Word(w)] == [Word(w)] && [Word(w)] + [] == [Word(w)];
    Glue(" ", [], w, [Word(w)]);
    Glue(w, [Word(w)], " ", []);
    Glue(" " + w, [Word(w)], " ", []);
  }

  // ---- Quoted names ---------------------------------------------------------------------

  /** restQuoteIdent: strings.ReplaceAll doubles the quotation marks inside. */
  function Quote(name: string): string
  {
    "\"" + Strings.Doubled(name) + "\""
  }

  /** A quotation mark inside a quoted name is doubled, and read back as one. */
  lemma {:induction false} ThroughQuotes(t: string, ts: seq<Token>, c: char, rest: string)
    ensures Run(State(InQuotes(t), ts), Strings.Escaped(c) + rest) == Run(State(InQuotes(t + [c]), ts), rest)
  {
    RunAppend(State(InQuotes(t), ts), Strings.Escaped(c), rest);
    RunOne(State(InQuotes(t), ts), c);
    if c == '"' {
      RunAppend(State(InQuotes(t), ts), "\"", "\"");
      RunOne(State(AfterQuote(t), ts), c);
      assert Strings.Escaped(c) == "\"" + "\"";
    }
  }

  lemma {:induction false} InsideQuotes(t: string, ts: seq<Token>, name: string)
    ensures Run(State(InQuotes(t), ts), Strings.Doubled(name)) == State(InQuotes(t + name), ts)
    decreases |name|
  {
    if name == "" {
      assert t + name == t;
    } else {
      assert Strings.Doubled(name) == Strings.Escaped(name[0]) + Strings.Doubled(name[1..]);
      ThroughQuotes(t, ts, name[0], Strings.Doubled(name[1..]));
      InsideQuotes(t + [name[0]], ts, name[1..]);
      assert t + [name[0]] + name[1..] == t + name;
    }
  }

  /** A quoted name, whatever is in it, reads back as that one name. */
  lemma QuoteReads(name: string)
    ensures Reads(Quote(name), [Ident(name)])
  {
    var q := Quote(name);
    forall ts ensures ReadsAfter(ts, q, [Ident(name)]) {
      assert q[1..] == Strings.Doubled(name) + "\"";
      InsideQuotes("", ts, name);
      RunAppend(State(InQuotes(""), ts), Strings.Doubled(name), "\"");
      RunOne(State(InQuotes(name), ts), '"');
      assert "" + name == name;
    }
  }

  lemma UnquoteQuote(name: string)
    ensures Tokens(Quote(name)) == Some([Ident(name)])
  {
    QuoteReads(name);
    TokensOf(Quote(name), [Ident(name)]);
  }

  lemma QuoteInjective(a: string, b: string)
    requires Quote(a) == Quote(b)
    ensures a == b
  {
    UnquoteQuote(a);
    UnquoteQuote(b);
    assert [Ident(a)][0] == [Ident(b)][0];
  }

  // ---- Joined pieces --------------------------------------------------------------------

  /** The tokens of a list of items with a separator between them. */
  function ListTokens<T>(xs: seq<T>, f: T -> seq<Token>, sep: Token): seq<Token>
  {
    if xs == [] then []
    else if |xs| == 1 then f(xs[0])
    else f(xs[0]) + ([sep] + ListTokens(xs[1..], f, sep))
  }

  lemma {:induction false} JoinReads<T>(parts: seq<string>, xs: seq<T>, f: T -> seq<Token>, text: string, sep: Token)
    requires |parts| == |xs| && forall i :: 0 <= i < |xs| ==> Reads(parts[i], f(xs[i]))
    requires Reads(text, [sep]) && text != "" && IsBreak(text[0]) && IsBreak(text[|text| - 1])
    ensures Reads(Strings.Join(parts, text), ListTokens(xs, f, sep))
  {
    if xs == [] {
      EmptyReads();
    } else if |xs| > 1 {
      JoinReads(parts[1..], xs[1..], f, text, sep);
      var rest := Strings.Join(parts[1..], text);
      Glue(text, [sep], rest, ListTokens(xs[1..], f, sep));
      Glue(parts[0], f(xs[0]), text + rest, [sep] + ListTokens(xs[1..], f, sep));
      Associates(parts[0], text, rest);
    }
  }
}
