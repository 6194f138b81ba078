/** SQL text to tokens, for ASCII text (queryx/sql/lexer.py). */
module Lexer {
  import opened Wrappers
  import opened Sql
  import opened Parser

  predicate IsSpace(c: char) { c == ' ' || c == '\t' || c == '\r' || c == '\n' }

  predicate IsAlpha(c: char) { 'a' <= c <= 'z' || 'A' <= c <= 'Z' }

  predicate IsDigit(c: char) { '0' <= c <= '9' }

  predicate IsWordStart(c: char) { IsAlpha(c) || c == '_' }

  predicate IsWordChar(c: char) { IsWordStart(c) || IsDigit(c) }

  /** How many characters of s, from its start, satisfy p. */
  function Run(s: string, p: char -> bool): (n: nat)
    ensures n <= |s|
  {
    if s == "" || !p(s[0]) then 0 else 1 + Run(s[1..], p)
  }

  lemma {:induction false} RunStops(s: string, p: char -> bool)
    ensures forall i :: 0 <= i < Run(s, p) ==> p(s[i])
    ensures Run(s, p) < |s| ==> !p(s[Run(s, p)])
  {
    if s != "" && p(s[0]) { RunStops(s[1..], p); }
  }

  lemma {:induction false} RunIs(s: string, p: char -> bool, n: nat)
    requires n <= |s| && (forall i :: 0 <= i < n ==> p(s[i])) && (n < |s| ==> !p(s[n]))
    ensures Run(s, p) == n
  {
    RunStops(s, p);
  }

  // -- trivia --------------------------------------------------------------------

  predicate AtComment(s: string) { |s| >= 2 && s[0] == '-' && s[1] == '-' }

  function NotNewline(c: char): bool { c != '\n' }

  /** What is left after white space and comments. */
  function SkipTrivia(s: string): (r: string)
    ensures |r| <= |s|
    decreases |s|
  {
    if s != "" && IsSpace(s[0]) then SkipTrivia(s[1..])
    else if AtComment(s) then SkipTrivia(s[Run(s, NotNewline)..])
    else s
  }

  // -- single tokens -------------------------------------------------------------

  function UpperChar(c: char): char {
    if 'a' <= c <= 'z' then ((c as int) - 32) as char else c
  }

  function Upper(w: string): (u: string)
    ensures |u| == |w|
  {
    seq(|w|, i requires 0 <= i < |w| => UpperChar(w[i]))
  }

  /** Reserved words that play no part in predicates. */
  const OTHER_KEYWORDS: set<string> := {
    "CREATE", "TABLE", "DROP", "INSERT", "INTO", "VALUES", "SELECT", "DISTINCT", "FROM", "WHERE", "ORDER", "BY",
    "GROUP", "HAVING", "ASC", "DESC", "LIMIT", "UPDATE", "SET", "DELETE", "INDEX", "ON", "JOIN", "EXPLAIN",
    "INT", "TEXT"
  }

  function WordToken(w: string): Token {
    var u := Upper(w);
    if u == "AND" then AND
    else if u == "OR" then OR
    else if u == "NOT" then NOT
    else if u == "COUNT" then Agg(COUNT)
    else if u == "SUM" then Agg(SUM)
    else if u == "AVG" then Agg(AVG)
    else if u == "MIN" then Agg(MIN)
    else if u == "MAX" then Agg(MAX)
    else if u == "INTEGER" then Keyword("INT")
    else if u in OTHER_KEYWORDS then Keyword(u)
    else Ident(w)
  }

  function DigitValue(c: char): nat
    requires IsDigit(c)
  {
    (c as int) - 48
  }

  predicate AllDigits(w: string) {
    forall i :: 0 <= i < |w| ==> IsDigit(w[i])
  }

  /** The number a run of digits spells. */
  function NumberOf(digits: string): nat
    requires AllDigits(digits)
  {
    if digits == "" then 0
    else
      var last := |digits| - 1;
      10 * NumberOf(digits[..last]) + DigitValue(digits[last])
  }

  /** A token and the text after it; None for a lexing error. */
  type Scanned = Option<(Token, string)>

  /** The text of a string literal from after its opening quote, where '' stands for a quote. */
  function ScanString(s: string, text: string): (r: Scanned)
    ensures r.Some? ==> |r.value.1| < |s|
    decreases |s|
  {
    if s == "" then None
    else if s[0] != '\'' then ScanString(s[1..], text + [s[0]])
    else if |s| >= 2 && s[1] == '\'' then ScanString(s[2..], text + ['\''])
    else Some((Str(text), s[1..]))
  }

  function ScanSymbol(s: string): (r: Scanned)
    requires s != ""
    ensures r.Some? ==> |r.value.1| < |s|
  {
    var equals := |s| >= 2 && s[1] == '=';
    match s[0]
    case ',' => Some((Comma, s[1..]))
    case '(' => Some((LParen, s[1..]))
    case ')' => Some((RParen, s[1..]))
    case ';' => Some((Semicolon, s[1..]))
    case '.' => Some((Dot, s[1..]))
    case '*' => Some((STAR, s[1..]))
    case '-' => Some((Minus, s[1..]))
    case '=' => Some((Cmp(EQ), s[1..]))
    case '<' =>
      if equals then Some((Cmp(LTE), s[2..]))
      else if |s| >= 2 && s[1] == '>' then Some((Cmp(NEQ), s[2..]))
      else Some((Cmp(LT), s[1..]))
    case '>' => if equals then Some((Cmp(GTE), s[2..])) else Some((Cmp(GT), s[1..]))
    case '!' => if equals then Some((Cmp(NEQ), s[2..])) else None
    case _ => None
  }

  function ScanToken(s: string): (r: Scanned)
    requires s != ""
    ensures r.Some? ==> |r.value.1| < |s|
  {
    if IsWordStart(s[0]) then
      var n := Run(s, IsWordChar);
      Some((WordToken(s[..n]), s[n..]))
    else if IsDigit(s[0]) then
      var n := Run(s, IsDigit);
      RunStops(s, IsDigit);
      if n < |s| && IsWordStart(s[n]) then None else Some((Number(NumberOf(s[..n])), s[n..]))
    else if s[0] == '\'' then ScanString(s[1..], "")
    else ScanSymbol(s)
  }

  // -- the token list --------------------------------------------------------------

  function Prepend(ts: Tokens, r: Option<Tokens>): Option<Tokens> {
    match r
    case None => None
    case Some(more) => Some(ts + more)
  }

  /** The tokens of a text, with EOF at the end; None for a lexing error. */
  function Lex(s: string): Option<Tokens>
    decreases |s|
  {
    var t := SkipTrivia(s);
    if t == "" then Some([EOF])
    else
      match ScanToken(t)
      case None => None
      case Some((token, rest)) => Prepend([token], Lex(rest))
  }

  /** What the lexer hands on is what the parser asks for: EOF at the end and nowhere else. */
  lemma {:induction false} LexEnded(s: string)
    ensures Lex(s).Some? ==> Ended(Lex(s).value)
    decreases |s|
  {
    var t := SkipTrivia(s);
    if t != "" && ScanToken(t).Some? {
      var (token, rest) := ScanToken(t).value;
      LexEnded(rest);
      NeverEof(t);
    }
  }

  lemma {:induction false} NeverEof(s: string)
    requires s != "" && ScanToken(s).Some?
    ensures ScanToken(s).value.0 != EOF
  {
    if !IsWordStart(s[0]) && !IsDigit(s[0]) && s[0] == '\'' { StringIsStr(s[1..], ""); }
  }

  lemma {:induction false} StringIsStr(s: string, text: string)
    ensures ScanString(s, text).Some? ==> ScanString(s, text).value.0.Str?
    decreases |s|
  {
    if s != "" && s[0] != '\'' {
      StringIsStr(s[1..], text + [s[0]]);
    } else if |s| >= 2 && s[1] == '\'' {
      StringIsStr(s[2..], text + ['\'']);
    }
  }

  // -- the lexer -------------------------------------------------------------------

  class Lexer {
    const src: string
    var pos: nat
    var tokens: Tokens

    ghost predicate Valid()
      reads this
    {
      pos <= |src|
    }

    ghost function Ahead(): string
      reads this
      requires Valid()
    {
      src[pos..]
    }

    constructor (src: string)
      ensures Valid() && this.src == src && Ahead() == src && tokens == []
    {
      this.src, this.pos, this.tokens := src, 0, [];
    }

    /** All tokens of the source, or None at the first error. */
    method Tokenize() returns (r: Option<Tokens>)
      requires Valid() && tokens == []
      modifies this
      ensures r == Lex(old(Ahead()))
    {
      PrependNone(Lex(Ahead()));
      while pos < |src|
        invariant Valid() && Lex(old(Ahead())) == Prepend(tokens, Lex(Ahead()))
        decreases |src| - pos
      {
        ghost var before := Ahead();
        SkipBlank();
        LexSkips(before);
        if pos >= |src| { break; }
        ghost var done := tokens;
        var token := Scan();
        if token.None? { return None; }
        PrependTwice(done, token.value, Lex(Ahead()));
        tokens := tokens + [token.value];
      }
      r := Some(tokens + [EOF]);
    }

    method SkipBlank()
      requires Valid()
      modifies `pos
      ensures Valid() && old(pos) <= pos && Ahead() == SkipTrivia(old(Ahead()))
    {
      ghost var start := pos;
      while pos < |src|
        invariant start <= pos <= |src| && SkipsTo(src, start, pos)
        decreases |src| - pos
      {
        TriviaStep(src, start, pos);
        if IsSpace(src[pos]) {
          pos := pos + 1;
        } else if src[pos] == '-' && pos + 1 < |src| && src[pos + 1] == '-' {
          Skip(NotNewline);
        } else {
          break;
        }
      }
    }

    /** Move past the characters that satisfy p. */
    method Skip(p: char -> bool)
      requires Valid()
      modifies `pos
      ensures pos == old(pos) + Run(src[old(pos)..], p) && pos <= |src|
    {
      ghost var start := pos;
      while pos < |src| && p(src[pos])
        invariant start <= pos <= |src| && forall i :: start <= i < pos ==> p(src[i])
      {
        pos := pos + 1;
      }
      RunIs(src[start..], p, pos - start);
    }

    method Scan() returns (token: Option<Token>)
      requires Valid() && pos < |src|
      modifies `pos
      ensures Valid() && (token.None? <==> ScanToken(old(Ahead())).None?)
      ensures token.Some? ==> old(pos) < pos && ScanToken(old(Ahead())) == Some((token.value, Ahead()))
    {
      var start, ch := pos, src[pos];
      if IsWordStart(ch) {
        Skip(IsWordChar);
        token := Some(WordToken(src[start..pos]));
        assert src[start..][..pos - start] == src[start..pos];
      } else if IsDigit(ch) {
        Skip(IsDigit);
        assert src[start..][..pos - start] == src[start..pos];
        RunStops(src[start..], IsDigit);
        if pos < |src| && IsWordStart(src[pos]) { return None; }
        token := Some(Number(NumberOf(src[start..pos])));
      } else if ch == '\'' {
        token := ScanQuoted();
      } else {
        token := ScanSign();
      }
    }

    method ScanQuoted() returns (token: Option<Token>)
      requires Valid() && pos < |src| && src[pos] == '\''
      modifies `pos
      ensures Valid() && (token.None? <==> ScanString(old(Ahead())[1..], "").None?)
      ensures token.Some? ==> old(pos) < pos && ScanString(old(Ahead())[1..], "") == Some((token.value, Ahead()))
    {
      pos := pos + 1;
      var chars := "";
      while true
        invariant Valid() && old(pos) < pos && ScanString(old(Ahead())[1..], "") == ScanString(Ahead(), chars)
        decreases |src| - pos
      {
        if pos >= |src| { return None; }
        var ch := src[pos];
        pos := pos + 1;
        if ch != '\'' {
          chars := chars + [ch];
        } else if pos < |src| && src[pos] == '\'' {
          pos := pos + 1;
          chars := chars + ['\''];
        } else {
          return Some(Str(chars));
        }
      }
    }

    method ScanSign() returns (token: Option<Token>)
      requires Valid() && pos < |src|
      modifies `pos
      ensures Valid() && (token.None? <==> ScanSymbol(old(Ahead())).None?)
      ensures token.Some? ==> old(pos) < pos && ScanSymbol(old(Ahead())) == Some((token.value, Ahead()))
    {
      var ch := src[pos];
      pos := pos + 1;
      var next := if pos < |src| then src[pos] else ' ';
      var two := (next == '=' && (ch == '<' || ch == '>' || ch == '!')) || (next == '>' && ch == '<');
      if two { pos := pos + 1; }
      token := match ch
        case ',' => Some(Comma)
        case '(' => Some(LParen)
        case ')' => Some(RParen)
        case ';' => Some(Semicolon)
        case '.' => Some(Dot)
        case '*' => Some(STAR)
        case '-' => Some(Minus)
        case '=' => Some(Cmp(EQ))
        case '<' => Some(Cmp(if !two then LT else if next == '=' then LTE else NEQ))
        case '>' => Some(Cmp(if two then GTE else GT))
        case '!' => if two then Some(Cmp(NEQ)) else None
        case _ => None;
    }
  }

  /** From position i or from position j, the lexer skips to the same place. */
  predicate SkipsTo(src: string, i: nat, j: nat) {
    i <= j <= |src| && SkipTrivia(src[i..]) == SkipTrivia(src[j..])
  }

  /** One step of skipping, by position. */
  lemma {:induction false} TriviaStep(src: string, start: nat, pos: nat)
    requires pos < |src| && SkipsTo(src, start, pos)
    ensures IsSpace(src[pos]) ==> SkipsTo(src, start, pos + 1)
    ensures AtComment(src[pos..]) <==> src[pos] == '-' && pos + 1 < |src| && src[pos + 1] == '-'
    ensures AtComment(src[pos..]) ==> Run(src[pos..], NotNewline) > 0
    ensures AtComment(src[pos..]) ==> SkipsTo(src, start, pos + Run(src[pos..], NotNewline))
    ensures !IsSpace(src[pos]) && !AtComment(src[pos..]) ==> SkipTrivia(src[start..]) == src[pos..]
  {
  }

  lemma {:induction false} LexSkips(s: string)
    ensures Lex(SkipTrivia(s)) == Lex(s)
  {
    SkipsAll(s);
  }

  lemma {:induction false} SkipsAll(s: string)
    ensures SkipTrivia(SkipTrivia(s)) == SkipTrivia(s)
    decreases |s|
  {
    if s != "" && IsSpace(s[0]) {
      SkipsAll(s[1..]);
    } else if AtComment(s) {
      SkipsAll(s[Run(s, NotNewline)..]);
    }
  }

  lemma {:induction false} PrependNone(r: Option<Tokens>)
    ensures Prepend([], r) == r
  {
    if r.Some? { assert [] + r.value == r.value; }
  }

  lemma {:induction false} PrependTwice(done: Tokens, t: Token, r: Option<Tokens>)
    ensures Prepend(done, Prepend([t], r)) == Prepend(done + [t], r)
  {
    if r.Some? { assert done + ([t] + r.value) == (done + [t]) + r.value; }
  }
}
