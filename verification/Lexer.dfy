/** The SQL lexer, and the re-printing of a subquery with its outer references replaced (src/sql.c).

  A source is a C string: no NUL inside, read as NUL at its end. Classes of characters are those of the C locale.
 */
module Lexer {

  const TOK_MAX: nat := 2200
  const PIECE_MAX: nat := 2 * 4096 + 16

  datatype Kind = Eof | Ident | Number | Text | LParen | RParen | Comma | Star | Semi | Equals | Neq
                | Lt | Lte | Gt | Gte | Plus | Minus | Slash | Percent | Error

  datatype Token = Token(kind: Kind, text: string)

  predicate IsSpace(c: char) {
    c == ' ' || '\t' <= c <= '\r'
  }

  predicate IsDigit(c: char) {
    '0' <= c <= '9'
  }

  predicate IsNameStart(c: char) {
    'a' <= c <= 'z' || 'A' <= c <= 'Z' || c == '_'
  }

  /** The character at a position, NUL at the end. */
  function At(s: string, i: nat): char {
    if i < |s| then s[i] else '\0'
  }

  // ---------------------------------------------------------------- blanks and comments

  /** What is left after the end of the line. */
  function AfterLine(s: string): (rest: string)
    ensures |rest| <= |s|
  {
    if s == "" || s[0] == '\n' then s else AfterLine(s[1..])
  }

  /** What is left after the end of a block comment; nothing when it is not closed. */
  function AfterComment(s: string): (rest: string)
    ensures |rest| <= |s|
  {
    if s == "" then ""
    else if s[0] == '*' && At(s, 1) == '/' then s[2..]
    else AfterComment(s[1..])
  }

  function SkipBlanks(s: string): (rest: string)
    ensures |rest| <= |s|
    ensures rest != "" ==> !IsSpace(rest[0])
    decreases |s|
  {
    if s == "" then ""
    else if IsSpace(s[0]) then SkipBlanks(s[1..])
    else if s[0] == '-' && At(s, 1) == '-' then SkipBlanks(AfterLine(s[2..]))
    else if s[0] == '/' && At(s, 1) == '*' then SkipBlanks(AfterComment(s[2..]))
    else s
  }

  // ---------------------------------------------------------------- tokens

  function Digits(s: string): (n: nat)
    ensures n <= |s|
  {
    if s != "" && IsDigit(s[0]) then 1 + Digits(s[1..]) else 0
  }

  predicate StartsNumber(s: string) {
    IsDigit(At(s, 0)) || (At(s, 0) == '-' && IsDigit(At(s, 1)))
  }

  function SignLength(s: string): nat {
    if At(s, 0) == '-' then 1 else 0
  }

  function NumberLength(s: string): (n: nat)
    requires StartsNumber(s)
    ensures 0 < n <= |s|
  {
    var sign := SignLength(s);
    var whole := sign + Digits(s[sign..]);
    if At(s, whole) == '.' then whole + 1 + Digits(s[whole + 1..]) else whole
  }

  /** A dot belongs to a name when another name follows it. */
  predicate Continues(s: string) {
    IsNameStart(At(s, 0)) || IsDigit(At(s, 0)) || (At(s, 0) == '.' && IsNameStart(At(s, 1)))
  }

  function NameLength(s: string): (n: nat)
    ensures n <= |s|
  {
    if s != "" && Continues(s) then 1 + NameLength(s[1..]) else 0
  }

  /** A token's text is cut off at the buffer's size. */
  function Cut(s: string, n: nat): (text: string)
    requires n <= |s|
    ensures |text| < TOK_MAX && |text| <= n
  {
    if n < TOK_MAX then s[..n] else s[..TOK_MAX - 1]
  }

  /** The text of a quoted string up to its closing quote, a full buffer or the end of the source. */
  function Quoted(s: string, j: nat, quote: char, text: string): (r: (string, nat))
    requires j <= |s|
    ensures j <= r.1 <= |s|
    decreases |s| - j
  {
    if j < |s| && |text| + 1 < TOK_MAX then
      if s[j] == quote then
        if At(s, j + 1) == quote && j + 1 < |s| then Quoted(s, j + 2, quote, text + [quote]) else (text, j)
      else Quoted(s, j + 1, quote, text + [s[j]])
    else (text, j)
  }

  /** The tokens that are one or two fixed characters, and how many. */
  function Symbol(s: string): (Kind, nat) {
    var c, d := At(s, 0), At(s, 1);
    if c == '(' then (LParen, 1)
    else if c == ')' then (RParen, 1)
    else if c == ',' then (Comma, 1)
    else if c == '*' then (Star, 1)
    else if c == ';' then (Semi, 1)
    else if c == '!' && d == '=' then (Neq, 2)
    else if c == '<' && d == '>' then (Neq, 2)
    else if c == '<' && d == '=' then (Lte, 2)
    else if c == '>' && d == '=' then (Gte, 2)
    else if c == '=' then (Equals, 1)
    else if c == '<' then (Lt, 1)
    else if c == '>' then (Gt, 1)
    else if c == '+' then (Plus, 1)
    else if c == '-' && !IsDigit(d) then (Minus, 1)
    else if c == '/' then (Slash, 1)
    else if c == '%' then (Percent, 1)
    else (Error, 0)
  }

  /** The token a text without leading blanks starts with, and its length there. */
  function LexAt(s: string): (r: (Token, nat))
    requires s != ""
    ensures 0 < r.1 <= |s| && !r.0.kind.Eof?
  {
    var (kind, n) := Symbol(s);
    if kind != Error then (Token(kind, ""), n)
    else if s[0] == '\'' || s[0] == '"' then
      var (text, j) := Quoted(s, 1, s[0], "");
      if At(s, j) == s[0] && j < |s| then (Token(Text, text), j + 1) else (Token(Error, text), j)
    else if StartsNumber(s) then (Token(Number, Cut(s, NumberLength(s))), NumberLength(s))
    else if IsNameStart(s[0]) then (Token(Ident, Cut(s, NameLength(s))), NameLength(s))
    else (Token(Error, ""), 1)
  }

  /** The tokens of a source, without the end. */
  function LexAll(s: string): seq<Token>
    decreases |s|
  {
    var rest := SkipBlanks(s);
    if rest == "" then []
    else
      var (t, n) := LexAt(rest);
      [t] + LexAll(rest[n..])
  }

  // ---------------------------------------------------------------- the lexer as it runs

  class Scanner {
    const src: string
    var pos: nat

    ghost predicate Valid()
      reads this
    {
      pos <= |src|
    }

    constructor (src: string)
      ensures Valid() && this.src == src && pos == 0
    {
      this.src := src;
      pos := 0;
    }

    function Char(i: nat): (c: char)
      reads this
      requires Valid()
      ensures c == At(src[pos..], i)
    {
      if pos + i < |src| then src[pos + i] else '\0'
    }

    lemma Rest()
      requires Valid() && pos < |src|
      ensures src[pos..] == [src[pos]] + src[pos + 1..] && src[pos..][1..] == src[pos + 1..]
      ensures pos + 2 <= |src| ==> src[pos..][2..] == src[pos + 2..]
    {
    }

    method SkipSpaces()
      requires Valid()
      modifies this
      ensures Valid() && pos >= old(pos) && SkipBlanks(src[pos..]) == SkipBlanks(src[old(pos)..])
      ensures pos < |src| ==> !IsSpace(src[pos])
    {
      ghost var goal := SkipBlanks(src[pos..]);
      while pos < |src| && IsSpace(src[pos])
        invariant Valid() && pos >= old(pos) && SkipBlanks(src[pos..]) == goal
        decreases |src| - pos
      {
        Rest();
        pos := pos + 1;
      }
    }

    method SkipLine()
      requires Valid()
      modifies this
      ensures Valid() && pos >= old(pos) && src[pos..] == AfterLine(src[old(pos)..])
    {
      ghost var goal := AfterLine(src[pos..]);
      while pos < |src| && src[pos] != '\n'
        invariant Valid() && pos >= old(pos) && AfterLine(src[pos..]) == goal
        decreases |src| - pos
      {
        Rest();
        pos := pos + 1;
      }
    }

    method SkipBlock()
      requires Valid()
      modifies this
      ensures Valid() && pos >= old(pos) && src[pos..] == AfterComment(src[old(pos)..])
    {
      ghost var goal := AfterComment(src[pos..]);
      while pos < |src| && !(src[pos] == '*' && Char(1) == '/')
        invariant Valid() && pos >= old(pos) && AfterComment(src[pos..]) == goal
        decreases |src| - pos
      {
        Rest();
        pos := pos + 1;
      }
      if pos < |src| {
        Rest();
        pos := pos + 2;
      }
    }

    /** sql.c `sql__skip_ws`. */
    method SkipWs()
      requires Valid()
      modifies this
      ensures Valid() && pos >= old(pos) && src[pos..] == SkipBlanks(src[old(pos)..])
    {
      hide SkipBlanks, AfterLine, AfterComment;
      while true
        invariant Valid() && pos >= old(pos) && SkipBlanks(src[pos..]) == SkipBlanks(src[old(pos)..])
        decreases |src| - pos
      {
        SkipSpaces();
        BlanksCases(src[pos..]);
        if pos < |src| && src[pos] == '-' && Char(1) == '-' {
          Rest();
          pos := pos + 2;
          SkipLine();
          continue;
        }
        if pos < |src| && src[pos] == '/' && Char(1) == '*' {
          Rest();
          pos := pos + 2;
          SkipBlock();
          continue;
        }
        break;
      }
    }

    /** The string branch of `sql__lex_next`. */
    method ReadQuoted() returns (text: string, j: nat)
      requires Valid() && pos < |src|
      ensures pos + 1 <= j <= |src|
      ensures (text, j - pos) == Quoted(src[pos..], 1, src[pos], "")
    {
      ghost var s := src[pos..];
      var quote := src[pos];
      j := pos + 1;
      text := "";
      while j < |src| && |text| + 1 < TOK_MAX
        invariant pos + 1 <= j <= |src|
        invariant Quoted(s, j - pos, quote, text) == Quoted(s, 1, quote, "")
        decreases |src| - j
      {
        if src[j] == quote {
          if j + 1 < |src| && src[j + 1] == quote {
            text := text + [quote];
            j := j + 2;
            continue;
          }
          break;
        }
        text := text + [src[j]];
        j := j + 1;
      }
    }

    method CountDigits(from: nat) returns (j: nat)
      requires Valid() && from <= |src|
      ensures from <= j <= |src| && j - from == Digits(src[from..])
    {
      j := from;
      while j < |src| && IsDigit(src[j])
        invariant from <= j <= |src|
        invariant Digits(src[from..]) == j - from + Digits(src[j..])
        decreases |src| - j
      {
        assert src[j..][1..] == src[j + 1..];
        j := j + 1;
      }
    }

    method ReadNumber(i: nat) returns (j: nat)
      requires Valid() && i < |src| && StartsNumber(src[i..])
      ensures i < j <= |src| && j - i == NumberLength(src[i..])
    {
      hide Digits;
      var sign := if src[i] == '-' then 1 else 0;
      NumberIs(src[i..], sign);
      Suffix(i, sign);
      j := CountDigits(i + sign);
      Suffix(i, j - i);
      if j < |src| && src[j] == '.' {
        Suffix(i, j + 1 - i);
        j := CountDigits(j + 1);
      }
    }

    method ReadName(i: nat) returns (j: nat)
      requires Valid() && i < |src| && IsNameStart(src[i])
      ensures i < j <= |src| && j - i == NameLength(src[i..])
    {
      j := i;
      while j < |src| && (IsNameStart(src[j]) || IsDigit(src[j])
                          || (src[j] == '.' && j + 1 < |src| && IsNameStart(src[j + 1])))
        invariant i <= j <= |src|
        invariant NameLength(src[i..]) == j - i + NameLength(src[j..])
        decreases |src| - j
      {
        assert src[j..][1..] == src[j + 1..];
        j := j + 1;
      }
    }

    lemma Suffix(i: nat, k: nat)
      requires i + k <= |src|
      ensures src[i..][k..] == src[i + k..] && At(src[i..], k) == At(src, i + k)
    {
    }

    lemma CutText(i: nat, n: nat)
      requires i + n <= |src|
      ensures Cut(src[i..], n) == src[i..if n < TOK_MAX then i + n else i + TOK_MAX - 1]
    {
    }

    /** The token that starts right here. */
    method ReadToken() returns (t: Token)
      requires Valid() && pos < |src|
      modifies this
      ensures Valid() && pos > old(pos)
      ensures (t, pos - old(pos)) == LexAt(src[old(pos)..])
    {
      hide Quoted, NameLength, NumberLength, Digits, Symbol, Cut, LexAt;
      var i, c := pos, src[pos];
      ghost var rest := src[i..];
      var (kind, n) := Symbol([c, Char(1)]);
      SymbolSeesTwo(rest, [c, Char(1)]);
      SymbolFits(rest);
      LexAtCases(rest);
      if kind != Error {
        pos := i + n;
        return Token(kind, "");
      }
      if c == '\'' || c == '"' {
        var text, j := ReadQuoted();
        Suffix(i, j - i);
        if j < |src| && src[j] == c {
          pos := j + 1;
          return Token(Text, text);
        }
        pos := j;
        return Token(Error, text);
      }
      if IsDigit(c) || (c == '-' && IsDigit(Char(1))) {
        var j := ReadNumber(i);
        pos := j;
        CutText(i, j - i);
        return Token(Number, src[i..if j - i < TOK_MAX then j else i + TOK_MAX - 1]);
      }
      if IsNameStart(c) {
        var j := ReadName(i);
        pos := j;
        CutText(i, j - i);
        return Token(Ident, src[i..if j - i < TOK_MAX then j else i + TOK_MAX - 1]);
      }
      pos := i + 1;
      return Token(Error, "");
    }

    /** sql.c `sql__lex_next`. */
    method LexNext() returns (t: Token)
      requires Valid()
      modifies this
      ensures Valid() && pos >= old(pos)
      ensures var rest := SkipBlanks(src[old(pos)..]);
              if rest == "" then t == Token(Eof, "") && src[pos..] == ""
              else t == LexAt(rest).0 && src[pos..] == rest[LexAt(rest).1..] && pos > old(pos)
    {
      hide SkipBlanks, LexAt;
      SkipWs();
      if pos == |src| {
        return Token(Eof, "");
      }
      var i := pos;
      t := ReadToken();
      Suffix(i, pos - i);
    }
  }

  lemma LexAtCases(s: string)
    requires s != ""
    ensures Symbol(s).0 != Error ==> LexAt(s) == (Token(Symbol(s).0, ""), Symbol(s).1)
    ensures Symbol(s).0 == Error && (s[0] == '\'' || s[0] == '"') ==>
              var (text, j) := Quoted(s, 1, s[0], "");
              LexAt(s) == if At(s, j) == s[0] && j < |s| then (Token(Text, text), j + 1) else (Token(Error, text), j)
    ensures Symbol(s).0 == Error && StartsNumber(s) ==>
              LexAt(s) == (Token(Number, Cut(s, NumberLength(s))), NumberLength(s))
    ensures Symbol(s).0 == Error && IsNameStart(s[0]) ==>
              LexAt(s) == (Token(Ident, Cut(s, NameLength(s))), NameLength(s))
    ensures Symbol(s).0 == Error && s[0] != '\'' && s[0] != '"' && !StartsNumber(s) && !IsNameStart(s[0]) ==>
              LexAt(s) == (Token(Error, ""), 1)
  {
    hide Symbol, Quoted, NumberLength, NameLength, Cut;
  }

  lemma NumberIs(s: string, sign: nat)
    requires StartsNumber(s) && sign == SignLength(s)
    ensures sign <= |s| && sign + Digits(s[sign..]) <= |s|
    ensures var whole := sign + Digits(s[sign..]);
            NumberLength(s) == if At(s, whole) == '.' then whole + 1 + Digits(s[whole + 1..]) else whole
  {
    hide Digits;
  }

  lemma BlanksCases(s: string)
    ensures SkipBlanks(s)
         == if s == "" then ""
            else if IsSpace(s[0]) then SkipBlanks(s[1..])
            else if s[0] == '-' && At(s, 1) == '-' then SkipBlanks(AfterLine(s[2..]))
            else if s[0] == '/' && At(s, 1) == '*' then SkipBlanks(AfterComment(s[2..]))
            else s
  {
    hide AfterLine, AfterComment;
  }

  lemma SymbolSeesTwo(s: string, two: string)
    requires |two| == 2 && two[0] == At(s, 0) && two[1] == At(s, 1)
    ensures Symbol(s) == Symbol(two)
  {
  }

  lemma SymbolFits(s: string)
    requires s != ""
    ensures Symbol(s).1 <= |s| && (Symbol(s).0 != Error ==> Symbol(s).1 > 0 && !Symbol(s).0.Eof?)
  {
  }

  // ---------------------------------------------------------------- printing tokens

  /** A string's text between quotes, its own quotes doubled. */
  function Doubled(t: string): (d: string)
    ensures |t| <= |d| <= 2 * |t|
  {
    if t == "" then ""
    else (if t[0] == '\'' then "\'\'" else [t[0]]) + Doubled(t[1..])
  }

  function SymbolText(kind: Kind): string {
    match kind
    case LParen => "("
    case RParen => ")"
    case Comma => ","
    case Star => "*"
    case Semi => ";"
    case Equals => "="
    case Neq => "!="
    case Lt => "<"
    case Lte => "<="
    case Gt => ">"
    case Gte => ">="
    case Plus => "+"
    case Minus => "-"
    case Slash => "/"
    case Percent => "%"
    case _ => ""
  }

  function Piece(t: Token): string {
    match t.kind
    case Ident => t.text
    case Number => t.text
    case Text => "\'" + Doubled(t.text) + "\'"
    case kind => SymbolText(kind)
  }

  /** Pieces go out with one blank between them. */
  function Joined(pieces: seq<string>): string {
    if pieces == [] then ""
    else
      var n := |pieces| - 1;
      Joined(pieces[..n]) + (if n == 0 then "" else " ") + pieces[n]
  }

  /** The tokens whose piece reads back as the token. */
  predicate Printable(t: Token) {
    match t.kind
    case Ident => t.text != "" && IsNameStart(t.text[0]) && NameLength(t.text) == |t.text| < TOK_MAX
    case Number => StartsNumber(t.text) && NumberLength(t.text) == |t.text| < TOK_MAX
    case Text => |t.text| < TOK_MAX
    case Error => false
    case Eof => false
    case _ => t.text == ""
  }

  /** What may follow a piece. */
  predicate Apart(tail: string) {
    tail == "" || tail[0] == ' '
  }

  // ---------------------------------------------------------------- pieces read back

  lemma {:induction false} DigitsApart(t: string, tail: string)
    requires tail == "" || !IsDigit(tail[0])
    ensures Digits(t + tail) == Digits(t)
  {
    if t == "" {
      assert t + tail == tail;
    } else {
      assert (t + tail)[1..] == t[1..] + tail;
      DigitsApart(t[1..], tail);
    }
  }

  lemma {:induction false} DigitsOfPrefix(s: string, k: nat)
    requires k <= |s|
    ensures Digits(s[..k]) == if k <= Digits(s) then k else Digits(s)
  {
    if k > 0 {
      assert s[..k][1..] == s[1..][..k - 1];
      DigitsOfPrefix(s[1..], k - 1);
    }
  }

  /** At the digits' end there is something else. */
  lemma {:induction false} DigitsEnd(s: string)
    ensures !IsDigit(At(s, Digits(s)))
  {
    if s != "" && IsDigit(s[0]) {
      DigitsEnd(s[1..]);
    }
  }

  lemma {:induction false} NameApart(t: string, tail: string)
    requires NameLength(t) == |t| && Apart(tail)
    ensures NameLength(t + tail) == |t|
  {
    if t == "" {
      assert t + tail == tail;
    } else {
      assert (t + tail)[1..] == t[1..] + tail;
      NameApart(t[1..], tail);
      assert At(t, 0) == At(t + tail, 0);
      assert |t| > 1 ==> At(t, 1) == At(t + tail, 1);
    }
  }

  /** A name cut short reads as itself unless the cut left a dot at its end. */
  lemma {:induction false} NamePrefix(s: string, k: nat)
    requires 0 < k <= NameLength(s)
    ensures NameLength(s[..k]) == k <==> s[k - 1] != '.'
    decreases |s|
  {
    var p := s[..k];
    if k > 1 {
      assert p[1..] == s[1..][..k - 1];
      NamePrefix(s[1..], k - 1);
      assert At(p, 0) == At(s, 0) && At(p, 1) == At(s, 1);
    } else {
      assert p[1..] == "";
      assert At(p, 0) == s[0] && At(p, 1) == '\0';
    }
  }

  lemma NumberApart(t: string, tail: string)
    requires StartsNumber(t) && NumberLength(t) == |t| && Apart(tail)
    ensures StartsNumber(t + tail) && NumberLength(t + tail) == |t|
  {
    hide Digits;
    var s, sign := t + tail, SignLength(t);
    assert forall i :: 0 <= i < |t| ==> At(s, i) == t[i];
    assert tail != "" ==> At(s, |t|) == ' ';
    assert SignLength(s) == sign && s[sign..] == t[sign..] + tail;
    DigitsApart(t[sign..], tail);
    var whole := sign + Digits(t[sign..]);
    if whole < |t| {
      assert s[whole + 1..] == t[whole + 1..] + tail;
      DigitsApart(t[whole + 1..], tail);
    }
  }

  lemma NumberPrefix(s: string, k: nat)
    requires StartsNumber(s) && SignLength(s) < k <= NumberLength(s)
    ensures StartsNumber(s[..k]) && NumberLength(s[..k]) == k
  {
    hide Digits;
    var p, sign := s[..k], SignLength(s);
    assert At(p, 0) == At(s, 0) && (k > 1 ==> At(p, 1) == At(s, 1));
    assert p[sign..] == s[sign..][..k - sign];
    DigitsOfPrefix(s[sign..], k - sign);
    var whole := sign + Digits(s[sign..]);
    if k > whole {
      assert At(p, whole) == '.';
      assert p[whole + 1..] == s[whole + 1..][..k - whole - 1];
      DigitsOfPrefix(s[whole + 1..], k - whole - 1);
    }
  }

  lemma {:induction false} QuotedReadsBack(s: string, j: nat, t: string, tail: string, text: string)
    requires j <= |s| && s[j..] == Doubled(t) + "\'" + tail && Apart(tail) && |text| + |t| < TOK_MAX
    ensures j + |Doubled(t)| < |s| && s[j + |Doubled(t)|] == '\''
    ensures Quoted(s, j, '\'', text) == (text + t, j + |Doubled(t)|)
    decreases |t|
  {
    if t == "" {
      assert s[j..] == "\'" + tail;
      assert s[j] == s[j..][0];
      assert j + 1 < |s| ==> s[j + 1] == s[j..][1] == tail[0];
      assert text + t == text;
    } else {
      var d := if t[0] == '\'' then 2 else 1;
      assert s[j] == s[j..][0] == t[0];
      assert d == 2 ==> s[j + 1] == s[j..][1] == '\'';
      assert s[j + d..] == s[j..][d..];
      assert Doubled(t) + "\'" + tail == Doubled(t)[..d] + (Doubled(t[1..]) + "\'" + tail);
      QuotedReadsBack(s, j + d, t[1..], tail, text + [t[0]]);
      assert text + [t[0]] + t[1..] == text + t;
    }
  }

  lemma {:induction false} TextLexes(t: string, tail: string)
    requires |t| < TOK_MAX && Apart(tail)
    ensures var s := "\'" + Doubled(t) + "\'" + tail;
            LexAt(s) == (Token(Text, t), |Doubled(t)| + 2)
  {
    hide Doubled, Quoted;
    var s := "\'" + Doubled(t) + "\'" + tail;
    assert s[0] == '\'' && s[1..] == Doubled(t) + "\'" + tail;
    QuotedReadsBack(s, 1, t, tail, "");
    assert "" + t == t;
    LexAtCases(s);
  }

  lemma SymbolLexes(kind: Kind, tail: string)
    requires SymbolText(kind) != "" && Apart(tail)
    ensures LexAt(SymbolText(kind) + tail) == (Token(kind, ""), |SymbolText(kind)|)
    ensures SkipBlanks(SymbolText(kind) + tail) == SymbolText(kind) + tail
  {
    hide AfterLine, AfterComment;
    var s := SymbolText(kind) + tail;
    assert tail != "" ==> At(s, |SymbolText(kind)|) == ' ';
    LexAtCases(s);
    BlanksCases(s);
  }

  /** A piece followed by a blank or the end reads back as its token. */
  lemma PieceLexes(t: Token, tail: string)
    requires Printable(t) && Apart(tail)
    ensures Piece(t) != ""
    ensures LexAt(Piece(t) + tail) == (t, |Piece(t)|)
    ensures SkipBlanks(Piece(t) + tail) == Piece(t) + tail
  {
    hide Doubled, NameLength, NumberLength, Quoted, AfterLine, AfterComment, SkipBlanks;
    var s := Piece(t) + tail;
    BlanksCases(s);
    LexAtCases(s);
    match t.kind
    case Ident =>
      NameApart(t.text, tail);
      assert s[0] == t.text[0] && s[..|t.text|] == t.text;
    case Number =>
      NumberApart(t.text, tail);
      assert s[0] == t.text[0] && s[..|t.text|] == t.text;
      assert |t.text| > 1 ==> At(s, 1) == t.text[1];
    case Text =>
      TextLexes(t.text, tail);
      assert s[0] == '\'';
    case _ =>
      SymbolLexes(t.kind, tail);
  }

  function Pieces(ts: seq<Token>): (pieces: seq<string>)
    ensures |pieces| == |ts|
  {
    seq(|ts|, i requires 0 <= i < |ts| => Piece(ts[i]))
  }

  lemma {:induction false} LexPiece(t: Token, tail: string)
    requires Printable(t) && Apart(tail)
    ensures LexAll(Piece(t) + tail) == [t] + LexAll(tail)
    ensures LexAll(" " + (Piece(t) + tail)) == LexAll(Piece(t) + tail)
  {
    hide Piece, Printable, LexAt, SkipBlanks;
    PieceLexes(t, tail);
    assert (Piece(t) + tail)[|Piece(t)|..] == tail;
    var blank := " " + (Piece(t) + tail);
    BlanksCases(blank);
    assert blank[1..] == Piece(t) + tail;
  }

  /** What is printed reads back: no comment and no signed number comes from two pieces side by side. */
  lemma {:induction false} PrintedReadsBack(ts: seq<Token>, tail: string)
    requires (forall i :: 0 <= i < |ts| ==> Printable(ts[i])) && Apart(tail)
    ensures LexAll(Joined(Pieces(ts)) + tail) == ts + LexAll(tail)
    decreases |ts|
  {
    hide Piece, Printable, LexAll;
    if ts == [] {
      assert Joined(Pieces(ts)) + tail == tail;
      assert ts + LexAll(tail) == LexAll(tail);
    } else {
      var n := |ts| - 1;
      assert Pieces(ts)[..n] == Pieces(ts[..n]);
      LexPiece(ts[n], tail);
      if n == 0 {
        assert Joined(Pieces(ts[..n])) == "";
        assert Joined(Pieces(ts)) + tail == Piece(ts[n]) + tail;
        assert ts == [ts[n]];
      } else {
        var more := " " + (Piece(ts[n]) + tail);
        PrintedReadsBack(ts[..n], more);
        assert Joined(Pieces(ts)) + tail == Joined(Pieces(ts[..n])) + more;
        assert ts[..n] + ([ts[n]] + LexAll(tail)) == ts + LexAll(tail) by {
          assert ts == ts[..n] + [ts[n]];
        }
      }
    }
  }

  // ---------------------------------------------------------------- what the lexer yields can be printed

  /** A name whose text was cut off right after a dot. */
  predicate EndsInDot(t: Token) {
    t.kind.Ident? && t.text != "" && t.text[|t.text| - 1] == '.'
  }

  lemma {:induction false} QuotedIsShort(s: string, j: nat, quote: char, text: string)
    requires j <= |s| && |text| < TOK_MAX
    ensures |Quoted(s, j, quote, text).0| < TOK_MAX
    decreases |s| - j
  {
    if j < |s| && |text| + 1 < TOK_MAX {
      if s[j] == quote {
        if At(s, j + 1) == quote && j + 1 < |s| {
          QuotedIsShort(s, j + 2, quote, text + [quote]);
        }
      } else {
        QuotedIsShort(s, j + 1, quote, text + [s[j]]);
      }
    }
  }

  /** Every token but an error, and but a name cut off after a dot, can be printed. */
  lemma LexedIsPrintable(s: string)
    requires s != ""
    ensures var t := LexAt(s).0; Printable(t) <==> !t.kind.Error? && !EndsInDot(t)
    ensures |LexAt(s).0.text| < TOK_MAX
  {
    hide Quoted, NameLength, NumberLength, Digits;
    LexAtCases(s);
    SymbolFits(s);
    if Symbol(s).0 != Error {
      assert LexAt(s).0.text == "";
      SymbolKinds(s);
    } else if s[0] == '\'' || s[0] == '"' {
      QuotedIsShort(s, 1, s[0], "");
    } else if StartsNumber(s) {
      var n := NumberLength(s);
      var k := if n < TOK_MAX then n else TOK_MAX - 1;
      NumberPastSign(s);
      NumberPrefix(s, k);
    } else if IsNameStart(s[0]) {
      var n := NameLength(s);
      var k := if n < TOK_MAX then n else TOK_MAX - 1;
      NameStarted(s);
      NamePrefix(s, k);
      assert s[..k][0] == s[0] && s[..k][k - 1] == s[k - 1];
    }
  }

  lemma SymbolKinds(s: string)
    ensures !Symbol(s).0.Ident? && !Symbol(s).0.Number? && !Symbol(s).0.Text? && !Symbol(s).0.Eof?
  {
  }

  lemma NumberPastSign(s: string)
    requires StartsNumber(s)
    ensures SignLength(s) < NumberLength(s)
  {
  }

  lemma NameStarted(s: string)
    requires s != "" && IsNameStart(s[0])
    ensures NameLength(s) > 0
  {
  }

  lemma {:induction false} AllLexedPrintable(s: string)
    requires forall t :: t in LexAll(s) ==> !t.kind.Error? && !EndsInDot(t)
    ensures forall t :: t in LexAll(s) ==> Printable(t)
    decreases |s|
  {
    hide Printable, EndsInDot, LexAt, SkipBlanks;
    var rest := SkipBlanks(s);
    if rest != "" {
      var (t, n) := LexAt(rest);
      assert LexAll(s) == [t] + LexAll(rest[n..]);
      assert LexAll(s)[0] == t;
      LexedIsPrintable(rest);
      forall u | u in LexAll(rest[n..])
        ensures u in LexAll(s)
      {
      }
      AllLexedPrintable(rest[n..]);
    }
  }

  /** A token of the lexer is short, and printable unless it is an error or ends in a dot. */
  lemma {:induction false} LexedTokens(s: string)
    ensures forall t :: t in LexAll(s) ==> |t.text| < TOK_MAX && (Printable(t) <==> !t.kind.Error? && !EndsInDot(t))
    decreases |s|
  {
    hide Printable, EndsInDot, LexAt, SkipBlanks;
    var rest := SkipBlanks(s);
    if rest != "" {
      var (t, n) := LexAt(rest);
      assert LexAll(s) == [t] + LexAll(rest[n..]);
      LexedIsPrintable(rest);
      LexedTokens(rest[n..]);
    }
  }

  // ---------------------------------------------------------------- literals

  /** The outer row's value for a reference; `NoLiteral` when there is none, or none with a literal form. */
  datatype Literal = IntLit(n: int) | FloatLit(text: string) | BoolLit(b: bool) | StrLit(s: string) | NoLiteral

  const NO_MATCH := "\U{1}__kumdb_no_match__\U{1}"

  function Natural(n: nat): (s: string)
    ensures s != ""
  {
    (if n < 10 then "" else Natural(n / 10)) + ['0' + (n % 10) as char]
  }

  function Decimal(n: int): string {
    if n < 0 then "-" + Natural(-n) else Natural(n)
  }

  /** The escaping loop stops when the buffer is nearly full. */
  function Escaped(s: string, pos: nat): string {
    if s == "" || pos + 3 >= PIECE_MAX then ""
    else if s[0] == '\'' then "\'\'" + Escaped(s[1..], pos + 2)
    else [s[0]] + Escaped(s[1..], pos + 1)
  }

  /** sql.c `sql__render_sql_literal`, and the stand-in for what it cannot render. */
  function Render(l: Literal): string {
    match l
    case IntLit(n) => Decimal(n)
    case FloatLit(text) => text
    case BoolLit(b) => if b then "true" else "false"
    case StrLit(s) => "\'" + Escaped(s, 1) + "\'"
    case NoLiteral => "\'" + NO_MATCH + "\'"
  }

  function LiteralToken(l: Literal): Token {
    match l
    case IntLit(n) => Token(Number, Decimal(n))
    case FloatLit(text) => Token(Number, text)
    case BoolLit(b) => Token(Ident, if b then "true" else "false")
    case StrLit(s) => Token(Text, s)
    case NoLiteral => Token(Text, NO_MATCH)
  }

  /** The values whose literal is one token: strings no longer than a token, floats printed without an exponent. */
  predicate ReadsBack(l: Literal) {
    match l
    case IntLit(n) => -0x8000_0000_0000_0000 <= n < 0x8000_0000_0000_0000
    case FloatLit(text) => Printable(Token(Number, text))
    case StrLit(s) => |s| < TOK_MAX
    case _ => true
  }

  lemma {:induction false} EscapedIsDoubled(s: string, pos: nat)
    requires 2 * |s| + pos + 3 <= PIECE_MAX
    ensures Escaped(s, pos) == Doubled(s)
  {
    if s != "" {
      EscapedIsDoubled(s[1..], pos + if s[0] == '\'' then 2 else 1);
    }
  }

  function Pow10(k: nat): nat {
    if k == 0 then 1 else 10 * Pow10(k - 1)
  }

  lemma {:induction false} NaturalShort(n: nat, k: nat)
    requires n < Pow10(k) && k > 0
    ensures |Natural(n)| <= k
    ensures Digits(Natural(n)) == |Natural(n)| && IsDigit(Natural(n)[0])
  {
    var last := ['0' + (n % 10) as char];
    if n >= 10 {
      NaturalShort(n / 10, k - 1);
      var front := Natural(n / 10);
      assert front[0] == Natural(n)[0];
      AllDigits(front, last);
    } else {
      assert Natural(n) == last;
      assert Digits(last[1..]) == 0;
    }
  }

  lemma {:induction false} AllDigits(a: string, b: string)
    requires Digits(a) == |a| && |b| == 1 && IsDigit(b[0])
    ensures Digits(a + b) == |a| + 1
  {
    if a != "" {
      assert (a + b)[1..] == a[1..] + b;
      AllDigits(a[1..], b);
    } else {
      assert a + b == b;
      assert Digits(b[1..]) == 0;
    }
  }

  lemma DecimalPrintable(n: int)
    requires -0x8000_0000_0000_0000 <= n < 0x8000_0000_0000_0000
    ensures Printable(Token(Number, Decimal(n)))
  {
    assert Pow10(19) == 10000000000000000000 by {
      assert Pow10(10) == 10000000000;
    }
    var m := if n < 0 then -n else n;
    NaturalShort(m, 19);
    var d := Natural(m);
    if n < 0 {
      assert Decimal(n)[1..] == d && Decimal(n)[0] == '-';
    }
  }

  lemma LiteralPiece(l: Literal)
    requires ReadsBack(l)
    ensures Printable(LiteralToken(l)) && Piece(LiteralToken(l)) == Render(l)
  {
    match l
    case IntLit(n) =>
      DecimalPrintable(n);
    case FloatLit(_) =>
    case BoolLit(b) =>
      NameOf(if b then "true" else "false");
    case StrLit(s) =>
      EscapedIsDoubled(s, 1);
    case NoLiteral =>
      PlainText(NO_MATCH);
  }

  lemma {:induction false} PlainText(t: string)
    requires forall i :: 0 <= i < |t| ==> t[i] != '\''
    ensures Doubled(t) == t
  {
    if t != "" {
      PlainText(t[1..]);
    }
  }

  lemma {:induction false} NameOf(t: string)
    requires forall i :: 0 <= i < |t| ==> IsNameStart(t[i])
    ensures NameLength(t) == |t|
  {
    if t != "" {
      NameOf(t[1..]);
    }
  }

  /** A literal is read back as its value exactly when it fits a token. */
  lemma LiteralReadsBack(l: Literal)
    requires !l.IntLit? || ReadsBack(l)
    ensures LexAll(Render(l)) == [LiteralToken(l)] <==> ReadsBack(l)
  {
    hide Printable, Render, LiteralToken, SkipBlanks, LexAt;
    if ReadsBack(l) {
      LiteralPiece(l);
      LexPiece(LiteralToken(l), "");
      assert Render(l) + "" == Render(l);
      assert LexAll("") == [] by {
        BlanksCases("");
      }
      assert [LiteralToken(l)] + [] == [LiteralToken(l)];
    } else if LexAll(Render(l)) == [LiteralToken(l)] {
      var rest := SkipBlanks(Render(l));
      assert LexAll(Render(l))[0] == LexAt(rest).0;
      LexedIsPrintable(rest);
      UnfitLiteral(l);
    }
  }

  lemma UnfitLiteral(l: Literal)
    requires !ReadsBack(l) && !l.IntLit?
    ensures |LiteralToken(l).text| < TOK_MAX ==> !Printable(LiteralToken(l))
    ensures !LiteralToken(l).kind.Error? && !EndsInDot(LiteralToken(l))
  {
  }

  // ---------------------------------------------------------------- replacing outer references

  function FirstDot(text: string): (n: nat)
    ensures n <= |text|
  {
    if text == "" || text[0] == '.' then 0 else 1 + FirstDot(text[1..])
  }

  /** A name of the exact form alias.column. */
  predicate IsOuterRef(t: Token, alias: string) {
    t.kind.Ident? && FirstDot(t.text) == |alias| < |t.text| && t.text[..|alias|] == alias
  }

  type Lookup = string -> Literal

  function PieceFor(t: Token, alias: string, lookup: Lookup): string {
    if IsOuterRef(t, alias) then Render(lookup(t.text[|alias| + 1..])) else Piece(t)
  }

  function Replaced(t: Token, alias: string, lookup: Lookup): Token {
    if IsOuterRef(t, alias) then LiteralToken(lookup(t.text[|alias| + 1..])) else t
  }

  function PiecesFor(ts: seq<Token>, alias: string, lookup: Lookup): (pieces: seq<string>)
    ensures |pieces| == |ts|
  {
    seq(|ts|, i requires 0 <= i < |ts| => PieceFor(ts[i], alias, lookup))
  }

  function AllReplaced(ts: seq<Token>, alias: string, lookup: Lookup): (out: seq<Token>)
    ensures |out| == |ts|
  {
    seq(|ts|, i requires 0 <= i < |ts| => Replaced(ts[i], alias, lookup))
  }

  function Substituted(src: string, alias: string, lookup: Lookup): string {
    Joined(PiecesFor(LexAll(src), alias, lookup))
  }

  /** Every reference's value has a literal that reads back. */
  predicate ReferencesFit(ts: seq<Token>, alias: string, lookup: Lookup) {
    forall i :: 0 <= i < |ts| && IsOuterRef(ts[i], alias) ==> ReadsBack(lookup(ts[i].text[|alias| + 1..]))
  }

  /** Integers are 64 bits wide. */
  predicate IntsFit(ts: seq<Token>, alias: string, lookup: Lookup) {
    forall i :: 0 <= i < |ts| && IsOuterRef(ts[i], alias) ==>
      var l := lookup(ts[i].text[|alias| + 1..]); l.IntLit? ==> ReadsBack(l)
  }

  /** Lexing the re-printed text gives the original tokens with the outer references, and nothing else, replaced
    by their literals, exactly when each of those literals fits a token. */
  lemma SubstitutionReadsBack(src: string, alias: string, lookup: Lookup)
    requires forall t :: t in LexAll(src) ==> !t.kind.Error? && !EndsInDot(t)
    requires IntsFit(LexAll(src), alias, lookup)
    ensures LexAll(Substituted(src, alias, lookup)) == AllReplaced(LexAll(src), alias, lookup) <==>
      ReferencesFit(LexAll(src), alias, lookup)
  {
    hide LexAll, Printable, Piece, Render, LiteralToken, ReadsBack, EndsInDot;
    var ts := LexAll(src);
    var out := AllReplaced(ts, alias, lookup);
    if ReferencesFit(ts, alias, lookup) {
      FittingReadsBack(src, alias, lookup);
    } else {
      var i :| 0 <= i < |ts| && IsOuterRef(ts[i], alias) && !ReadsBack(lookup(ts[i].text[|alias| + 1..]));
      UnfitLiteral(lookup(ts[i].text[|alias| + 1..]));
      LexedTokens(Substituted(src, alias, lookup));
      assert out[i] in out;
    }
  }

  lemma FittingReadsBack(src: string, alias: string, lookup: Lookup)
    requires forall t :: t in LexAll(src) ==> !t.kind.Error? && !EndsInDot(t)
    requires ReferencesFit(LexAll(src), alias, lookup)
    ensures LexAll(Substituted(src, alias, lookup)) == AllReplaced(LexAll(src), alias, lookup)
  {
    hide LexAll, Printable, Piece, Render, LiteralToken, ReadsBack;
    var ts := LexAll(src);
    var out := AllReplaced(ts, alias, lookup);
    AllLexedPrintable(src);
    forall i | 0 <= i < |ts|
      ensures Printable(out[i]) && Piece(out[i]) == PieceFor(ts[i], alias, lookup)
    {
      if IsOuterRef(ts[i], alias) {
        LiteralPiece(lookup(ts[i].text[|alias| + 1..]));
      }
    }
    assert Pieces(out) == PiecesFor(ts, alias, lookup);
    PrintedReadsBack(out, "");
    assert Joined(Pieces(out)) + "" == Joined(Pieces(out));
    NothingLeft();
    assert out + [] == out;
  }

  lemma NothingLeft()
    ensures LexAll("") == []
  {
  }

  lemma LexAllNext(s: string)
    ensures var rest := SkipBlanks(s);
            LexAll(s) == if rest == "" then [] else [LexAt(rest).0] + LexAll(rest[LexAt(rest).1..])
  {
  }

  lemma JoinedNext(pieces: seq<string>, p: string)
    ensures Joined(pieces + [p]) == Joined(pieces) + (if pieces == [] then "" else " ") + p
  {
    assert (pieces + [p])[..|pieces|] == pieces;
  }

  /** sql.c `sql__substitute_outer_refs`. */
  method SubstituteOuterRefs(src: string, alias: string, lookup: Lookup) returns (out: string)
    ensures out == Substituted(src, alias, lookup)
  {
    hide SkipBlanks, LexAt, LexAll, PieceFor, Joined;
    out := "";
    var first := true;
    var lx := new Scanner(src);
    ghost var done := [];
    assert src[0..] == src && PiecesFor([], alias, lookup) == [];
    assert Joined([]) == "" by {
      NoPieces();
    }
    while true
      invariant lx.Valid() && fresh(lx) && lx.src == src
      invariant LexAll(src) == done + LexAll(src[lx.pos..])
      invariant out == Joined(PiecesFor(done, alias, lookup))
      invariant first <==> done == []
      decreases |src| - lx.pos
    {
      LexAllNext(src[lx.pos..]);
      ghost var before := lx.pos;
      var t := lx.LexNext();
      if t.kind == Eof {
        break;
      }
      var piece := PieceFor(t, alias, lookup);
      JoinedNext(PiecesFor(done, alias, lookup), piece);
      assert PiecesFor(done + [t], alias, lookup) == PiecesFor(done, alias, lookup) + [piece];
      if !first {
        out := out + " ";
      }
      out := out + piece;
      first := false;
      assert done + ([t] + LexAll(src[lx.pos..])) == (done + [t]) + LexAll(src[lx.pos..]);
      done := done + [t];
    }
    assert LexAll(src) == done by {
      assert done + [] == done;
    }
  }

  lemma NoPieces()
    ensures Joined([]) == ""
  {
  }

  // ---------------------------------------------------------------- what numbers, blanks and symbols are

  /** The number a string of digits denotes. */
  function ValueOf(s: string): int {
    if s == "" then 0 else 10 * ValueOf(s[..|s| - 1]) + (s[|s| - 1] as int - '0' as int)
  }

  /** An integer is printed in decimal: digits only, none of them a leading zero, and they denote it. */
  lemma {:induction false} NaturalMeans(n: nat)
    ensures var s := Natural(n);
      ValueOf(s) == n && (forall i :: 0 <= i < |s| ==> '0' <= s[i] <= '9') && (|s| > 1 ==> s[0] != '0')
    ensures n > 0 ==> Natural(n)[0] != '0'
  {
    if n >= 10 {
      NaturalMeans(n / 10);
      assert Natural(n)[..|Natural(n)| - 1] == Natural(n / 10);
      assert n / 10 > 0;
    } else {
      assert Natural(n)[..0] == "";
    }
  }

  lemma DecimalMeans(n: int)
    ensures n >= 0 ==> ValueOf(Decimal(n)) == n
    ensures n < 0 ==> Decimal(n)[0] == '-' && ValueOf(Decimal(n)[1..]) == -n
  {
    NaturalMeans(if n < 0 then -n else n);
    if n < 0 {
      assert Decimal(n)[1..] == Natural(-n);
    }
  }

  lemma {:induction false} LineEnds(c: string, s: string)
    requires '\n' !in c
    ensures AfterLine(c + "\n" + s) == "\n" + s
  {
    if c == "" {
      assert c + "\n" + s == "\n" + s;
    } else {
      assert (c + "\n" + s)[1..] == c[1..] + "\n" + s && c[0] in c;
      LineEnds(c[1..], s);
    }
  }

  predicate Unclosed(c: string) {
    forall i :: 0 <= i < |c| - 1 ==> !(c[i] == '*' && c[i + 1] == '/')
  }

  lemma {:induction false} CommentEnds(c: string, s: string)
    requires Unclosed(c)
    ensures AfterComment(c + "*/" + s) == s
  {
    var text := c + "*/" + s;
    if c == "" {
      assert text[..2] == "*/" && text[2..] == s;
    } else {
      assert text[1..] == c[1..] + "*/" + s;
      assert At(text, 1) == if |c| > 1 then c[1] else '*';
      var rest := c[1..];
      assert forall i :: 0 <= i < |rest| ==> rest[i] == c[i + 1];
      CommentEnds(rest, s);
    }
  }

  /** Blanks, a comment up to the end of its line, and one up to its closing mark are not tokens. */
  lemma BlanksAreNoTokens(b: char, c: string, s: string)
    ensures b in {' ', '\t', '\n', '\U{0B}', '\U{0C}', '\r'} ==> LexAll([b] + s) == LexAll(s)
    ensures '\n' !in c ==> LexAll("--" + c + "\n" + s) == LexAll(s)
    ensures Unclosed(c) ==> LexAll("/*" + c + "*/" + s) == LexAll(s)
  {
    hide AfterLine, AfterComment, LexAt;
    assert ([b] + s)[1..] == s && ("\n" + s)[1..] == s;
    var line, block := "--" + c + "\n" + s, "/*" + c + "*/" + s;
    assert line[2..] == c + "\n" + s && block[2..] == c + "*/" + s;
    assert line[0] == '-' && At(line, 1) == '-' && block[0] == '/' && At(block, 1) == '*';
    if '\n' !in c {
      LineEnds(c, s);
      assert SkipBlanks(line) == SkipBlanks("\n" + s);
    }
    if Unclosed(c) {
      CommentEnds(c, s);
    }
  }

  /** The fixed symbols, whatever follows them. */
  lemma SymbolsAre(s: string)
    ensures Symbol("(" + s) == (LParen, 1) && Symbol(")" + s) == (RParen, 1) && Symbol("," + s) == (Comma, 1)
    ensures Symbol("*" + s) == (Star, 1) && Symbol(";" + s) == (Semi, 1) && Symbol("=" + s) == (Equals, 1)
    ensures Symbol("!=" + s) == Symbol("<>" + s) == (Neq, 2)
    ensures Symbol("<=" + s) == (Lte, 2) && Symbol(">=" + s) == (Gte, 2)
    ensures At(s, 0) != '>' && At(s, 0) != '=' ==> Symbol("<" + s) == (Lt, 1) && Symbol(">" + s) == (Gt, 1)
    ensures Symbol("+" + s) == (Plus, 1) && Symbol("/" + s) == (Slash, 1) && Symbol("%" + s) == (Percent, 1)
    ensures !('0' <= At(s, 0) <= '9') ==> Symbol("-" + s) == (Minus, 1)
  {
    forall c: char
      ensures At([c] + s, 0) == c && At([c] + s, 1) == At(s, 0)
    {
    }
  }
}
