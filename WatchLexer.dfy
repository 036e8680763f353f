/** The lexer of the watch-expression language: a cursor over a C string that
    appends tokens to a queue, ending it with one EOF token. Runs of digits become
    integer literals, runs of letters and underscores become symbols, and the
    punctuation `[ ] ( ) * . .. ->` becomes one token each. */
module WatchLexer {
  import opened Wrappers
  import opened CStrings

  datatype TokenKind =
    | Symbol | BracketOp | BracketCl | ParenOp | ParenCl | ImmInt
    | Arrow | Dot | Star | DotDot | EOF

  /** A token; only symbols and integer literals carry text. */
  datatype Token = Token(kind: TokenKind, content: string)

  /** `LexerTokenKindToString`: the enumerator's own name. */
  function TokenKindToString(k: TokenKind): (r: string)
    ensures |r| > 10 && r[..10] == "TokenKind_"
  {
    match k
    case Symbol => "TokenKind_Symbol"
    case BracketOp => "TokenKind_BracketOp"
    case BracketCl => "TokenKind_BracketCl"
    case ParenOp => "TokenKind_ParenOp"
    case ParenCl => "TokenKind_ParenCl"
    case ImmInt => "TokenKind_ImmInt"
    case Arrow => "TokenKind_Arrow"
    case Dot => "TokenKind_Dot"
    case Star => "TokenKind_Star"
    case DotDot => "TokenKind_DotDot"
    case EOF => "TokenKind_EOF"
  }

  /** The kind a name printed by `TokenKindToString` stands for. */
  function KindNamed(name: string): (r: Option<TokenKind>)
    ensures r.Some? ==> TokenKindToString(r.value) == name
  {
    if name == "TokenKind_Symbol" then Some(Symbol)
    else if name == "TokenKind_BracketOp" then Some(BracketOp)
    else if name == "TokenKind_BracketCl" then Some(BracketCl)
    else if name == "TokenKind_ParenOp" then Some(ParenOp)
    else if name == "TokenKind_ParenCl" then Some(ParenCl)
    else if name == "TokenKind_ImmInt" then Some(ImmInt)
    else if name == "TokenKind_Arrow" then Some(Arrow)
    else if name == "TokenKind_Dot" then Some(Dot)
    else if name == "TokenKind_Star" then Some(Star)
    else if name == "TokenKind_DotDot" then Some(DotDot)
    else if name == "TokenKind_EOF" then Some(EOF)
    else None
  }

  /** Every kind prints a name of its own: the printed name gives the kind back. */
  lemma TokenKindNamesDistinct(a: TokenKind, b: TokenKind)
    ensures KindNamed(TokenKindToString(a)) == Some(a)
    ensures a != b ==> TokenKindToString(a) != TokenKindToString(b)
  {
    assert KindNamed(TokenKindToString(b)) == Some(b);
  }

  // ---------------------------------------------------------------------
  // Characters

  /** `isdigit` in the C locale. */
  predicate IsDigit(c: char) {
    '0' <= c <= '9'
  }

  /** `c == '_' || isalpha(c)` in the C locale. */
  predicate IsSymbolChar(c: char) {
    c == '_' || 'a' <= c <= 'z' || 'A' <= c <= 'Z'
  }

  /** A character of the run a literal (`digits`) or a symbol is made of. */
  predicate InRun(c: char, digits: bool) {
    if digits then IsDigit(c) else IsSymbolChar(c)
  }

  /** The character under the cursor as `LexerPeekChar` reads it: NUL at the end of the string. */
  function CharAt(s: CString, i: nat): (c: char)
    ensures c == '\0' <==> i >= |s|
  {
    if i < |s| then s[i] else '\0'
  }

  /** Where the run that continues at `i` ends: every character before it belongs
      to the run, and the character there, if any, does not. */
  function RunEnd(s: CString, i: nat, digits: bool): (e: nat)
    requires i <= |s|
    ensures i <= e <= |s|
    ensures forall k :: i <= k < e ==> InRun(s[k], digits)
    ensures e < |s| ==> !InRun(s[e], digits)
    decreases |s| - i
  {
    if i < |s| && InRun(s[i], digits) then RunEnd(s, i + 1, digits) else i
  }

  // ---------------------------------------------------------------------
  // The two defects of the character cases, as written and corrected

  /** The single-character punctuation as the source maps it: `')'` yields `ParenOp`. */
  function PunctKindAsWritten(c: char): Option<TokenKind> {
    if c == '[' then Some(BracketOp)
    else if c == ']' then Some(BracketCl)
    else if c == '(' then Some(ParenOp)
    else if c == ')' then Some(ParenOp)
    else if c == '*' then Some(Star)
    else None
  }

  /** As written, an opening and a closing parenthesis give the same token, and no
      character gives `ParenCl`. */
  lemma CloseParenLexesAsOpen()
    ensures PunctKindAsWritten('(') == PunctKindAsWritten(')') == Some(ParenOp)
    ensures forall c :: PunctKindAsWritten(c) != Some(ParenCl)
  {
  }

  /** The punctuation a single-character token stands for. */
  function PunctChar(k: TokenKind): Option<char> {
    match k
    case BracketOp => Some('[')
    case BracketCl => Some(']')
    case ParenOp => Some('(')
    case ParenCl => Some(')')
    case Star => Some('*')
    case _ => None
  }

  /** The single-character punctuation with `')'` giving `ParenCl`. */
  function PunctKind(c: char): Option<TokenKind> {
    if c == '[' then Some(BracketOp)
    else if c == ']' then Some(BracketCl)
    else if c == '(' then Some(ParenOp)
    else if c == ')' then Some(ParenCl)
    else if c == '*' then Some(Star)
    else None
  }

  /** Corrected, each punctuation character gives the kind that stands for it, and
      only those characters give one; the source's mapping differs from it at `')'` alone. */
  lemma PunctKindInverse(c: char)
    ensures PunctKind(c).Some? ==> PunctChar(PunctKind(c).value) == Some(c)
    ensures PunctKind(c).None? ==> forall k :: PunctChar(k) != Some(c)
    ensures PunctKindAsWritten(c) == PunctKind(c) <==> c != ')'
  {
  }

  /** The text of an integer literal as the source builds it: after a `'-'` the first
      digit is stored twice and the sign is lost. */
  function NumberTextAsWritten(minus: bool, digits: string): string
    requires |digits| > 0
  {
    if minus then [digits[0]] + digits else digits
  }

  /** As written, `-5` and `55` give the same literal text. */
  lemma MinusDoublesDigit()
    ensures NumberTextAsWritten(true, "5") == NumberTextAsWritten(false, "55") == "55"
  {
  }

  /** The text of an integer literal with its sign kept. */
  function NumberText(minus: bool, digits: string): (r: string)
    ensures |r| == |digits| + (if minus then 1 else 0)
    ensures r[|r| - |digits|..] == digits
  {
    if minus then "-" + digits else digits
  }

  /** The literal text tells the sign and the digits apart. */
  lemma NumberTextInjective(m1: bool, d1: string, m2: bool, d2: string)
    requires |d1| > 0 && |d2| > 0 && IsDigit(d1[0]) && IsDigit(d2[0])
    requires NumberText(m1, d1) == NumberText(m2, d2)
    ensures m1 == m2 && d1 == d2
  {
  }

  // ---------------------------------------------------------------------
  // The token sequence

  datatype LexFault = ArrowWithoutMinus | UnexpectedChar(c: char)

  /** `ts` in front of the tokens of `r`, or `r`'s fault. */
  function Extend(ts: seq<Token>, r: Result<seq<Token>, LexFault>): Result<seq<Token>, LexFault> {
    match r
    case Success(rest) => Success(ts + rest)
    case Failure(e) => Failure(e)
  }

  /** What one pass of `LexerBuildTokens`'s loop does with the character at `i`:
      the tokens it appends (none or one), where the cursor ends and the
      pending-minus flag after it. */
  datatype Step = Step(emit: seq<Token>, next: nat, minus: bool)

  /** Which reading of the character cases a lexer follows: the source's own, or
      the one with `')'` giving `ParenCl` and a literal keeping its sign. */
  datatype Reading = AsWritten | Corrected

  /** The single-character punctuation under reading `v`. */
  function PunctOf(v: Reading, c: char): Option<TokenKind> {
    if v.AsWritten? then PunctKindAsWritten(c) else PunctKind(c)
  }

  /** The text of an integer literal under reading `v`. */
  function LiteralText(v: Reading, minus: bool, digits: string): string
    requires |digits| > 0
  {
    if v.AsWritten? then NumberTextAsWritten(minus, digits) else NumberText(minus, digits)
  }

  /** One pass of the loop on the character at `i` under reading `v`, with `minus`
      the pending-minus flag. A `'-'` only sets the flag, which the next literal or
      `'>'` clears; a `'>'` without it and any character outside the language are faults. */
  function LexStep(v: Reading, s: CString, i: nat, minus: bool): (r: Result<Step, LexFault>)
    requires i < |s|
    ensures r.Success? ==> i < r.value.next <= |s| && |r.value.emit| <= 1
    ensures r.Success? ==> forall j :: 0 <= j < |r.value.emit| ==> r.value.emit[j].kind != EOF
  {
    var c := s[i];
    if IsDigit(c) then
      var e := RunEnd(s, i + 1, true);
      Success(Step([Token(ImmInt, LiteralText(v, minus, s[i..e]))], e, false))
    else if PunctOf(v, c).Some? then
      Success(Step([Token(PunctOf(v, c).value, "")], i + 1, minus))
    else if c == '-' then
      Success(Step([], i + 1, true))
    else if c == '>' then
      if !minus then Failure(ArrowWithoutMinus)
      else Success(Step([Token(Arrow, "")], i + 1, false))
    else if c == '.' then
      if CharAt(s, i + 1) == '.' then Success(Step([Token(DotDot, "")], i + 2, minus))
      else Success(Step([Token(Dot, "")], i + 1, minus))
    else if IsSymbolChar(c) then
      var e := RunEnd(s, i + 1, false);
      Success(Step([Token(Symbol, s[i..e])], e, minus))
    else Failure(UnexpectedChar(c))
  }

  /** The tokens `LexerBuildTokens` appends from position `i` on under reading `v`, ending with EOF. */
  function LexFrom(v: Reading, s: CString, i: nat, minus: bool): Result<seq<Token>, LexFault>
    requires i <= |s|
    decreases |s| - i
  {
    if i == |s| then Success([Token(EOF, "")])
    else
      match LexStep(v, s, i, minus)
      case Failure(e) => Failure(e)
      case Success(st) => Extend(st.emit, LexFrom(v, s, st.next, st.minus))
  }

  /** The whole token sequence of a string under reading `v`. */
  function Lex(v: Reading, s: CString): Result<seq<Token>, LexFault> {
    LexFrom(v, s, 0, false)
  }

  /** As written, `"-5"` lexes to the literal `"55"` and `"()"` to two opening parentheses. */
  lemma AsWrittenExamples()
    ensures Lex(AsWritten, "-5") == Success([Token(ImmInt, "55"), Token(EOF, "")])
    ensures Lex(AsWritten, "()") == Success([Token(ParenOp, ""), Token(ParenOp, ""), Token(EOF, "")])
    ensures Lex(Corrected, "-5") == Success([Token(ImmInt, "-5"), Token(EOF, "")])
    ensures Lex(Corrected, "()") == Success([Token(ParenOp, ""), Token(ParenCl, ""), Token(EOF, "")])
  {
    SignedDigitLexes(AsWritten);
    SignedDigitLexes(Corrected);
    ParensLex(AsWritten);
    ParensLex(Corrected);
    assert LiteralText(Corrected, true, "5") == "-" + "5" == "-5";
    assert LiteralText(AsWritten, true, "5") == ["5"[0]] + "5" == "55";
  }

  lemma SignedDigitLexes(v: Reading)
    ensures Lex(v, "-5") == Success([Token(ImmInt, LiteralText(v, true, "5")), Token(EOF, "")])
  {
    var s: CString := "-5";
    assert s[1] == '5' && RunEnd(s, 2, true) == 2 && s[1..2] == "5";
    assert LexFrom(v, s, 2, false) == Success([Token(EOF, "")]);
    assert LexStep(v, s, 1, true) == Success(Step([Token(ImmInt, LiteralText(v, true, "5"))], 2, false));
    var lit := Token(ImmInt, LiteralText(v, true, "5"));
    assert [lit] + [Token(EOF, "")] == [lit, Token(EOF, "")];
    assert LexFrom(v, s, 1, true) == Success([lit, Token(EOF, "")]);
    assert LexStep(v, s, 0, false) == Success(Step([], 1, true));
    LexFromUnfold(v, s, 0, false);
    assert [] + [lit, Token(EOF, "")] == [lit, Token(EOF, "")];
  }

  lemma ParensLex(v: Reading)
    ensures Lex(v, "()") == Success([Token(ParenOp, ""), Token(PunctOf(v, ')').value, ""), Token(EOF, "")])
  {
    var s: CString := "()";
    assert s[0] == '(' && s[1] == ')';
    assert LexFrom(v, s, 2, false) == Success([Token(EOF, "")]);
    assert LexStep(v, s, 1, false) == Success(Step([Token(PunctOf(v, ')').value, "")], 2, false));
    var close := Token(PunctOf(v, ')').value, "");
    assert [close] + [Token(EOF, "")] == [close, Token(EOF, "")];
    assert LexFrom(v, s, 1, false) == Success([close, Token(EOF, "")]);
    assert LexStep(v, s, 0, false) == Success(Step([Token(ParenOp, "")], 1, false));
    LexFromUnfold(v, s, 0, false);
    assert [Token(ParenOp, "")] + [close, Token(EOF, "")] == [Token(ParenOp, ""), close, Token(EOF, "")];
  }

  /** The token sequence always ends with the one and only EOF token. */
  lemma {:induction false} LexEndsWithEOF(v: Reading, s: CString, i: nat, minus: bool)
    requires i <= |s|
    ensures LexFrom(v, s, i, minus).Success? ==>
      var ts := LexFrom(v, s, i, minus).value;
      && |ts| > 0 && ts[|ts| - 1].kind == EOF
      && forall j :: 0 <= j < |ts| - 1 ==> ts[j].kind != EOF
    decreases |s| - i
  {
    if i < |s| && LexStep(v, s, i, minus).Success? {
      var st := LexStep(v, s, i, minus).value;
      LexEndsWithEOF(v, s, st.next, st.minus);
      if LexFrom(v, s, st.next, st.minus).Success? {
        var rest := LexFrom(v, s, st.next, st.minus).value;
        assert LexFrom(v, s, i, minus).value == st.emit + rest;
        EOFStaysLast(st.emit, rest);
      }
    }
  }

  lemma EOFStaysLast(a: seq<Token>, b: seq<Token>)
    requires forall j :: 0 <= j < |a| ==> a[j].kind != EOF
    requires |b| > 0 && b[|b| - 1].kind == EOF && forall j :: 0 <= j < |b| - 1 ==> b[j].kind != EOF
    ensures var ts := a + b; |ts| > 0 && ts[|ts| - 1].kind == EOF && forall j :: 0 <= j < |ts| - 1 ==> ts[j].kind != EOF
  {
    forall j | 0 <= j < |a + b| - 1 ensures (a + b)[j].kind != EOF {
      if j >= |a| {
        assert (a + b)[j] == b[j - |a|];
      }
    }
  }

  // ---------------------------------------------------------------------
  // Rendering tokens back to text

  /** The characters a token stands for. */
  function TokenText(t: Token): string {
    match t.kind
    case Symbol => t.content
    case ImmInt => t.content
    case Arrow => "->"
    case Dot => "."
    case DotDot => ".."
    case EOF => ""
    case _ => [PunctChar(t.kind).value]
  }

  /** The characters a token sequence stands for. */
  function Render(ts: seq<Token>): string {
    if |ts| == 0 then "" else TokenText(ts[0]) + Render(ts[1..])
  }

  /** A character the lexer has a case for. */
  predicate Lexable(c: char) {
    IsDigit(c) || IsSymbolChar(c) || PunctKind(c).Some? || c == '-' || c == '>' || c == '.'
  }

  /** A string every character of which the lexer handles, where each `'-'` comes
      right before a digit or a `'>'` and each `'>'` right after a `'-'`. */
  predicate WellFormedInput(s: CString) {
    forall i :: 0 <= i < |s| ==> WellFormedAt(s, i)
  }

  /** The character at `i` is handled, and a `'-'` or `'>'` there has the right neighbour. */
  predicate WellFormedAt(s: CString, i: nat)
    requires i < |s|
  {
    && Lexable(s[i])
    && (s[i] == '-' ==> i + 1 < |s| && (IsDigit(s[i + 1]) || s[i + 1] == '>'))
    && (s[i] == '>' ==> 0 < i && s[i - 1] == '-')
  }

  lemma {:induction false} RenderAppend(a: seq<Token>, b: seq<Token>)
    ensures Render(a + b) == Render(a) + Render(b)
    decreases |a|
  {
    if |a| == 0 {
      assert a + b == b;
    } else {
      assert (a + b)[0] == a[0];
      assert (a + b)[1..] == a[1..] + b;
      RenderAppend(a[1..], b);
    }
  }

  /** The sign a pending minus stands for. */
  function Sign(minus: bool): string {
    if minus then "-" else ""
  }

  /** One pass of the loop on a well-formed string: the pending sign and the
      characters it consumes are the text of the tokens it appends followed by the
      sign it leaves pending, which is set exactly when it consumed a `'-'`. */
  lemma LexStepRender(s: CString, i: nat, minus: bool)
    requires WellFormedInput(s) && i < |s|
    requires minus <==> 0 < i && s[i - 1] == '-'
    ensures LexStep(Corrected, s, i, minus).Success?
    ensures var st := LexStep(Corrected, s, i, minus).value;
      && (st.minus <==> s[st.next - 1] == '-')
      && Sign(minus) + s[i..st.next] == Render(st.emit) + Sign(st.minus)
  {
    assert WellFormedAt(s, i);
    if 0 < i {
      assert WellFormedAt(s, i - 1);
    }
    if IsDigit(s[i]) || IsSymbolChar(s[i]) {
      RunRender(s, i, minus);
    } else {
      CharRender(s, i, minus);
    }
  }

  /** `LexStepRender` for a literal or a symbol. */
  lemma RunRender(s: CString, i: nat, minus: bool)
    requires i < |s| && (IsDigit(s[i]) || IsSymbolChar(s[i]))
    requires minus ==> IsDigit(s[i])
    ensures LexStep(Corrected, s, i, minus).Success?
    ensures var st := LexStep(Corrected, s, i, minus).value;
      && (st.minus <==> s[st.next - 1] == '-')
      && Sign(minus) + s[i..st.next] == Render(st.emit) + Sign(st.minus)
  {
    var digits := IsDigit(s[i]);
    var e := RunEnd(s, i + 1, digits);
    RunEndsInRun(s, i, digits);
    var t := if digits then Token(ImmInt, NumberText(minus, s[i..e])) else Token(Symbol, s[i..e]);
    var st := Step([t], e, if digits then false else minus);
    assert LexStep(Corrected, s, i, minus) == Success(st);
    RenderOne(t);
    SignedText(minus && digits, s[i..e]);
  }

  /** The last character of a run is part of the run, so it is not a `'-'`. */
  lemma RunEndsInRun(s: CString, i: nat, digits: bool)
    requires i < |s| && InRun(s[i], digits)
    ensures var e := RunEnd(s, i + 1, digits); i < e && s[e - 1] != '-'
  {
    var e := RunEnd(s, i + 1, digits);
    assert InRun(s[e - 1], digits);
  }

  lemma SignedText(minus: bool, text: string)
    ensures Sign(minus) + text == (if minus then "-" + text else text) + Sign(false)
  {
    assert text + [] == text;
  }

  lemma RenderOne(t: Token)
    ensures Render([t]) == TokenText(t)
  {
    assert [t][1..] == [];
  }

  /** `LexStepRender` for a character that is a token, or part of one, by itself. */
  lemma CharRender(s: CString, i: nat, minus: bool)
    requires i < |s| && Lexable(s[i]) && !IsDigit(s[i]) && !IsSymbolChar(s[i])
    requires minus ==> s[i] == '>'
    requires s[i] == '>' ==> minus
    ensures LexStep(Corrected, s, i, minus).Success?
    ensures var st := LexStep(Corrected, s, i, minus).value;
      && (st.minus <==> s[st.next - 1] == '-')
      && Sign(minus) + s[i..st.next] == Render(st.emit) + Sign(st.minus)
  {
    var c := s[i];
    var st := LexStep(Corrected, s, i, minus).value;
    assert Render(st.emit) == if |st.emit| == 0 then "" else TokenText(st.emit[0]) + Render([]);
    if c == '.' && CharAt(s, i + 1) == '.' {
      assert s[i..st.next] == [c, s[i + 1]];
    } else {
      assert s[i..st.next] == [c];
    }
  }

  /** The tokens from `i` are the step's tokens followed by the tokens after it. */
  lemma LexFromUnfold(v: Reading, s: CString, i: nat, minus: bool)
    requires i < |s| && LexStep(v, s, i, minus).Success?
    requires var st := LexStep(v, s, i, minus).value; LexFrom(v, s, st.next, st.minus).Success?
    ensures var st := LexStep(v, s, i, minus).value;
      LexFrom(v, s, i, minus) == Success(st.emit + LexFrom(v, s, st.next, st.minus).value)
  {
  }

  /** Text carried over a boundary: when `sign + x` is `head + carry` and `tail`
      is `carry + y`, the two texts joined are `sign + x + y`. */
  lemma CarryJoin(sign: string, x: string, head: string, carry: string, tail: string, y: string)
    requires sign + x == head + carry && tail == carry + y
    ensures head + tail == sign + (x + y)
  {
    calc {
      head + tail;
      head + (carry + y);
      (head + carry) + y;
      (sign + x) + y;
      sign + (x + y);
    }
  }

  /** At the end of a well-formed string no `'-'` is pending and only EOF remains. */
  lemma LexRenderEnd(s: CString, minus: bool)
    requires WellFormedInput(s)
    requires minus <==> 0 < |s| && s[|s| - 1] == '-'
    ensures !minus && LexFrom(Corrected, s, |s|, minus) == Success([Token(EOF, "")])
    ensures Render([Token(EOF, "")]) == Sign(minus) + s[|s|..]
  {
    if 0 < |s| {
      assert WellFormedAt(s, |s| - 1);
    }
    assert Render([Token(EOF, "")]) == "" + Render([]);
  }

  /** One step of the round trip: when the step's text carries over to the text
      of the tokens after it, the tokens from `i` render back from `i`. */
  lemma LexRenderStep(s: CString, i: nat, minus: bool, st: Step, rest: seq<Token>)
    requires i < |s| && LexStep(Corrected, s, i, minus) == Success(st)
    requires LexFrom(Corrected, s, st.next, st.minus) == Success(rest)
    requires Render(rest) == Sign(st.minus) + s[st.next..]
    requires Sign(minus) + s[i..st.next] == Render(st.emit) + Sign(st.minus)
    ensures LexFrom(Corrected, s, i, minus) == Success(st.emit + rest)
    ensures Render(st.emit + rest) == Sign(minus) + s[i..]
  {
    LexFromUnfold(Corrected, s, i, minus);
    RenderCarry(s, i, st.next, Sign(minus), st.emit, Sign(st.minus), rest);
  }

  /** The text of `emit` and `rest` joined, when the text of `emit` is that of
      `s[i..next]` up to the carried signs and the text of `rest` that of the rest of `s`. */
  lemma RenderCarry(s: CString, i: nat, next: nat, sign: string, emit: seq<Token>, sign': string, rest: seq<Token>)
    requires i <= next <= |s|
    requires Render(rest) == sign' + s[next..]
    requires sign + s[i..next] == Render(emit) + sign'
    ensures Render(emit + rest) == sign + s[i..]
  {
    RenderAppend(emit, rest);
    CarryJoin(sign, s[i..next], Render(emit), sign', Render(rest), s[next..]);
    assert s[i..next] + s[next..] == s[i..];
  }

  /** From position `i` with the flag set exactly when a `'-'` was just consumed,
      the tokens of a well-formed string render back to the rest of it, the pending
      `'-'` included. */
  lemma {:induction false} LexRenderFrom(s: CString, i: nat, minus: bool)
    requires WellFormedInput(s) && i <= |s|
    requires minus <==> 0 < i && s[i - 1] == '-'
    ensures LexFrom(Corrected, s, i, minus).Success?
    ensures Render(LexFrom(Corrected, s, i, minus).value) == Sign(minus) + s[i..]
    decreases |s| - i
  {
    if i == |s| {
      LexRenderEnd(s, minus);
    } else {
      LexStepRender(s, i, minus);
      var st := LexStep(Corrected, s, i, minus).value;
      LexRenderFrom(s, st.next, st.minus);
      LexRenderStep(s, i, minus, st, LexFrom(Corrected, s, st.next, st.minus).value);
    }
  }

  /** A well-formed string lexes without fault, and its tokens render back to it. */
  lemma LexRenderRoundTrip(s: CString)
    requires WellFormedInput(s)
    ensures Lex(Corrected, s).Success? && Render(Lex(Corrected, s).value) == s
  {
    LexRenderFrom(s, 0, false);
  }

  /** A string with no `')'` whose every `'-'` comes right before a `'>'`. */
  predicate PlainInput(s: CString) {
    forall i :: 0 <= i < |s| ==> PlainAt(s, i)
  }

  /** The character at `i` is not `')'`, and a `'-'` there is followed by a `'>'`. */
  predicate PlainAt(s: CString, i: nat)
    requires i < |s|
  {
    s[i] != ')' && (s[i] == '-' ==> i + 1 < |s| && s[i + 1] == '>')
  }

  /** Away from `')'` and from a literal behind a pending `'-'`, one pass of the loop
      is the same under both readings, and a minus it leaves pending is followed by `'>'`. */
  lemma StepReadingsAgree(s: CString, i: nat, minus: bool)
    requires i < |s| && PlainAt(s, i) && (minus ==> s[i] == '>')
    ensures LexStep(AsWritten, s, i, minus) == LexStep(Corrected, s, i, minus)
    ensures LexStep(Corrected, s, i, minus).Success? ==>
      var st := LexStep(Corrected, s, i, minus).value;
      st.minus ==> st.next < |s| && s[st.next] == '>'
  {
  }

  /** On a plain string the two readings give the same tokens, or the same fault. */
  lemma {:induction false} ReadingsAgreeFrom(s: CString, i: nat, minus: bool)
    requires PlainInput(s) && i <= |s| && (minus ==> i < |s| && s[i] == '>')
    ensures LexFrom(AsWritten, s, i, minus) == LexFrom(Corrected, s, i, minus)
    decreases |s| - i
  {
    if i < |s| {
      assert PlainAt(s, i);
      StepReadingsAgree(s, i, minus);
      if LexStep(Corrected, s, i, minus).Success? {
        var st := LexStep(Corrected, s, i, minus).value;
        ReadingsAgreeFrom(s, st.next, st.minus);
      }
    }
  }

  /** The source's lexer spells a well-formed plain string back: with no `')'` and no
      sign before a literal, neither defect is met. */
  lemma AsWrittenRoundTrip(s: CString)
    requires WellFormedInput(s) && PlainInput(s)
    ensures Lex(AsWritten, s) == Lex(Corrected, s)
    ensures Lex(AsWritten, s).Success? && Render(Lex(AsWritten, s).value) == s
  {
    ReadingsAgreeFrom(s, 0, false);
    LexRenderRoundTrip(s);
  }

  /** A character the lexer has no case for makes the whole string a fault. */
  lemma {:induction false} UnlexableFails(v: Reading, s: CString, i: nat, minus: bool, k: nat)
    requires i <= k < |s| && !Lexable(s[k])
    ensures LexFrom(v, s, i, minus).Failure?
    decreases |s| - i
  {
    if LexStep(v, s, i, minus).Success? {
      var st := LexStep(v, s, i, minus).value;
      if st.next <= k {
        UnlexableFails(v, s, st.next, st.minus, k);
      } else {
        assert false;
      }
    }
  }

  lemma ExtendAssoc(a: seq<Token>, b: seq<Token>, r: Result<seq<Token>, LexFault>)
    ensures Extend(a, Extend(b, r)) == Extend(a + b, r)
  {
    if r.Success? {
      assert a + (b + r.value) == (a + b) + r.value;
    }
  }

  /** One pass of the loop, seen from the tokens in front: a fault ends the whole
      sequence with that fault, and a step moves its tokens into the front. */
  lemma ExtendStep(v: Reading, s: CString, i: nat, minus: bool, before: seq<Token>)
    requires i < |s|
    ensures LexStep(v, s, i, minus).Failure? ==>
      Extend(before, LexFrom(v, s, i, minus)) == Failure(LexStep(v, s, i, minus).error)
    ensures LexStep(v, s, i, minus).Success? ==>
      var st := LexStep(v, s, i, minus).value;
      Extend(before + st.emit, LexFrom(v, s, st.next, st.minus)) == Extend(before, LexFrom(v, s, i, minus))
  {
    if LexStep(v, s, i, minus).Success? {
      var st := LexStep(v, s, i, minus).value;
      ExtendAssoc(before, st.emit, LexFrom(v, s, st.next, st.minus));
    }
  }

  // ---------------------------------------------------------------------
  // The lexer object

  /** The lexer: the string it reads, the cursor, the token queue and its count. */
  class Lexer {
    const content: CString
    var pos: nat
    var tokens: seq<Token>
    var count: nat

    /** The cursor lies within the string and the count is the queue's length. */
    predicate Valid()
      reads this
    {
      pos <= |content| && count == |tokens|
    }

    /** `LexerCreate`: the cursor at the start and an empty queue. */
    constructor (content: CString)
      ensures this.content == content && pos == 0 && tokens == [] && Valid()
    {
      this.content := content;
      pos := 0;
      tokens := [];
      count := 0;
    }

    /** `LexerPeekChar`: the character under the cursor, NUL at the end. */
    method PeekChar() returns (c: char)
      requires Valid()
      ensures c == CharAt(content, pos)
    {
      c := '\0';
      if pos < |content| {
        c := content[pos];
      }
    }

    /** `LexerConsumeChar`: the character under the cursor, moving past it; at the
        end, NUL and the cursor stays. */
    method ConsumeChar() returns (c: char)
      requires Valid()
      modifies this`pos
      ensures Valid()
      ensures c == CharAt(content, old(pos))
      ensures pos == if c == '\0' then old(pos) else old(pos) + 1
    {
      c := '\0';
      if pos < |content| {
        c := content[pos];
        pos := pos + 1;
      }
    }

    /** `LexerPushToken`: appends at the tail and counts it. */
    method PushToken(t: Token)
      requires Valid()
      modifies this`tokens, this`count
      ensures Valid()
      ensures tokens == old(tokens) + [t] && count == old(count) + 1
    {
      tokens := tokens + [t];
      count := count + 1;
    }

    /** The inner loop of a literal or a symbol: takes characters of the run while the next one belongs to it. */
    method ConsumeRun(digits: bool) returns (text: string)
      requires Valid()
      modifies this`pos
      ensures Valid()
      ensures old(pos) <= pos == RunEnd(content, old(pos), digits)
      ensures text == content[old(pos)..pos]
    {
      var c := PeekChar();
      text := "";
      while InRun(c, digits)
        invariant Valid() && old(pos) <= pos
        invariant RunEnd(content, pos, digits) == RunEnd(content, old(pos), digits)
        invariant text == content[old(pos)..pos]
        invariant c == CharAt(content, pos)
        decreases |content| - pos
      {
        text := text + [c];
        c := ConsumeChar();
        c := PeekChar();
      }
    }

    /** The literal case of `LexerBuildTokens`: the digit `c` just consumed and the
        digits after it, with `c` written once more in front when a `'-'` is pending. */
    method LexNumber(c: char, minus: bool)
      requires Valid() && 0 < pos && c == content[pos - 1] && IsDigit(c)
      modifies this`pos, this`tokens, this`count
      ensures Valid()
      ensures pos == RunEnd(content, old(pos), true)
      ensures tokens == old(tokens) + [Token(ImmInt, NumberTextAsWritten(minus, content[old(pos) - 1..pos]))]
    {
      var text: string := [];
      if minus {
        text := text + [c];
      }
      text := text + [c];
      var run := ConsumeRun(true);
      assert content[old(pos) - 1..pos] == [c] + run;
      assert text + run == NumberTextAsWritten(minus, [c] + run);
      PushToken(Token(ImmInt, text + run));
    }

    /** The symbol case of `LexerBuildTokens`: the character `c` just consumed and the
        letters and underscores after it. */
    method LexSymbol(c: char)
      requires Valid() && 0 < pos && c == content[pos - 1] && IsSymbolChar(c)
      modifies this`pos, this`tokens, this`count
      ensures Valid()
      ensures pos == RunEnd(content, old(pos), false)
      ensures tokens == old(tokens) + [Token(Symbol, content[old(pos) - 1..pos])]
    {
      var run := ConsumeRun(false);
      assert content[old(pos) - 1..pos] == [c] + run;
      PushToken(Token(Symbol, [c] + run));
    }

    /** The dot case of `LexerBuildTokens`: a second `'.'` under the cursor makes `DotDot`. */
    method LexDot()
      requires Valid()
      modifies this`pos, this`tokens, this`count
      ensures Valid()
      ensures CharAt(content, old(pos)) == '.' ==> pos == old(pos) + 1 && tokens == old(tokens) + [Token(DotDot, "")]
      ensures CharAt(content, old(pos)) != '.' ==> pos == old(pos) && tokens == old(tokens) + [Token(Dot, "")]
    {
      var c2 := PeekChar();
      if c2 == '.' {
        c2 := ConsumeChar();
        PushToken(Token(DotDot, ""));
      } else {
        PushToken(Token(Dot, ""));
      }
    }

    /** The body of `LexerBuildTokens`'s loop for the character `c` just consumed. */
    method LexOne(c: char, minus: bool) returns (minus': bool, fault: Option<LexFault>)
      requires Valid() && 0 < pos && c == content[pos - 1]
      modifies this`pos, this`tokens, this`count
      ensures Valid()
      ensures match LexStep(AsWritten, content, old(pos) - 1, minus)
        case Success(st) => fault.None? && tokens == old(tokens) + st.emit && pos == st.next && minus' == st.minus
        case Failure(e) => fault == Some(e)
    {
      minus', fault := minus, None;
      if IsDigit(c) {
        minus' := false;
        LexNumber(c, minus);
      } else if c == '[' {
        PushToken(Token(BracketOp, ""));
      } else if c == ']' {
        PushToken(Token(BracketCl, ""));
      } else if c == '(' {
        PushToken(Token(ParenOp, ""));
      } else if c == ')' {
        PushToken(Token(ParenOp, ""));
      } else if c == '-' {
        minus' := true;
      } else if c == '>' {
        if !minus {
          return minus', Some(ArrowWithoutMinus);
        }
        minus' := false;
        PushToken(Token(Arrow, ""));
      } else if c == '.' {
        LexDot();
      } else if c == '*' {
        PushToken(Token(Star, ""));
      } else if IsSymbolChar(c) {
        LexSymbol(c);
      } else {
        fault := Some(UnexpectedChar(c));
      }
    }

    /** One pass of `LexerBuildTokens`'s loop: consume a character and lex it.
        At the end of the string nothing changes; otherwise the tokens still to
        come, after the queue, are those that were to come before the pass. */
    method LexNext(minus: bool) returns (minus': bool, done: bool, fault: Option<LexFault>)
      requires Valid()
      modifies this`pos, this`tokens, this`count
      ensures Valid()
      ensures done ==> fault.None? && minus' == minus && old(pos) == pos == |content| && tokens == old(tokens)
      ensures !done && fault.None? ==> old(pos) < pos
      ensures !done && fault.None? ==>
        Extend(tokens, LexFrom(AsWritten, content, pos, minus')) == Extend(old(tokens), LexFrom(AsWritten, content, old(pos), minus))
      ensures fault.Some? ==> Extend(old(tokens), LexFrom(AsWritten, content, old(pos), minus)) == Failure(fault.value)
    {
      var c := ConsumeChar();
      if c == '\0' {
        return minus, true, None;
      }
      ExtendStep(AsWritten, content, pos - 1, minus, tokens);
      done := false;
      minus', fault := LexOne(c, minus);
    }

    /** `LexerBuildTokens`: one pass per character until the end of the string, then EOF. */
    method BuildTokens() returns (r: Outcome<LexFault>)
      requires Valid()
      modifies this`pos, this`tokens, this`count
      ensures Valid()
      ensures match LexFrom(AsWritten, content, old(pos), false)
        case Success(ts) => r == Pass && tokens == old(tokens) + ts
        case Failure(e) => r == Fail(e)
    {
      var minus := false;
      while true
        invariant Valid() && old(pos) <= pos
        invariant Extend(tokens, LexFrom(AsWritten, content, pos, minus)) == Extend(old(tokens), LexFrom(AsWritten, content, old(pos), false))
        decreases |content| - pos
      {
        var done, fault;
        minus, done, fault := LexNext(minus);
        if done {
          assert LexFrom(AsWritten, content, pos, minus) == Success([Token(EOF, "")]);
          break;
        }
        if fault.Some? {
          return Fail(fault.value);
        }
      }
      PushToken(Token(EOF, ""));
      return Pass;
    }
  }
}
