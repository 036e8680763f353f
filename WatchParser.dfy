/** The parser of the watch-expression language: `primary ('[' primary ']')*`,
    where a primary is a symbol or an integer literal, read from the token queue
    the lexer builds and ended by a delimiter token. */
module WatchParser {
  import opened Wrappers
  import opened WatchLexer

  /** A node of the syntax tree: an identifier, an integer literal, or a node indexed by another. */
  datatype Ast = Ident(token: Token) | IntLit(token: Token) | IndexExpr(base: Ast, index: Ast)

  /** The parser's assertions: a token that is not there, a token that cannot follow
      a node, an index that is missing or is not a primary. */
  datatype ParseFault = NoToken | UnexpectedToken(kind: TokenKind) | MissingIndex | IndexNotPrimary

  predicate IsPrimary(e: Ast) {
    e.Ident? || e.IntLit?
  }

  /** `ParserNextExpression` on the tokens from index `i` on, with `prev` the node
      built so far: the node when `delim` is reached and the index after the
      delimiter. A first token that is neither a primary nor the delimiter gives
      no node. */
  function ParseFrom(ts: seq<Token>, i: nat, prev: Option<Ast>, delim: TokenKind)
    : (r: Result<(Option<Ast>, nat), ParseFault>)
    ensures r.Success? ==> i < r.value.1 <= |ts|
    decreases |ts| - i
  {
    if i >= |ts| then Failure(NoToken)
    else
      var t := ts[i];
      if t.kind == delim then Success((prev, i + 1))
      else if prev.None? then
        if t.kind == Symbol then ParseFrom(ts, i + 1, Some(Ident(t)), delim)
        else if t.kind == ImmInt then ParseFrom(ts, i + 1, Some(IntLit(t)), delim)
        else Success((None, i + 1))
      else if t.kind == BracketOp then
        match ParseFrom(ts, i + 1, None, BracketCl)
        case Failure(e) => Failure(e)
        case Success((index, j)) =>
          if index.None? then Failure(MissingIndex)
          else if !IsPrimary(index.value) then Failure(IndexNotPrimary)
          else ParseFrom(ts, j, Some(IndexExpr(prev.value, index.value)), delim)
      else Failure(UnexpectedToken(t.kind))
  }

  /** `ParserBuildAST`: the tree of a whole token queue, up to EOF. */
  function Parse(ts: seq<Token>): Result<(Option<Ast>, nat), ParseFault> {
    ParseFrom(ts, 0, None, EOF)
  }

  /** A tree the parser can build: identifiers hold symbols, literals hold integer
      literals, and every index is a primary. */
  predicate WellFormed(e: Ast) {
    match e
    case Ident(t) => t.kind == Symbol
    case IntLit(t) => t.kind == ImmInt
    case IndexExpr(b, x) => WellFormed(b) && IsPrimary(x) && WellFormed(x)
  }

  /** The tokens a tree is written with. */
  function TokensOf(e: Ast): (ts: seq<Token>)
    ensures |ts| > 0
  {
    match e
    case Ident(t) => [t]
    case IntLit(t) => [t]
    case IndexExpr(b, x) => TokensOf(b) + [Token(BracketOp, "")] + TokensOf(x) + [Token(BracketCl, "")]
  }

  /** Every tree the parser builds is well formed. */
  lemma {:induction false} ParseFromWellFormed(ts: seq<Token>, i: nat, prev: Option<Ast>, delim: TokenKind)
    requires prev.Some? ==> WellFormed(prev.value)
    ensures var r := ParseFrom(ts, i, prev, delim);
      r.Success? && r.value.0.Some? ==> WellFormed(r.value.0.value)
    decreases |ts| - i
  {
    if i < |ts| {
      var t := ts[i];
      if t.kind == delim {
      } else if prev.None? {
        if t.kind == Symbol {
          ParseFromWellFormed(ts, i + 1, Some(Ident(t)), delim);
        } else if t.kind == ImmInt {
          ParseFromWellFormed(ts, i + 1, Some(IntLit(t)), delim);
        }
      } else if t.kind == BracketOp {
        ParseFromWellFormed(ts, i + 1, None, BracketCl);
        var inner := ParseFrom(ts, i + 1, None, BracketCl);
        if inner.Success? && inner.value.0.Some? && IsPrimary(inner.value.0.value) {
          ParseFromWellFormed(ts, inner.value.1, Some(IndexExpr(prev.value, inner.value.0.value)), delim);
        }
      }
    }
  }

  /** After a node, `'[' primary ']'` wraps it in an index expression. */
  lemma ParseIndexSuffix(ts: seq<Token>, j: nat, b: Ast, x: Ast, delim: TokenKind)
    requires WellFormed(x) && IsPrimary(x) && delim != BracketOp
    requires j + 3 <= |ts| && ts[j].kind == BracketOp && ts[j + 1] == x.token && ts[j + 2].kind == BracketCl
    ensures ParseFrom(ts, j, Some(b), delim) == ParseFrom(ts, j + 3, Some(IndexExpr(b, x)), delim)
  {
    assert ParseFrom(ts, j + 2, Some(x), BracketCl) == Success((Some(x), j + 3));
    assert ParseFrom(ts, j + 1, None, BracketCl) == Success((Some(x), j + 3));
  }

  /** Where the parts of an index expression's tokens sit in a queue that holds them at `i`. */
  lemma IndexTokens(b: Ast, x: Ast, ts: seq<Token>, i: nat)
    requires IsPrimary(x)
    requires var n := |TokensOf(IndexExpr(b, x))|; i + n <= |ts| && ts[i..i + n] == TokensOf(IndexExpr(b, x))
    ensures var m := |TokensOf(b)|;
      && |TokensOf(IndexExpr(b, x))| == m + 3
      && ts[i..i + m] == TokensOf(b)
      && ts[i + m].kind == BracketOp && ts[i + m + 1] == x.token && ts[i + m + 2].kind == BracketCl
  {
    var tb := TokensOf(b);
    var mid := [Token(BracketOp, ""), x.token, Token(BracketCl, "")];
    assert TokensOf(x) == [x.token];
    assert TokensOf(IndexExpr(b, x)) == tb + mid;
    SliceParts(ts, i, tb, mid);
    assert ts[i + |tb| + 0] == mid[0] && ts[i + |tb| + 1] == mid[1] && ts[i + |tb| + 2] == mid[2];
  }

  /** A slice holding `a + b` holds `a` at its start and `b` right after. */
  lemma SliceParts(ts: seq<Token>, i: nat, a: seq<Token>, b: seq<Token>)
    requires i + |a| + |b| <= |ts| && ts[i..i + |a| + |b|] == a + b
    ensures ts[i..i + |a|] == a
    ensures forall k :: 0 <= k < |b| ==> ts[i + |a| + k] == b[k]
  {
    var n := |a| + |b|;
    assert ts[i..i + |a|] == ts[i..i + n][..|a|];
    forall k | 0 <= k < |b| ensures ts[i + |a| + k] == b[k] {
      assert ts[i + |a| + k] == ts[i..i + n][|a| + k];
    }
  }

  /** Parsing the tokens of a well-formed tree, from no node, reaches the position
      after them holding that tree, whatever follows. */
  lemma {:induction false} ParseTokensOf(e: Ast, ts: seq<Token>, i: nat, delim: TokenKind)
    requires WellFormed(e)
    requires delim != Symbol && delim != ImmInt && delim != BracketOp
    requires i + |TokensOf(e)| <= |ts| && ts[i..i + |TokensOf(e)|] == TokensOf(e)
    ensures ParseFrom(ts, i, None, delim) == ParseFrom(ts, i + |TokensOf(e)|, Some(e), delim)
  {
    match e
    case Ident(t) =>
      assert ts[i] == ts[i..i + 1][0];
    case IntLit(t) =>
      assert ts[i] == ts[i..i + 1][0];
    case IndexExpr(b, x) =>
      IndexTokens(b, x, ts, i);
      ParseTokensOf(b, ts, i, delim);
      ParseIndexSuffix(ts, i + |TokensOf(b)|, b, x, delim);
  }

  /** The tokens of a well-formed tree followed by EOF parse back to the tree. */
  lemma ParseRoundTrip(e: Ast)
    requires WellFormed(e)
    ensures Parse(TokensOf(e) + [Token(EOF, "")]) == Success((Some(e), |TokensOf(e)| + 1))
  {
    var ts := TokensOf(e) + [Token(EOF, "")];
    assert ts[0..|TokensOf(e)|] == TokensOf(e);
    ParseTokensOf(e, ts, 0, EOF);
  }

  /** The parser: the token queue, the node the cursor is on (`consumed` tokens have
      been taken; none when it is zero) and the tree built. */
  class Parser {
    const tokens: seq<Token>
    var consumed: nat
    var root: Option<Ast>

    /** `ParserCreate`: no token taken and no tree yet. */
    constructor (tokens: seq<Token>)
      ensures this.tokens == tokens && consumed == 0 && root.None?
    {
      this.tokens := tokens;
      consumed := 0;
      root := None;
    }

    /** `ParserConsumeToken`: the next token of the queue. Past the last node the
        cursor falls back to no node and there is no token. */
    method ConsumeToken() returns (t: Option<Token>)
      requires consumed <= |tokens|
      modifies this`consumed
      ensures old(consumed) < |tokens| ==> t == Some(tokens[old(consumed)]) && consumed == old(consumed) + 1
      ensures old(consumed) == |tokens| ==> t.None? && consumed == 0
    {
      if consumed < |tokens| {
        t := Some(tokens[consumed]);
        consumed := consumed + 1;
      } else {
        t := None;
        consumed := 0;
      }
    }

    /** `ParserNextExpression`: consumes tokens up to and including `delim`. */
    method NextExpression(prev: Option<Ast>, delim: TokenKind) returns (r: Result<Option<Ast>, ParseFault>)
      requires consumed <= |tokens|
      modifies this`consumed
      ensures match ParseFrom(tokens, old(consumed), prev, delim)
        case Success((e, j)) => r == Success(e) && consumed == j
        case Failure(f) => r == Failure(f)
      decreases |tokens| - consumed
    {
      var t := ConsumeToken();
      if t.None? {
        return Failure(NoToken);
      }
      var token := t.value;
      if token.kind == delim {
        return Success(prev);
      }
      if prev.None? {
        if token.kind == Symbol {
          r := NextExpression(Some(Ident(token)), delim);
          return;
        } else if token.kind == ImmInt {
          r := NextExpression(Some(IntLit(token)), delim);
          return;
        }
      } else {
        if token.kind == BracketOp {
          var index := NextExpression(None, BracketCl);
          if index.Failure? {
            return Failure(index.error);
          }
          if index.value.None? {
            return Failure(MissingIndex);
          }
          if !IsPrimary(index.value.value) {
            return Failure(IndexNotPrimary);
          }
          r := NextExpression(Some(IndexExpr(prev.value, index.value.value)), delim);
          return;
        } else {
          return Failure(UnexpectedToken(token.kind));
        }
      }
      return Success(None);
    }

    /** `ParserBuildAST`: the tree of the queue up to EOF becomes the root. */
    method BuildAST() returns (r: Outcome<ParseFault>)
      requires consumed <= |tokens|
      modifies this`consumed, this`root
      ensures match ParseFrom(tokens, old(consumed), None, EOF)
        case Success((e, _)) => r == Pass && root == e
        case Failure(f) => r == Fail(f) && root == old(root)
    {
      var tree := NextExpression(None, EOF);
      if tree.Failure? {
        return Fail(tree.error);
      }
      root := tree.value;
      return Pass;
    }
  }
}
