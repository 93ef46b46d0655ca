/** WHERE conditions: parser, flat form, evaluation (src/sql.c, src/kumdb.c, src/query.c). */
module Conditions {
  import opened Values

  /** What a single condition says about the row at hand is a parameter: `Some(b)` when its text is well formed,
    `None` when it is not.
   */

  const MAX_COND: nat := 32
  const MAX_COND_DEPTH: nat := 16
  const MAX_FILTER_GROUPS: nat := 4
  const MAX_FILTER_KEYS: nat := 32

  // ---------------------------------------------------------------- the grammar

  /** `Exists` and `Subquery` are the conditions without a filter-string form. */
  datatype Token = Cond(text: string) | Exists(query: string) | Subquery(query: string)
                 | And | Or | LParen | RParen | Other

  datatype Node = Leaf(text: string) | Query(query: string) | Both(left: Node, right: Node)
                | Either(left: Node, right: Node)

  /** What is left to read, how many conditions were read, and whether the tree needs tree evaluation. */
  datatype Input = Input(rest: seq<Token>, leaves: nat, parens: bool)

  datatype Parsed = Tree(node: Node, input: Input) | SyntaxError

  predicate NextIs(input: Input, t: Token) {
    input.rest != [] && input.rest[0] == t
  }

  function Skip(input: Input): Input
    requires input.rest != []
  {
    input.(rest := input.rest[1..])
  }

  function Primary(input: Input, depth: nat): (p: Parsed)
    ensures p.Tree? ==> |p.input.rest| < |input.rest|
    decreases |input.rest|, 0
  {
    if input.rest == [] then SyntaxError
    else
      match input.rest[0]
      case Exists(query) =>
        Tree(Query(query), Input(input.rest[1..], input.leaves + 1, true))
      case LParen =>
        if depth + 1 > MAX_COND_DEPTH then SyntaxError
        else
          var inner := OrExpr(Input(input.rest[1..], input.leaves, true), depth + 1);
          if inner.Tree? && NextIs(inner.input, RParen) then Tree(inner.node, Skip(inner.input)) else SyntaxError
      case Cond(text) =>
        if input.leaves >= MAX_COND then SyntaxError
        else Tree(Leaf(text), Input(input.rest[1..], input.leaves + 1, input.parens))
      case Subquery(query) =>
        if input.leaves >= MAX_COND then SyntaxError
        else Tree(Query(query), Input(input.rest[1..], input.leaves + 1, true))
      case _ => SyntaxError
  }

  /** AND binds tighter than OR; both associate to the left. */
  function AndExpr(input: Input, depth: nat): (p: Parsed)
    ensures p.Tree? ==> |p.input.rest| < |input.rest|
    decreases |input.rest|, 1
  {
    var first := Primary(input, depth);
    if first.Tree? then AndTail(first.node, first.input, depth) else SyntaxError
  }

  function AndTail(left: Node, input: Input, depth: nat): (p: Parsed)
    ensures p.Tree? ==> |p.input.rest| <= |input.rest|
    decreases |input.rest|, 1
  {
    if !NextIs(input, And) then Tree(left, input)
    else
      var right := Primary(Skip(input), depth);
      if right.Tree? then AndTail(Both(left, right.node), right.input, depth) else SyntaxError
  }

  function OrExpr(input: Input, depth: nat): (p: Parsed)
    ensures p.Tree? ==> |p.input.rest| < |input.rest|
    decreases |input.rest|, 3
  {
    var first := AndExpr(input, depth);
    if first.Tree? then OrTail(first.node, first.input, depth) else SyntaxError
  }

  function OrTail(left: Node, input: Input, depth: nat): (p: Parsed)
    ensures p.Tree? ==> |p.input.rest| <= |input.rest|
    decreases |input.rest|, 2
  {
    if !NextIs(input, Or) then Tree(left, input)
    else
      var right := AndExpr(Skip(input), depth);
      if right.Tree? then OrTail(Either(left, right.node), right.input, depth) else SyntaxError
  }

  /** The recursive-descent parser over a token cursor. */
  class Parser {
    const tokens: seq<Token>
    var pos: nat
    var usedParens: bool
    var leafCount: nat

    ghost predicate Valid()
      reads this
    {
      pos <= |tokens|
    }

    /** What the grammar functions see of the parser. */
    ghost function Now(): Input
      reads this
      requires Valid()
    {
      Input(tokens[pos..], leafCount, usedParens)
    }

    /** The parser is where the grammar says it is; after an error its position does not matter. */
    ghost predicate Reached(p: Parsed, out: Option<Node>)
      reads this
    {
      Valid() && (match p
                  case Tree(node, input) => out == Some(node) && Now() == input
                  case SyntaxError => out == None)
    }

    constructor (tokens: seq<Token>)
      ensures Valid() && Now() == Input(tokens, 0, false) && this.tokens == tokens
    {
      this.tokens := tokens;
      pos, leafCount, usedParens := 0, 0, false;
    }

    predicate At(t: Token)
      reads this
      requires Valid()
      ensures At(t) <==> NextIs(Now(), t)
    {
      pos < |tokens| && tokens[pos] == t
    }

    method Advance()
      requires Valid() && pos < |tokens|
      modifies this
      ensures Valid() && pos == old(pos) + 1 && Now() == Skip(old(Now()))
    {
      pos := pos + 1;
    }

    method ParsePrimary(depth: nat) returns (out: Option<Node>)
      requires Valid()
      modifies this
      ensures Reached(Primary(old(Now()), depth), out)
      decreases |tokens| - pos, 0
    {
      if pos == |tokens| {
        return None;
      }
      match tokens[pos]
      case Exists(query) =>
        Advance();
        usedParens, leafCount := true, leafCount + 1;
        return Some(Query(query));
      case LParen =>
        if depth + 1 > MAX_COND_DEPTH {
          return None;
        }
        Advance();
        usedParens := true;
        var inner := ParseOr(depth + 1);
        if inner.None? || !At(RParen) {
          return None;
        }
        Advance();
        return inner;
      case Cond(text) =>
        if leafCount >= MAX_COND {
          return None;
        }
        Advance();
        leafCount := leafCount + 1;
        return Some(Leaf(text));
      case Subquery(query) =>
        if leafCount >= MAX_COND {
          return None;
        }
        Advance();
        usedParens, leafCount := true, leafCount + 1;
        return Some(Query(query));
      case _ =>
        return None;
    }

    method ParseAnd(depth: nat) returns (out: Option<Node>)
      requires Valid()
      modifies this
      ensures Reached(AndExpr(old(Now()), depth), out)
      decreases |tokens| - pos, 1
    {
      out := ParsePrimary(depth);
      if out.None? {
        return;
      }
      while At(And)
        invariant Valid() && out.Some? && pos > old(pos)
        invariant AndExpr(old(Now()), depth) == AndTail(out.value, Now(), depth)
        decreases |tokens| - pos
      {
        Advance();
        var right := ParsePrimary(depth);
        if right.None? {
          return None;
        }
        out := Some(Both(out.value, right.value));
      }
    }

    method ParseOr(depth: nat) returns (out: Option<Node>)
      requires Valid()
      modifies this
      ensures Reached(OrExpr(old(Now()), depth), out)
      decreases |tokens| - pos, 2
    {
      out := ParseAnd(depth);
      if out.None? {
        return;
      }
      while At(Or)
        invariant Valid() && out.Some? && pos > old(pos)
        invariant OrExpr(old(Now()), depth) == OrTail(out.value, Now(), depth)
        decreases |tokens| - pos
      {
        Advance();
        var right := ParseAnd(depth);
        if right.None? {
          return None;
        }
        out := Some(Either(out.value, right.value));
      }
    }
  }

  // ---------------------------------------------------------------- conditions without parentheses

  predicate AndSpine(n: Node) {
    n.Leaf? || (n.Both? && AndSpine(n.left) && n.right.Leaf?)
  }

  /** An OR-spine of AND-spines of conditions. */
  predicate OrSpine(n: Node) {
    AndSpine(n) || (n.Either? && OrSpine(n.left) && AndSpine(n.right))
  }

  function LeafCount(n: Node): nat {
    match n
    case Leaf(_) => 1
    case Query(_) => 1
    case Both(l, r) => LeafCount(l) + LeafCount(r)
    case Either(l, r) => LeafCount(l) + LeafCount(r)
  }

  /** How a condition without parentheses is written. */
  function Written(n: Node): (toks: seq<Token>)
    ensures toks != []
  {
    match n
    case Leaf(text) => [Cond(text)]
    case Query(query) => [Subquery(query)]
    case Both(l, r) => Written(l) + [And] + Written(r)
    case Either(l, r) => Written(l) + [Or] + Written(r)
  }

  /** The parse of some input took up exactly what its tree is written as. */
  ghost predicate TookUp(input: Input, n: Node, after: Input) {
    && input.rest == Written(n) + after.rest
    && after.leaves == input.leaves + LeafCount(n)
    && after.leaves <= MAX_COND
  }

  lemma {:induction false} ParensStay(input: Input, depth: nat)
    ensures var p := Primary(input, depth); p.Tree? && input.parens ==> p.input.parens
    ensures var p := AndExpr(input, depth); p.Tree? && input.parens ==> p.input.parens
    ensures var p := OrExpr(input, depth); p.Tree? && input.parens ==> p.input.parens
    decreases |input.rest|
  {
    if input.rest != [] && input.rest[0].LParen? {
      ParensStay(Input(input.rest[1..], input.leaves, true), depth + 1);
    }
    var first := Primary(input, depth);
    if first.Tree? && input.parens {
      AndTailParensStay(first.node, first.input, depth);
      var group := AndExpr(input, depth);
      if group.Tree? {
        OrTailParensStay(group.node, group.input, depth);
      }
    }
  }

  lemma {:induction false} AndTailParensStay(left: Node, input: Input, depth: nat)
    requires input.parens
    ensures var p := AndTail(left, input, depth); p.Tree? ==> p.input.parens
    decreases |input.rest|
  {
    if NextIs(input, And) {
      var right := Primary(Skip(input), depth);
      ParensStay(Skip(input), depth);
      if right.Tree? {
        AndTailParensStay(Both(left, right.node), right.input, depth);
      }
    }
  }

  lemma {:induction false} OrTailParensStay(left: Node, input: Input, depth: nat)
    requires input.parens
    ensures var p := OrTail(left, input, depth); p.Tree? ==> p.input.parens
    decreases |input.rest|
  {
    if NextIs(input, Or) {
      var right := AndExpr(Skip(input), depth);
      ParensStay(Skip(input), depth);
      if right.Tree? {
        OrTailParensStay(Either(left, right.node), right.input, depth);
      }
    }
  }

  lemma PrimaryShape(input: Input, depth: nat)
    requires var p := Primary(input, depth); p.Tree? && !p.input.parens
    ensures var p := Primary(input, depth); p.node.Leaf? && TookUp(input, p.node, p.input) && !input.parens
  {
    ParensStay(input, depth);
    if input.rest[0].LParen? {
      ParensStay(Input(input.rest[1..], input.leaves, true), depth + 1);
    }
    assert input.rest == [input.rest[0]] + input.rest[1..];
  }

  lemma {:induction false} AndTailShape(from: Input, left: Node, input: Input, depth: nat)
    requires AndSpine(left) && TookUp(from, left, input)
    requires var p := AndTail(left, input, depth); p.Tree? && !p.input.parens
    ensures var p := AndTail(left, input, depth);
            AndSpine(p.node) && TookUp(from, p.node, p.input) && !NextIs(p.input, And)
    decreases |input.rest|
  {
    if NextIs(input, And) {
      var right := Primary(Skip(input), depth);
      NotYetParens(Both(left, right.node), right.input, depth);
      PrimaryShape(Skip(input), depth);
      TookUpBoth(from, left, input, right.node, right.input);
      AndTailShape(from, Both(left, right.node), right.input, depth);
    }
  }

  lemma NotYetParens(left: Node, input: Input, depth: nat)
    requires var p := AndTail(left, input, depth); p.Tree? && !p.input.parens
    ensures !input.parens
  {
    if input.parens {
      AndTailParensStay(left, input, depth);
    }
  }

  lemma TookUpBoth(from: Input, left: Node, input: Input, right: Node, after: Input)
    requires TookUp(from, left, input) && NextIs(input, And) && TookUp(Skip(input), right, after)
    ensures TookUp(from, Both(left, right), after)
  {
    assert input.rest == [And] + Skip(input).rest;
    assert Written(left) + ([And] + (Written(right) + after.rest))
        == Written(left) + [And] + Written(right) + after.rest;
  }

  lemma TookUpEither(from: Input, left: Node, input: Input, right: Node, after: Input)
    requires TookUp(from, left, input) && NextIs(input, Or) && TookUp(Skip(input), right, after)
    ensures TookUp(from, Either(left, right), after)
  {
    assert input.rest == [Or] + Skip(input).rest;
    assert Written(left) + ([Or] + (Written(right) + after.rest))
        == Written(left) + [Or] + Written(right) + after.rest;
  }

  lemma AndExprShape(input: Input, depth: nat)
    requires var p := AndExpr(input, depth); p.Tree? && !p.input.parens
    ensures var p := AndExpr(input, depth);
            AndSpine(p.node) && TookUp(input, p.node, p.input) && !NextIs(p.input, And)
  {
    var first := Primary(input, depth);
    NotYetParens(first.node, first.input, depth);
    PrimaryShape(input, depth);
    AndTailShape(input, first.node, first.input, depth);
  }

  lemma {:induction false} OrTailShape(from: Input, left: Node, input: Input, depth: nat)
    requires OrSpine(left) && TookUp(from, left, input) && !NextIs(input, And)
    requires var p := OrTail(left, input, depth); p.Tree? && !p.input.parens
    ensures var p := OrTail(left, input, depth);
            OrSpine(p.node) && TookUp(from, p.node, p.input) && !NextIs(p.input, And) && !NextIs(p.input, Or)
    decreases |input.rest|
  {
    if NextIs(input, Or) {
      var right := AndExpr(Skip(input), depth);
      if right.input.parens {
        OrTailParensStay(Either(left, right.node), right.input, depth);
      }
      AndExprShape(Skip(input), depth);
      TookUpEither(from, left, input, right.node, right.input);
      OrTailShape(from, Either(left, right.node), right.input, depth);
    }
  }

  /** A condition parsed without parentheses is an OR-spine of AND-spines, written the way it was read. */
  lemma ParenFreeShape(input: Input, depth: nat)
    requires var p := OrExpr(input, depth); p.Tree? && !p.input.parens
    ensures var p := OrExpr(input, depth);
            OrSpine(p.node) && TookUp(input, p.node, p.input) && !NextIs(p.input, And) && !NextIs(p.input, Or)
  {
    var first := AndExpr(input, depth);
    if first.input.parens {
      OrTailParensStay(first.node, first.input, depth);
    }
    AndExprShape(input, depth);
    OrTailShape(input, first.node, first.input, depth);
  }

  // ---------------------------------------------------------------- every such condition is parsed

  /** `tail` after the whole of `n` is what is left after reading `n`. */
  function After(n: Node, input: Input, tail: seq<Token>): Input {
    Input(tail, input.leaves + LeafCount(n), input.parens)
  }

  lemma {:induction false} AndSpineParsed(n: Node, tail: seq<Token>, input: Input, depth: nat)
    requires AndSpine(n) && input.rest == Written(n) + tail && input.leaves + LeafCount(n) <= MAX_COND
    ensures AndExpr(input, depth) == AndTail(n, After(n, input, tail), depth)
    decreases n
  {
    if n.Both? {
      var more := [And] + Written(n.right) + tail;
      assert input.rest == Written(n.left) + more;
      AndSpineParsed(n.left, more, input, depth);
      var mid := After(n.left, input, more);
      assert NextIs(mid, And) && Skip(mid).rest == [Cond(n.right.text)] + tail;
      assert Primary(Skip(mid), depth) == Tree(n.right, After(n, input, tail));
    } else {
      assert input.rest[1..] == tail;
    }
  }

  lemma {:induction false} OrSpineParsed(n: Node, tail: seq<Token>, input: Input, depth: nat)
    requires OrSpine(n) && input.rest == Written(n) + tail && input.leaves + LeafCount(n) <= MAX_COND
    requires tail == [] || !tail[0].And?
    ensures OrExpr(input, depth) == OrTail(n, After(n, input, tail), depth)
    decreases n
  {
    hide Primary;
    if AndSpine(n) {
      AndSpineParsed(n, tail, input, depth);
    } else {
      var more := [Or] + Written(n.right) + tail;
      assert input.rest == Written(n.left) + more;
      OrSpineParsed(n.left, more, input, depth);
      var mid := After(n.left, input, more);
      assert NextIs(mid, Or) && Skip(mid).rest == Written(n.right) + tail;
      AndSpineParsed(n.right, tail, Skip(mid), depth);
      assert AndExpr(Skip(mid), depth) == Tree(n.right, After(n, input, tail));
    }
  }

  /** Reading back what an OR-spine of at most 32 conditions is written as gives that spine. */
  lemma SpineReadsBack(n: Node)
    requires OrSpine(n) && LeafCount(n) <= MAX_COND
    ensures OrExpr(Input(Written(n), 0, false), 0) == Tree(n, Input([], LeafCount(n), false))
  {
    assert Written(n) + [] == Written(n);
    OrSpineParsed(n, [], Input(Written(n), 0, false), 0);
  }

  // ---------------------------------------------------------------- every tree is parsed

  predicate Composite(n: Node) {
    n.Both? || n.Either?
  }

  /** A condition of any shape as text, with parentheses where one of its own would be taken apart otherwise. */
  function Inside(n: Node): seq<Token>
    requires Composite(n)
    decreases n, 0
  {
    match n
    case Both(l, r) => AsAnd(l) + [And] + AsPrimary(r)
    case Either(l, r) => AsOr(l) + [Or] + AsAnd(r)
  }

  function AsPrimary(n: Node): seq<Token>
    decreases n, 1
  {
    match n
    case Leaf(text) => [Cond(text)]
    case Query(query) => [Subquery(query)]
    case _ => [LParen] + Inside(n) + [RParen]
  }

  function AsAnd(n: Node): seq<Token>
    decreases n, 2
  {
    if n.Both? then Inside(n) else AsPrimary(n)
  }

  function AsOr(n: Node): seq<Token>
    decreases n, 2
  {
    if Composite(n) then Inside(n) else AsPrimary(n)
  }

  function Max(a: nat, b: nat): nat {
    if a < b then b else a
  }

  /** How deep the parentheses of that text are. */
  function InsideDepth(n: Node): nat
    requires Composite(n)
    decreases n, 0
  {
    match n
    case Both(l, r) => Max(AndDepth(l), PrimaryDepth(r))
    case Either(l, r) => Max(OrDepth(l), AndDepth(r))
  }

  function PrimaryDepth(n: Node): nat
    decreases n, 1
  {
    if Composite(n) then 1 + InsideDepth(n) else 0
  }

  function AndDepth(n: Node): nat
    decreases n, 2
  {
    if n.Both? then InsideDepth(n) else PrimaryDepth(n)
  }

  function OrDepth(n: Node): nat
    decreases n, 2
  {
    if Composite(n) then InsideDepth(n) else PrimaryDepth(n)
  }

  function Ahead(n: Node, input: Input, tail: seq<Token>, parens: bool): Input {
    Input(tail, input.leaves + LeafCount(n), parens)
  }

  lemma {:induction false} PrimaryReads(n: Node, tail: seq<Token>, input: Input, depth: nat) returns (parens: bool)
    requires input.rest == AsPrimary(n) + tail && input.leaves + LeafCount(n) <= MAX_COND
    requires depth + PrimaryDepth(n) <= MAX_COND_DEPTH
    ensures Primary(input, depth) == Tree(n, Ahead(n, input, tail, parens))
    decreases n, if Composite(n) then 3 else 0
  {
    if Composite(n) {
      var within := Input(input.rest[1..], input.leaves, true);
      assert within.rest == AsOr(n) + ([RParen] + tail);
      parens := OrStarts(n, [RParen] + tail, within, depth + 1);
      assert ([RParen] + tail)[1..] == tail;
    } else {
      assert input.rest[1..] == tail;
      parens := input.parens || n.Query?;
    }
  }

  /** Reading on from behind a chain of ANDs. */
  lemma {:induction false} AndStarts(n: Node, tail: seq<Token>, input: Input, depth: nat) returns (parens: bool)
    requires input.rest == AsAnd(n) + tail && input.leaves + LeafCount(n) <= MAX_COND
    requires depth + AndDepth(n) <= MAX_COND_DEPTH
    ensures AndExpr(input, depth) == AndTail(n, Ahead(n, input, tail, parens), depth)
    decreases n, if n.Both? then 1 else 4
  {
    hide Primary;
    if n.Both? {
      var more := [And] + AsPrimary(n.right) + tail;
      assert input.rest == AsAnd(n.left) + more;
      var before := AndStarts(n.left, more, input, depth);
      var mid := Ahead(n.left, input, more, before);
      assert NextIs(mid, And) && Skip(mid).rest == AsPrimary(n.right) + tail;
      parens := PrimaryReads(n.right, tail, Skip(mid), depth);
    } else {
      parens := PrimaryReads(n, tail, input, depth);
    }
  }

  /** Reading on from behind a chain of ORs. */
  lemma {:induction false} OrStarts(n: Node, tail: seq<Token>, input: Input, depth: nat) returns (parens: bool)
    requires input.rest == AsOr(n) + tail && input.leaves + LeafCount(n) <= MAX_COND
    requires depth + OrDepth(n) <= MAX_COND_DEPTH && (tail == [] || !tail[0].And?)
    ensures OrExpr(input, depth) == OrTail(n, Ahead(n, input, tail, parens), depth)
    decreases n, if Composite(n) then 2 else 5
  {
    hide Primary;
    if n.Either? {
      var more := [Or] + AsAnd(n.right) + tail;
      assert input.rest == AsOr(n.left) + more;
      var before := OrStarts(n.left, more, input, depth);
      var mid := Ahead(n.left, input, more, before);
      assert NextIs(mid, Or) && Skip(mid).rest == AsAnd(n.right) + tail;
      parens := AndStarts(n.right, tail, Skip(mid), depth);
      assert AndExpr(Skip(mid), depth) == Tree(n.right, Ahead(n, input, tail, parens));
    } else {
      parens := AndStarts(n, tail, input, depth);
      assert AndExpr(input, depth) == Tree(n, Ahead(n, input, tail, parens));
    }
  }

  /** Whatever the shape of a condition, parsing its text gives it back, parentheses and all, within the caps on
      conditions and on depth. */
  lemma TreeReadsBack(n: Node)
    requires LeafCount(n) <= MAX_COND && OrDepth(n) <= MAX_COND_DEPTH
    ensures var p := OrExpr(Input(AsOr(n), 0, false), 0);
      p.Tree? && p.node == n && p.input.rest == [] && p.input.leaves == LeafCount(n)
  {
    assert AsOr(n) + [] == AsOr(n);
    var parens := OrStarts(n, [], Input(AsOr(n), 0, false), 0);
  }

  // ---------------------------------------------------------------- meaning

  /** What a condition says about the row; `None` when its text is malformed. It is asked of the text without a
      leading "OR:", which the reader of a condition strips wherever the condition stands. */
  type Test = string -> Option<bool>

  predicate TreeMatches(n: Node, test: Test, query: string -> bool) {
    match n
    case Leaf(text) => test(Body(text)) == Some(true)
    case Query(q) => query(q)
    case Both(l, r) => TreeMatches(l, test, query) && TreeMatches(r, test, query)
    case Either(l, r) => TreeMatches(l, test, query) || TreeMatches(r, test, query)
  }

  type Groups = seq<seq<string>>

  predicate GroupHolds(g: seq<string>, test: Test) {
    forall i :: 0 <= i < |g| ==> test(g[i]) == Some(true)
  }

  predicate SomeGroupHolds(groups: Groups, test: Test) {
    exists g :: 0 <= g < |groups| && GroupHolds(groups[g], test)
  }

  predicate AllParse(groups: Groups, test: Test) {
    forall g, i :: 0 <= g < |groups| && 0 <= i < |groups[g]| ==> test(groups[g][i]).Some?
  }

  function ChainOf(n: Node): (g: seq<string>)
    requires AndSpine(n)
    ensures |g| == LeafCount(n)
  {
    if n.Leaf? then [n.text] else ChainOf(n.left) + [n.right.text]
  }

  /** The AND-groups of an OR-spine. */
  function GroupsOf(n: Node): (groups: Groups)
    requires OrSpine(n)
    ensures groups != []
  {
    if AndSpine(n) then [ChainOf(n)] else GroupsOf(n.left) + [ChainOf(n.right)]
  }

  lemma {:induction false} ChainMeaning(n: Node, test: Test, query: string -> bool)
    requires AndSpine(n)
    ensures TreeMatches(n, test, query) <==> GroupHolds(AllBodies(ChainOf(n)), test)
  {
    hide Body;
    if n.Both? {
      ChainMeaning(n.left, test, query);
      GroupHoldsNext(AllBodies(ChainOf(n.left)), Body(n.right.text), test);
      assert AllBodies(ChainOf(n)) == AllBodies(ChainOf(n.left)) + [Body(n.right.text)];
    } else {
      assert AllBodies(ChainOf(n))[0] == Body(n.text);
    }
  }

  lemma {:induction false} GroupsMeaning(n: Node, test: Test, query: string -> bool)
    requires OrSpine(n)
    ensures TreeMatches(n, test, query) <==> SomeGroupHolds(Bodies(GroupsOf(n)), test)
  {
    hide GroupHolds, ChainOf, AllBodies;
    var all := Bodies(GroupsOf(n));
    if AndSpine(n) {
      ChainMeaning(n, test, query);
      assert all[0] == AllBodies(ChainOf(n));
    } else {
      GroupsMeaning(n.left, test, query);
      ChainMeaning(n.right, test, query);
      var front := Bodies(GroupsOf(n.left));
      assert forall g :: 0 <= g < |front| ==> all[g] == front[g];
      assert all[|front|] == AllBodies(ChainOf(n.right));
    }
  }

  // ---------------------------------------------------------------- flattening

  const OR_PREFIX := "OR:"

  predicate StartsGroup(f: string) {
    |f| >= 3 && f[..3] == OR_PREFIX
  }

  function Body(f: string): string {
    if StartsGroup(f) then f[3..] else f
  }

  /** The conditions that texts stand for. */
  function AllBodies(g: seq<string>): (out: seq<string>)
    ensures |out| == |g|
  {
    seq(|g|, i requires 0 <= i < |g| => Body(g[i]))
  }

  function Bodies(groups: Groups): (out: Groups)
    ensures |out| == |groups|
  {
    seq(|groups|, g requires 0 <= g < |groups| => AllBodies(groups[g]))
  }

  /** The filter strings of groups: every group but the first opens with "OR:". */
  function Flat(groups: Groups): seq<string> {
    if groups == [] then []
    else
      var front, last := groups[..|groups| - 1], groups[|groups| - 1];
      Flat(front) + (if front == [] || last == [] then last else [OR_PREFIX + last[0]] + last[1..])
  }

  /** The fixed buffer of filter strings. */
  class FilterBuffer {
    const filters: array<string>
    var n: nat

    ghost predicate Valid()
      reads this
    {
      n <= filters.Length == MAX_COND
    }

    ghost function Contents(): seq<string>
      reads this, filters
      requires Valid()
    {
      filters[..n]
    }

    constructor ()
      ensures Valid() && fresh(filters) && Contents() == []
    {
      filters := new string[MAX_COND](_ => "");
      n := 0;
    }

    method FlattenLeaf(text: string, isOrStart: bool) returns (ok: bool)
      requires Valid()
      modifies this, filters
      ensures Valid() && ok == (old(n) < MAX_COND)
      ensures Contents() == if ok then old(Contents()) + [if isOrStart then OR_PREFIX + text else text]
                            else old(Contents())
    {
      if n >= MAX_COND {
        return false;
      }
      filters[n] := if isOrStart then OR_PREFIX + text else text;
      n := n + 1;
      return true;
    }

    /** sql.c `sql__cond_flatten_and_chain`. */
    method FlattenChain(node: Node, isOrStart: bool) returns (ok: bool)
      requires Valid() && AndSpine(node)
      modifies this, filters
      ensures Valid() && ok == (old(n) + LeafCount(node) <= MAX_COND)
      ensures ok ==> n == old(n) + LeafCount(node)
      ensures ok ==> Contents() == old(Contents()) + Opening(ChainOf(node), isOrStart)
      decreases node
    {
      if node.Both? {
        ok := FlattenChain(node.left, isOrStart);
        if ok {
          ok := FlattenLeaf(node.right.text, false);
        }
      } else {
        ok := FlattenLeaf(node.text, isOrStart);
      }
    }

    /** sql.c `sql__cond_flatten_or`. */
    method FlattenOr(node: Node) returns (ok: bool)
      requires Valid() && OrSpine(node)
      modifies this, filters
      ensures Valid() && ok == (old(n) + LeafCount(node) <= MAX_COND)
      ensures ok ==> n == old(n) + LeafCount(node)
      ensures ok ==> Contents() == old(Contents()) + Flat(GroupsOf(node))
      decreases node
    {
      hide AndSpine, GroupsOf, Flat, Opening, ChainOf;
      SpineShape(node);
      FlatOfSpine(node);
      if node.Either? {
        ok := FlattenOr(node.left);
        if ok {
          ok := FlattenChain(node.right, true);
        }
      } else {
        ok := FlattenChain(node, false);
      }
    }
  }

  function Opening(g: seq<string>, isOrStart: bool): seq<string>
    requires g != []
  {
    if isOrStart then [OR_PREFIX + g[0]] + g[1..] else g
  }

  lemma SpineShape(n: Node)
    requires OrSpine(n)
    ensures n.Either? ==> OrSpine(n.left) && AndSpine(n.right)
    ensures !n.Either? ==> AndSpine(n)
    ensures forall g: seq<string> :: g != [] ==> Opening(g, false) == g
  {
  }

  lemma FlatOfSpine(n: Node)
    requires OrSpine(n)
    ensures Flat(GroupsOf(n)) == if n.Either? then Flat(GroupsOf(n.left)) + Opening(ChainOf(n.right), true)
                                 else ChainOf(n)
  {
    if n.Either? {
      assert GroupsOf(n)[..|GroupsOf(n)| - 1] == GroupsOf(n.left);
    } else {
      assert GroupsOf(n)[..0] == [];
      assert [] + ChainOf(n) == ChainOf(n);
    }
  }

  // ---------------------------------------------------------------- reading filter strings back

  function AddTo(groups: Groups, f: string, opens: bool): (out: Groups)
    requires groups != []
    ensures out != []
  {
    if opens then groups + [[f]]
    else groups[..|groups| - 1] + [groups[|groups| - 1] + [f]]
  }

  /** The groups `sql__conds_match` sees: "OR:" on the very first filter says nothing. */
  function Regrouped(filters: seq<string>): (groups: Groups)
    ensures groups != []
  {
    if filters == [] then [[]]
    else
      var n := |filters| - 1;
      AddTo(Regrouped(filters[..n]), Body(filters[n]), n > 0 && StartsGroup(filters[n]))
  }

  /** The groups `kdb__build_query` makes: it takes even a first "OR:" for the start of a second group. */
  function Queried(filters: seq<string>): (groups: Groups)
    ensures groups != []
  {
    if filters == [] then [[]]
    else
      var n := |filters| - 1;
      AddTo(Queried(filters[..n]), Body(filters[n]), StartsGroup(filters[n]))
  }

  /** sql.c `sql__conds_match`. */
  method CondsMatch(filters: seq<string>, test: Test) returns (result: bool)
    ensures result <==> AllParse(Regrouped(filters), test) && SomeGroupHolds(Regrouped(filters), test)
  {
    hide AllParse, SomeGroupHolds, GroupHolds, StartsGroup;
    var groupOk, i := true, 0;
    result := false;
    FirstGroup(test);
    while i < |filters|
      invariant 0 <= i <= |filters|
      invariant AllParse(Regrouped(filters[..i]), test)
      invariant SeenSoFar(Regrouped(filters[..i]), test, groupOk, result)
    {
      assert filters[..i + 1][..i] == filters[..i];
      var opens := i > 0 && StartsGroup(filters[i]);
      AddedGroup(Regrouped(filters[..i]), Body(filters[i]), opens, test, groupOk, result);
      var c := test(Body(filters[i]));
      if c.None? {
        StaysMalformed(filters, i + 1, test);
        return false;
      }
      if opens {
        if groupOk {
          result := true;
        }
        groupOk := true;
      }
      if !c.value {
        groupOk := false;
      }
      i := i + 1;
    }
    if groupOk {
      result := true;
    }
    assert filters[..i] == filters;
    AllSeen(Regrouped(filters), test, groupOk);
  }

  /** `result` speaks for the finished groups, `groupOk` for the last. */
  ghost predicate SeenSoFar(groups: Groups, test: Test, groupOk: bool, result: bool) {
    && groups != []
    && (groupOk <==> GroupHolds(groups[|groups| - 1], test))
    && (result <==> SomeGroupHolds(groups[..|groups| - 1], test))
  }

  lemma FirstGroup(test: Test)
    ensures AllParse([[]], test) && SeenSoFar([[]], test, true, false)
  {
  }

  lemma SomeGroupNext(groups: Groups, g: seq<string>, test: Test)
    ensures SomeGroupHolds(groups + [g], test) <==> SomeGroupHolds(groups, test) || GroupHolds(g, test)
  {
    hide GroupHolds;
    assert (groups + [g])[|groups|] == g;
    assert forall i :: 0 <= i < |groups| ==> (groups + [g])[i] == groups[i];
  }

  lemma AllSeen(groups: Groups, test: Test, groupOk: bool)
    requires groups != [] && (groupOk <==> GroupHolds(groups[|groups| - 1], test))
    ensures SomeGroupHolds(groups, test) <==> SomeGroupHolds(groups[..|groups| - 1], test) || groupOk
  {
    SomeGroupNext(groups[..|groups| - 1], groups[|groups| - 1], test);
    assert groups[..|groups| - 1] + [groups[|groups| - 1]] == groups;
  }

  lemma GroupHoldsNext(g: seq<string>, f: string, test: Test)
    ensures GroupHolds(g + [f], test) <==> GroupHolds(g, test) && test(f) == Some(true)
  {
    assert (g + [f])[|g|] == f;
    assert forall i :: 0 <= i < |g| ==> (g + [f])[i] == g[i];
  }

  lemma AddedGroup(groups: Groups, f: string, opens: bool, test: Test, groupOk: bool, result: bool)
    requires AllParse(groups, test) && SeenSoFar(groups, test, groupOk, result)
    ensures AllParse(AddTo(groups, f, opens), test) <==> test(f).Some?
    ensures test(f).Some? ==>
              SeenSoFar(AddTo(groups, f, opens), test, (opens || groupOk) && test(f).value,
                        if opens then result || groupOk else result)
  {
    hide GroupHolds, SomeGroupHolds;
    AddedParse(groups, f, opens, test);
    var last := groups[|groups| - 1];
    if opens {
      assert AddTo(groups, f, opens)[..|groups|] == groups;
      AllSeen(groups, test, groupOk);
      GroupHoldsNext([], f, test);
      assert GroupHolds([], test) by {
        EmptyGroupHolds(test);
      }
      assert [] + [f] == [f];
    } else {
      assert AddTo(groups, f, opens)[..|groups| - 1] == groups[..|groups| - 1];
      GroupHoldsNext(last, f, test);
    }
  }

  lemma EmptyGroupHolds(test: Test)
    ensures GroupHolds([], test)
  {
  }

  lemma AddedParse(groups: Groups, f: string, opens: bool, test: Test)
    requires groups != [] && AllParse(groups, test)
    ensures AllParse(AddTo(groups, f, opens), test) <==> test(f).Some?
  {
    var out, n := AddTo(groups, f, opens), |groups| - 1;
    if opens {
      assert out[|groups|][0] == f;
    } else {
      assert out[n][|groups[n]|] == f;
    }
  }

  lemma {:induction false} StaysMalformed(filters: seq<string>, n: nat, test: Test)
    requires n <= |filters| && !AllParse(Regrouped(filters[..n]), test)
    ensures !AllParse(Regrouped(filters), test)
    decreases |filters|
  {
    hide AllParse, StartsGroup;
    if n < |filters| {
      var front := filters[..|filters| - 1];
      assert front[..n] == filters[..n];
      StaysMalformed(front, n, test);
      MalformedStays(Regrouped(front), Body(filters[|filters| - 1]),
                     |filters| > 1 && StartsGroup(filters[|filters| - 1]), test);
    } else {
      assert filters[..n] == filters;
    }
  }

  lemma MalformedStays(groups: Groups, f: string, opens: bool, test: Test)
    requires groups != [] && !AllParse(groups, test)
    ensures !AllParse(AddTo(groups, f, opens), test)
  {
    var g, i :| 0 <= g < |groups| && 0 <= i < |groups[g]| && test(groups[g][i]).None?;
    assert AddTo(groups, f, opens)[g][i] == groups[g][i];
  }

  // ---------------------------------------------------------------- the query of the storage engine

  datatype Built = Built(groups: Groups) | TooManyGroups | TooManyFilters | BadFilter

  predicate Fits(groups: Groups) {
    |groups| <= MAX_FILTER_GROUPS && forall g :: 0 <= g < |groups| ==> |groups[g]| <= MAX_FILTER_KEYS
  }

  /** kumdb.c `kdb__build_query`, with `kdb_query_start_or_group` and `kdb_query_add_filter`. */
  method BuildQuery(filters: seq<string>, test: Test) returns (out: Built)
    ensures out.Built? <==> Fits(Queried(filters)) && AllParse(Queried(filters), test)
    ensures out.Built? ==> out.groups == Queried(filters)
  {
    hide AllParse, StartsGroup, Fits;
    var groups: Groups := [[]];
    var i := 0;
    Nothing(test);
    while i < |filters|
      invariant 0 <= i <= |filters|
      invariant groups == Queried(filters[..i]) && Fits(groups) && AllParse(groups, test)
    {
      assert filters[..i + 1][..i] == filters[..i];
      var opens := StartsGroup(filters[i]);
      var f := Body(filters[i]);
      ghost var next := AddTo(groups, f, opens);
      OpenedFirst(groups, f);
      FitsNext(groups, f, opens);
      AddedParse(groups, f, opens, test);
      assert next == Queried(filters[..i + 1]);
      if opens {
        if |groups| >= MAX_FILTER_GROUPS {
          NeverFits(filters, i + 1);
          return TooManyGroups;
        }
        groups := groups + [[]];
      }
      if |groups[|groups| - 1]| >= MAX_FILTER_KEYS {
        NeverFits(filters, i + 1);
        return TooManyFilters;
      }
      if test(f).None? {
        NeverParses(filters, i + 1, test);
        return BadFilter;
      }
      var last := |groups| - 1;
      ghost var was := groups;
      groups := groups[last := groups[last] + [f]];
      AppendedInPlace(was, f);
      assert groups == next;
      i := i + 1;
    }
    assert filters[..i] == filters;
    return Built(groups);
  }

  lemma AppendedInPlace(groups: Groups, f: string)
    requires groups != []
    ensures var last := |groups| - 1; groups[last := groups[last] + [f]] == AddTo(groups, f, false)
  {
  }

  lemma OpenedFirst(groups: Groups, f: string)
    requires groups != []
    ensures AddTo(groups + [[]], f, false) == AddTo(groups, f, true)
  {
    assert [] + [f] == [f];
  }

  lemma Nothing(test: Test)
    ensures Fits([[]]) && AllParse([[]], test)
  {
  }

  lemma FitsNext(groups: Groups, f: string, opens: bool)
    requires groups != [] && Fits(groups)
    ensures Fits(AddTo(groups, f, opens))
       <==> if opens then |groups| < MAX_FILTER_GROUPS else |groups[|groups| - 1]| < MAX_FILTER_KEYS
  {
    var out, n := AddTo(groups, f, opens), |groups| - 1;
    assert !opens ==> |out[n]| == |groups[n]| + 1;
    assert opens ==> |out[|groups|]| == 1;
    assert forall g :: 0 <= g < n ==> out[g] == groups[g];
    assert opens ==> out[n] == groups[n];
  }

  lemma DoesNotFitNext(groups: Groups, f: string, opens: bool)
    requires groups != [] && !Fits(groups)
    ensures !Fits(AddTo(groups, f, opens))
  {
    if |groups| <= MAX_FILTER_GROUPS {
      var g :| 0 <= g < |groups| && |groups[g]| > MAX_FILTER_KEYS;
      assert |AddTo(groups, f, opens)[g]| > MAX_FILTER_KEYS;
    }
  }

  lemma {:induction false} NeverFits(filters: seq<string>, n: nat)
    requires n <= |filters| && !Fits(Queried(filters[..n]))
    ensures !Fits(Queried(filters))
    decreases |filters|
  {
    hide Fits, StartsGroup;
    if n < |filters| {
      var front, last := filters[..|filters| - 1], filters[|filters| - 1];
      assert front[..n] == filters[..n];
      NeverFits(front, n);
      DoesNotFitNext(Queried(front), Body(last), StartsGroup(last));
    } else {
      assert filters[..n] == filters;
    }
  }

  lemma {:induction false} NeverParses(filters: seq<string>, n: nat, test: Test)
    requires n <= |filters| && !AllParse(Queried(filters[..n]), test)
    ensures !AllParse(Queried(filters), test)
    decreases |filters|
  {
    hide AllParse, StartsGroup;
    if n < |filters| {
      var front, last := filters[..|filters| - 1], filters[|filters| - 1];
      assert front[..n] == filters[..n];
      NeverParses(front, n, test);
      MalformedStays(Queried(front), Body(last), StartsGroup(last), test);
    } else {
      assert filters[..n] == filters;
    }
  }

  /** query.c `kdb_query_matches` on a live record, one test a filter. */
  method QueryMatches(groups: Groups, test: Test) returns (result: bool)
    ensures result <==> SomeGroupHolds(groups, test)
  {
    var g := 0;
    while g < |groups|
      invariant 0 <= g <= |groups|
      invariant forall k :: 0 <= k < g ==> !GroupHolds(groups[k], test)
    {
      var i := 0;
      while i < |groups[g]| && test(groups[g][i]) == Some(true)
        invariant 0 <= i <= |groups[g]|
        invariant forall k :: 0 <= k < i ==> test(groups[g][k]) == Some(true)
      {
        i := i + 1;
      }
      if i == |groups[g]| {
        assert GroupHolds(groups[g], test);
        return true;
      }
      g := g + 1;
    }
    return false;
  }

  // ---------------------------------------------------------------- flattening preserves meaning

  /** No condition's text but the very first looks like the start of a group. */
  predicate BareButFirst(groups: Groups) {
    forall g, i :: 0 <= g < |groups| && 0 <= i < |groups[g]| && (g > 0 || i > 0) ==> !StartsGroup(groups[g][i])
  }

  /** No condition's text does. */
  predicate Bare(groups: Groups) {
    forall g, i :: 0 <= g < |groups| && 0 <= i < |groups[g]| ==> !StartsGroup(groups[g][i])
  }

  /** None does but where a group starts anyway. */
  predicate RunsPlain(groups: Groups) {
    forall g, i :: 0 <= g < |groups| && 0 < i < |groups[g]| ==> !StartsGroup(groups[g][i])
  }

  /** The very first text without its prefix. */
  function FirstStripped(groups: Groups): Groups
    requires groups != [] && groups[0] != []
  {
    groups[0 := groups[0][0 := Body(groups[0][0])]]
  }

  predicate NoEmptyGroup(groups: Groups) {
    groups != [] && forall g :: 0 <= g < |groups| ==> groups[g] != []
  }

  /** More filters in the last group. */
  function Extended(groups: Groups, more: seq<string>): (out: Groups)
    requires groups != []
    ensures out != []
  {
    groups[..|groups| - 1] + [groups[|groups| - 1] + more]
  }

  lemma ExtendedNext(groups: Groups, more: seq<string>, f: string)
    requires groups != []
    ensures AddTo(Extended(groups, more), f, false) == Extended(groups, more + [f])
    ensures Extended(groups, []) == groups
  {
    var g := groups[|groups| - 1];
    assert g + more + [f] == g + (more + [f]);
    assert g + [] == g;
  }

  lemma ExtendedOpening(groups: Groups, f: string, more: seq<string>)
    requires groups != []
    ensures Extended(AddTo(groups, f, true), more) == groups + [[f] + more]
    ensures Extended(AddTo([[]], f, false), more) == [[f] + more]
  {
    assert AddTo(groups, f, true)[..|groups|] == groups;
    assert [] + [f] == [f];
  }

  lemma {:induction false} FilterRun(before: seq<string>, more: seq<string>)
    requires before != [] && forall i :: 0 <= i < |more| ==> !StartsGroup(more[i])
    ensures Regrouped(before + more) == Extended(Regrouped(before), more)
    ensures Queried(before + more) == Extended(Queried(before), more)
  {
    hide StartsGroup, AddTo, Extended, Regrouped, Queried;
    if more == [] {
      assert before + more == before;
      ExtendedNext(Regrouped(before), [], "");
      ExtendedNext(Queried(before), [], "");
    } else {
      var n := |more| - 1;
      FilterRun(before, more[..n]);
      OneFilter(before + more[..n], more[n]);
      assert (before + more[..n]) + [more[n]] == before + more;
      ExtendedNext(Regrouped(before), more[..n], more[n]);
      ExtendedNext(Queried(before), more[..n], more[n]);
      assert more[..n] + [more[n]] == more;
    }
  }

  lemma PrefixedBody(f: string)
    ensures StartsGroup(OR_PREFIX + f) && Body(OR_PREFIX + f) == f
  {
    assert (OR_PREFIX + f)[..3] == OR_PREFIX;
    assert (OR_PREFIX + f)[3..] == f;
  }

  lemma FlatNext(front: Groups, last: seq<string>)
    requires last != []
    ensures Flat(front + [last])
         == if front == [] then [last[0]] + last[1..] else Flat(front) + [OR_PREFIX + last[0]] + last[1..]
  {
    assert (front + [last])[..|front|] == front;
    assert [last[0]] + last[1..] == last && [] + last == last;
  }

  lemma RunsPlainNext(front: Groups, last: seq<string>)
    requires last != []
    ensures RunsPlain(front + [last]) <==> RunsPlain(front) && Marks(last[1..]) == 0
  {
    hide StartsGroup;
    var groups, n := front + [last], |front|;
    MarksNone(last[1..]);
    assert groups[n] == last && forall g :: 0 <= g < n ==> groups[g] == front[g];
    if RunsPlain(groups) {
      assert forall i :: 0 <= i < |last[1..]| ==> last[1..][i] == groups[n][i + 1];
      assert forall g, i :: 0 <= g < n && 0 <= i < |front[g]| ==> front[g][i] == groups[g][i];
    } else {
      var g, i :| 0 <= g < |groups| && 0 < i < |groups[g]| && StartsGroup(groups[g][i]);
      if g < n {
        assert StartsGroup(front[g][i]);
      } else {
        assert last[1..][i - 1] == groups[g][i];
      }
    }
  }

  /** How many filters open a group. */
  function Marks(filters: seq<string>): nat {
    if filters == [] then 0
    else
      var n := |filters| - 1;
      Marks(filters[..n]) + if StartsGroup(filters[n]) then 1 else 0
  }

  lemma {:induction false} MarksNone(filters: seq<string>)
    ensures Marks(filters) == 0 <==> forall i :: 0 <= i < |filters| ==> !StartsGroup(filters[i])
  {
    hide StartsGroup;
    if filters != [] {
      MarksNone(filters[..|filters| - 1]);
    }
  }

  lemma {:induction false} MarksAppend(a: seq<string>, b: seq<string>)
    ensures Marks(a + b) == Marks(a) + Marks(b)
  {
    hide StartsGroup;
    if b == [] {
      assert a + b == a;
    } else {
      MarksAppend(a, b[..|b| - 1]);
      assert (a + b)[..|a + b| - 1] == a + b[..|b| - 1];
    }
  }

  lemma MarksOne(f: string)
    ensures Marks([f]) == if StartsGroup(f) then 1 else 0
  {
    hide StartsGroup;
    assert [f][..0] == [];
  }

  lemma {:induction false} GroupCount(filters: seq<string>)
    requires filters != []
    ensures |Queried(filters)| == 1 + Marks(filters)
    ensures |Regrouped(filters)| == 1 + Marks(filters[1..])
    ensures Regrouped(filters)[0] != [] && Regrouped(filters)[0][0] == Body(filters[0])
  {
    hide StartsGroup, Body;
    var n := |filters| - 1;
    if n > 0 {
      GroupCount(filters[..n]);
      assert filters[1..][..n - 1] == filters[..n][1..];
    } else {
      assert filters[..0] == [];
    }
  }

  /** Each prefix the flat form puts in counts, and so does each that stood inside a group. */
  lemma {:induction false} FlatMarks(groups: Groups)
    requires NoEmptyGroup(groups)
    ensures Flat(groups) != [] && Flat(groups)[0] == groups[0][0]
    ensures Marks(Flat(groups)[1..]) >= |groups| - 1
    ensures RunsPlain(groups) <==> Marks(Flat(groups)[1..]) == |groups| - 1
    ensures Marks(Flat(groups)) == Marks(Flat(groups)[1..]) + if StartsGroup(groups[0][0]) then 1 else 0
  {
    hide StartsGroup, Flat, Marks;
    var front, last := groups[..|groups| - 1], groups[|groups| - 1];
    assert front + [last] == groups;
    FlatNext(front, last);
    RunsPlainNext(front, last);
    var flat := Flat(groups);
    if front == [] {
      assert flat[1..] == last[1..];
      assert RunsPlain([]);
    } else {
      FlatMarks(front);
      PrefixedBody(last[0]);
      MarksOne(OR_PREFIX + last[0]);
      var before := Flat(front)[1..];
      MarksAppend(before + [OR_PREFIX + last[0]], last[1..]);
      MarksAppend(before, [OR_PREFIX + last[0]]);
      assert flat[1..] == before + [OR_PREFIX + last[0]] + last[1..];
    }
    MarksAppend([flat[0]], flat[1..]);
    MarksOne(flat[0]);
    assert [flat[0]] + flat[1..] == flat;
  }

  /** What the readers make of the flat form when no prefix stands inside a group. */
  lemma {:induction false} PlainReadsBack(groups: Groups)
    requires NoEmptyGroup(groups) && RunsPlain(groups)
    ensures Regrouped(Flat(groups)) == FirstStripped(groups)
    ensures !StartsGroup(groups[0][0]) ==> Queried(Flat(groups)) == groups
    ensures Flat(groups) != []
  {
    hide StartsGroup, AddTo, Extended, Regrouped, Queried, Flat, Body, RunsPlain, Marks;
    var front, last := groups[..|groups| - 1], groups[|groups| - 1];
    assert front + [last] == groups;
    FlatNext(front, last);
    RunsPlainNext(front, last);
    MarksNone(last[1..]);
    if front == [] {
      OneFilter([], last[0]);
      NoFilters();
      PlainBody(last[0]);
      assert [] + [last[0]] == [last[0]] && front + [last] == [last] && [last[0]] + last[1..] == last;
      FilterRun([last[0]], last[1..]);
      ExtendedOpening([[]], Body(last[0]), last[1..]);
      assert [Body(last[0])] + last[1..] == last[0 := Body(last[0])];
    } else {
      PlainReadsBack(front);
      PrefixedBody(last[0]);
      OneFilter(Flat(front), OR_PREFIX + last[0]);
      FilterRun(Flat(front) + [OR_PREFIX + last[0]], last[1..]);
      ExtendedOpening(front, last[0], last[1..]);
      ExtendedOpening(FirstStripped(front), last[0], last[1..]);
      assert [last[0]] + last[1..] == last;
      assert FirstStripped(front) + [last] == FirstStripped(groups);
    }
  }

  lemma PlainBody(f: string)
    ensures Body(f) == f <==> !StartsGroup(f)
  {
  }

  lemma StrippedIsBodies(groups: Groups)
    requires NoEmptyGroup(groups)
    ensures FirstStripped(groups) == Bodies(groups) <==> BareButFirst(groups)
    ensures groups == Bodies(groups) <==> Bare(groups)
  {
    hide StartsGroup, Body;
    forall g, i | 0 <= g < |groups| && 0 <= i < |groups[g]|
      ensures Bodies(groups)[g][i] == groups[g][i] <==> !StartsGroup(groups[g][i])
      ensures FirstStripped(groups)[g][i] == if g == 0 && i == 0 then Body(groups[g][i]) else groups[g][i]
    {
      PlainBody(groups[g][i]);
    }
    if BareButFirst(groups) {
      forall g | 0 <= g < |groups|
        ensures FirstStripped(groups)[g] == Bodies(groups)[g]
      {
      }
    }
    if Bare(groups) {
      forall g | 0 <= g < |groups|
        ensures groups[g] == Bodies(groups)[g]
      {
      }
    }
  }

  lemma BareRuns(groups: Groups)
    ensures BareButFirst(groups) ==> RunsPlain(groups)
    ensures NoEmptyGroup(groups) ==> (Bare(groups) <==> BareButFirst(groups) && !StartsGroup(groups[0][0]))
  {
  }

  /** The flat evaluation reads the conditions back exactly when no text but the very first starts with "OR:", the
      query exactly when none does. */
  lemma FlatReadsBack(groups: Groups)
    requires NoEmptyGroup(groups)
    ensures Regrouped(Flat(groups)) == Bodies(groups) <==> BareButFirst(groups)
    ensures Queried(Flat(groups)) == Bodies(groups) <==> Bare(groups)
  {
    hide StartsGroup, Regrouped, Queried, Flat, Body, BareButFirst, Bare, RunsPlain, Marks, Bodies, FirstStripped;
    FlatMarks(groups);
    GroupCount(Flat(groups));
    StrippedIsBodies(groups);
    BareRuns(groups);
    if RunsPlain(groups) {
      PlainReadsBack(groups);
    }
  }

  lemma NoFilters()
    ensures Regrouped([]) == [[]] && Queried([]) == [[]]
  {
  }

  lemma OneFilter(before: seq<string>, f: string)
    ensures Regrouped(before + [f]) == AddTo(Regrouped(before), Body(f), before != [] && StartsGroup(f))
    ensures Queried(before + [f]) == AddTo(Queried(before), Body(f), StartsGroup(f))
  {
    hide StartsGroup;
    assert (before + [f])[..|before|] == before;
  }

  lemma {:induction false} SpineGroupsPlain(n: Node)
    requires OrSpine(n)
    ensures NoEmptyGroup(GroupsOf(n)) && forall g :: 0 <= g < |GroupsOf(n)| ==> 1 <= |GroupsOf(n)[g]| <= LeafCount(n)
  {
    if !AndSpine(n) {
      SpineGroupsPlain(n.left);
    }
  }

  /** A condition read without parentheses is an OR of ANDs that means what the tree means. The flat filters stand
    for it exactly when no text but the very first starts with "OR:", the storage engine's query exactly when none
    does. The query also wants at most 4 groups. */
  lemma FlatteningPreservesMeaning(tokens: seq<Token>, test: Test, query: string -> bool)
    requires var p := OrExpr(Input(tokens, 0, false), 0); p.Tree? && !p.input.parens
    ensures var n := OrExpr(Input(tokens, 0, false), 0).node;
            OrSpine(n) && LeafCount(n) <= MAX_COND
            && (var groups, filters := GroupsOf(n), Flat(GroupsOf(n));
                && (SomeGroupHolds(Bodies(groups), test) <==> TreeMatches(n, test, query))
                && (Regrouped(filters) == Bodies(groups) <==> BareButFirst(groups))
                && (Queried(filters) == Bodies(groups) <==> Bare(groups))
                && (Fits(Bodies(groups)) <==> |groups| <= MAX_FILTER_GROUPS))
  {
    var n := OrExpr(Input(tokens, 0, false), 0).node;
    ParenFreeShape(Input(tokens, 0, false), 0);
    SpineGroupsPlain(n);
    FlatReadsBack(GroupsOf(n));
    GroupsMeaning(n, test, query);
  }

  /** What a caller sees: with at most 4 groups of well-formed conditions the query is built and agrees. */
  method WhereClause(tokens: seq<Token>, test: Test, ghost query: string -> bool)
    returns (tree: Option<Node>, usedParens: bool, filters: seq<string>, built: Built, matches: bool, conds: bool)
    ensures tree.None? <==> OrExpr(Input(tokens, 0, false), 0).SyntaxError?
    ensures tree.Some? ==> tree.value == OrExpr(Input(tokens, 0, false), 0).node
    ensures tree.Some? && !usedParens ==> OrSpine(tree.value) && filters == Flat(GroupsOf(tree.value))
    ensures tree.Some? && !usedParens && BareButFirst(GroupsOf(tree.value)) ==>
              (conds <==> AllParse(Bodies(GroupsOf(tree.value)), test) && TreeMatches(tree.value, test, query))
    ensures tree.Some? && !usedParens && Bare(GroupsOf(tree.value)) ==>
              && (built.Built? <==>
                    |GroupsOf(tree.value)| <= MAX_FILTER_GROUPS && AllParse(Bodies(GroupsOf(tree.value)), test))
              && (built.Built? ==> (matches <==> TreeMatches(tree.value, test, query)))
  {
    hide Primary, AndExpr, AndTail, OrExpr, OrTail, AllParse, SomeGroupHolds, Fits, Regrouped, Queried, Flat, GroupsOf,
         OrSpine, TreeMatches, BareButFirst, Bare, Bodies;
    usedParens, filters, built, matches, conds := false, [], BadFilter, false, false;
    var parser := new Parser(tokens);
    tree := parser.ParseOr(0);
    usedParens := parser.usedParens;
    if tree.None? || usedParens {
      return;
    }
    ParenFreeShape(Input(tokens, 0, false), 0);
    var buffer := new FilterBuffer();
    var ok := buffer.FlattenOr(tree.value);
    filters := buffer.filters[..buffer.n];
    assert ok && filters == [] + Flat(GroupsOf(tree.value)) == Flat(GroupsOf(tree.value));
    conds := CondsMatch(filters, test);
    built := BuildQuery(filters, test);
    if built.Built? {
      matches := QueryMatches(built.groups, test);
    }
    FlatteningPreservesMeaning(tokens, test, query);
  }

  /** An "OR:" on the first filter: the flat evaluation ignores it, the query gets an empty first group, which
    every record matches. */
  lemma LeadingOrMatchesAll(f: string, test: Test)
    ensures Regrouped([OR_PREFIX + f]) == [[f]]
    ensures Queried([OR_PREFIX + f]) == [[], [f]] && SomeGroupHolds(Queried([OR_PREFIX + f]), test)
  {
    PrefixedBody(f);
    OneFilter([], OR_PREFIX + f);
    assert [] + [OR_PREFIX + f] == [OR_PREFIX + f];
    NoFilters();
    assert AddTo([[]], f, false) == [[f]] by {
      assert [] + [f] == [f];
    }
    assert GroupHolds(Queried([OR_PREFIX + f])[0], test);
  }

  /** A condition in the middle of a group whose text itself starts with "OR:" tears its group in two. */
  lemma PrefixedConditionSplits(test: Test, query: string -> bool)
    requires test("a=1") == Some(true) && test("b=1") == Some(false)
    ensures var n := Both(Leaf("a=1"), Leaf("OR:b=1"));
            !TreeMatches(n, test, query) && SomeGroupHolds(Regrouped(Flat(GroupsOf(n))), test)
  {
    var n := Both(Leaf("a=1"), Leaf("OR:b=1"));
    assert AndSpine(n.left) && ChainOf(n.left) == ["a=1"];
    assert ChainOf(n) == ["a=1", "OR:b=1"];
    FlatOfSpine(n);
    NoFilters();
    PrefixedB();
    OneFilter([], "a=1");
    OneFilter(["a=1"], "OR:b=1");
    assert [] + ["a=1"] == ["a=1"] && ["a=1"] + ["OR:b=1"] == ["a=1", "OR:b=1"];
    var groups := Regrouped(["a=1", "OR:b=1"]);
    assert AddTo([[]], "a=1", false) == [["a=1"]];
    assert groups[0] == ["a=1"];
    assert GroupHolds(groups[0], test);
  }

  lemma PrefixedB()
    ensures Body("OR:b=1") == "b=1" && StartsGroup("OR:b=1") && Body("a=1") == "a=1" && !StartsGroup("a=1")
    ensures OR_PREFIX + "OR:b=1" == "OR:OR:b=1"
  {
    PrefixedBody("b=1");
    assert OR_PREFIX + "b=1" == "OR:b=1";
    assert "a=1"[..3][0] == 'a';
  }

  /** One that opens a later group keeps its prefix: the flat form puts another one in front and only that is
      stripped, while the tree's leaf loses its own. */
  lemma OpeningPrefixStays(test: Test, query: string -> bool)
    requires test("a=1") == Some(false) && test("b=1") == Some(true) && test("OR:b=1") == Some(false)
    ensures var n := Either(Leaf("a=1"), Leaf("OR:b=1"));
      && OrSpine(n) && TreeMatches(n, test, query)
      && Regrouped(Flat(GroupsOf(n))) == Queried(Flat(GroupsOf(n))) == [["a=1"], ["OR:b=1"]]
      && !SomeGroupHolds([["a=1"], ["OR:b=1"]], test)
  {
    var n := Either(Leaf("a=1"), Leaf("OR:b=1"));
    PrefixedB();
    EitherOf("a=1", "OR:b=1", test, query);
    hide StartsGroup, Body, Flat, Regrouped, Queried, GroupsOf, OrSpine, TreeMatches;
    var groups := GroupsOf(n);
    assert forall g :: 0 <= g < |groups| ==> |groups[g]| == 1;
    PlainReadsBack(groups);
    assert groups == [["a=1"], ["OR:b=1"]] && Body("a=1") == "a=1";
    assert groups[0] == ["a=1"] && groups[0][0 := "a=1"] == groups[0];
    assert FirstStripped(groups) == groups;
  }

  lemma EitherOf(a: string, b: string, test: Test, query: string -> bool)
    ensures var n := Either(Leaf(a), Leaf(b));
      && OrSpine(n) && GroupsOf(n) == [[a], [b]]
      && (TreeMatches(n, test, query) <==> test(Body(a)) == Some(true) || test(Body(b)) == Some(true))
    ensures SomeGroupHolds([[a], [b]], test) <==> test(a) == Some(true) || test(b) == Some(true)
  {
    hide Body;
    var n := Either(Leaf(a), Leaf(b));
    assert GroupsOf(n.left) == [[a]] && ChainOf(n.right) == [b];
    GroupHoldsOne(a, test);
    GroupHoldsOne(b, test);
    hide GroupHolds;
    assert [[a], [b]][0] == [a] && [[a], [b]][1] == [b];
  }

  lemma GroupHoldsOne(f: string, test: Test)
    ensures GroupHolds([f], test) <==> test(f) == Some(true)
  {
    assert [f][0] == f;
  }
}
