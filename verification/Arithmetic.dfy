/** Arithmetic expressions, evaluated in place at two precedences (src/sql.c).

  The operators are parameters: nothing is assumed of them, not even associativity. Only division and
  modulo can be undefined, on a zero divisor.
 */
module Arithmetic {
  import opened Values

  const MAX_EXPR_TERMS: nat := 6

  datatype Op = Add | Sub | Mul | Div | Mod

  predicate Tight(op: Op) {
    op.Mul? || op.Div? || op.Mod?
  }

  datatype Arith<!V> = Arith(apply: (Op, V, V) -> V, isZero: V -> bool, zero: V)

  function Apply<V>(arith: Arith<V>, op: Op, a: V, b: V): Option<V> {
    if (op.Div? || op.Mod?) && arith.isZero(b) then None else Some(arith.apply(op, a, b))
  }

  // ---------------------------------------------------------------- precedence trees

  /** An operand is undefined when its column is missing, NULL or not a number. */
  datatype Tree<V> = Operand(v: Option<V>) | Node(op: Op, left: Tree<V>, right: Tree<V>)

  predicate Product<V>(t: Tree<V>) {
    t.Operand? || (Tight(t.op) && Product(t.left) && t.right.Operand?)
  }

  /** A left-associative sum of left-associative products. */
  predicate Sum<V>(t: Tree<V>) {
    Product(t) || (t.Node? && !Tight(t.op) && Sum(t.left) && Product(t.right))
  }

  function Eval<V>(arith: Arith<V>, t: Tree<V>): Option<V> {
    match t
    case Operand(v) => v
    case Node(op, l, r) =>
      match (Eval(arith, l), Eval(arith, r))
      case (Some(a), Some(b)) => Apply(arith, op, a, b)
      case _ => None
  }

  predicate MissingOperand<V>(t: Tree<V>) {
    match t
    case Operand(v) => v.None?
    case Node(_, l, r) => MissingOperand(l) || MissingOperand(r)
  }

  /** Some division or modulo of the tree has a divisor that comes to zero. */
  predicate DividesByZero<V>(arith: Arith<V>, t: Tree<V>) {
    match t
    case Operand(_) => false
    case Node(op, l, r) =>
      DividesByZero(arith, l) || DividesByZero(arith, r)
      || ((op.Div? || op.Mod?) && Eval(arith, r).Some? && arith.isZero(Eval(arith, r).value))
  }

  /** An expression is undefined exactly when an operand is or some divisor in it comes to zero. */
  lemma {:induction false} UndefinedExactly<V>(arith: Arith<V>, t: Tree<V>)
    ensures Eval(arith, t).None? <==> MissingOperand(t) || DividesByZero(arith, t)
  {
    if t.Node? {
      UndefinedExactly(arith, t.left);
      UndefinedExactly(arith, t.right);
    }
  }

  // ---------------------------------------------------------------- chains

  function Terms<V>(t: Tree<V>): (terms: seq<Option<V>>)
    ensures terms != []
  {
    match t
    case Operand(v) => [v]
    case Node(_, l, r) => Terms(l) + Terms(r)
  }

  function Ops<V>(t: Tree<V>): (ops: seq<Op>)
    ensures |ops| + 1 == |Terms(t)|
  {
    match t
    case Operand(_) => []
    case Node(op, l, r) => Ops(l) + [op] + Ops(r)
  }

  /** The tree of a chain. */
  function TreeOf<V>(terms: seq<Option<V>>, ops: seq<Op>): (t: Tree<V>)
    requires |terms| == |ops| + 1
    ensures Sum(t) && (t.Operand? ==> Product(t))
    decreases |ops|
  {
    if ops == [] then Operand(terms[0])
    else
      var n := |ops| - 1;
      var t, op, v := TreeOf(terms[..n + 1], ops[..n]), ops[n], Operand(terms[n + 1]);
      if !Tight(op) || Product(t) then Node(op, t, v) else Node(t.op, t.left, Node(op, t.right, v))
  }

  /** Every chain is the chain of its tree. */
  lemma {:induction false} ChainOfTree<V>(terms: seq<Option<V>>, ops: seq<Op>)
    requires |terms| == |ops| + 1
    ensures Terms(TreeOf(terms, ops)) == terms && Ops(TreeOf(terms, ops)) == ops
    decreases |ops|
  {
    if ops == [] {
      assert terms == [terms[0]];
    } else {
      var n := |ops| - 1;
      var t, op, v := TreeOf(terms[..n + 1], ops[..n]), ops[n], Operand(terms[n + 1]);
      ChainOfTree(terms[..n + 1], ops[..n]);
      assert ops == ops[..n] + [op] && terms == terms[..n + 1] + [terms[n + 1]];
      assert Terms(v) == [terms[n + 1]] && Ops(v) == [];
      if Tight(op) && !Product(t) {
        var r := Node(op, t.right, v);
        assert Terms(r) == Terms(t.right) + [terms[n + 1]];
        assert Terms(t.left) + Terms(r) == Terms(t.left) + Terms(t.right) + [terms[n + 1]];
        assert Ops(r) == Ops(t.right) + [op];
        assert Ops(t.left) + [t.op] + Ops(r) == Ops(t.left) + [t.op] + Ops(t.right) + [op];
      } else {
        assert Ops(t) + [op] + Ops(v) == ops;
      }
    }
  }

  /** No other precedence tree has that chain. */
  lemma {:induction false} TreeOfChain<V>(t: Tree<V>)
    requires Sum(t)
    ensures TreeOf(Terms(t), Ops(t)) == t
    decreases |Ops(t)|
  {
    if t.Node? {
      var n := |Ops(t)| - 1;
      if t.right.Operand? {
        assert Terms(t)[..n + 1] == Terms(t.left) && Ops(t)[..n] == Ops(t.left);
        TreeOfChain(t.left);
      } else {
        var shorter := Node(t.op, t.left, t.right.left);
        assert Terms(t.right) == Terms(t.right.left) + [t.right.right.v];
        assert Ops(t.right) == Ops(t.right.left) + [t.right.op];
        assert Terms(t)[..n + 1] == Terms(shorter) && Ops(t)[..n] == Ops(shorter);
        TreeOfChain(shorter);
      }
    }
  }

  /** How far a left-to-right reading has got: what the sum before the current product comes to, and that product. */
  datatype State<V> = State(sum: Option<(V, Op)>, product: V)

  function Finish<V>(arith: Arith<V>, s: State<V>): V {
    match s.sum
    case None => s.product
    case Some((v, op)) => arith.apply(op, v, s.product)
  }

  function Step<V>(arith: Arith<V>, s: Option<State<V>>, op: Op, v: V): Option<State<V>> {
    if s.None? then None
    else if Tight(op) then
      match Apply(arith, op, s.value.product, v)
      case None => None
      case Some(p) => Some(State(s.value.sum, p))
    else Some(State(Some((Finish(arith, s.value), op)), v))
  }

  function Scan<V>(arith: Arith<V>, vals: seq<V>, ops: seq<Op>): Option<State<V>>
    requires |vals| == |ops| + 1
    decreases |ops|
  {
    if ops == [] then Some(State(None, vals[0]))
    else
      var n := |ops| - 1;
      Step(arith, Scan(arith, vals[..n + 1], ops[..n]), ops[n], vals[n + 1])
  }

  function Outcome<V>(arith: Arith<V>, s: Option<State<V>>): Option<V> {
    if s.None? then None else Some(Finish(arith, s.value))
  }

  lemma ScanNext<V>(arith: Arith<V>, vals: seq<V>, ops: seq<Op>, op: Op, v: V)
    requires |vals| == |ops| + 1
    ensures Scan(arith, vals + [v], ops + [op]) == Step(arith, Scan(arith, vals, ops), op, v)
  {
    assert (ops + [op])[..|ops|] == ops && (vals + [v])[..|vals|] == vals;
  }

  function Defined<V>(terms: seq<Option<V>>): (vals: seq<V>)
    requires forall i :: 0 <= i < |terms| ==> terms[i].Some?
    ensures |vals| == |terms| && forall i :: 0 <= i < |vals| ==> vals[i] == terms[i].value
  {
    seq(|terms|, i requires 0 <= i < |terms| => terms[i].value)
  }

  predicate AllDefined<V>(terms: seq<Option<V>>) {
    forall i :: 0 <= i < |terms| ==> terms[i].Some?
  }

  lemma {:induction false} AllDefinedInTree<V>(t: Tree<V>)
    ensures AllDefined(Terms(t)) <==> !MissingOperand(t)
  {
    if t.Node? {
      AllDefinedInTree(t.left);
      AllDefinedInTree(t.right);
      var l, r := Terms(t.left), Terms(t.right);
      assert forall i :: 0 <= i < |l| ==> Terms(t)[i] == l[i];
      assert forall i :: 0 <= i < |r| ==> Terms(t)[|l| + i] == r[i];
    } else {
      assert Terms(t)[0] == t.v;
    }
  }

  /** A product after a sum: the sum stays, the product is evaluated. */
  lemma {:induction false} ScanProduct<V>(arith: Arith<V>, vals: seq<V>, ops: seq<Op>, op: Op, t: Tree<V>)
    requires |vals| == |ops| + 1 && !Tight(op) && Product(t) && AllDefined(Terms(t))
    ensures Scan(arith, vals + Defined(Terms(t)), ops + [op] + Ops(t))
         == match (Scan(arith, vals, ops), Eval(arith, t))
            case (Some(s), Some(p)) => Some(State(Some((Finish(arith, s), op)), p))
            case _ => None
    decreases t
  {
    hide Finish;
    if t.Operand? {
      assert Terms(t)[0] == t.v;
      assert Defined(Terms(t)) == [t.v.value] && ops + [op] + Ops(t) == ops + [op];
      ScanNext(arith, vals, ops, op, t.v.value);
    } else {
      ProductParts(t);
      var l, v := t.left, t.right.v.value;
      ScanProduct(arith, vals, ops, op, l);
      assert vals + Defined(Terms(t)) == (vals + Defined(Terms(l))) + [v];
      assert ops + [op] + Ops(t) == (ops + [op] + Ops(l)) + [t.op];
      ScanNext(arith, vals + Defined(Terms(l)), ops + [op] + Ops(l), t.op, v);
    }
  }

  lemma ProductParts<V>(t: Tree<V>)
    requires t.Node? && Product(t) && AllDefined(Terms(t))
    ensures AllDefined(Terms(t.left)) && t.right.v.Some? && Tight(t.op)
    ensures Defined(Terms(t)) == Defined(Terms(t.left)) + [t.right.v.value]
    ensures Ops(t) == Ops(t.left) + [t.op]
  {
    var l := Terms(t.left);
    assert forall i :: 0 <= i < |l| ==> Terms(t)[i] == l[i];
    assert Terms(t)[|l|] == t.right.v;
  }

  lemma {:induction false} ScanFirstProduct<V>(arith: Arith<V>, t: Tree<V>)
    requires Product(t) && AllDefined(Terms(t))
    ensures Scan(arith, Defined(Terms(t)), Ops(t))
         == if Eval(arith, t).None? then None else Some(State(None, Eval(arith, t).value))
    decreases t
  {
    if t.Node? {
      ProductParts(t);
      ScanFirstProduct(arith, t.left);
      ScanNext(arith, Defined(Terms(t.left)), Ops(t.left), t.op, t.right.v.value);
    }
  }

  lemma SumParts<V>(t: Tree<V>)
    requires t.Node? && AllDefined(Terms(t))
    ensures AllDefined(Terms(t.left)) && AllDefined(Terms(t.right))
    ensures Defined(Terms(t)) == Defined(Terms(t.left)) + Defined(Terms(t.right))
  {
    var l, r := Terms(t.left), Terms(t.right);
    assert forall i :: 0 <= i < |l| ==> Terms(t)[i] == l[i];
    assert forall i :: 0 <= i < |r| ==> Terms(t)[|l| + i] == r[i];
  }

  /** Reading the chain left to right evaluates the precedence tree. */
  lemma {:induction false} ScanEvaluates<V>(arith: Arith<V>, t: Tree<V>)
    requires Sum(t) && AllDefined(Terms(t))
    ensures Outcome(arith, Scan(arith, Defined(Terms(t)), Ops(t))) == Eval(arith, t)
    decreases t
  {
    if Product(t) {
      ScanFirstProduct(arith, t);
    } else {
      SumParts(t);
      ScanEvaluates(arith, t.left);
      ScanProduct(arith, Defined(Terms(t.left)), Ops(t.left), t.op, t.right);
    }
  }

  // ---------------------------------------------------------------- collapsing

  predicate NoTight(ops: seq<Op>) {
    forall i :: 0 <= i < |ops| ==> !Tight(ops[i])
  }

  function Collapsed<T>(s: seq<T>, i: nat): seq<T>
    requires i < |s|
  {
    s[..i] + s[i + 1..]
  }

  /** The chain with its i-th operator carried out in place. */
  function ScanCollapsed<V>(arith: Arith<V>, vals: seq<V>, ops: seq<Op>, i: nat): Option<State<V>>
    requires |vals| == |ops| + 1 && i < |ops|
  {
    match Apply(arith, ops[i], vals[i], vals[i + 1])
    case None => None
    case Some(r) => Scan(arith, Collapsed(vals, i + 1)[i := r], Collapsed(ops, i))
  }

  lemma {:induction false} ScanSums<V>(arith: Arith<V>, vals: seq<V>, ops: seq<Op>)
    requires |vals| == |ops| + 1 && NoTight(ops)
    ensures Scan(arith, vals, ops).Some? && Scan(arith, vals, ops).value.product == vals[|ops|]
    decreases |ops|
  {
    if ops != [] {
      var n := |ops| - 1;
      ScanSums(arith, vals[..n + 1], ops[..n]);
    }
  }

  /** The first tight operator of a chain can be carried out where it stands. */
  lemma {:induction false} CollapseFirst<V>(arith: Arith<V>, vals: seq<V>, ops: seq<Op>, i: nat)
    requires |vals| == |ops| + 1 && i < |ops| && NoTight(ops[..i]) && Tight(ops[i])
    ensures Scan(arith, vals, ops) == ScanCollapsed(arith, vals, ops, i)
    decreases |ops|
  {
    hide Step, Apply;
    var n := |ops| - 1;
    var r := Apply(arith, ops[i], vals[i], vals[i + 1]);
    assert vals == vals[..n + 1] + [vals[n + 1]] && ops == ops[..n] + [ops[n]];
    if i < n {
      assert ops[..n][..i] == ops[..i];
      CollapseFirst(arith, vals[..n + 1], ops[..n], i);
      if r.Some? {
        var front, rest := Collapsed(vals[..n + 1], i + 1)[i := r.value], Collapsed(ops[..n], i);
        assert Collapsed(vals, i + 1)[i := r.value] == front + [vals[n + 1]];
        assert Collapsed(ops, i) == rest + [ops[n]];
        ScanNext(arith, front, rest, ops[n], vals[n + 1]);
      } else {
        StepNone<V>(arith, ops[n], vals[n + 1]);
      }
    } else {
      ScanSums(arith, vals[..n + 1], ops[..n]);
      CollapseLast(arith, vals, ops);
    }
  }

  lemma StepNone<V>(arith: Arith<V>, op: Op, v: V)
    ensures Step(arith, None, op, v) == None
  {
  }

  lemma CollapseLast<V>(arith: Arith<V>, vals: seq<V>, ops: seq<Op>)
    requires |vals| == |ops| + 1 && ops != [] && NoTight(ops[..|ops| - 1]) && Tight(ops[|ops| - 1])
    ensures Scan(arith, vals, ops) == ScanCollapsed(arith, vals, ops, |ops| - 1)
  {
    hide Apply, Finish;
    var n := |ops| - 1;
    var front := ops[..n];
    ScanSums(arith, vals[..n + 1], front);
    var r := Apply(arith, ops[n], vals[n], vals[n + 1]);
    if r.Some? {
      assert Collapsed(ops, n) == front;
      var next := Collapsed(vals, n + 1)[n := r.value];
      assert next == vals[..n] + [r.value];
      if n > 0 {
        assert front == front[..n - 1] + [front[n - 1]];
        assert vals[..n + 1] == vals[..n] + [vals[n]];
        ScanNext(arith, vals[..n], front[..n - 1], front[n - 1], vals[n]);
        ScanNext(arith, vals[..n], front[..n - 1], front[n - 1], r.value);
        assert !Tight(front[n - 1]);
      }
    }
  }

  /** What the closing fold over + and - does. */
  lemma SumFold<V>(arith: Arith<V>, vals: seq<V>, ops: seq<Op>, k: nat)
    requires |vals| == |ops| + 1 && NoTight(ops) && k < |ops|
    ensures Scan(arith, vals[..k + 1], ops[..k]).Some?
    ensures Outcome(arith, Scan(arith, vals[..k + 2], ops[..k + 1]))
         == Some(arith.apply(ops[k], Outcome(arith, Scan(arith, vals[..k + 1], ops[..k])).value, vals[k + 1]))
  {
    ScanSums(arith, vals[..k + 1], ops[..k]);
    ScanNext(arith, vals[..k + 1], ops[..k], ops[k], vals[k + 1]);
    assert vals[..k + 2] == vals[..k + 1] + [vals[k + 1]] && ops[..k + 1] == ops[..k] + [ops[k]];
  }

  /** Moves everything after position `i` of the first `n` elements one place down. */
  method ShiftDown<T>(a: array<T>, i: nat, n: nat)
    requires i < n <= a.Length
    modifies a
    ensures a[..n - 1] == old(Collapsed(a[..n], i))
    ensures forall j :: n - 1 <= j < a.Length ==> a[j] == old(a[j])
  {
    var k := i;
    while k < n - 1
      invariant i <= k <= n - 1
      invariant forall j :: 0 <= j < i ==> a[j] == old(a[j])
      invariant forall j :: i <= j < k ==> a[j] == old(a[j + 1])
      invariant forall j :: k <= j < a.Length ==> a[j] == old(a[j])
    {
      a[k] := a[k + 1];
      k := k + 1;
    }
  }

  lemma ChainEvaluates<V>(arith: Arith<V>, terms: seq<Option<V>>, ops: seq<Op>)
    requires |terms| == |ops| + 1
    ensures Eval(arith, TreeOf(terms, ops))
         == if AllDefined(terms) then Outcome(arith, Scan(arith, Defined(terms), ops)) else None
  {
    hide Scan, Eval, TreeOf;
    var t := TreeOf(terms, ops);
    ChainOfTree(terms, ops);
    AllDefinedInTree(t);
    UndefinedExactly(arith, t);
    if AllDefined(terms) {
      ScanEvaluates(arith, t);
    }
  }

  /** One tight operator carried out: the terms and operators behind it move down. */
  method CollapseAt<V>(arith: Arith<V>, vals: array<V>, ops: array<Op>, n: nat, i: nat) returns (defined: bool)
    requires vals as object != ops as object
    requires i + 1 < n <= vals.Length && n - 1 <= ops.Length && Tight(ops[i]) && NoTight(ops[..i])
    modifies vals, ops
    ensures var before := old(Scan(arith, vals[..n], ops[..n - 1]));
            if defined then Scan(arith, vals[..n - 1], ops[..n - 2]) == before else before == None
    ensures defined ==> ops[..i] == old(ops[..i])
  {
    hide Scan, Apply;
    ghost var was, wasOps := vals[..n], ops[..n - 1];
    assert wasOps[..i] == ops[..i];
    CollapseFirst(arith, was, wasOps, i);
    var r := Apply(arith, ops[i], vals[i], vals[i + 1]);
    if r.None? {
      return false;
    }
    ShiftDown(vals, i + 1, n);
    vals[i] := r.value;
    ShiftDown(ops, i, n - 1);
    assert vals[..n - 1] == Collapsed(was, i + 1)[i := r.value];
    assert ops[..n - 2] == Collapsed(wasOps, i);
    assert ops[..i] == wasOps[..i];
    return true;
  }

  method FoldSums<V>(arith: Arith<V>, vals: array<V>, ops: array<Op>, n: nat) returns (result: V)
    requires 1 <= n <= vals.Length && n - 1 <= ops.Length && NoTight(ops[..n - 1])
    ensures Some(result) == Outcome(arith, Scan(arith, vals[..n], ops[..n - 1]))
  {
    hide Scan, Outcome;
    ghost var finalVals, finalOps := vals[..n], ops[..n - 1];
    result := vals[0];
    ScanOne(arith, finalVals[..1]);
    assert finalOps[..0] == [];
    var k := 0;
    while k < n - 1
      invariant 0 <= k <= n - 1
      invariant Some(result) == Outcome(arith, Scan(arith, finalVals[..k + 1], finalOps[..k]))
    {
      SumFold(arith, finalVals, finalOps, k);
      result := arith.apply(ops[k], result, vals[k + 1]);
      k := k + 1;
    }
    assert finalVals[..k + 1] == finalVals && finalOps[..k] == finalOps;
  }

  /** sql.c `sql__eval_expr`: the value of the chain's precedence tree, for whatever operators. */
  method EvalExpr<V>(arith: Arith<V>, terms: seq<Option<V>>, exprOps: seq<Op>) returns (out: Option<V>)
    requires 1 <= |terms| <= MAX_EXPR_TERMS && |terms| == |exprOps| + 1
    ensures out == Eval(arith, TreeOf(terms, exprOps))
  {
    hide Scan, Apply, Eval, TreeOf;
    ChainEvaluates(arith, terms, exprOps);
    var vals := new V[MAX_EXPR_TERMS](_ => arith.zero);
    var ops := new Op[MAX_EXPR_TERMS - 1](_ => Add);
    var n := |terms|;
    var i := 0;
    while i < n
      invariant 0 <= i <= n
      invariant forall j :: 0 <= j < i ==> terms[j] == Some(vals[j])
      invariant forall j :: 0 <= j < i - 1 ==> ops[j] == exprOps[j]
    {
      if terms[i].None? {
        return None;
      }
      vals[i] := terms[i].value;
      if i > 0 {
        ops[i - 1] := exprOps[i - 1];
      }
      i := i + 1;
    }
    assert vals[..n] == Defined(terms) && ops[..n - 1] == exprOps;
    i := 0;
    while i < n - 1
      invariant 0 <= i < n <= |terms|
      invariant NoTight(ops[..i])
      invariant Scan(arith, vals[..n], ops[..n - 1]) == Scan(arith, Defined(terms), exprOps)
      decreases n - i
    {
      if Tight(ops[i]) {
        var defined := CollapseAt(arith, vals, ops, n, i);
        if !defined {
          return None;
        }
        n := n - 1;
      } else {
        assert ops[..i + 1] == ops[..i] + [ops[i]];
        i := i + 1;
      }
    }
    var result := FoldSums(arith, vals, ops, n);
    out := Some(result);
  }

  lemma ScanOne<V>(arith: Arith<V>, vals: seq<V>)
    requires |vals| == 1
    ensures Outcome(arith, Scan(arith, vals, [])) == Some(vals[0])
  {
  }

  /** What binds tighter: of two operators the first is carried out first, unless it is + or - and the second is *, /
      or %. */
  lemma Precedence<V>(a: Option<V>, b: Option<V>, c: Option<V>, first: Op, second: Op)
    ensures TreeOf([a, b, c], [first, second]) ==
      if first in {Add, Sub} && second in {Mul, Div, Mod}
      then Node(first, Operand(a), Node(second, Operand(b), Operand(c)))
      else Node(second, Node(first, Operand(a), Operand(b)), Operand(c))
  {
    var terms, ops := [a, b, c], [first, second];
    assert terms[..2] == [a, b] && ops[..1] == [first];
    assert [a, b][..1] == [a] && [first][..0] == [];
    assert TreeOf([a], []) == Operand(a);
    assert TreeOf([a, b], [first]) == Node(first, Operand(a), Operand(b));
  }
}
