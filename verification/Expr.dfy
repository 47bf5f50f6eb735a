/** The debugger's expression evaluator: nemu/src/monitor/expr.c, from tokens on. */
module Expr {
  import opened Words

  datatype Operator =
    | Plus | Minus | Star | Slash | Le | Ge | Eq | Neq | BitAnd | BitOr | And | Or
    | Not | Neg | Deref

  datatype Token = Num(v: Word) | LPar | RPar | Op(op: Operator)

  function OpPriority(t: Token): nat {
    match t
    case Num(_) => 0
    case LPar => 1
    case RPar => 1
    case Op(op) => OperatorPriority(op)
  }

  function OperatorPriority(op: Operator): (p: nat)
    ensures p >= 2
  {
    match op
    case Not => 2 case Neg => 2 case Deref => 2
    case Star => 3 case Slash => 3
    case Plus => 4 case Minus => 4
    case Le => 6 case Ge => 6
    case Eq => 7 case Neq => 7
    case BitAnd => 8
    case BitOr => 10
    case And => 11
    case Or => 12
  }

  // ----- parentheses

  function Delta(t: Token): int { if t.LPar? then 1 else if t.RPar? then -1 else 0 }

  // Open parentheses in ts[s..k).
  function Depth(ts: seq<Token>, s: int, k: int): int
    requires 0 <= s && k <= |ts|
    decreases k - s
  {
    if k <= s then 0 else Depth(ts, s, k - 1) + Delta(ts[k - 1])
  }

  ghost predicate Balanced(ts: seq<Token>, s: int, e: int)
    requires 0 <= s && e < |ts|
  {
    (forall k :: s <= k <= e + 1 ==> Depth(ts, s, k) >= 0) && Depth(ts, s, e + 1) == 0
  }

  // The parenthesis opened at s is still open at every place up to k.
  ghost predicate OpenTo(ts: seq<Token>, s: int, k: int)
    requires 0 <= s && k <= |ts|
  {
    forall j :: s < j <= k ==> Depth(ts, s, j) > 0
  }

  // One pair of parentheses encloses the whole range.
  ghost predicate Wrapped(ts: seq<Token>, s: int, e: int)
    requires 0 <= s <= e < |ts|
  {
    ts[s].LPar? && ts[e].RPar? && OpenTo(ts, s, e)
  }

  method CheckParentheses(ts: seq<Token>, s: int, e: int) returns (r: bool, suc: bool)
    requires 0 <= s <= e < |ts|
    ensures suc <==> Balanced(ts, s, e)
    ensures r <==> Balanced(ts, s, e) && Wrapped(ts, s, e)
  {
    var flg, left := true, 0;
    if !ts[s].LPar? || !ts[e].RPar? {
      flg := false;
    }
    for i := s to e + 1
      invariant left == Depth(ts, s, i) && left >= 0
      invariant forall k :: s <= k <= i ==> Depth(ts, s, k) >= 0
      invariant flg <==> ts[s].LPar? && ts[e].RPar? && OpenTo(ts, s, if i <= e then i else e)
    {
      if ts[i].LPar? {
        left := left + 1;
      } else if ts[i].RPar? {
        if left <= 0 {
          assert Depth(ts, s, i + 1) < 0;
          return false, false;
        }
        left := left - 1;
        if left == 0 && i != e {
          flg := false;
        }
      }
      assert Depth(ts, s, i + 1) == left;
    }
    if left != 0 {
      return false, false;
    }
    assert flg <==> Wrapped(ts, s, e);
    return flg, true;
  }

  // ----- the dominant operator

  // Skip to the token that closes the left open parentheses.
  function Skip(ts: seq<Token>, i: int, e: int, left: int): (j: int)
    requires 0 <= i <= e + 1 && e < |ts|
    ensures i <= j <= e + 1
    decreases e - i + 1
  {
    if i > e then i
    else if left + Delta(ts[i]) == 0 then i
    else Skip(ts, i + 1, e, left + Delta(ts[i]))
  }

  // Continue the scan at i with the best position and priority so far.
  function Scan(ts: seq<Token>, i: int, e: int, pos: int, pri: nat): int
    requires 0 <= i && e < |ts|
    decreases e - i + 1
  {
    if i > e then pos
    else if ts[i].LPar? then Scan(ts, Skip(ts, i + 1, e, 1) + 1, e, pos, pri)
    else if ts[i].Num? then Scan(ts, i + 1, e, pos, pri)
    else if OpPriority(ts[i]) > pri then Scan(ts, i + 1, e, i, OpPriority(ts[i]))
    else Scan(ts, i + 1, e, pos, pri)
  }

  function Dominant(ts: seq<Token>, s: int, e: int): int
    requires 0 <= s <= e < |ts|
  {
    Scan(ts, s, e, s, 0)
  }

  lemma {:induction false} ScanInRange(ts: seq<Token>, s: int, i: int, e: int, pos: int, pri: nat)
    requires 0 <= s <= pos <= e < |ts| && s <= i
    ensures s <= Scan(ts, i, e, pos, pri) <= e
    decreases e - i + 1
  {
    if i <= e {
      if ts[i].LPar? {
        ScanInRange(ts, s, Skip(ts, i + 1, e, 1) + 1, e, pos, pri);
      } else if !ts[i].Num? && OpPriority(ts[i]) > pri {
        ScanInRange(ts, s, i + 1, e, i, OpPriority(ts[i]));
      } else {
        ScanInRange(ts, s, i + 1, e, pos, pri);
      }
    }
  }

  method DominantOperator(ts: seq<Token>, s: int, e: int) returns (pos: int)
    requires 0 <= s <= e < |ts|
    ensures pos == Dominant(ts, s, e) && s <= pos <= e
  {
    ScanInRange(ts, s, s, e, s, 0);
    var left, pri, i := 0, 0, s;
    pos := s;
    while i <= e
      invariant s <= i && pri >= 0
      invariant i <= e ==> left == 0
      invariant Scan(ts, i, e, pos, pri) == Dominant(ts, s, e)
      decreases e - i + 1
    {
      if ts[i].LPar? {
        ghost var open := i;
        left := left + 1;
        i := i + 1;
        while i <= e
          invariant open < i <= e + 1 && left > 0
          invariant Skip(ts, i, e, left) == Skip(ts, open + 1, e, 1)
          decreases e - i + 1
        {
          left := left + Delta(ts[i]);
          if left == 0 {
            break;
          }
          i := i + 1;
        }
      } else if !ts[i].Num? {
        var tpri := OpPriority(ts[i]);
        if tpri > pri {
          pos, pri := i, tpri;
        }
      }
      i := i + 1;
    }
  }

  // ----- evaluation

  // Memory as the evaluator reads it, four bytes at an address.
  type Memory = Word -> Word

  function Truth(b: bool): Word { if b then 1 else 0 }

  // The value of an operator; division by zero reports failure and is worth 0.
  function Apply(op: Operator, x: Word, y: Word, mem: Memory): (Word, bool) {
    match op
    case Plus => (Wrap32(x + y), true)
    case Minus => (Wrap32(x - y), true)
    case Star => (Wrap32(x * y), true)
    case Slash => if y == 0 then (0, false) else (Wrap32(x / y), true)
    case Le => (Truth(x <= y), true)
    case Ge => (Truth(x >= y), true)
    case Eq => (Truth(x == y), true)
    case Neq => (Truth(x != y), true)
    case Not => (Truth(y == 0), true)
    case And => (Truth(x != 0 && y != 0), true)
    case BitAnd => (BitwiseAnd(x, y), true)
    case Or => (Truth(x != 0 || y != 0), true)
    case BitOr => (OrWord(x, y), true)
    case Deref => (mem(y), true)
    case Neg => (Wrap32(0 - y), true)
  }

  /** The value of a token range and the success flag, given the flag before. */
  ghost function Eval(ts: seq<Token>, s: int, e: int, ok: bool, mem: Memory): (Word, bool)
    requires 0 <= s && e < |ts|
    decreases e - s + 1
  {
    if s > e then (0, false)
    else if s == e then if ts[s].Num? then (ts[s].v, ok) else (0, false)
    else if !Balanced(ts, s, e) then (0, false)
    else if Wrapped(ts, s, e) then Eval(ts, s + 1, e - 1, ok, mem)
    else
      var op := Dominant(ts, s, e);
      ScanInRange(ts, s, s, e, s, 0);
      var l := Eval(ts, s, op - 1, ok, mem);
      var r := Eval(ts, op + 1, e, l.1, mem);
      if ts[op].Op? then Apply(ts[op].op, l.0, r.0, mem) else (0, false)
  }

  /** The recursive evaluator; it ends on every token range. */
  method EvalRange(ts: seq<Token>, s: int, e: int, ok: bool, mem: Memory) returns (val: Word, success: bool)
    requires 0 <= s && e < |ts|
    ensures (val, success) == Eval(ts, s, e, ok, mem)
    decreases e - s + 1
  {
    hide Apply, Depth, Balanced, Wrapped, Dominant;
    if s > e {
      return 0, false;
    }
    if s == e {
      if ts[s].Num? {
        return ts[s].v, ok;
      }
      return 0, false;
    }
    var wrapped, suc := CheckParentheses(ts, s, e);
    if wrapped {
      val, success := EvalRange(ts, s + 1, e - 1, ok, mem);
      return;
    }
    if !suc {
      return 0, false;
    }
    var op := DominantOperator(ts, s, e);
    var val1, val2;
    val1, success := EvalRange(ts, s, op - 1, ok, mem);
    val2, success := EvalRange(ts, op + 1, e, success, mem);
    if !ts[op].Op? {
      return 0, false;
    }
    var result := Apply(ts[op].op, val1, val2, mem);
    val, success := result.0, result.1;
  }

  // ----- unary minus and dereference

  // Whether a token can end an operand; registers and symbols are not part of this model.
  predicate EndsOperand(t: Token) { t.Num? || t.RPar? }

  // The reading of '-' and '*' after the token before it, if any.
  function ClassifyOne(prev: seq<Token>, t: Token): Token {
    if prev == [] || !EndsOperand(prev[|prev| - 1]) then
      if t == Op(Star) then Op(Deref) else if t == Op(Minus) then Op(Neg) else t
    else t
  }

  function Classify(prev: seq<Token>, ts: seq<Token>): (r: seq<Token>)
    ensures |r| == |ts|
    decreases |ts|
  {
    if ts == [] then [] else [ClassifyOne(prev, ts[0])] + Classify(prev + [ts[0]], ts[1..])
  }

  lemma {:induction false} ClassifyAt(prev: seq<Token>, ts: seq<Token>, i: nat)
    requires i < |ts|
    ensures Classify(prev, ts)[i] == ClassifyOne(prev + ts[..i], ts[i])
    decreases i
  {
    if i > 0 {
      ClassifyAt(prev + [ts[0]], ts[1..], i - 1);
      assert prev + [ts[0]] + ts[1..][..i - 1] == prev + ts[..i];
    } else {
      assert prev + ts[..0] == prev;
    }
  }

  // The loop in expr that rewrites the token array in place.
  method ClassifyTokens(tokens: array<Token>)
    modifies tokens
    ensures tokens[..] == Classify([], old(tokens[..]))
  {
    ghost var was := tokens[..];
    for i := 0 to tokens.Length
      invariant tokens[i..] == was[i..]
      invariant forall j :: 0 <= j < i ==> tokens[j] == Classify([], was)[j]
    {
      ClassifyAt([], was, i);
      assert [] + was[..i] == was[..i];
      if i > 0 {
        ClassifyAt([], was, i - 1);
      }
      if tokens[i] == Op(Star) && (i == 0 || !EndsOperand(tokens[i - 1])) {
        tokens[i] := Op(Deref);
      }
      if tokens[i] == Op(Minus) && (i == 0 || !EndsOperand(tokens[i - 1])) {
        tokens[i] := Op(Neg);
      }
    }
    assert tokens[..] == Classify([], was);
  }

  method Expr(tokens: array<Token>, ok: bool, mem: Memory) returns (val: Word, success: bool)
    modifies tokens
    ensures tokens[..] == Classify([], old(tokens[..]))
    ensures (val, success) == Eval(tokens[..], 0, tokens.Length - 1, ok, mem)
  {
    ClassifyTokens(tokens);
    val, success := EvalRange(tokens[..], 0, tokens.Length - 1, ok, mem);
  }

  // ----- which operator is dominant

  // An operator outside all parentheses of the range that starts at s.
  ghost predicate TopOp(ts: seq<Token>, s: int, k: int)
    requires 0 <= s <= k < |ts|
  {
    ts[k].Op? && Depth(ts, s, k) == 0
  }

  /** d is the loosest top-level operator in ts[i..e], the leftmost of that priority, and looser
      than pri. */
  ghost predicate Loosest(ts: seq<Token>, s: int, i: int, e: int, pri: nat, d: int)
    requires 0 <= s <= i && e < |ts|
  {
    && i <= d <= e && TopOp(ts, s, d) && OpPriority(ts[d]) > pri
    && forall k :: i <= k <= e && TopOp(ts, s, k) ==>
      OpPriority(ts[k]) <= OpPriority(ts[d]) && (k < d ==> OpPriority(ts[k]) < OpPriority(ts[d]))
  }

  ghost predicate NoneLooser(ts: seq<Token>, s: int, i: int, e: int, pri: nat)
    requires 0 <= s <= i && e < |ts|
  {
    forall k :: i <= k <= e && TopOp(ts, s, k) ==> OpPriority(ts[k]) <= pri
  }

  lemma {:induction false} SkipDepth(ts: seq<Token>, s: int, i: int, e: int)
    requires 0 <= s < i <= e < |ts| && Balanced(ts, s, e) && Depth(ts, s, i) > 0
    ensures var j := Skip(ts, i, e, Depth(ts, s, i));
      j <= e && Depth(ts, s, j + 1) == 0 && forall k :: i <= k <= j ==> Depth(ts, s, k) > 0
    decreases e - i
  {
    assert Depth(ts, s, i + 1) == Depth(ts, s, i) + Delta(ts[i]);
    if Depth(ts, s, i + 1) != 0 {
      SkipDepth(ts, s, i + 1, e);
    }
  }

  lemma {:induction false} ScanFinds(ts: seq<Token>, s: int, i: int, e: int, pos: int, pri: nat)
    requires 0 <= s <= i <= e + 1 <= |ts| && Balanced(ts, s, e) && Depth(ts, s, i) == 0
    ensures var d := Scan(ts, i, e, pos, pri);
      (d == pos && NoneLooser(ts, s, i, e, pri)) || Loosest(ts, s, i, e, pri, d)
    decreases e - i + 1
  {
    if i > e {
      assert NoneLooser(ts, s, i, e, pri);
    } else {
      assert Depth(ts, s, i + 1) == Depth(ts, s, i) + Delta(ts[i]);
      var p := OpPriority(ts[i]);
      hide Loosest, NoneLooser, OpPriority;
      if ts[i].LPar? {
        SkipDepth(ts, s, i + 1, e);
        var j := Skip(ts, i + 1, e, 1) + 1;
        ScanFinds(ts, s, j, e, pos, pri);
        FoundEarlier(ts, s, i, j, e, pri, Scan(ts, i, e, pos, pri), pos);
      } else if !ts[i].Num? && p > pri {
        ScanFinds(ts, s, i + 1, e, i, p);
        FoundHere(ts, s, i, e, pri, Scan(ts, i, e, pos, pri));
      } else {
        ScanFinds(ts, s, i + 1, e, pos, pri);
        FoundEarlier(ts, s, i, i + 1, e, pri, Scan(ts, i, e, pos, pri), pos);
      }
    }
  }

  // No operator before j matters.
  lemma FoundEarlier(ts: seq<Token>, s: int, i: int, j: int, e: int, pri: nat, d: int, pos: int)
    requires 0 <= s <= i <= j && e < |ts|
    requires forall k :: i <= k < j && k <= e && TopOp(ts, s, k) ==> OpPriority(ts[k]) <= pri
    requires (d == pos && NoneLooser(ts, s, j, e, pri)) || Loosest(ts, s, j, e, pri, d)
    ensures (d == pos && NoneLooser(ts, s, i, e, pri)) || Loosest(ts, s, i, e, pri, d)
  {
    hide TopOp, OpPriority;
  }

  // The operator at i is taken, and stays unless a looser one follows.
  lemma FoundHere(ts: seq<Token>, s: int, i: int, e: int, pri: nat, d: int)
    requires 0 <= s <= i <= e < |ts| && TopOp(ts, s, i) && OpPriority(ts[i]) > pri
    requires var p := OpPriority(ts[i]);
      (d == i && NoneLooser(ts, s, i + 1, e, p)) || Loosest(ts, s, i + 1, e, p, d)
    ensures Loosest(ts, s, i, e, pri, d)
  {
    hide TopOp, OpPriority;
  }

  /** On a balanced range the dominant operator is the leftmost of the loosest top-level operators;
      without a top-level operator it is the first token. */
  lemma DominantIsLeftmostLoosest(ts: seq<Token>, s: int, e: int)
    requires 0 <= s <= e < |ts| && Balanced(ts, s, e)
    ensures var d := Dominant(ts, s, e);
      if exists k :: s <= k <= e && TopOp(ts, s, k) then Loosest(ts, s, s, e, 0, d) else d == s
  {
    ScanFinds(ts, s, s, e, s, 0);
  }

  // ----- expressions: the syntax trees of the text, parentheses included

  datatype BinOp = Add | Sub | Mul | Div | LeOp | GeOp | EqOp | NeqOp | BitAndOp | BitOrOp | AndOp | OrOp

  datatype UnOp = NotOp | NegOp | DerefOp

  datatype Tree = Leaf(v: Word) | Bin(op: BinOp, l: Tree, r: Tree) | Un(uop: UnOp, t: Tree) | Paren(t: Tree)

  function BinToken(op: BinOp): Operator {
    match op
    case Add => Plus case Sub => Minus case Mul => Star case Div => Slash
    case LeOp => Le case GeOp => Ge case EqOp => Eq case NeqOp => Neq
    case BitAndOp => BitAnd case BitOrOp => BitOr case AndOp => And case OrOp => Or
  }

  function UnToken(op: UnOp): Operator {
    match op case NotOp => Not case NegOp => Neg case DerefOp => Deref
  }

  // How the operator is typed: unary minus and dereference look like their binary forms.
  function UnText(op: UnOp): Operator {
    match op case NotOp => Not case NegOp => Minus case DerefOp => Star
  }

  function Text(t: Tree): seq<Token> {
    match t
    case Leaf(v) => [Num(v)]
    case Bin(op, l, r) => Text(l) + [Op(BinToken(op))] + Text(r)
    case Un(op, u) => [Op(UnText(op))] + Text(u)
    case Paren(u) => [LPar] + Text(u) + [RPar]
  }

  function Tokens(t: Tree): seq<Token> {
    match t
    case Leaf(v) => [Num(v)]
    case Bin(op, l, r) => Tokens(l) + [Op(BinToken(op))] + Tokens(r)
    case Un(op, u) => [Op(UnToken(op))] + Tokens(u)
    case Paren(u) => [LPar] + Tokens(u) + [RPar]
  }

  // The levels of binary operators in C: multiplication binds tightest, logical or loosest.
  function Level(op: BinOp): (n: nat)
    ensures n >= 1
  {
    match op
    case Mul => 1 case Div => 1
    case Add => 2 case Sub => 2
    case LeOp => 3 case GeOp => 3
    case EqOp => 4 case NeqOp => 4
    case BitAndOp => 5 case BitOrOp => 6 case AndOp => 7 case OrOp => 8
  }

  function TreeLevel(t: Tree): nat { if t.Bin? then Level(t.op) else 0 }

  /** The text of the tree needs no further parentheses: operands bind tighter than their operator,
      except that a right operand may be of the same level, since such operators group to the right. */
  predicate Grouped(t: Tree) {
    match t
    case Leaf(_) => true
    case Bin(op, l, r) => Grouped(l) && Grouped(r) && TreeLevel(l) < Level(op) && TreeLevel(r) <= Level(op)
    case Un(_, u) => Grouped(u) && TreeLevel(u) == 0
    case Paren(u) => Grouped(u)
  }

  /** The priorities of the code are the levels of C, looser is larger, with unary operators first. */
  lemma PriorityIsLevel(p: BinOp, q: BinOp, u: UnOp)
    ensures OperatorPriority(BinToken(p)) < OperatorPriority(BinToken(q)) <==> Level(p) < Level(q)
    ensures OperatorPriority(UnToken(u)) < OperatorPriority(BinToken(p))
    ensures Level(Mul) == Level(Div) < Level(Add) == Level(Sub) < Level(LeOp) == Level(GeOp) < Level(EqOp)
    ensures Level(EqOp) == Level(NeqOp) < Level(BitAndOp) < Level(BitOrOp) < Level(AndOp) < Level(OrOp)
  {}

  /** The meaning of a tree, with x / 0 worth 0. */
  function Value(t: Tree, mem: Memory): Word {
    match t
    case Leaf(v) => v
    case Bin(op, l, r) => Apply(BinToken(op), Value(l, mem), Value(r, mem), mem).0
    case Un(op, u) => Apply(UnToken(op), 0, Value(u, mem), mem).0
    case Paren(u) => Value(u, mem)
  }

  // Some division in the tree has a zero divisor.
  predicate DividesByZero(t: Tree, mem: Memory) {
    match t
    case Leaf(_) => false
    case Bin(op, l, r) => DividesByZero(l, mem) || DividesByZero(r, mem) || (op == Div && Value(r, mem) == 0)
    case Un(_, u) => DividesByZero(u, mem)
    case Paren(u) => DividesByZero(u, mem)
  }

  // The outermost operation divides by zero.
  predicate RootDividesByZero(t: Tree, mem: Memory) {
    match t
    case Bin(op, _, r) => op == Div && Value(r, mem) == 0
    case Paren(u) => RootDividesByZero(u, mem)
    case _ => false
  }

  // A number, in any number of parentheses.
  predicate Bare(t: Tree) { t.Leaf? || (t.Paren? && Bare(t.t)) }

  // Every tree has a text that is grouped as the tree is: with all its operands in parentheses.
  function Enclosed(t: Tree): (r: Tree)
    ensures Grouped(r)
  {
    match t
    case Leaf(_) => t
    case Bin(op, l, r) => Bin(op, Paren(Enclosed(l)), Paren(Enclosed(r)))
    case Un(op, u) => Un(op, Paren(Enclosed(u)))
    case Paren(u) => Paren(Enclosed(u))
  }

  lemma {:induction false} EnclosedValue(t: Tree, mem: Memory)
    ensures Value(Enclosed(t), mem) == Value(t, mem)
    decreases t
  {
    hide Apply;
    match t
    case Leaf(_) =>
    case Bin(_, l, r) =>
      EnclosedValue(l, mem);
      EnclosedValue(r, mem);
    case Un(_, u) =>
      EnclosedValue(u, mem);
    case Paren(u) =>
      EnclosedValue(u, mem);
  }

  // ----- classification reads the text as the tokens

  lemma {:induction false} ClassifyJoin(prev: seq<Token>, a: seq<Token>, b: seq<Token>)
    ensures Classify(prev, a + b) == Classify(prev, a) + Classify(prev + a, b)
    decreases |a|
  {
    if a == [] {
      assert a + b == b && prev + a == prev;
    } else {
      hide Classify, ClassifyOne;
      ClassifyHead(prev, a);
      ClassifyHead(prev, a + b);
      ConsAppend(prev, a, b);
      ClassifyJoin(prev + [a[0]], a[1..], b);
      Associate([ClassifyOne(prev, a[0])], Classify(prev + [a[0]], a[1..]), Classify(prev + a, b));
    }
  }

  lemma ConsAppend(prev: seq<Token>, a: seq<Token>, b: seq<Token>)
    requires a != []
    ensures (a + b)[0] == a[0] && (a + b)[1..] == a[1..] + b && prev + [a[0]] + a[1..] == prev + a
  {}

  lemma Associate(x: seq<Token>, y: seq<Token>, z: seq<Token>)
    ensures x + (y + z) == (x + y) + z
  {}

  lemma ClassifyHead(prev: seq<Token>, ts: seq<Token>)
    requires ts != []
    ensures Classify(prev, ts) == [ClassifyOne(prev, ts[0])] + Classify(prev + [ts[0]], ts[1..])
  {}

  lemma {:induction false} TextEnds(t: Tree)
    ensures Text(t) != [] && EndsOperand(Text(t)[|Text(t)| - 1])
    decreases t
  {
    match t
    case Leaf(_) =>
    case Bin(_, _, r) =>
      TextEnds(r);
    case Un(_, u) =>
      TextEnds(u);
    case Paren(_) =>
  }

  // An operand is expected after these tokens.
  predicate OperandNext(prev: seq<Token>) { prev == [] || !EndsOperand(prev[|prev| - 1]) }

  /** Classification reads the text of a tree as its tokens, wherever an operand is expected. */
  lemma {:induction false} ClassifyText(prev: seq<Token>, t: Tree)
    requires OperandNext(prev)
    ensures Classify(prev, Text(t)) == Tokens(t)
    decreases t
  {
    hide Classify;
    match t
    case Leaf(v) =>
      ClassifySingle(prev, Num(v));
    case Bin(op, l, r) =>
      var o := Op(BinToken(op));
      ClassifyText(prev, l);
      TextEnds(l);
      AfterOperand(prev, Text(l), op);
      ClassifySingle(prev + Text(l), o);
      LastOf(prev + Text(l), o);
      ClassifyText(prev + Text(l) + [o], r);
      ClassifyThree(prev, Text(l), [o], Text(r));
    case Un(op, u) =>
      var o := Op(UnText(op));
      ClassifySingle(prev, o);
      LastOf(prev, o);
      ClassifyText(prev + [o], u);
      ClassifyJoin(prev, [o], Text(u));
    case Paren(u) =>
      ClassifySingle(prev, LPar);
      LastOf(prev, LPar);
      ClassifyText(prev + [LPar], u);
      ClassifySingle(prev + [LPar] + Text(u), RPar);
      ClassifyThree(prev, [LPar], Text(u), [RPar]);
  }

  lemma LastOf(prev: seq<Token>, t: Token)
    ensures OperandNext(prev + [t]) <==> !EndsOperand(t)
  {}

  // After an operand every binary operator is read as itself.
  lemma AfterOperand(prev: seq<Token>, text: seq<Token>, op: BinOp)
    requires text != [] && EndsOperand(text[|text| - 1])
    ensures ClassifyOne(prev + text, Op(BinToken(op))) == Op(BinToken(op))
  {
    assert (prev + text)[|prev + text| - 1] == text[|text| - 1];
  }

  lemma ClassifyThree(prev: seq<Token>, a: seq<Token>, b: seq<Token>, c: seq<Token>)
    ensures Classify(prev, a + b + c) == Classify(prev, a) + Classify(prev + a, b) + Classify(prev + a + b, c)
  {
    hide Classify;
    ClassifyJoin(prev, a + b, c);
    ClassifyJoin(prev, a, b);
    assert prev + (a + b) == prev + a + b;
  }

  lemma ClassifySingle(prev: seq<Token>, t: Token)
    ensures Classify(prev, [t]) == [ClassifyOne(prev, t)]
  {
    assert Classify(prev + [t], [t][1..]) == [];
  }

  // ----- the evaluator gives every expression its value

  lemma SubSlice(ts: seq<Token>, s: int, e: int, i: int, j: int)
    requires 0 <= s <= e <= |ts| && 0 <= i <= j <= e - s
    ensures ts[s..e][i..j] == ts[s + i..s + j]
  {
    var w := ts[s..e];
    forall k | 0 <= k < j - i
      ensures w[i..j][k] == ts[s + i..s + j][k]
    {
      assert w[i + k] == ts[s + (i + k)];
    }
  }

  // The tokens of a tree stand at ts[s..e).
  ghost predicate Stands(t: Tree, ts: seq<Token>, s: int, e: int) {
    0 <= s <= e <= |ts| && ts[s..e] == Tokens(t)
  }

  lemma {:induction false} DepthSplit(ts: seq<Token>, s: int, m: int, k: int)
    requires 0 <= s <= m <= k <= |ts|
    ensures Depth(ts, s, k) == Depth(ts, s, m) + Depth(ts, m, k)
    decreases k - m
  {
    if m < k {
      DepthSplit(ts, s, m, k - 1);
    }
  }

  lemma {:induction false} TokensSome(t: Tree)
    ensures Tokens(t) != []
    decreases t
  {
    match t
    case Leaf(_) =>
    case Bin(_, l, _) =>
      TokensSome(l);
    case Un(_, _) =>
    case Paren(_) =>
  }

  lemma StandsLeaf(t: Tree, ts: seq<Token>, s: int, e: int)
    requires Stands(t, ts, s, e)
    ensures s < e && (t.Leaf? ==> e == s + 1 && ts[s] == Num(t.v))
  {
    TokensSome(t);
    assert ts[s..e][0] == ts[s];
  }

  lemma StandsBin(t: Tree, ts: seq<Token>, s: int, e: int) returns (m: int)
    requires Stands(t, ts, s, e) && t.Bin?
    ensures s < m < e - 1 && ts[m] == Op(BinToken(t.op)) && Stands(t.l, ts, s, m) && Stands(t.r, ts, m + 1, e)
  {
    var l, r, o := Tokens(t.l), Tokens(t.r), Op(BinToken(t.op));
    m := s + |l|;
    assert ts[s..e] == l + [o] + r;
    hide Tokens;
    PartsAt(ts, s, e, l, o, r);
    StandsLeaf(t.l, ts, s, m);
    StandsLeaf(t.r, ts, m + 1, e);
  }

  lemma PartsAt(ts: seq<Token>, s: int, e: int, l: seq<Token>, o: Token, r: seq<Token>)
    requires 0 <= s <= e <= |ts| && ts[s..e] == l + [o] + r
    ensures var m := s + |l|; e == m + 1 + |r| && ts[m] == o && ts[s..m] == l && ts[m + 1..e] == r
  {
    var w := ts[s..e];
    assert |w| == |l| + 1 + |r| && w[|l|] == o && w[..|l|] == l && w[|l| + 1..] == r;
    assert w[|l|] == ts[s + |l|];
    SubSlice(ts, s, e, 0, |l|);
    SubSlice(ts, s, e, |l| + 1, |l| + 1 + |r|);
  }

  lemma StandsUn(t: Tree, ts: seq<Token>, s: int, e: int)
    requires Stands(t, ts, s, e) && t.Un?
    ensures s + 1 < e && ts[s] == Op(UnToken(t.uop)) && Stands(t.t, ts, s + 1, e)
  {
    assert ts[s..e] == [] + [Op(UnToken(t.uop))] + Tokens(t.t);
    PartsAt(ts, s, e, [], Op(UnToken(t.uop)), Tokens(t.t));
    StandsLeaf(t.t, ts, s + 1, e);
  }

  lemma StandsParen(t: Tree, ts: seq<Token>, s: int, e: int)
    requires Stands(t, ts, s, e) && t.Paren?
    ensures s + 1 < e - 1 && ts[s] == LPar && ts[e - 1] == RPar && Stands(t.t, ts, s + 1, e - 1)
  {
    var u := Tokens(t.t);
    assert ts[s..e] == [] + [LPar] + (u + [RPar]);
    PartsAt(ts, s, e, [], LPar, u + [RPar]);
    assert ts[s + 1..e] == u + [RPar] + [];
    PartsAt(ts, s + 1, e, u, RPar, []);
    StandsLeaf(t.t, ts, s + 1, e - 1);
  }

  /** ts[a..b) closes what it opens and nothing else, and its operators outside parentheses are of
      at most this priority. */
  ghost predicate Flat(ts: seq<Token>, a: int, b: int, pri: nat) {
    && 0 <= a < b <= |ts| && Depth(ts, a, b) == 0
    && (forall k :: a <= k <= b ==> Depth(ts, a, k) >= 0)
    && (forall k :: a <= k < b && ts[k].Op? && Depth(ts, a, k) == 0 ==> OpPriority(ts[k]) <= pri)
  }

  // The priority of the root, as the scan sees it.
  function RootPriority(t: Tree): nat {
    match t
    case Bin(op, _, _) => OperatorPriority(BinToken(op))
    case Un(op, _) => OperatorPriority(UnToken(op))
    case _ => 0
  }

  lemma RootOrder(l: Tree, op: BinOp)
    ensures TreeLevel(l) < Level(op) ==> RootPriority(l) < OperatorPriority(BinToken(op))
    ensures TreeLevel(l) <= Level(op) ==> RootPriority(l) <= OperatorPriority(BinToken(op))
  {
    match l
    case Bin(p, _, _) =>
      PriorityIsLevel(p, op, NegOp);
      PriorityIsLevel(op, p, NegOp);
    case Un(u, _) =>
      PriorityIsLevel(op, op, u);
    case _ =>
  }

  lemma {:induction false} TreeFlat(t: Tree, ts: seq<Token>, s: int, e: int)
    requires Stands(t, ts, s, e) && Grouped(t)
    ensures Flat(ts, s, e, RootPriority(t))
    decreases t
  {
    hide Flat, Tokens, OperatorPriority, Level;
    match t
    case Leaf(_) =>
      StandsLeaf(t, ts, s, e);
      LeafFlat(ts, s);
    case Bin(op, l, r) =>
      var m := StandsBin(t, ts, s, e);
      TreeFlat(l, ts, s, m);
      TreeFlat(r, ts, m + 1, e);
      RootOrder(l, op);
      RootOrder(r, op);
      BinFlat(ts, s, m, e, RootPriority(l), RootPriority(r));
    case Un(_, u) =>
      StandsUn(t, ts, s, e);
      TreeFlat(u, ts, s + 1, e);
      UnaryPriority(u);
      UnFlat(ts, s, e, RootPriority(u));
    case Paren(u) =>
      StandsParen(t, ts, s, e);
      TreeFlat(u, ts, s + 1, e - 1);
      ParenFlat(ts, s, e, RootPriority(u));
  }

  lemma UnaryPriority(t: Tree)
    requires TreeLevel(t) == 0
    ensures RootPriority(t) <= 2 && forall u :: OperatorPriority(UnToken(u)) == 2
  {}

  lemma LeafFlat(ts: seq<Token>, s: int)
    requires 0 <= s < |ts| && ts[s].Num?
    ensures Flat(ts, s, s + 1, 0)
  {
    assert Depth(ts, s, s) == 0;
  }

  lemma BinFlat(ts: seq<Token>, s: int, m: int, e: int, p: nat, q: nat)
    requires Flat(ts, s, m, p) && Flat(ts, m + 1, e, q) && ts[m].Op?
    requires p <= OpPriority(ts[m]) && q <= OpPriority(ts[m])
    ensures Flat(ts, s, e, OpPriority(ts[m]))
  {
    forall k | s <= k <= e
      ensures Depth(ts, s, k) == if k <= m then Depth(ts, s, k) else Depth(ts, m + 1, k)
    {
      BinDepth(ts, s, m, e, p, q, k);
    }
  }

  lemma BinDepth(ts: seq<Token>, s: int, m: int, e: int, p: nat, q: nat, k: int)
    requires Flat(ts, s, m, p) && Flat(ts, m + 1, e, q) && ts[m].Op? && s <= k <= e
    ensures k > m ==> Depth(ts, s, k) == Depth(ts, m + 1, k)
    ensures Depth(ts, s, m) == 0
  {
    if k > m {
      DepthSplit(ts, s, m + 1, k);
    }
  }

  lemma UnFlat(ts: seq<Token>, s: int, e: int, q: nat)
    requires 0 <= s < |ts| && ts[s].Op? && Flat(ts, s + 1, e, q) && q <= OpPriority(ts[s])
    ensures Flat(ts, s, e, OpPriority(ts[s]))
  {
    assert Depth(ts, s, s) == 0 && Depth(ts, s, s + 1) == 0;
    forall k | s + 1 <= k <= e
      ensures Depth(ts, s, k) == Depth(ts, s + 1, k)
    {
      DepthSplit(ts, s, s + 1, k);
    }
  }

  lemma ParenFlat(ts: seq<Token>, s: int, e: int, q: nat)
    requires 0 <= s && e <= |ts| && s + 1 < e - 1 && ts[s] == LPar && ts[e - 1] == RPar && Flat(ts, s + 1, e - 1, q)
    ensures Flat(ts, s, e, 0) && Wrapped(ts, s, e - 1)
  {
    assert Depth(ts, s, s) == 0 && Depth(ts, s, s + 1) == 1;
    forall k | s + 1 <= k <= e - 1
      ensures Depth(ts, s, k) == 1 + Depth(ts, s + 1, k)
    {
      DepthSplit(ts, s, s + 1, k);
    }
    assert Depth(ts, s, e) == Depth(ts, s, e - 1) - 1;
  }

  lemma FlatBalanced(ts: seq<Token>, s: int, e: int, pri: nat)
    requires Flat(ts, s, e, pri)
    ensures Balanced(ts, s, e - 1)
  {}

  lemma BinDominant(ts: seq<Token>, s: int, m: int, e: int, p: nat, q: nat)
    requires Flat(ts, s, m, p) && Flat(ts, m + 1, e, q) && ts[m].Op?
    requires p < OpPriority(ts[m]) && q <= OpPriority(ts[m])
    ensures Balanced(ts, s, e - 1) && !Wrapped(ts, s, e - 1) && Dominant(ts, s, e - 1) == m
  {
    hide OpPriority;
    BinFlat(ts, s, m, e, p, q);
    FlatBalanced(ts, s, e, OpPriority(ts[m]));
    BinDepth(ts, s, m, e, p, q, m);
    assert TopOp(ts, s, m);
    DominantIsLeftmostLoosest(ts, s, e - 1);
    BinDepth(ts, s, m, e, p, q, Dominant(ts, s, e - 1));
  }

  lemma UnDominant(ts: seq<Token>, s: int, e: int, q: nat)
    requires 0 <= s < |ts| && ts[s].Op? && Flat(ts, s + 1, e, q) && q <= OpPriority(ts[s])
    ensures Balanced(ts, s, e - 1) && !Wrapped(ts, s, e - 1) && Dominant(ts, s, e - 1) == s
  {
    hide OpPriority;
    UnFlat(ts, s, e, q);
    FlatBalanced(ts, s, e, OpPriority(ts[s]));
    assert Depth(ts, s, s) == 0 && TopOp(ts, s, s);
    DominantIsLeftmostLoosest(ts, s, e - 1);
  }

  lemma EvalSplit(ts: seq<Token>, s: int, e: int, op: int, ok: bool, mem: Memory)
    requires 0 <= s < e < |ts| && Balanced(ts, s, e) && !Wrapped(ts, s, e)
    requires Dominant(ts, s, e) == op && s <= op <= e && ts[op].Op?
    ensures var l := Eval(ts, s, op - 1, ok, mem); var r := Eval(ts, op + 1, e, l.1, mem);
      Eval(ts, s, e, ok, mem) == Apply(ts[op].op, l.0, r.0, mem)
    ensures op == s ==> Eval(ts, s, op - 1, ok, mem) == (0, false)
  {
    hide Apply, Depth, Balanced, Wrapped, Dominant;
  }

  // The success flag after a whole tree: only the outermost operation decides it.
  function FlagAfter(t: Tree, ok: bool, mem: Memory): bool {
    if Bare(t) then ok else !RootDividesByZero(t, mem)
  }

  /** Evaluating the tokens of a tree gives its value, at any place and after any flag. */
  lemma {:induction false} EvalTokens(t: Tree, ts: seq<Token>, s: int, e: int, ok: bool, mem: Memory)
    requires Stands(t, ts, s, e) && Grouped(t)
    ensures Eval(ts, s, e - 1, ok, mem) == (Value(t, mem), FlagAfter(t, ok, mem))
    decreases t
  {
    hide Apply, Depth, Balanced, Wrapped, Dominant, Tokens, Flat, Level, OperatorPriority;
    StandsLeaf(t, ts, s, e);
    match t
    case Leaf(_) =>
    case Bin(op, l, r) =>
      var m := StandsBin(t, ts, s, e);
      TreeFlat(l, ts, s, m);
      TreeFlat(r, ts, m + 1, e);
      RootOrder(l, op);
      RootOrder(r, op);
      BinDominant(ts, s, m, e, RootPriority(l), RootPriority(r));
      EvalSplit(ts, s, e - 1, m, ok, mem);
      EvalTokens(l, ts, s, m, ok, mem);
      EvalTokens(r, ts, m + 1, e, FlagAfter(l, ok, mem), mem);
      ApplyFlag(op, Value(l, mem), Value(r, mem), mem);
    case Un(op, u) =>
      StandsUn(t, ts, s, e);
      TreeFlat(u, ts, s + 1, e);
      UnaryPriority(u);
      UnDominant(ts, s, e, RootPriority(u));
      EvalSplit(ts, s, e - 1, s, ok, mem);
      EvalTokens(u, ts, s + 1, e, false, mem);
      ApplyUnary(op, Value(u, mem), mem);
    case Paren(u) =>
      StandsParen(t, ts, s, e);
      TreeFlat(u, ts, s + 1, e - 1);
      ParenFlat(ts, s, e, RootPriority(u));
      FlatBalanced(ts, s, e, 0);
      EvalTokens(u, ts, s + 1, e - 1, ok, mem);
  }

  lemma ApplyFlag(op: BinOp, x: Word, y: Word, mem: Memory)
    ensures Apply(BinToken(op), x, y, mem).1 == !(op == Div && y == 0)
  {}

  lemma ApplyUnary(op: UnOp, y: Word, mem: Memory)
    ensures Apply(UnToken(op), 0, y, mem).1
  {}

  /** The evaluator inverts the printer: every expression, with any parentheses beyond those it
      needs, is classified and evaluated to its value. */
  lemma EvaluatorInvertsPrinter(t: Tree, ok: bool, mem: Memory)
    requires Grouped(t)
    ensures var ts := Classify([], Text(t));
      Eval(ts, 0, |ts| - 1, ok, mem) == (Value(t, mem), FlagAfter(t, ok, mem))
    ensures !DividesByZero(t, mem) && ok ==> FlagAfter(t, ok, mem)
  {
    hide Eval, Apply, Classify, Tokens;
    ClassifyText([], t);
    var ts := Tokens(t);
    assert ts[0..|ts|] == ts;
    EvalTokens(t, ts, 0, |ts|, ok, mem);
    RootDivides(t, mem);
  }

  lemma {:induction false} RootDivides(t: Tree, mem: Memory)
    ensures RootDividesByZero(t, mem) ==> DividesByZero(t, mem)
    ensures Bare(t) ==> !DividesByZero(t, mem)
    decreases t
  {
    hide Value;
    if t.Paren? {
      RootDivides(t.t, mem);
    }
  }

  datatype Outcome = Undefined | Defined(v: Word)

  /** The strict meaning of a tree: undefined as soon as any division is. */
  function Strict(t: Tree, mem: Memory): Outcome {
    match t
    case Leaf(v) => Defined(v)
    case Bin(op, l, r) =>
      (match (Strict(l, mem), Strict(r, mem))
       case (Defined(x), Defined(y)) =>
         if op == Div && y == 0 then Undefined else Defined(Apply(BinToken(op), x, y, mem).0)
       case _ => Undefined)
    case Un(op, u) =>
      (match Strict(u, mem)
       case Defined(y) => Defined(Apply(UnToken(op), 0, y, mem).0)
       case Undefined => Undefined)
    case Paren(u) => Strict(u, mem)
  }

  lemma {:induction false} StrictIs(t: Tree, mem: Memory)
    ensures Strict(t, mem) == if DividesByZero(t, mem) then Undefined else Defined(Value(t, mem))
    decreases t
  {
    hide Apply;
    match t
    case Leaf(_) =>
    case Bin(_, l, r) =>
      StrictIs(l, mem);
      StrictIs(r, mem);
    case Un(_, u) =>
      StrictIs(u, mem);
    case Paren(u) =>
      StrictIs(u, mem);
  }

  /** The evaluator agrees with the strict meaning, flag and value, exactly when no division below
      the outermost operator fails without the outermost one failing too: an inner failure is
      otherwise forgotten. */
  lemma StrictAgreementIff(t: Tree, mem: Memory)
    requires Grouped(t)
    ensures var ts := Classify([], Text(t)); var r := Eval(ts, 0, |ts| - 1, true, mem);
      (if r.1 then Strict(t, mem) == Defined(r.0) else Strict(t, mem) == Undefined) <==>
      (DividesByZero(t, mem) ==> RootDividesByZero(t, mem))
  {
    hide Eval, Apply, Classify, Strict;
    EvaluatorInvertsPrinter(t, true, mem);
    StrictIs(t, mem);
    RootDivides(t, mem);
  }

  /** 1 + 2 / 0 is 1, and succeeds. */
  lemma ForgottenFailure(ok: bool, mem: Memory)
    ensures var t := Bin(Add, Leaf(1), Bin(Div, Leaf(2), Leaf(0)));
      && DividesByZero(t, mem)
      && var ts := Classify([], Text(t));
      Eval(ts, 0, |ts| - 1, ok, mem) == (1, true)
  {
    EvaluatorInvertsPrinter(Bin(Add, Leaf(1), Bin(Div, Leaf(2), Leaf(0))), ok, mem);
  }

  // ----- chains of operators of one level, v op v0 op v1 ... without parentheses

  predicate OneLevel(ops: seq<BinOp>) {
    forall i, j :: 0 <= i < j < |ops| ==> Level(ops[i]) == Level(ops[j])
  }

  // v op (v0 op (v1 ...))
  function RightTree(v: Word, vs: seq<Word>, ops: seq<BinOp>): Tree
    requires |vs| == |ops|
    decreases |ops|
  {
    if ops == [] then Leaf(v) else Bin(ops[0], Leaf(v), RightTree(vs[0], vs[1..], ops[1..]))
  }

  // ((t op v0) op v1) ...
  function LeftTree(t: Tree, vs: seq<Word>, ops: seq<BinOp>): Tree
    requires |vs| == |ops|
    decreases |ops|
  {
    if ops == [] then t else LeftTree(Bin(ops[0], t, Leaf(vs[0])), vs[1..], ops[1..])
  }

  function Tail(vs: seq<Word>, ops: seq<BinOp>): seq<Token>
    requires |vs| == |ops|
    decreases |ops|
  {
    if ops == [] then [] else [Op(BinToken(ops[0])), Num(vs[0])] + Tail(vs[1..], ops[1..])
  }

  lemma {:induction false} RightText(v: Word, vs: seq<Word>, ops: seq<BinOp>)
    requires |vs| == |ops|
    ensures Text(RightTree(v, vs, ops)) == [Num(v)] + Tail(vs, ops)
    decreases |ops|
  {
    if ops != [] {
      RightText(vs[0], vs[1..], ops[1..]);
      assert Text(Leaf(v)) == [Num(v)];
    }
  }

  lemma {:induction false} LeftText(t: Tree, vs: seq<Word>, ops: seq<BinOp>)
    requires |vs| == |ops|
    ensures Text(LeftTree(t, vs, ops)) == Text(t) + Tail(vs, ops)
    decreases |ops|
  {
    if ops != [] {
      var o := Op(BinToken(ops[0]));
      LeftText(Bin(ops[0], t, Leaf(vs[0])), vs[1..], ops[1..]);
      assert Text(Bin(ops[0], t, Leaf(vs[0]))) == Text(t) + [o] + [Num(vs[0])];
    }
  }

  lemma {:induction false} RightGrouped(v: Word, vs: seq<Word>, ops: seq<BinOp>)
    requires |vs| == |ops| && OneLevel(ops)
    ensures Grouped(RightTree(v, vs, ops))
    decreases |ops|
  {
    if ops != [] {
      RightGrouped(vs[0], vs[1..], ops[1..]);
    }
  }

  // The value that the evaluator gives the text of a tree.
  ghost function Evaluated(t: Tree, ok: bool, mem: Memory): Word {
    var ts := Classify([], Text(t));
    Eval(ts, 0, |ts| - 1, ok, mem).0
  }

  /** Operators of one level, whichever they are, group to the right: the text of a tree that groups
      them to the left is also that of one that groups them to the right, and has its value. */
  lemma GroupsRight(v: Word, vs: seq<Word>, ops: seq<BinOp>, ok: bool, mem: Memory)
    requires |vs| == |ops| && OneLevel(ops)
    ensures Text(LeftTree(Leaf(v), vs, ops)) == Text(RightTree(v, vs, ops))
    ensures Evaluated(LeftTree(Leaf(v), vs, ops), ok, mem) == Value(RightTree(v, vs, ops), mem)
  {
    hide Eval, Classify, Value;
    LeftText(Leaf(v), vs, ops);
    RightText(v, vs, ops);
    RightGrouped(v, vs, ops);
    EvaluatorInvertsPrinter(RightTree(v, vs, ops), ok, mem);
  }

  // ----- when a sum still has the value that is expected of it

  predicate SumOps(ops: seq<BinOp>) { forall i :: 0 <= i < |ops| ==> ops[i] == Add || ops[i] == Sub }

  function Term(op: BinOp, v: int): int { if op == Sub then -v else v }

  function Terms(vs: seq<Word>, ops: seq<BinOp>): int
    requires |vs| == |ops|
    decreases |ops|
  {
    if ops == [] then 0 else Term(ops[0], vs[0]) + Terms(vs[1..], ops[1..])
  }

  // The terms behind an odd number of earlier minus signs: grouping to the right turns their signs.
  function Turned(vs: seq<Word>, ops: seq<BinOp>, odd: bool): int
    requires |vs| == |ops|
    decreases |ops|
  {
    if ops == [] then 0
    else (if odd then Term(ops[0], vs[0]) else 0) + Turned(vs[1..], ops[1..], odd != (ops[0] == Sub))
  }

  lemma {:induction false} TurnedOrNot(vs: seq<Word>, ops: seq<BinOp>, odd: bool)
    requires |vs| == |ops|
    ensures Turned(vs, ops, odd) + Turned(vs, ops, !odd) == Terms(vs, ops)
    decreases |ops|
  {
    if ops != [] {
      TurnedOrNot(vs[1..], ops[1..], odd != (ops[0] == Sub));
    }
  }

  lemma SameWrap(a: int, b: int, k: int)
    requires a == b + k * WORD
    ensures Wrap32(a) == Wrap32(b)
  {
    DivModIs(a, WORD, b / WORD + k, b % WORD);
  }

  lemma WrapInner(x: int, y: int)
    ensures Wrap32(x + Wrap32(y)) == Wrap32(x + y) && Wrap32(x - Wrap32(y)) == Wrap32(x - y)
    ensures Wrap32(Wrap32(x) + y) == Wrap32(x + y)
  {
    var i, j := x / WORD, y / WORD;
    assert x == i * WORD + Wrap32(x) && y == j * WORD + Wrap32(y);
    hide Wrap32;
    SameWrap(x + y, x + Wrap32(y), j);
    SameWrap(x - Wrap32(y), x - y, j);
    SameWrap(x + y, Wrap32(x) + y, i);
  }

  lemma WrapEqual(x: int, y: int)
    ensures Wrap32(x) == Wrap32(y) <==> Wrap32(y - x) == 0
  {
    var i, j := x / WORD, y / WORD;
    assert x == i * WORD + Wrap32(x) && y == j * WORD + Wrap32(y);
    if Wrap32(x) == Wrap32(y) {
      DivModIs(y - x, WORD, j - i, 0);
    } else if Wrap32(y - x) == 0 {
      SameWrap(y, x, (y - x) / WORD);
      assert false;
    }
  }

  lemma SumApply(op: BinOp, x: Word, y: Word, mem: Memory)
    requires op == Add || op == Sub
    ensures Apply(BinToken(op), x, y, mem).0 == Wrap32(x + Term(op, y))
  {}

  lemma {:induction false} RightIs(v: Word, vs: seq<Word>, ops: seq<BinOp>, mem: Memory)
    requires |vs| == |ops| && SumOps(ops)
    ensures Value(RightTree(v, vs, ops), mem) == Wrap32(v + Terms(vs, ops) - 2 * Turned(vs, ops, false))
    decreases |ops|
  {
    hide Apply, Wrap32;
    WrapWord(v);
    if ops != [] {
      var us, ps := vs[1..], ops[1..];
      RightIs(vs[0], us, ps, mem);
      var inner := vs[0] + Terms(us, ps) - 2 * Turned(us, ps, false);
      TurnedOrNot(us, ps, false);
      SumApply(ops[0], v, Value(RightTree(vs[0], us, ps), mem), mem);
      WrapInner(v, inner);
    }
  }

  lemma WrapWord(w: Word)
    ensures Wrap32(w) == w
  {}

  lemma {:induction false} LeftIs(t: Tree, vs: seq<Word>, ops: seq<BinOp>, mem: Memory)
    requires |vs| == |ops| && SumOps(ops)
    ensures Value(LeftTree(t, vs, ops), mem) == Wrap32(Value(t, mem) + Terms(vs, ops))
    decreases |ops|
  {
    hide Apply, Wrap32;
    WrapWord(Value(t, mem));
    if ops != [] {
      SumApply(ops[0], Value(t, mem), vs[0], mem);
      LeftIs(Bin(ops[0], t, Leaf(vs[0])), vs[1..], ops[1..], mem);
      WrapInner(Value(t, mem) + Term(ops[0], vs[0]), Terms(vs[1..], ops[1..]));
    }
  }

  /** A sum of any length, typed without parentheses, is evaluated to the value of grouping to the
      left if and only if twice the terms behind an odd number of earlier minus signs come to 0 in
      32 bits. */
  lemma SumAsExpectedIff(v: Word, vs: seq<Word>, ops: seq<BinOp>, ok: bool, mem: Memory)
    requires |vs| == |ops| && SumOps(ops)
    ensures var t := LeftTree(Leaf(v), vs, ops);
      Evaluated(t, ok, mem) == Value(t, mem) <==> Wrap32(2 * Turned(vs, ops, false)) == 0
  {
    hide Evaluated, RightTree, LeftTree, Wrap32, Turned, Terms;
    GroupsRight(v, vs, ops, ok, mem);
    RightIs(v, vs, ops, mem);
    LeftIs(Leaf(v), vs, ops, mem);
    var x, y := v + Terms(vs, ops), 2 * Turned(vs, ops, false);
    WrapEqual(x - y, x);
  }

  /** 5 - 2 - 1 evaluates to 4, where 2 is expected. */
  lemma FiveTwoOne(ok: bool, mem: Memory)
    ensures var t := Bin(Sub, Bin(Sub, Leaf(5), Leaf(2)), Leaf(1)); Evaluated(t, ok, mem) == 4 && Value(t, mem) == 2
  {
    hide Evaluated;
    var vs, ops := [2, 1], [Sub, Sub];
    GroupsRight(5, vs, ops, ok, mem);
    assert vs[1..] == [1] && ops[1..] == [Sub];
    assert LeftTree(Bin(Sub, Leaf(5), Leaf(2)), [1], [Sub]) == Bin(Sub, Bin(Sub, Leaf(5), Leaf(2)), Leaf(1));
    assert RightTree(2, [1], [Sub]) == Bin(Sub, Leaf(2), Leaf(1));
    assert Value(Bin(Sub, Leaf(2), Leaf(1)), mem) == 1;
  }

  // ----- what the values are, from the operands alone

  /** Expressions of +, -, * and unary minus. */
  predicate Polynomial(t: Tree) {
    match t
    case Leaf(_) => true
    case Bin(op, l, r) => (op == Add || op == Sub || op == Mul) && Polynomial(l) && Polynomial(r)
    case Un(op, u) => op == NegOp && Polynomial(u)
    case Paren(u) => Polynomial(u)
  }

  // Their value over all integers.
  function Exact(t: Tree): int
    requires Polynomial(t)
  {
    match t
    case Leaf(v) => v
    case Bin(op, l, r) =>
      if op == Add then Exact(l) + Exact(r) else if op == Sub then Exact(l) - Exact(r) else Exact(l) * Exact(r)
    case Un(_, u) => -Exact(u)
    case Paren(u) => Exact(u)
  }

  lemma WrapProduct(x: int, y: int)
    ensures Wrap32(Wrap32(x) * Wrap32(y)) == Wrap32(x * y)
  {
    var i, j := x / WORD, y / WORD;
    var a: int, b: int := Wrap32(x), Wrap32(y);
    assert x == i * WORD + a && y == j * WORD + b;
    hide *;
    Expand(i, j, a, b, WORD);
    SameWrap(x * y, a * b, i * j * WORD + i * b + j * a);
  }

  lemma Expand(i: int, j: int, a: int, b: int, m: int)
    ensures (i * m + a) * (j * m + b) == a * b + (i * j * m + i * b + j * a) * m
  {
    assert (i * m + a) * (j * m + b) == i * m * (j * m) + i * m * b + a * (j * m) + a * b;
    assert (i * j * m + i * b + j * a) * m == i * j * m * m + i * b * m + j * a * m;
  }

  lemma WrapBoth(x: int, y: int)
    ensures Wrap32(Wrap32(x) + Wrap32(y)) == Wrap32(x + y) && Wrap32(Wrap32(x) - Wrap32(y)) == Wrap32(x - y)
  {
    var a: int := Wrap32(x);
    hide Wrap32;
    WrapInner(a, y);
    WrapInner(x, y);
    WrapInner(x, -y);
  }

  lemma {:induction false} PolynomialValue(t: Tree, mem: Memory)
    requires Polynomial(t)
    ensures Value(t, mem) == Wrap32(Exact(t))
    decreases t
  {
    hide Apply, Wrap32;
    match t
    case Leaf(v) =>
      WrapWord(v);
    case Bin(op, l, r) =>
      PolynomialValue(l, mem);
      PolynomialValue(r, mem);
      PolynomialStep(op, Exact(l), Exact(r), mem);
    case Un(_, u) =>
      PolynomialValue(u, mem);
      NegationStep(Exact(u), mem);
    case Paren(u) =>
      PolynomialValue(u, mem);
  }

  lemma PolynomialStep(op: BinOp, x: int, y: int, mem: Memory)
    ensures op == Add ==> Apply(BinToken(op), Wrap32(x), Wrap32(y), mem).0 == Wrap32(x + y)
    ensures op == Sub ==> Apply(BinToken(op), Wrap32(x), Wrap32(y), mem).0 == Wrap32(x - y)
    ensures op == Mul ==> Apply(BinToken(op), Wrap32(x), Wrap32(y), mem).0 == Wrap32(x * y)
  {
    hide Wrap32;
    WrapBoth(x, y);
    WrapProduct(x, y);
  }

  lemma NegationStep(x: int, mem: Memory)
    ensures Apply(UnToken(NegOp), 0, Wrap32(x), mem).0 == Wrap32(-x)
  {
    hide Wrap32;
    WrapInner(0, x);
  }

  /** Whatever is typed with +, -, * and unary minus evaluates to its exact value modulo 2^32. */
  lemma EvaluatesPolynomials(t: Tree, ok: bool, mem: Memory)
    requires Grouped(t) && Polynomial(t)
    ensures Evaluated(t, ok, mem) == Exact(t) % WORD
  {
    hide Eval, Classify, Value, Exact;
    EvaluatorInvertsPrinter(t, ok, mem);
    PolynomialValue(t, mem);
  }

  lemma DivideWords(x: nat, y: nat)
    requires y > 0
    ensures 0 <= x / y <= x && 0 <= x - x / y * y < y
  {
    var q := x / y;
    assert x == q * y + x % y;
    MulLe(1, y, q);
  }

  lemma ApplySlash(x: Word, y: Word, mem: Memory)
    ensures Apply(Slash, x, y, mem).0 == if y == 0 then 0 else Wrap32(x / y)
  {}

  /** A quotient is the integer quotient of its operands, and 0 when the divisor is. */
  lemma QuotientValue(l: Tree, r: Tree, mem: Memory)
    ensures var x, y, q := Value(l, mem), Value(r, mem), Value(Bin(Div, l, r), mem);
      if y == 0 then q == 0 else 0 <= x - q * y < y
  {
    hide Apply, Wrap32;
    var x, y := Value(l, mem), Value(r, mem);
    assert Value(Bin(Div, l, r), mem) == Apply(Slash, x, y, mem).0;
    ApplySlash(x, y, mem);
    if y != 0 {
      hide *;
      DivideWords(x, y);
      WrapWord(x / y);
    }
  }

  /** Comparisons and logical operators give 1 where they hold and 0 elsewhere. */
  lemma TruthValues(l: Tree, r: Tree, mem: Memory)
    ensures var x, y := Value(l, mem), Value(r, mem);
      && Value(Bin(LeOp, l, r), mem) == (if x <= y then 1 else 0)
      && Value(Bin(GeOp, l, r), mem) == (if x >= y then 1 else 0)
      && Value(Bin(EqOp, l, r), mem) == (if x == y then 1 else 0)
      && Value(Bin(NeqOp, l, r), mem) == (if x == y then 0 else 1)
      && Value(Bin(AndOp, l, r), mem) == (if x != 0 && y != 0 then 1 else 0)
      && Value(Bin(OrOp, l, r), mem) == (if x == 0 && y == 0 then 0 else 1)
      && Value(Un(NotOp, r), mem) == (if y == 0 then 1 else 0)
      && Value(Un(DerefOp, r), mem) == mem(y)
  {
    hide BitwiseAnd, OrWord, Wrap32;
  }

  /** The bitwise operators work on each binary digit by itself. */
  lemma BitwiseValues(l: Tree, r: Tree, mem: Memory, i: nat)
    ensures var x, y := Value(l, mem), Value(r, mem);
      && (Value(Bin(BitAndOp, l, r), mem) / Pow2(i) % 2 == 1 <==> x / Pow2(i) % 2 == 1 && y / Pow2(i) % 2 == 1)
      && (Value(Bin(BitOrOp, l, r), mem) / Pow2(i) % 2 == 1 <==> x / Pow2(i) % 2 == 1 || y / Pow2(i) % 2 == 1)
  {
    var x, y := Value(l, mem), Value(r, mem);
    var a, o := Value(Bin(BitAndOp, l, r), mem), Value(Bin(BitOrOp, l, r), mem);
    assert a == BitwiseAnd(x, y) && o == BitwiseOr(x, y);
    hide *;
    AndDigit(x, y, i);
    OrDigit(x, y, i);
    DigitIs(x, i);
    DigitIs(y, i);
    DigitIs(a, i);
    DigitIs(o, i);
  }

  // ----- text that is not an expression

  /** A number, in parentheses or not, is its own value and leaves the flag as it was. */
  lemma LoneNumber(v: Word, ok: bool, mem: Memory)
    ensures Eval([Num(v)], 0, 0, ok, mem) == (v, ok) && Eval([LPar, Num(v), RPar], 0, 2, ok, mem) == (v, ok)
  {
    var ts := [LPar, Num(v), RPar];
    assert ts[0..3] == ts && Tokens(Leaf(v)) == [Num(v)];
    EvalTokens(Paren(Leaf(v)), ts, 0, 3, ok, mem);
  }

  /** A range whose parentheses do not match is refused: somewhere more are closed than opened, or
      in the end not as many. */
  lemma UnmatchedFails(ts: seq<Token>, s: int, e: int, k: int, ok: bool, mem: Memory)
    requires 0 <= s < e < |ts| && s <= k <= e + 1
    requires var part := multiset(ts[s..k]);
      part[RPar] > part[LPar] || (k == e + 1 && part[RPar] != part[LPar])
    ensures Eval(ts, s, e, ok, mem) == (0, false)
  {
    DepthCounts(ts, s, k);
  }

  /** So are an empty range, a lone token that is not a number, and several tokens none of which is an
      operator, unless one pair of parentheses encloses them. */
  lemma NoOperatorFails(ts: seq<Token>, s: int, e: int, ok: bool, mem: Memory)
    requires 0 <= s && e < |ts| && forall k :: s <= k <= e ==> !ts[k].Op?
    requires s == e ==> !ts[s].Num?
    requires s < e ==> !Wrapped(ts, s, e)
    ensures Eval(ts, s, e, ok, mem) == (0, false)
  {
    if s < e && Balanced(ts, s, e) {
      DominantIsLeftmostLoosest(ts, s, e);
    }
  }

  lemma {:induction false} DepthCounts(ts: seq<Token>, s: int, k: int)
    requires 0 <= s <= k <= |ts|
    ensures Depth(ts, s, k) + multiset(ts[s..k])[RPar] == multiset(ts[s..k])[LPar]
    decreases k - s
  {
    if s < k {
      DepthCounts(ts, s, k - 1);
      assert ts[s..k] == ts[s..k - 1] + [ts[k - 1]];
    }
  }
}
