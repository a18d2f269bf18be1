/**
  Operand slots of a nested && or || chain.

  The duplicate eliminator walks one tree through two `struct expr **` slots at a time, and
  the two may be the same slot or lie one inside the other.  A slot is modelled by its path
  from the root of the chain, so that slot identity is equality of paths.
 */
module KconfSlots {
  import opened KconfExpr
  import opened KconfEq

  datatype Dir = Left | Right

  type Path = seq<Dir>

  function Child(e: Expr, d: Dir): Expr
    requires e.Bin?
  {
    if d == Left then e.left else e.right
  }

  // The `op` nodes at the top of an expression.
  datatype Shape = Leaf | Node(l: Shape, r: Shape)

  function ShapeOf(op: Op, e: Expr): Shape {
    if Is(op, e) then Node(ShapeOf(op, e.left), ShapeOf(op, e.right)) else Leaf
  }

  function Nodes(op: Op, e: Expr): nat {
    if Is(op, e) then 1 + Nodes(op, e.left) + Nodes(op, e.right) else 0
  }

  // Every proper prefix of p leads to an `op` node of e.
  predicate Slot(op: Op, e: Expr, p: Path) {
    p != [] ==> Is(op, e) && Slot(op, Child(e, p[0]), p[1..])
  }

  function At(op: Op, e: Expr, p: Path): Expr
    requires Slot(op, e, p)
  {
    if p == [] then e else At(op, Child(e, p[0]), p[1..])
  }

  function Put(op: Op, e: Expr, p: Path, x: Expr): Expr
    requires Slot(op, e, p)
  {
    if p == [] then x
    else if p[0] == Left then Bin(op, Put(op, e.left, p[1..], x), e.right)
    else Bin(op, e.left, Put(op, e.right, p[1..], x))
  }

  predicate Operand(op: Op, e: Expr, p: Path) {
    Slot(op, e, p) && !Is(op, At(op, e, p))
  }

  // Number of alternations between && and || along a branch, seen from an `op` chain.
  function Depth(op: Op, e: Expr): nat
    decreases e, !Is(op, e)
  {
    if !e.Bin? then 0
    else if e.op == op then Max(Depth(op, e.left), Depth(op, e.right))
    else 1 + Depth(e.op, e)
  }

  function Max(a: nat, b: nat): nat {
    if a < b then b else a
  }

  // ----- Paths -----

  lemma {:induction false} AtChild(op: Op, e: Expr, p: Path, d: Dir)
    requires Slot(op, e, p) && Is(op, At(op, e, p))
    ensures Slot(op, e, p + [d]) && At(op, e, p + [d]) == Child(At(op, e, p), d)
  {
    if p == [] {
      assert (p + [d])[1..] == [];
    } else {
      assert (p + [d])[1..] == p[1..] + [d];
      AtChild(op, Child(e, p[0]), p[1..], d);
    }
  }

  // The same slots exist in trees of the same shape.
  lemma {:induction false} SameShapeSlot(op: Op, e: Expr, e': Expr, p: Path)
    requires ShapeOf(op, e) == ShapeOf(op, e') && Slot(op, e, p)
    ensures Slot(op, e', p) && ShapeOf(op, At(op, e', p)) == ShapeOf(op, At(op, e, p))
    ensures Is(op, At(op, e', p)) == Is(op, At(op, e, p))
  {
    if p != [] {
      SameShapeSlot(op, Child(e, p[0]), Child(e', p[0]), p[1..]);
    }
  }

  lemma {:induction false} SameShapeNodes(op: Op, e: Expr, e': Expr)
    requires ShapeOf(op, e) == ShapeOf(op, e')
    ensures Nodes(op, e) == Nodes(op, e')
  {
    if Is(op, e) {
      SameShapeNodes(op, e.left, e'.left);
      SameShapeNodes(op, e.right, e'.right);
    }
  }

  // ----- Replacing an operand -----

  lemma {:induction false} PutOperand(op: Op, e: Expr, p: Path, x: Expr)
    requires Operand(op, e, p) && !Is(op, x)
    ensures Operand(op, Put(op, e, p, x), p) && At(op, Put(op, e, p, x), p) == x
    ensures ShapeOf(op, Put(op, e, p, x)) == ShapeOf(op, e)
    ensures Size(Put(op, e, p, x)) + Size(At(op, e, p)) == Size(e) + Size(x)
    ensures Depth(op, Put(op, e, p, x)) <= Max(Depth(op, e), Depth(op, x))
    ensures Depth(op, At(op, e, p)) <= Depth(op, e)
  {
    if p != [] {
      PutOperand(op, Child(e, p[0]), p[1..], x);
    }
  }

  lemma {:induction false} PutOther(op: Op, e: Expr, p: Path, q: Path, x: Expr)
    requires Operand(op, e, p) && Operand(op, e, q) && p != q && !Is(op, x)
    ensures Operand(op, Put(op, e, p, x), q) && At(op, Put(op, e, p, x), q) == At(op, e, q)
  {
    if p != [] && q != [] && p[0] == q[0] {
      PutOther(op, Child(e, p[0]), p[1..], q[1..], x);
    }
  }

  lemma {:induction false} PutSame(op: Op, e: Expr, p: Path)
    requires Slot(op, e, p)
    ensures Put(op, e, p, At(op, e, p)) == e
  {
    if p != [] {
      PutSame(op, Child(e, p[0]), p[1..]);
    }
  }

  // ----- Values -----

  // The value of all operands outside slot p.
  ghost function Rest(op: Op, e: Expr, p: Path, v: Valuation): Tristate
    requires Slot(op, e, p)
  {
    if p == [] then Eval(Unit(op), v)
    else if p[0] == Left then Apply(op, Rest(op, e.left, p[1..], v), Eval(e.right, v))
    else Apply(op, Eval(e.left, v), Rest(op, e.right, p[1..], v))
  }

  lemma Regroup(op: Op, rest: Tristate, x: Tristate, l: Tristate, r: Tristate)
    ensures Apply(op, Apply(op, rest, x), r) == Apply(op, Apply(op, rest, r), x)
    ensures Apply(op, l, Apply(op, rest, x)) == Apply(op, Apply(op, l, rest), x)
  {
  }

  lemma {:induction false} PutValue(op: Op, e: Expr, p: Path, x: Expr, v: Valuation)
    requires Slot(op, e, p) && Legal(v)
    ensures Eval(Put(op, e, p, x), v) == Apply(op, Rest(op, e, p, v), Eval(x, v))
    ensures Eval(e, v) == Apply(op, Rest(op, e, p, v), Eval(At(op, e, p), v))
  {
    if p == [] {
      UnitAndZero(op, v);
    } else {
      var child, rest := Child(e, p[0]), Rest(op, Child(e, p[0]), p[1..], v);
      PutValue(op, child, p[1..], x, v);
      Regroup(op, rest, Eval(x, v), Eval(e.left, v), Eval(e.right, v));
      Regroup(op, rest, Eval(At(op, child, p[1..]), v), Eval(e.left, v), Eval(e.right, v));
    }
  }

  // Two operands may be exchanged for two others of the same combined value.
  lemma {:induction false} PutTwoValue(op: Op, e: Expr, p: Path, q: Path, x: Expr, y: Expr, v: Valuation)
    requires Operand(op, e, p) && Operand(op, e, q) && p != q && !Is(op, x) && Legal(v)
    requires Slot(op, Put(op, e, p, x), q)
    requires Apply(op, Eval(x, v), Eval(y, v)) == Apply(op, Eval(At(op, e, p), v), Eval(At(op, e, q), v))
    ensures Eval(Put(op, Put(op, e, p, x), q, y), v) == Eval(e, v)
  {
    var e' := Put(op, e, p, x);
    if p[0] == q[0] {
      PutTwoValue(op, Child(e, p[0]), p[1..], q[1..], x, y, v);
    } else {
      var ep, eq := Child(e, p[0]), Child(e, q[0]);
      assert Child(e', q[0]) == eq;
      PutValue(op, ep, p[1..], x, v);
      PutValue(op, eq, q[1..], y, v);
      Exchange(op, Rest(op, ep, p[1..], v), Rest(op, eq, q[1..], v), Eval(x, v), Eval(y, v),
        Eval(At(op, e, p), v), Eval(At(op, e, q), v));
    }
  }

  lemma Exchange(op: Op, r: Tristate, s: Tristate, x: Tristate, y: Tristate, a: Tristate, b: Tristate)
    requires Apply(op, x, y) == Apply(op, a, b)
    ensures Apply(op, Apply(op, r, x), Apply(op, s, y)) == Apply(op, Apply(op, r, a), Apply(op, s, b))
    ensures Apply(op, Apply(op, s, y), Apply(op, r, x)) == Apply(op, Apply(op, s, b), Apply(op, r, a))
  {
  }

  // ----- Foldable constants -----

  ghost predicate Foldable(e: Expr) {
    IsYN(e) || Reducible(e)
  }

  lemma {:induction false} PutFoldable(op: Op, e: Expr, p: Path, x: Expr)
    requires Slot(op, e, p)
    ensures Foldable(x) ==> Foldable(Put(op, e, p, x))
    ensures Foldable(e) && (Foldable(At(op, e, p)) ==> Foldable(x)) ==> Foldable(Put(op, e, p, x))
  {
    if p != [] {
      PutFoldable(op, Child(e, p[0]), p[1..], x);
    }
  }
}
