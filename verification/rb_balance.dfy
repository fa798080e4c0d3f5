/** In-order contents and red-black balance of a tree with one place in focus. */
module RbBalance {
  import opened Bytes
  import opened Pairs
  import opened RbShape

  ghost function PairOf(x: Cell): Pair { Pair(x.key, x.value) }

  ghost function InOrder(t: Tree): seq<Pair> {
    if t.Leaf? then [] else InOrder(t.left) + [PairOf(t.cell)] + InOrder(t.right)
  }

  ghost function Before(c: Ctx): seq<Pair> {
    if c.Root? then []
    else if c.side == Lft then Before(c.up)
    else Before(c.up) + InOrder(c.sib) + [PairOf(c.cell)]
  }

  ghost function After(c: Ctx): seq<Pair> {
    if c.Root? then []
    else if c.side == Rgt then After(c.up)
    else [PairOf(c.cell)] + InOrder(c.sib) + After(c.up)
  }

  /** The in-order contents of the whole tree. */
  ghost function Whole(t: Tree, c: Ctx): seq<Pair> {
    Before(c) + InOrder(t) + After(c)
  }

  lemma WholeAtRoot(t: Tree)
    ensures Whole(t, Root) == InOrder(t)
  {
  }

  lemma ZipOrder(t: Tree, c: Ctx)
    requires c.In?
    ensures Whole(Mk(c.side, t, c.cell, c.sib), c.up) == Whole(t, c)
  {
  }

  lemma RotateOrder(s: Side, t: Tree)
    requires CanRotate(s, t)
    ensures InOrder(Rotate(s, t)) == InOrder(t)
  {
    var y := Kid(t, Other(s));
    assert t == Mk(s, Kid(t, s), t.cell, y) && y == Mk(s, Kid(y, s), y.cell, Kid(y, Other(s)));
  }

  ghost predicate IsRed(t: Tree) { t.N? && t.cell.color == Red }

  /** Red nodes have no red child, and every path down to a leaf passes h black nodes. */
  ghost predicate RB(t: Tree, h: nat) {
    if t.Leaf? then h == 0
    else if t.cell.color == Red then RB(t.left, h) && RB(t.right, h) && !IsRed(t.left) && !IsRed(t.right)
    else h > 0 && RB(t.left, h - 1) && RB(t.right, h - 1)
  }

  /** The same, except that a red top may have red children. */
  ghost predicate AlmostRB(t: Tree, h: nat) {
    RB(t, h) || (IsRed(t) && RB(t.left, h) && RB(t.right, h))
  }

  /** A red frame sits below a black one. */
  ghost predicate TopBlack(c: Ctx) { c.In? && c.cell.color == Black }

  /** The context becomes a red-black tree when its hole is filled with one of black height h. */
  ghost predicate CtxRB(c: Ctx, h: nat) {
    c.In? ==>
      && RB(c.sib, h)
      && (if c.cell.color == Red then !IsRed(c.sib) && TopBlack(c.up) && CtxRB(c.up, h) else CtxRB(c.up, h + 1))
  }

  ghost function Plug(t: Tree, c: Ctx): Tree
    decreases c
  {
    if c.Root? then t else Plug(Mk(c.side, t, c.cell, c.sib), c.up)
  }

  ghost function CtxSize(c: Ctx): nat { if c.Root? then 0 else 1 + CtxSize(c.up) }

  lemma {:induction false} PlugShape(m: Mem, root: Node, t: Tree, c: Ctx, nil: Node)
    requires Shape(m, root, t, c, nil)
    ensures Shape(m, root, Plug(t, c), Root, nil) && InOrder(Plug(t, c)) == Whole(t, c)
    decreases c
  {
    hide Shape;
    if c.In? {
      Zip(m, root, t, c, nil);
      ZipOrder(t, c);
      PlugShape(m, root, Mk(c.side, t, c.cell, c.sib), c.up, nil);
    } else {
      assert Whole(t, c) == InOrder(t);
    }
  }

  lemma {:induction false} PlugNodes(t: Tree, c: Ctx)
    ensures Nodes(Plug(t, c)) == Nodes(t) + CtxNodes(c)
    decreases c
  {
    if c.In? {
      PlugNodes(Mk(c.side, t, c.cell, c.sib), c.up);
    }
  }

  lemma {:induction false} PlugRB(t: Tree, c: Ctx, h: nat) returns (k: nat)
    requires RB(t, h) && CtxRB(c, h) && (IsRed(t) ==> c.Root? || TopBlack(c))
    ensures RB(Plug(t, c), k) && (c.In? ==> !IsRed(Plug(t, c)))
    decreases c
  {
    if c.In? {
      var h' := if c.cell.color == Red then h else h + 1;
      k := PlugRB(Mk(c.side, t, c.cell, c.sib), c.up, h');
    } else {
      k := h;
    }
  }

  /** The focus and its parent's subtree around it. */
  ghost function Lift(t: Tree, c: Ctx): Tree
    requires c.In?
  {
    Mk(c.side, t, c.cell, c.sib)
  }

  lemma PaintOrder(t: Tree, col: Color)
    requires t.N?
    ensures InOrder(Painted(t, col)) == InOrder(t)
  {
  }

  lemma {:induction false} PlugIsNode(t: Tree, c: Ctx)
    requires t.N?
    ensures Plug(t, c).N?
    decreases c
  {
    if c.In? {
      PlugIsNode(Lift(t, c), c.up);
    }
  }

  /** The red-black rules: a black root, no red child of a red node, equal black heights. */
  ghost predicate RedBlack(t: Tree) {
    !IsRed(t) && exists h :: RB(t, h)
  }

  /** Painting the root black repairs a red root. */
  lemma PlugBlackened(t: Tree, h: nat)
    requires t.N? && AlmostRB(t, h)
    ensures RedBlack(Painted(t, Black)) && InOrder(Painted(t, Black)) == InOrder(t)
  {
    assert RB(Painted(t, Black), if IsRed(t) then h + 1 else h);
  }

  // ---- going down from the root ----

  /** The context below the node in focus, on its s side. */
  ghost function Below1(s: Side, t: Tree, c: Ctx): Ctx
    requires t.N?
  {
    In(s, t.cell, Kid(t, Other(s)), c)
  }

  ghost predicate Balanced(t: Tree, c: Ctx, h: nat) {
    RB(t, h) && CtxRB(c, h) && (IsRed(t) ==> TopBlack(c))
  }

  lemma StepDown(s: Side, t: Tree, c: Ctx, h: nat) returns (h': nat)
    requires t.N? && Balanced(t, c, h)
    ensures Balanced(Kid(t, s), Below1(s, t, c), h')
    ensures Lift(Kid(t, s), Below1(s, t, c)) == t
    ensures Whole(Kid(t, s), Below1(s, t, c)) == Whole(t, c)
  {
    h' := if IsRed(t) then h else h - 1;
    assert Lift(Kid(t, s), Below1(s, t, c)) == t;
    assert Balanced(Kid(t, s), Below1(s, t, c), h');
    hide Whole, RB, CtxRB;
    ZipOrder(Kid(t, s), Below1(s, t, c));
  }

  /** The place of k among the entries: everything before it is smaller, everything after it greater. */
  ghost predicate Between(c: Ctx, k: Str) {
    Below(Before(c), k) && Above(After(c), k)
  }

  lemma SplitAtCell(t: Tree, c: Ctx)
    requires t.N? && Sorted(Whole(t, c))
    ensures Below(Before(c) + InOrder(t.left), t.cell.key) && Above(InOrder(t.right) + After(c), t.cell.key)
    ensures Whole(t, c) == (Before(c) + InOrder(t.left)) + [PairOf(t.cell)] + (InOrder(t.right) + After(c))
  {
    assert Whole(t, c) == (Before(c) + InOrder(t.left)) + [PairOf(t.cell)] + (InOrder(t.right) + After(c));
    SortedAround(Before(c) + InOrder(t.left), PairOf(t.cell), InOrder(t.right) + After(c));
  }

  lemma BetweenDown(t: Tree, c: Ctx, k: Str)
    requires t.N? && Sorted(Whole(t, c)) && Between(c, k)
    ensures StrCmp(k, t.cell.key) < 0 ==> Between(Below1(Lft, t, c), k)
    ensures StrCmp(k, t.cell.key) > 0 ==> Between(Below1(Rgt, t, c), k)
  {
    SplitAtCell(t, c);
    var p := PairOf(t.cell);
    if StrCmp(k, t.cell.key) < 0 {
      BelowRest(k, p, InOrder(t.right) + After(c));
      assert After(Below1(Lft, t, c)) == [p] + (InOrder(t.right) + After(c));
    } else if StrCmp(k, t.cell.key) > 0 {
      StrCmpFlip(k, t.cell.key);
      AboveRest(k, p, Before(c) + InOrder(t.left));
      assert Before(Below1(Rgt, t, c)) == (Before(c) + InOrder(t.left)) + [p];
    }
  }

  /** The search ends: at the node that has the key, or at a hole that only the key would fit. */
  lemma SearchEnd(t: Tree, c: Ctx, k: Str)
    requires Sorted(Whole(t, c)) && Between(c, k) && (t.N? ==> StrCmp(k, t.cell.key) == 0)
    ensures k in MapOf(Whole(t, c)) <==> t.N?
    ensures t.N? ==> t.cell.key == k && MapOf(Whole(t, c))[k] == t.cell.value
  {
    if t.N? {
      StrCmpEqual(k, t.cell.key);
      var a, b := Before(c) + InOrder(t.left), InOrder(t.right) + After(c);
      SplitAtCell(t, c);
      SortedAround(a, PairOf(t.cell), b);
      MapAround(a, PairOf(t.cell), b);
    } else {
      assert Whole(t, c) == Before(c) + After(c);
      NotBetween(Before(c), After(c), k);
    }
  }

  // ---- depth ----

  ghost function Height(t: Tree): nat {
    if t.Leaf? then 0 else 1 + if Height(t.left) > Height(t.right) then Height(t.left) else Height(t.right)
  }

  ghost function Pow2(n: nat): nat { if n == 0 then 1 else 2 * Pow2(n - 1) }

  /** A tree of black height h is at most twice that high, and has at least 2^h - 1 entries. */
  lemma {:induction false} HeightBound(t: Tree, h: nat)
    requires RB(t, h)
    ensures Height(t) <= 2 * h + (if IsRed(t) then 1 else 0)
    ensures |InOrder(t)| >= Pow2(h) - 1
  {
    if t.N? {
      var k := if IsRed(t) then h else h - 1;
      HeightBound(t.left, k);
      HeightBound(t.right, k);
    }
  }

  lemma {:induction false} Pow2Monotone(a: nat, b: nat)
    requires a <= b
    ensures 1 <= Pow2(a) <= Pow2(b)
  {
    if a < b {
      Pow2Monotone(a, b - 1);
    } else if a > 0 {
      Pow2Monotone(a - 1, b - 1);
    }
  }

  lemma {:induction false} Pow2Double(h: nat)
    ensures Pow2(2 * h) == Pow2(h) * Pow2(h)
  {
    if h > 0 {
      Pow2Double(h - 1);
      assert Pow2(2 * h) == 4 * Pow2(2 * h - 2);
    }
  }

  lemma SquareMonotone(a: nat, b: nat)
    requires a <= b
    ensures a * a <= b * b
  {
  }

  /** d <= 2 log2(n+1), without the logarithm. */
  ghost predicate TwiceLog(d: nat, n: nat) { Pow2(d) <= (n + 1) * (n + 1) }

  /** A path of d nodes in a red-black tree of n entries: d is at most 2 log2(n+1). */
  lemma DepthBound(t: Tree, d: nat)
    requires RedBlack(t) && d <= Height(t)
    ensures TwiceLog(d, |InOrder(t)|)
  {
    var h: nat :| RB(t, h);
    HeightBound(t, h);
    Pow2Monotone(d, 2 * h);
    Pow2Double(h);
    SquareMonotone(Pow2(h), |InOrder(t)| + 1);
  }

  // ---- insertion ----

  /** A red node in focus; the only rule that may fail is that its parent is red as well. */
  ghost predicate InsertState(t: Tree, c: Ctx, h: nat) {
    IsRed(t) && RB(t, h) && CtxRB(c, h)
  }

  /** Parent and uncle blackened, grandparent reddened. */
  ghost function Recolored(t: Tree, c: Ctx): Tree
    requires c.In? && c.up.In? && c.up.sib.N?
  {
    Painted(Lift(Painted(Lift(t, c), Black), c.up.(sib := Painted(c.up.sib, Black))), Red)
  }

  lemma RecolorKeeps(t: Tree, c: Ctx, h: nat)
    requires InsertState(t, c, h) && c.In? && c.cell.color == Red && IsRed(c.up.sib)
    ensures InsertState(Recolored(t, c), c.up.up, h + 1)
    ensures Whole(Recolored(t, c), c.up.up) == Whole(t, c)
  {
    var p := Painted(Lift(t, c), Black);
    var c1 := c.up.(sib := Painted(c.up.sib, Black));
    assert InsertState(Recolored(t, c), c.up.up, h + 1) by {
      assert CtxRB(c.up, h);
      assert RB(p, h + 1) && RB(c1.sib, h + 1);
    }
    hide InsertState, InOrder, Before, After, CtxRB, RB;
    ZipOrder(t, c);
    PaintOrder(Lift(t, c), Black);
    PaintOrder(c.up.sib, Black);
    assert Whole(p, c1) == Whole(Lift(t, c), c.up);
    ZipOrder(p, c1);
    PaintOrder(Lift(p, c1), Red);
  }

  /** The inner grandchild rotated to the outside: the focus is now the former parent. */
  ghost function TurnedOut(t: Tree, c: Ctx): (r: (Tree, Ctx))
    requires t.N? && c.In?
  {
    (Mk(Other(c.side), c.sib, c.cell, Kid(t, Other(c.side))), In(Other(c.side), t.cell, Kid(t, c.side), c.up))
  }

  lemma TurnedOutIs(t: Tree, c: Ctx)
    requires t.N? && c.In?
    ensures CanRotate(Other(c.side), Lift(t, c))
    ensures var (t', c') := TurnedOut(t, c); Lift(t', c') == Rotate(Other(c.side), Lift(t, c)) && c'.up == c.up
  {
  }

  lemma TurnedOutKeeps(t: Tree, c: Ctx, h: nat)
    requires InsertState(t, c, h) && c.In? && c.cell.color == Red
    ensures var (t', c') := TurnedOut(t, c);
      InsertState(t', c', h) && c'.cell.color == Red && Whole(t', c') == Whole(t, c)
  {
    var (t', c') := TurnedOut(t, c);
    TurnedOutIs(t, c);
    ZipOrder(t, c);
    ZipOrder(t', c');
    RotateOrder(Other(c.side), Lift(t, c));
  }

  /** Parent black, grandparent red and rotated below the parent. */
  ghost function Raised(t: Tree, c: Ctx): (r: Ctx)
    requires c.In? && c.up.In?
  {
    In(c.side, c.cell.(color := Black), Mk(c.side, c.sib, c.up.cell.(color := Red), c.up.sib), c.up.up)
  }

  lemma RaisedIs(t: Tree, c: Ctx)
    requires c.In? && c.up.In? && c.up.side == c.side
    ensures var g := Painted(Lift(Painted(Lift(t, c), Black), c.up), Red);
      CanRotate(Other(c.side), g) && Rotate(Other(c.side), g) == Lift(t, Raised(t, c))
  {
  }

  lemma RaisedKeeps(t: Tree, c: Ctx, h: nat)
    requires InsertState(t, c, h) && c.In? && c.cell.color == Red && c.up.side == c.side && !IsRed(c.up.sib)
    ensures InsertState(t, Raised(t, c), h) && TopBlack(Raised(t, c))
    ensures Whole(t, Raised(t, c)) == Whole(t, c)
  {
    var p := Painted(Lift(t, c), Black);
    var g := Painted(Lift(p, c.up), Red);
    assert CtxRB(Raised(t, c), h) by {
      assert CtxRB(c.up, h);
      assert RB(Mk(c.side, c.sib, c.up.cell.(color := Red), c.up.sib), h);
    }
    hide InOrder, Before, After, CtxRB, RB;
    RaisedIs(t, c);
    ZipOrder(t, c);
    PaintOrder(Lift(t, c), Black);
    ZipOrder(p, c.up);
    PaintOrder(Lift(p, c.up), Red);
    RotateOrder(Other(c.side), g);
    ZipOrder(t, Raised(t, c));
  }

  // ---- deletion ----

  /** The subtree in focus is one black node short; a red top makes up for it when it is blackened. */
  ghost predicate DeleteState(t: Tree, c: Ctx, h: nat) {
    AlmostRB(t, h) && CtxRB(c, h + 1)
  }

  /** The sibling w of a short subtree is a node, and a black one has children of height h. */
  lemma SiblingIsNode(t: Tree, c: Ctx, h: nat)
    requires DeleteState(t, c, h) && c.In?
    ensures c.sib.N?
    ensures IsRed(c.sib) ==> c.cell.color == Black && c.sib.left.N? && c.sib.right.N?
  {
    assert RB(c.sib, h + 1);
    if IsRed(c.sib) {
      assert RB(c.sib.left, h + 1) && RB(c.sib.right, h + 1);
    }
  }

  /** Painting the sibling does not move anything. */
  lemma SiblingOrder(t: Tree, c: Ctx, w: Tree)
    requires c.In? && InOrder(w) == InOrder(c.sib)
    ensures Whole(t, c.(sib := w)) == Whole(t, c)
  {
  }

  /** Case 1: a red sibling goes up, the parent comes down red; the new sibling is black. */
  ghost function SiblingRaised(c: Ctx): Ctx
    requires c.In? && c.sib.N?
  {
    In(c.side, c.cell.(color := Red), Kid(c.sib, c.side),
       In(c.side, c.sib.cell.(color := Black), Kid(c.sib, Other(c.side)), c.up))
  }

  lemma SiblingRaisedIs(t: Tree, c: Ctx)
    requires c.In? && c.sib.N?
    ensures var p := Painted(Lift(t, c.(sib := Painted(c.sib, Black))), Red);
      && CanRotate(c.side, p)
      && Rotate(c.side, p) == Lift(Lift(t, SiblingRaised(c)), SiblingRaised(c).up)
  {
  }

  lemma SiblingRaisedKeeps(t: Tree, c: Ctx, h: nat)
    requires DeleteState(t, c, h) && c.In? && IsRed(c.sib)
    ensures DeleteState(t, SiblingRaised(c), h) && !IsRed(SiblingRaised(c).sib)
    ensures Whole(t, SiblingRaised(c)) == Whole(t, c)
  {
    var c', w := SiblingRaised(c), Painted(c.sib, Black);
    var p := Lift(t, c.(sib := w));
    assert CtxRB(c', h + 1) by {
      assert CtxRB(c'.up, h + 1);
    }
    hide InOrder, Before, After, CtxRB, RB, AlmostRB;
    SiblingRaisedIs(t, c);
    PaintOrder(c.sib, Black);
    SiblingOrder(t, c, w);
    ZipOrder(t, c.(sib := w));
    PaintOrder(p, Red);
    RotateOrder(c.side, Painted(p, Red));
    ZipOrder(Lift(t, c'), c'.up);
    ZipOrder(t, c');
  }

  /** Case 2: a black sibling with black children is reddened; the parent is now the short one. */
  lemma SiblingReddened(t: Tree, c: Ctx, h: nat)
    requires DeleteState(t, c, h) && !IsRed(t) && c.In?
    requires c.sib.N? && !IsRed(c.sib) && !IsRed(c.sib.left) && !IsRed(c.sib.right)
    ensures exists h' :: DeleteState(Lift(t, c.(sib := Painted(c.sib, Red))), c.up, h')
    ensures Whole(Lift(t, c.(sib := Painted(c.sib, Red))), c.up) == Whole(t, c)
  {
    var w := Painted(c.sib, Red);
    var h' := if c.cell.color == Red then h else h + 1;
    assert DeleteState(Lift(t, c.(sib := w)), c.up, h') by {
      assert RB(w, h);
    }
    hide InOrder, Before, After, CtxRB, RB, AlmostRB;
    PaintOrder(c.sib, Red);
    SiblingOrder(t, c, w);
    ZipOrder(t, c.(sib := w));
  }

  /** Case 3: the near child of the sibling is red and the far one black: rotated so that the far one is red. */
  ghost function NearTurned(s: Side, w: Tree): Tree
    requires w.N? && Kid(w, s).N?
  {
    Mk(s, Kid(Kid(w, s), s), Kid(w, s).cell.(color := Black), Mk(s, Kid(Kid(w, s), Other(s)), w.cell.(color := Red), Kid(w, Other(s))))
  }

  lemma NearTurnedIs(s: Side, w: Tree)
    requires w.N? && Kid(w, s).N?
    ensures var w' := Painted(Mk(s, Painted(Kid(w, s), Black), w.cell, Kid(w, Other(s))), Red);
      CanRotate(Other(s), w') && Rotate(Other(s), w') == NearTurned(s, w)
  {
  }

  lemma NearTurnedKeeps(t: Tree, c: Ctx, h: nat)
    requires DeleteState(t, c, h) && c.In?
    requires c.sib.N? && !IsRed(c.sib) && IsRed(Kid(c.sib, c.side)) && !IsRed(Kid(c.sib, Other(c.side)))
    ensures var w' := NearTurned(c.side, c.sib);
      && DeleteState(t, c.(sib := w'), h) && w'.cell.color == Black && IsRed(Kid(w', Other(c.side)))
      && Whole(t, c.(sib := w')) == Whole(t, c)
  {
    var w, s := c.sib, c.side;
    var near := Painted(Kid(w, s), Black);
    var w1 := Mk(s, near, w.cell, Kid(w, Other(s)));
    assert RB(NearTurned(s, w), h + 1) by {
      assert RB(Kid(w, s), h) && RB(Kid(w, Other(s)), h);
      assert RB(Mk(s, Kid(Kid(w, s), Other(s)), w.cell.(color := Red), Kid(w, Other(s))), h);
    }
    assert InOrder(NearTurned(s, w)) == InOrder(w) by {
      PaintOrder(Kid(w, s), Black);
      assert InOrder(w1) == InOrder(w);
      hide InOrder;
      NearTurnedIs(s, w);
      PaintOrder(w1, Red);
      RotateOrder(Other(s), Painted(w1, Red));
    }
    SiblingOrder(t, c, NearTurned(s, w));
  }

  /** Case 4: the far child of the sibling is red: one rotation restores every path. */
  ghost function FarTurned(t: Tree, c: Ctx): Tree
    requires c.In? && c.sib.N? && Kid(c.sib, Other(c.side)).N?
  {
    var s := c.side;
    Mk(s, Mk(s, t, c.cell.(color := Black), Kid(c.sib, s)), c.sib.cell.(color := c.cell.color),
       Painted(Kid(c.sib, Other(s)), Black))
  }

  /** The sibling as case 4 paints it. */
  ghost function FarPainted(c: Ctx): Tree
    requires c.In? && c.sib.N? && Kid(c.sib, Other(c.side)).N?
  {
    Mk(c.side, Kid(c.sib, c.side), c.sib.cell.(color := c.cell.color), Painted(Kid(c.sib, Other(c.side)), Black))
  }

  lemma FarTurnedIs(t: Tree, c: Ctx)
    requires c.In? && c.sib.N? && Kid(c.sib, Other(c.side)).N?
    ensures var p := Painted(Lift(t, c.(sib := FarPainted(c))), Black);
      CanRotate(c.side, p) && Rotate(c.side, p) == FarTurned(t, c)
  {
  }

  lemma FarTurnedKeeps(t: Tree, c: Ctx, h: nat)
    requires DeleteState(t, c, h) && !IsRed(t) && c.In?
    requires c.sib.N? && !IsRed(c.sib) && IsRed(Kid(c.sib, Other(c.side)))
    ensures exists k :: RB(FarTurned(t, c), k) && CtxRB(c.up, k)
    ensures IsRed(FarTurned(t, c)) ==> TopBlack(c.up)
    ensures Whole(FarTurned(t, c), c.up) == Whole(t, c)
  {
    var s := c.side;
    var k := if c.cell.color == Red then h + 1 else h + 2;
    assert RB(FarTurned(t, c), k) && CtxRB(c.up, k) by {
      assert RB(Kid(c.sib, s), h) && RB(Kid(c.sib, Other(s)), h);
      assert RB(Mk(s, t, c.cell.(color := Black), Kid(c.sib, s)), h + 1);
      assert RB(Painted(Kid(c.sib, Other(s)), Black), h + 1);
    }
    assert InOrder(FarPainted(c)) == InOrder(c.sib) by {
      PaintOrder(Kid(c.sib, Other(s)), Black);
    }
    hide InOrder, Before, After, CtxRB, RB, AlmostRB;
    var c1 := c.(sib := FarPainted(c));
    SiblingOrder(t, c, FarPainted(c));
    ZipOrder(t, c1);
    PaintOrder(Lift(t, c1), Black);
    FarTurnedIs(t, c);
    RotateOrder(s, Painted(Lift(t, c1), Black));
  }

  /** What a new red leaf does to the contents and to the balance. */
  lemma LeafInserted(c: Ctx, x: Cell, h: nat)
    requires Sorted(Whole(Leaf, c)) && Between(c, x.key) && Balanced(Leaf, c, h) && x.color == Red
    ensures var t := N(Leaf, x, Leaf);
      && InsertState(t, c, h) && Sorted(Whole(t, c))
      && MapOf(Whole(t, c)) == MapOf(Whole(Leaf, c))[x.key := x.value]
  {
    var t, a, b := N(Leaf, x, Leaf), Before(c), After(c);
    assert RB(t, h);
    assert Whole(t, c) == a + [PairOf(x)] + b && Whole(Leaf, c) == a + b;
    SortedInsert(a, PairOf(x), b);
    SortedAround(a, PairOf(x), b);
    MapAround(a, PairOf(x), b);
  }

  /** Every path is restored: plugged into its context, the tree is red-black. */
  lemma FarTurnedEnds(t: Tree, c: Ctx, h: nat)
    requires DeleteState(t, c, h) && !IsRed(t) && c.In?
    requires c.sib.N? && !IsRed(c.sib) && IsRed(Kid(c.sib, Other(c.side)))
    ensures var t' := Plug(FarTurned(t, c), c.up);
      t'.N? && exists h' :: DeleteState(t', Root, h')
  {
    FarTurnedKeeps(t, c, h);
    var t' := FarTurned(t, c);
    var k: nat :| RB(t', k) && CtxRB(c.up, k);
    PlugIsNode(t', c.up);
    hide FarTurned;
    var h' := PlugRB(t', c.up, k);
    assert DeleteState(Plug(t', c.up), Root, h');
  }

  /** The end of the deletion fix-up: the focus is the root, or red; painting it black restores the rules. */
  lemma DeleteBlackened(t: Tree, c: Ctx, h: nat)
    requires DeleteState(t, c, h) && (c.Root? || IsRed(t))
    ensures t.N? ==> RedBlack(Plug(Painted(t, Black), c)) && Whole(Painted(t, Black), c) == Whole(t, c)
    ensures t.Leaf? ==> RedBlack(Plug(t, c))
  {
    if t.N? {
      var t' := Painted(t, Black);
      var h' := if IsRed(t) then h + 1 else h;
      assert RB(t', h');
      PaintOrder(t, Black);
      var k := PlugRB(t', c, h');
    } else {
      assert RB(t, h);
    }
  }

  lemma {:induction false} RenamedOrder(c: Ctx, c0: Ctx, k: Str, v: Str)
    requires Spine(c, c0) && c0.In? && c0.side == Rgt
    ensures Before(c) == Before(c0)
    ensures Before(Renamed(c, c0, k, v)) == Before(c0.up) + InOrder(c0.sib) + [Pair(k, v)]
    ensures After(Renamed(c, c0, k, v)) == After(c)
  {
    if c != c0 {
      RenamedOrder(c.up, c0, k, v);
    }
  }

  lemma {:induction false} RenamedRB(c: Ctx, c0: Ctx, k: Str, v: Str, h: nat)
    requires Spine(c, c0) && c0.In?
    ensures CtxRB(Renamed(c, c0, k, v), h) == CtxRB(c, h) && TopBlack(Renamed(c, c0, k, v)) == TopBlack(c)
  {
    if c != c0 {
      RenamedRB(c.up, c0, k, v, h);
      RenamedRB(c.up, c0, k, v, h + 1);
    }
  }

  /** Taking out a node with at most one child: a red one leaves the balance, a black one leaves its path short. */
  lemma UnlinkBalance(t: Tree, s: Side, c: Ctx, h: nat)
    requires t.N? && Kid(t, Other(s)).Leaf? && Balanced(t, c, h)
    ensures IsRed(t) ==> Kid(t, s).Leaf? && Balanced(Kid(t, s), c, h)
    ensures !IsRed(t) ==> h > 0 && DeleteState(Kid(t, s), c, h - 1)
  {
    if IsRed(t) {
      assert RB(Kid(t, Other(s)), h) && RB(Kid(t, s), h) && !IsRed(Kid(t, s));
    }
  }

  /** The index of the node in focus among all entries. */
  ghost function Rank(t: Tree, c: Ctx): nat
    requires t.N?
  {
    |Before(c)| + |InOrder(t.left)|
  }

  lemma RankIs(t: Tree, c: Ctx)
    requires t.N?
    ensures Rank(t, c) < |Whole(t, c)| && Whole(t, c)[Rank(t, c)] == PairOf(t.cell)
  {
    assert Whole(t, c) == (Before(c) + InOrder(t.left)) + ([PairOf(t.cell)] + InOrder(t.right) + After(c));
  }

  lemma {:induction false} SpineBefore(c: Ctx, c0: Ctx)
    requires Spine(c, c0)
    ensures Before(c) == Before(c0)
  {
    if c != c0 {
      SpineBefore(c.up, c0);
    }
  }

  /** Going up from a right child: the entries up to the end of the subtree stay the same ones. */
  lemma UpFromRight(t: Tree, c: Ctx)
    requires c.In? && c.side == Rgt
    ensures Before(c.up) + InOrder(Lift(t, c)) == Before(c) + InOrder(t)
  {
  }

  /** Taking out the node in focus itself. */
  lemma UnlinkOrder(t: Tree, s: Side, c: Ctx)
    requires t.N? && Kid(t, Other(s)).Leaf?
    ensures Removed(Whole(t, c), PairOf(t.cell), Whole(Kid(t, s), c))
  {
    var a, b := Before(c) + InOrder(t.left), InOrder(t.right) + After(c);
    assert Whole(t, c) == a + [PairOf(t.cell)] + b;
    assert Whole(Kid(t, s), c) == a + b;
  }

  /** Taking out the successor of z, whose entry then moves to z. */
  lemma SuccessorOrder(ty: Tree, cy: Ctx, c0: Ctx)
    requires ty.N? && ty.left.Leaf? && c0.In? && c0.side == Rgt && Spine(cy, c0)
    ensures Removed(Whole(ty, cy), PairOf(c0.cell),
                    Whole(ty.right, Renamed(cy, c0, ty.cell.key, ty.cell.value)))
  {
    RenamedOrder(cy, c0, ty.cell.key, ty.cell.value);
    var p, q, u, v := PairOf(c0.cell), PairOf(ty.cell), InOrder(ty.right), After(cy);
    var a, b := Before(c0.up) + InOrder(c0.sib), [q] + u + v;
    assert InOrder(ty) == [q] + u;
    assert Before(cy) == a + [p];
    assert (a + [p]) + ([q] + u) + v == a + [p] + b;
    assert Whole(ty, cy) == a + [p] + b;
    assert Whole(ty.right, Renamed(cy, c0, ty.cell.key, ty.cell.value)) == a + b;
  }

  /** What remains once the node y on top of t is out: the balance, with its place c perhaps renamed to c'. */
  ghost predicate Remains(t: Tree, s: Side, c': Ctx, h: nat)
    requires t.N?
  {
    && (IsRed(t) ==> Kid(t, s).Leaf? && Balanced(Kid(t, s), c', h))
    && (!IsRed(t) ==> h > 0 && DeleteState(Kid(t, s), c', h - 1))
  }

  lemma RemainsSelf(t: Tree, s: Side, c: Ctx, h: nat)
    requires t.N? && Kid(t, Other(s)).Leaf? && Balanced(t, c, h)
    ensures Remains(t, s, c, h)
  {
    UnlinkBalance(t, s, c, h);
  }

  lemma RemainsRenamed(t: Tree, s: Side, c: Ctx, c0: Ctx, k: Str, v: Str, h: nat)
    requires t.N? && Kid(t, Other(s)).Leaf? && Balanced(t, c, h) && c0.In? && Spine(c, c0)
    ensures Remains(t, s, Renamed(c, c0, k, v), h)
  {
    UnlinkBalance(t, s, c, h);
    RenamedRB(c, c0, k, v, h);
  }

  lemma RevaluedBalance(t: Tree, c: Ctx, h: nat, v: Str)
    requires t.N? && Balanced(t, c, h)
    ensures Balanced(Revalued(t, v), c, h)
    ensures InOrder(Revalued(t, v)) == InOrder(t.left) + [Pair(t.cell.key, v)] + InOrder(t.right)
  {}

  lemma RevaluedKeeps(t: Tree, c: Ctx, h: nat, v: Str)
    requires t.N? && Balanced(t, c, h) && Sorted(Whole(t, c))
    ensures Balanced(Revalued(t, v), c, h)
    ensures RedBlack(Plug(Revalued(t, v), c))
    ensures var s := Whole(Revalued(t, v), c); Sorted(s) && MapOf(s) == MapOf(Whole(t, c))[t.cell.key := v]
  {
    hide InOrder, Sorted, MapOf, RB, CtxRB, Revalued, Before, After;
    var t' := Revalued(t, v);
    RevaluedBalance(t, c, h, v);
    var k := PlugRB(t', c, h);
    var a, b := Before(c) + InOrder(t.left), InOrder(t.right) + After(c);
    SplitAtCell(t, c);
    assert Whole(t', c) == a + [Pair(t.cell.key, v)] + b;
    Revalue(a, PairOf(t.cell), b, v);
  }
}
