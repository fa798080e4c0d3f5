/** The red-black tree engine: nodes linked in place, with a sentinel and parent pointers. */
module RbTree {
  import opened Bytes
  import opened Kv
  import opened Pairs
  import opened RbShape
  import opened RbBalance

  class RedBlackTree {
    var root: Node
    const nil: Node
    /** The fields of the sentinel and of every node in the tree. */
    ghost var mem: Mem
    /** The tree the links make up. */
    ghost var tree: Tree

    constructor ()
      ensures Valid() && fresh(nil) && mem.Keys == {nil} && Contents() == map[]
    {
      var s := new Node([], []);
      s.color := Black;
      nil, root, tree := s, s, Leaf;
      new;
      mem := map[nil := RecOf(nil)];
      assert RB(Leaf, 0);
    }

    /** Search order, the red-black rules, every link and parent pointer, and a black sentinel. */
    ghost predicate Valid()
      reads this, mem.Keys
    {
      Holds(tree, Root) && RedBlack(tree) && Sorted(InOrder(tree))
    }

    ghost function Contents(): map<Str, Str>
      reads this
    {
      MapOf(InOrder(tree))
    }

    ghost function RecOf(n: Node): Rec
      reads n
    {
      Rec(n.color, n.left, n.right, n.parent, n.key, n.value)
    }

    ghost predicate Coupled()
      reads `mem, mem.Keys
    {
      nil in mem && forall n :: n in mem ==> mem[n] == RecOf(n)
    }

    // ---- the fields of a node, read and written ----

    function Child(s: Side, n: Node): (r: Node?)
      requires Coupled() && n in mem
      reads this, mem.Keys, n
      ensures r == if s == Lft then mem[n].left else mem[n].right
    {
      if s == Lft then n.left else n.right
    }

    function Up(n: Node): (r: Node?)
      requires Coupled() && n in mem
      reads this, mem.Keys, n
      ensures r == mem[n].parent
    {
      n.parent
    }

    function ColorOf(n: Node): (r: Color)
      requires Coupled() && n in mem
      reads this, mem.Keys, n
      ensures r == mem[n].color
    {
      n.color
    }

    function KeyOf(n: Node): (r: Str)
      requires Coupled() && n in mem
      reads this, mem.Keys, n
      ensures r == mem[n].key
    {
      n.key
    }

    method SetLeft(n: Node, v: Node?)
      requires Coupled() && n in mem
      modifies `mem, n`left
      ensures Coupled() && mem == old(mem)[n := old(mem)[n].(left := v)] && mem.Keys == old(mem.Keys)
      ensures root == old(root) && tree == old(tree)
    {
      n.left := v;
      mem := mem[n := mem[n].(left := v)];
    }

    method SetRight(n: Node, v: Node?)
      requires Coupled() && n in mem
      modifies `mem, n`right
      ensures Coupled() && mem == old(mem)[n := old(mem)[n].(right := v)] && mem.Keys == old(mem.Keys)
      ensures root == old(root) && tree == old(tree)
    {
      n.right := v;
      mem := mem[n := mem[n].(right := v)];
    }

    method SetParent(n: Node, v: Node?)
      requires Coupled() && n in mem
      modifies `mem, n`parent
      ensures Coupled() && mem == old(mem)[n := old(mem)[n].(parent := v)] && mem.Keys == old(mem.Keys)
      ensures root == old(root) && tree == old(tree)
    {
      n.parent := v;
      mem := mem[n := mem[n].(parent := v)];
    }

    method SetColor(n: Node, v: Color)
      requires Coupled() && n in mem
      modifies `mem, n`color
      ensures Coupled() && mem == old(mem)[n := old(mem)[n].(color := v)] && mem.Keys == old(mem.Keys)
      ensures root == old(root) && tree == old(tree)
    {
      n.color := v;
      mem := mem[n := mem[n].(color := v)];
    }

    // ---- the tree in memory, with a focus ----

    ghost predicate Holds(t: Tree, c: Ctx)
      reads `mem, `root, mem.Keys
    {
      Coupled() && mem[nil].color == Black && Shape(mem, root, t, c, nil)
    }

    lemma LiftHolds(t: Tree, c: Ctx)
      requires c.In?
      ensures Holds(t, c) <==> Holds(Lift(t, c), c.up)
    {
      hide Shape, Coupled;
      Zip(mem, root, t, c, nil);
    }

    /** The focus moves to the sibling. */
    lemma AcrossHolds(t: Tree, c: Ctx)
      requires c.In?
      ensures Holds(t, c) <==> Holds(c.sib, In(Other(c.side), c.cell, t, c.up))
    {
      var c' := In(Other(c.side), c.cell, t, c.up);
      assert Lift(c.sib, c') == Lift(t, c);
      hide Holds;
      LiftHolds(t, c);
      LiftHolds(c.sib, c');
    }

    /** What the code reads at the focus, at its parent and at its sibling. */
    lemma Reads(t: Tree, c: Ctx)
      requires Holds(t, c)
      ensures Coupled() && nil in mem && mem[nil].color == Black
      ensures t.N? ==>
        && t.cell.n in mem && t.cell.n != nil
        && mem[t.cell.n] == Rec(t.cell.color, Top(t.left, nil), Top(t.right, nil), Parent(c, nil), t.cell.key, t.cell.value)
      ensures c.In? ==>
        && c.cell.n in mem && c.cell.n != nil && c.cell.n != Top(t, nil)
        && mem[c.cell.n].color == c.cell.color && mem[c.cell.n].key == c.cell.key
        && mem[c.cell.n].left == (if c.side == Lft then Top(t, nil) else Top(c.sib, nil))
        && mem[c.cell.n].right == (if c.side == Rgt then Top(t, nil) else Top(c.sib, nil))
        && mem[c.cell.n].parent == Parent(c.up, nil)
        && (t.N? || c.sib.N? ==> Top(t, nil) != Top(c.sib, nil))
        && Top(c.sib, nil) in mem && mem[Top(c.sib, nil)].color == (if IsRed(c.sib) then Red else Black)
      ensures c.Root? <==> root == Top(t, nil)
    {
      if c.In? {
        RootInCtx(c, Top(t, nil));
      }
    }

    // ---- rotations and painting ----

    method Paint(n: Node, col: Color, ghost t: Tree, ghost c: Ctx)
      requires Holds(t, c) && t.N? && n == t.cell.n
      modifies this, mem.Keys
      ensures mem.Keys == old(mem.Keys) && mem[nil] == old(mem[nil])
      ensures Holds(Painted(t, col), c)
    {
      Reads(t, c);
      hide Shape, Coupled;
      PaintedAt(mem, root, t, c, nil, col);
      SetColor(n, col);
    }

    /** Give the subtree below b, if there is one, the parent p. */
    method Adopt(b: Node, p: Node, ghost t: Tree)
      requires Coupled() && b == Top(t, nil) && (t.N? ==> b in mem && b != nil)
      modifies `mem, if t.N? then {t.cell.n} else {}
      ensures Coupled() && mem == Reparent(old(mem), t, p) && root == old(root)
    {
      if b != nil {
        SetParent(b, p);
      }
    }

    /** Put y where x hangs: below the parent of x, or at the root. */
    method ReplaceChild(x: Node, y: Node, ghost c: Ctx)
      requires Coupled() && x in mem && mem[x].parent == Parent(c, nil)
      requires c.In? ==> c.cell.n in mem && c.cell.n != nil && (c.side == Lft <==> mem[c.cell.n].left == x)
      modifies this, mem.Keys
      ensures Coupled() && mem == Relink(old(mem), c, y) && root == if c.Root? then y else old(root)
    {
      if x.parent == nil {
        root := y;
      } else if x == x.parent.left {
        SetLeft(x.parent, y);
      } else {
        SetRight(x.parent, y);
      }
    }

    /** The first half of a left rotation at x, whose right child is y. */
    method TurnLeft(x: Node, y: Node, ghost t: Tree, ghost c: Ctx)
      requires Coupled() && CanRotate(Lft, t) && RotationAt(mem, Lft, t, c, nil) && x == t.cell.n && y == t.right.cell.n
      modifies this, mem.Keys
      ensures Coupled() && mem == HalfRotated(old(mem), Lft, t) && root == old(root)
    {
      hide Coupled, Child, Up, Reparent;
      SetRight(x, Child(Lft, y));
      Adopt(Child(Lft, y), x, t.right.left);
      SetParent(y, Up(x));
    }

    method LeftRotate(x: Node, ghost t: Tree, ghost c: Ctx)
      requires Holds(t, c) && CanRotate(Lft, t) && x == t.cell.n
      modifies this, mem.Keys
      ensures mem.Keys == old(mem.Keys) && mem[nil] == old(mem[nil])
      ensures Holds(Rotate(Lft, t), c)
    {
      RotationParts(mem, root, Lft, t, c, nil);
      ghost var m := mem;
      assert nil in m && t.right == Kid(t, Rgt) && Other(Lft) == Rgt;
      hide Shape, Rotate, RotationAt, RotationDone, Coupled, Child, Reparent, Relink, HalfRotated, Kid, Other;
      var y := Child(Rgt, x);
      RotationMiddle(m, Lft, t, c, nil);
      TurnLeft(x, y, t, c);
      ReplaceChild(x, y, c);
      ghost var m4 := mem;
      SetLeft(y, x);
      ghost var m5 := mem;
      SetParent(x, y);
      RotationEnd(m, m4, m5, mem, Lft, t, c, nil);
      Rotated(m, mem, old(root), root, Lft, t, c, nil);
    }

    /** The first half of a right rotation at x, whose left child is y. */
    method TurnRight(x: Node, y: Node, ghost t: Tree, ghost c: Ctx)
      requires Coupled() && CanRotate(Rgt, t) && RotationAt(mem, Rgt, t, c, nil) && x == t.cell.n && y == t.left.cell.n
      modifies this, mem.Keys
      ensures Coupled() && mem == HalfRotated(old(mem), Rgt, t) && root == old(root)
    {
      hide Coupled, Child, Up, Reparent;
      SetLeft(x, Child(Rgt, y));
      Adopt(Child(Rgt, y), x, t.left.right);
      SetParent(y, Up(x));
    }

    method RightRotate(x: Node, ghost t: Tree, ghost c: Ctx)
      requires Holds(t, c) && CanRotate(Rgt, t) && x == t.cell.n
      modifies this, mem.Keys
      ensures mem.Keys == old(mem.Keys) && mem[nil] == old(mem[nil])
      ensures Holds(Rotate(Rgt, t), c)
    {
      RotationParts(mem, root, Rgt, t, c, nil);
      ghost var m := mem;
      assert nil in m && t.left == Kid(t, Lft) && Other(Rgt) == Lft;
      hide Shape, Rotate, RotationAt, RotationDone, Coupled, Child, Reparent, Relink, HalfRotated, Kid, Other;
      var y := Child(Lft, x);
      RotationMiddle(m, Rgt, t, c, nil);
      TurnRight(x, y, t, c);
      ReplaceChild(x, y, c);
      ghost var m4 := mem;
      SetRight(y, x);
      ghost var m5 := mem;
      SetParent(x, y);
      RotationEnd(m, m4, m5, mem, Rgt, t, c, nil);
      Rotated(m, mem, old(root), root, Rgt, t, c, nil);
    }

    method RotateAt(s: Side, x: Node, ghost t: Tree, ghost c: Ctx)
      requires Holds(t, c) && CanRotate(s, t) && x == t.cell.n
      modifies this, mem.Keys
      ensures mem.Keys == old(mem.Keys) && mem[nil] == old(mem[nil])
      ensures Holds(Rotate(s, t), c)
    {
      hide Holds;
      if s == Lft {
        LeftRotate(x, t, c);
      } else {
        RightRotate(x, t, c);
      }
    }

    /** Paint the parent p of the focus. */
    method PaintParent(p: Node, col: Color, ghost t: Tree, ghost c: Ctx)
      requires Holds(t, c) && c.In? && p == c.cell.n
      modifies this, mem.Keys
      ensures mem.Keys == old(mem.Keys) && mem[nil] == old(mem[nil])
      ensures Holds(t, c.(cell := c.cell.(color := col)))
    {
      ghost var c' := c.(cell := c.cell.(color := col));
      assert Painted(Lift(t, c), col) == Lift(t, c') && Lift(t, c).cell == c.cell;
      hide Holds, Lift, Painted;
      LiftHolds(t, c);
      Paint(p, col, Lift(t, c), c.up);
      LiftHolds(t, c');
    }

    /** Paint the sibling w of the focus. */
    method PaintSibling(w: Node, col: Color, ghost t: Tree, ghost c: Ctx)
      requires Holds(t, c) && c.In? && c.sib.N? && w == c.sib.cell.n
      modifies this, mem.Keys
      ensures mem.Keys == old(mem.Keys) && mem[nil] == old(mem[nil])
      ensures Holds(t, c.(sib := Painted(c.sib, col)))
    {
      ghost var across := In(Other(c.side), c.cell, t, c.up);
      ghost var w' := Painted(c.sib, col);
      hide Holds, Painted;
      AcrossHolds(t, c);
      Paint(w, col, c.sib, across);
      AcrossHolds(t, c.(sib := w'));
    }

    // ---- insertion ----

    /** A red uncle y: parent and uncle turn black, the grandparent red. */
    method RecolorUncle(z: Node, p: Node, g: Node, y: Node, ghost t: Tree, ghost c: Ctx)
      requires Holds(t, c) && c.In? && c.up.In? && c.up.sib.N?
      requires p == c.cell.n && g == c.up.cell.n && y == c.up.sib.cell.n
      modifies this, mem.Keys
      ensures mem.Keys == old(mem.Keys) && mem[nil] == old(mem[nil])
      ensures Holds(Recolored(t, c), c.up.up)
    {
      ghost var c1 := c.(cell := c.cell.(color := Black));
      ghost var t1 := Lift(t, c1);
      ghost var c2 := c.up.(sib := Painted(c.up.sib, Black));
      ghost var c3 := c2.(cell := c2.cell.(color := Red));
      assert Lift(t1, c3) == Recolored(t, c);
      hide Holds, Lift, Painted, Recolored;
      PaintParent(p, Black, t, c);
      LiftHolds(t, c1);
      PaintSibling(y, Black, t1, c.up);
      PaintParent(g, Red, t1, c2);
      LiftHolds(t1, c3);
    }

    /** The focus z is the inner grandchild: its parent p turns with it, and is the new focus. */
    method TurnOut(s: Side, p: Node, ghost t: Tree, ghost c: Ctx)
      requires Holds(t, c) && t.N? && c.In? && c.side == Other(s) && p == c.cell.n
      modifies this, mem.Keys
      ensures mem.Keys == old(mem.Keys) && mem[nil] == old(mem[nil])
      ensures Holds(TurnedOut(t, c).0, TurnedOut(t, c).1)
    {
      ghost var t', c' := TurnedOut(t, c).0, TurnedOut(t, c).1;
      assert Lift(t, c).cell == c.cell && Other(c.side) == s;
      TurnedOutIs(t, c);
      hide Holds, Lift, Rotate, TurnedOut, Other, CanRotate;
      LiftHolds(t, c);
      RotateAt(s, p, Lift(t, c), c.up);
      LiftHolds(t', c');
    }

    /** The focus is the outer grandchild: the parent p goes up black, the grandparent g down red. */
    method Raise(s: Side, p: Node, g: Node, ghost t: Tree, ghost c: Ctx)
      requires Holds(t, c) && c.In? && c.up.In? && c.side == c.up.side == s && p == c.cell.n && g == c.up.cell.n
      modifies this, mem.Keys
      ensures mem.Keys == old(mem.Keys) && mem[nil] == old(mem[nil])
      ensures Holds(t, Raised(t, c))
    {
      ghost var c1 := c.(cell := c.cell.(color := Black));
      ghost var t1 := Lift(t, c1);
      ghost var c2 := c.up.(cell := c.up.cell.(color := Red));
      ghost var t2 := Lift(t1, c2);
      RaisedIs(t, c);
      assert t2 == Painted(Lift(Painted(Lift(t, c), Black), c.up), Red);
      assert t2.cell.n == g && Raised(t, c).up == c.up.up;
      hide Holds, Lift, Painted, Raised, Rotate, CanRotate;
      PaintParent(p, Black, t, c);
      LiftHolds(t, c1);
      PaintParent(g, Red, t1, c.up);
      LiftHolds(t1, c2);
      RotateAt(Other(s), g, t2, c.up.up);
      LiftHolds(t, Raised(t, c));
    }

    lemma PlugHolds(t: Tree, c: Ctx)
      requires Holds(t, c)
      ensures Holds(Plug(t, c), Root) && InOrder(Plug(t, c)) == Whole(t, c)
    {
      hide Shape, Coupled, Plug, InOrder, Whole;
      PlugShape(mem, root, t, c, nil);
    }

    /** What the insertion fix-up reads: parent, grandparent, uncle, and on which side z hangs. */
    lemma InsertReads(t: Tree, c: Ctx)
      requires Holds(t, c) && t.N? && c.In? && c.up.In?
      ensures Coupled() && t.cell.n in mem && c.cell.n in mem && c.up.cell.n in mem
      ensures mem[t.cell.n].parent == c.cell.n && mem[c.cell.n].parent == c.up.cell.n
      ensures mem[c.cell.n].color == c.cell.color
      ensures var u := if c.up.side == Lft then mem[c.up.cell.n].right else mem[c.up.cell.n].left;
        u == Top(c.up.sib, nil) && u in mem && mem[u].color == (if IsRed(c.up.sib) then Red else Black)
      ensures mem[c.cell.n].left == t.cell.n <==> c.side == Lft
      ensures mem[c.cell.n].right == t.cell.n <==> c.side == Rgt
      ensures mem[c.up.cell.n].left == c.cell.n <==> c.up.side == Lft
    {
      hide Holds, Coupled;
      Reads(t, c);
      LiftHolds(t, c);
      Reads(Lift(t, c), c.up);
    }

    /** A black uncle: one or two rotations end the fix-up. */
    method InsertRotate(s: Side, z: Node, p: Node, g: Node, ghost t: Tree, ghost c: Ctx, ghost h: nat)
      returns (z': Node, ghost t': Tree, ghost c': Ctx)
      requires Holds(t, c) && InsertState(t, c, h) && z == t.cell.n
      requires c.In? && c.cell.color == Red && c.up.In? && c.up.side == s && !IsRed(c.up.sib)
      requires p == c.cell.n && g == c.up.cell.n
      modifies this, mem.Keys
      ensures mem.Keys == old(mem.Keys) && mem[nil] == old(mem[nil])
      ensures Holds(t', c') && InsertState(t', c', h) && z' == t'.cell.n
      ensures Whole(t', c') == Whole(t, c) && CtxSize(c') < CtxSize(c)
    {
      InsertReads(t, c);
      TurnedOutKeeps(t, c, h);
      hide Holds, Coupled, Shape, Child, Whole, RB, CtxRB, Raised, Painted;
      if z == Child(Other(s), p) {
        TurnOut(s, p, t, c);
        z', t', c' := p, TurnedOut(t, c).0, TurnedOut(t, c).1;
        RaisedKeeps(t', c', h);
        Raise(s, z, g, t', c');
        c' := Raised(t', c');
      } else {
        RaisedKeeps(t, c, h);
        Raise(s, p, g, t, c);
        z', t', c' := z, t, Raised(t, c);
      }
    }

    /** One round of the insertion fix-up, for a red parent that is the s child of the grandparent. */
    method InsertStep(s: Side, z: Node, ghost t: Tree, ghost c: Ctx, ghost h: nat)
      returns (z': Node, ghost t': Tree, ghost c': Ctx, ghost h': nat)
      requires Holds(t, c) && InsertState(t, c, h) && z == t.cell.n
      requires c.In? && c.cell.color == Red && c.up.In? && c.up.side == s
      modifies this, mem.Keys
      ensures mem.Keys == old(mem.Keys) && mem[nil] == old(mem[nil])
      ensures Holds(t', c') && InsertState(t', c', h') && z' == t'.cell.n
      ensures Whole(t', c') == Whole(t, c) && CtxSize(c') < CtxSize(c)
    {
      InsertReads(t, c);
      hide Holds, Coupled, Shape, Child, Up, ColorOf, Whole, RB, CtxRB, Painted;
      var p := Up(z);
      var g := Up(p);
      var y := Child(Other(s), g);
      if ColorOf(y) == Red {
        RecolorUncle(z, p, g, y, t, c);
        RecolorKeeps(t, c, h);
        z', t', c', h' := g, Recolored(t, c), c.up.up, h + 1;
      } else {
        z', t', c' := InsertRotate(s, z, p, g, t, c, h);
        h' := h;
      }
    }

    /** What the loop guards read: the parent of the focus, or the sentinel above the root. */
    lemma GuardReads(t: Tree, c: Ctx)
      requires Holds(t, c)
      ensures Coupled() && Top(t, nil) in mem && Parent(c, nil) in mem
      ensures t.N? ==> mem[t.cell.n].parent == Parent(c, nil)
      ensures mem[Parent(c, nil)].color == (if c.In? then c.cell.color else Black)
      ensures mem[Top(t, nil)].color == (if IsRed(t) then Red else Black)
      ensures c.Root? <==> root == Top(t, nil)
    {
      hide Holds, Coupled;
      Reads(t, c);
    }

    /** The insertion fix-up: from a tree whose only fault is a red parent above the red node z. */
    method InsertFixup(z: Node, ghost t: Tree, ghost c: Ctx, ghost h: nat) returns (ghost tree: Tree)
      requires Holds(t, c) && InsertState(t, c, h) && z == t.cell.n
      modifies this, mem.Keys
      ensures mem.Keys == old(mem.Keys)
      ensures Holds(tree, Root) && RedBlack(tree) && InOrder(tree) == Whole(t, c)
    {
      hide Holds, Coupled, Shape, Child, Up, ColorOf, Whole, RB, AlmostRB, Plug, InOrder;
      var x := z;
      ghost var t1, c1, h1 := t, c, h;
      GuardReads(t1, c1);
      while ColorOf(Up(x)) == Red
        invariant Holds(t1, c1) && InsertState(t1, c1, h1) && x == t1.cell.n && Whole(t1, c1) == Whole(t, c)
        invariant mem.Keys == old(mem.Keys)
        invariant Coupled() && x in mem && mem[x].parent == Parent(c1, nil) && Parent(c1, nil) in mem
        invariant mem[Parent(c1, nil)].color == (if c1.In? then c1.cell.color else Black)
        decreases CtxSize(c1)
      {
        InsertReads(t1, c1);
        if Up(x) == Child(Lft, Up(Up(x))) {
          x, t1, c1, h1 := InsertStep(Lft, x, t1, c1, h1);
        } else {
          x, t1, c1, h1 := InsertStep(Rgt, x, t1, c1, h1);
        }
        GuardReads(t1, c1);
      }
      PlugHolds(t1, c1);
      PlugIsNode(t1, c1);
      ghost var k := PlugRB(t1, c1, h1);
      tree := Plug(t1, c1);
      Reads(tree, Root);
      Paint(root, Black, tree, Root);
      PlugBlackened(tree, k);
      tree := Painted(tree, Black);
    }

    /** The focus t in c is on the search path of k, d nodes below the root. */
    ghost predicate OnPath(t: Tree, c: Ctx, k: Str, d: nat)
      reads this, mem.Keys
    {
      && Holds(t, c) && Plug(t, c) == tree && Whole(t, c) == InOrder(tree) && Between(c, k)
      && (exists h :: Balanced(t, c, h))
      && d + Height(t) <= Height(tree)
      && (c.In? ==> (c.side == Lft <==> StrCmp(k, c.cell.key) < 0))
    }

    lemma PathStart(k: Str)
      requires Valid()
      ensures OnPath(tree, Root, k, 0)
    {
      var h: nat :| RB(tree, h);
      assert Balanced(tree, Root, h);
      assert Whole(tree, Root) == InOrder(tree);
    }

    /** The search takes the side that strcmp tells it. */
    lemma PathDown(t: Tree, c: Ctx, k: Str, d: nat)
      requires Valid() && OnPath(t, c, k, d) && t.N?
      ensures StrCmp(k, t.cell.key) < 0 ==> OnPath(t.left, Below1(Lft, t, c), k, d + 1)
      ensures StrCmp(k, t.cell.key) > 0 ==> OnPath(t.right, Below1(Rgt, t, c), k, d + 1)
    {
      var h: nat :| Balanced(t, c, h);
      var s := if StrCmp(k, t.cell.key) < 0 then Lft else Rgt;
      hide Holds, Whole, Balanced, Between;
      var h' := StepDown(s, t, c, h);
      LiftHolds(Kid(t, s), Below1(s, t, c));
      BetweenDown(t, c, k);
    }

    lemma PathReads(t: Tree, c: Ctx, k: Str, d: nat)
      requires OnPath(t, c, k, d)
      ensures Coupled() && (t.N? ==>
        && t.cell.n in mem && t.cell.n != nil && mem[t.cell.n].key == t.cell.key
        && mem[t.cell.n].left == Top(t.left, nil) && mem[t.cell.n].right == Top(t.right, nil))
    {
      hide Holds, Coupled;
      Reads(t, c);
    }

    lemma PathEnd(t: Tree, c: Ctx, k: Str, d: nat)
      requires Valid() && OnPath(t, c, k, d) && (t.N? ==> StrCmp(k, t.cell.key) == 0)
      ensures t.N? <==> k in Contents()
      ensures t.N? ==> t.cell.key == k && Contents()[k] == t.cell.value
      ensures TwiceLog(d + if t.N? then 1 else 0, |Contents()|)
    {
      hide Holds, Between, Sorted, InOrder, MapOf, Whole;
      SearchEnd(t, c, k);
      DepthBound(tree, d + if t.N? then 1 else 0);
      SortedUnique(InOrder(tree));
      MapSize(InOrder(tree));
    }

    /** The node that has the key, or the sentinel; at most 2 log2(n+1) nodes are visited. */
    method Search(key: Str) returns (node: Node, ghost t: Tree, ghost c: Ctx, ghost d: nat, ghost visited: nat)
      requires Valid()
      ensures node == nil <==> key !in Contents()
      ensures node != nil ==> node in Nodes(tree) && node.key == key && node.value == Contents()[key]
      ensures node == Top(t, nil) && OnPath(t, c, key, d) && (node == nil <==> t.Leaf?)
      ensures t.N? ==> t.cell.key == key && Contents()[key] == t.cell.value
      ensures visited == d + (if t.N? then 1 else 0) && TwiceLog(visited, |Contents()|)
    {
      node := root;
      t, c, d, visited := tree, Root, 0, 0;
      PathStart(key);
      PathReads(t, c, key, d);
      GuardReads(t, c);
      hide Holds, Valid, OnPath, Coupled, KeyOf, Child, Contents, TwiceLog, StrCmp, Below1;
      while node != nil
        invariant OnPath(t, c, key, d) && node == Top(t, nil) && visited == d
        invariant Coupled() && (t.N? ==>
          && t.cell.n in mem && t.cell.n != nil && mem[t.cell.n].key == t.cell.key
          && mem[t.cell.n].left == Top(t.left, nil) && mem[t.cell.n].right == Top(t.right, nil))
        decreases t
      {
        PathDown(t, c, key, d);
        visited := visited + 1;
        if StrCmp(key, KeyOf(node)) < 0 {
          node := Child(Lft, node);
          t, c, d := t.left, Below1(Lft, t, c), d + 1;
        } else if StrCmp(key, KeyOf(node)) > 0 {
          node := Child(Rgt, node);
          t, c, d := t.right, Below1(Rgt, t, c), d + 1;
        } else {
          break;
        }
        PathReads(t, c, key, d);
      }
      PathEnd(t, c, key, d);
      if t.N? {
        PathNode(t, c, key, d);
      }
    }

    /** The new node z joins the memory of the tree, with y as its parent. */
    method Admit(z: Node, y: Node)
      requires Coupled() && z !in mem
      modifies `mem, z`parent
      ensures Coupled() && root == old(root) && tree == old(tree) && mem == old(mem[z := RecOf(z).(parent := y)])
    {
      z.parent := y;
      mem := mem[z := RecOf(z)];
    }

    /** The link from y, or from the root, to the new node z. */
    method LinkBelow(z: Node, y: Node, ghost c: Ctx)
      requires Coupled() && z in mem && y == Parent(c, nil)
      requires c.In? ==> y in mem && y != nil && mem[y].key == c.cell.key
      requires c.In? ==> (c.side == Lft <==> StrCmp(mem[z].key, c.cell.key) < 0)
      modifies this, mem.Keys
      ensures Coupled() && mem == Relink(old(mem), c, z) && root == (if c.Root? then z else old(root)) && tree == old(tree)
    {
      if y == nil {
        root := z;
      } else if StrCmp(z.key, y.key) < 0 {
        SetLeft(y, z);
      } else {
        SetRight(y, z);
      }
    }

    method MakeRedLeaf(z: Node)
      requires Coupled() && z in mem
      modifies `mem, z
      ensures Coupled() && root == old(root) && tree == old(tree)
      ensures mem == old(mem[z := Rec(Red, nil, nil, mem[z].parent, mem[z].key, mem[z].value)])
    {
      hide Coupled;
      SetLeft(z, nil);
      SetRight(z, nil);
      SetColor(z, Red);
    }

    /** Hang the new node z below y, red and without children. */
    method Attach(z: Node, y: Node, ghost c: Ctx)
      requires Holds(Leaf, c) && z !in mem && y == Parent(c, nil)
      requires c.In? ==> (c.side == Lft <==> StrCmp(z.key, c.cell.key) < 0)
      modifies this, mem.Keys, z
      ensures mem.Keys == old(mem.Keys) + {z} && tree == old(tree)
      ensures Holds(N(Leaf, Cell(z, Red, old(z.key), old(z.value)), Leaf), c)
    {
      Reads(Leaf, c);
      ghost var m, r := mem, RecOf(z);
      hide Shape, Coupled, Relink, StrCmp;
      Admit(z, y);
      LinkBelow(z, y, c);
      AttachSteps(m, mem, c, nil, z, r);
      MakeRedLeaf(z);
      AttachedAt(m, mem, old(root), root, c, nil, z, r.key, r.value);
    }

    /** The end of the insertion search: the key is in the tree, or c is the hole it belongs to. */
    lemma InsertEnd(t: Tree, c: Ctx, z: Node, k: Str, v: Str, d: nat)
      requires Valid() && OnPath(t, c, k, d) && (t.N? ==> StrCmp(k, t.cell.key) == 0)
      ensures k in Contents() <==> t.N?
      ensures t.Leaf? ==>
        && Holds(Leaf, c) && (c.In? ==> (c.side == Lft <==> StrCmp(k, c.cell.key) < 0))
        && (exists h :: InsertState(N(Leaf, Cell(z, Red, k, v), Leaf), c, h))
        && Sorted(Whole(N(Leaf, Cell(z, Red, k, v), Leaf), c))
        && MapOf(Whole(N(Leaf, Cell(z, Red, k, v), Leaf), c)) == Contents()[k := v]
    {
      hide Holds, Between, Sorted, InOrder, MapOf, Whole, Balanced, InsertState, StrCmp;
      SearchEnd(t, c, k);
      if t.Leaf? {
        var h: nat :| Balanced(t, c, h);
        LeafInserted(c, Cell(z, Red, k, v), h);
      }
    }

    /** Where the key belongs: the last node on its search path, and whether that path ends at the key itself. */
    method FindPlace(key: Str) returns (y: Node, found: bool, ghost t: Tree, ghost c: Ctx, ghost d: nat)
      requires Valid()
      ensures found <==> key in Contents()
      ensures OnPath(t, c, key, d) && found == t.N? && (t.N? ==> StrCmp(key, t.cell.key) == 0)
      ensures !found ==> y == Parent(c, nil)
    {
      y, found := nil, false;
      var x := root;
      t, c, d := tree, Root, 0;
      PathStart(key);
      PathReads(t, c, key, d);
      GuardReads(t, c);
      hide Holds, Valid, OnPath, Coupled, KeyOf, Child, StrCmp;
      while x != nil
        invariant OnPath(t, c, key, d) && x == Top(t, nil) && y == Parent(c, nil)
        invariant Coupled() && (t.N? ==>
          && t.cell.n in mem && t.cell.n != nil && mem[t.cell.n].key == t.cell.key
          && mem[t.cell.n].left == Top(t.left, nil) && mem[t.cell.n].right == Top(t.right, nil))
        decreases t
      {
        y := x;
        PathDown(t, c, key, d);
        if StrCmp(key, KeyOf(x)) < 0 {
          x := Child(Lft, x);
          t, c, d := t.left, Below1(Lft, t, c), d + 1;
        } else if StrCmp(key, KeyOf(x)) > 0 {
          x := Child(Rgt, x);
          t, c, d := t.right, Below1(Rgt, t, c), d + 1;
        } else {
          found := true;
          PathEnd(t, c, key, d);
          return;
        }
        PathReads(t, c, key, d);
      }
      PathEnd(t, c, key, d);
    }

    /** Insert the node z, unless its key is there already. */
    method Insert(z: Node)
      requires Valid() && z !in mem
      modifies this, mem.Keys, z
      ensures Valid() && mem.Keys <= old(mem.Keys) + {z}
      ensures Contents() ==
        if old(z.key) in old(Contents()) then old(Contents()) else old(Contents())[old(z.key) := old(z.value)]
    {
      hide Holds, OnPath, StrCmp, Sorted, MapOf, InOrder, InsertState, RedBlack, Whole;
      ghost var k, v := z.key, z.value;
      var y, found, t, c, d := FindPlace(z.key);
      InsertEnd(t, c, z, k, v, d);
      if !found {
        ghost var t' := N(Leaf, Cell(z, Red, k, v), Leaf);
        ghost var h: nat :| InsertState(t', c, h);
        Attach(z, y, c);
        tree := InsertFixup(z, t', c, h);
      }
    }

    // ---- deletion ----

    /** What the code reads at a child of the focus. */
    lemma KidReads(s: Side, t: Tree, c: Ctx)
      requires Holds(t, c) && t.N?
      ensures Holds(Kid(t, s), Below1(s, t, c)) && Lift(Kid(t, s), Below1(s, t, c)) == t
      ensures var k := Top(Kid(t, s), nil);
        && Coupled() && t.cell.n in mem && (if s == Lft then mem[t.cell.n].left else mem[t.cell.n].right) == k
        && k in mem && mem[k].color == (if IsRed(Kid(t, s)) then Red else Black)
    {
      assert Lift(Kid(t, s), Below1(s, t, c)) == t;
      hide Holds, Coupled;
      Reads(t, c);
      LiftHolds(Kid(t, s), Below1(s, t, c));
      GuardReads(Kid(t, s), Below1(s, t, c));
    }

    /** What the deletion fix-up reads: the sibling w of the focus, and the children of w. */
    lemma DeleteReads(t: Tree, c: Ctx)
      requires Holds(t, c) && c.In? && c.sib.N?
      ensures Coupled() && c.cell.n in mem && c.sib.cell.n in mem
      ensures mem[c.cell.n].color == c.cell.color && mem[c.sib.cell.n].color == c.sib.cell.color
      ensures (if c.side == Lft then mem[c.cell.n].right else mem[c.cell.n].left) == c.sib.cell.n
      ensures mem[c.cell.n].left == Top(t, nil) <==> c.side == Lft
      ensures var w := mem[c.sib.cell.n];
        && w.left == Top(c.sib.left, nil) && w.left in mem && mem[w.left].color == (if IsRed(c.sib.left) then Red else Black)
        && w.right == Top(c.sib.right, nil) && w.right in mem && mem[w.right].color == (if IsRed(c.sib.right) then Red else Black)
    {
      hide Holds, Coupled;
      ghost var across := In(Other(c.side), c.cell, t, c.up);
      Reads(t, c);
      AcrossHolds(t, c);
      Reads(c.sib, across);
      KidReads(Lft, c.sib, across);
      KidReads(Rgt, c.sib, across);
    }

    /** Case 1. */
    method RaiseSibling(s: Side, p: Node, w: Node, ghost t: Tree, ghost c: Ctx)
      requires Holds(t, c) && c.In? && c.side == s && c.sib.N? && p == c.cell.n && w == c.sib.cell.n
      modifies this, mem.Keys
      ensures mem.Keys == old(mem.Keys) && mem[nil] == old(mem[nil])
      ensures Holds(t, SiblingRaised(c))
    {
      ghost var c1 := c.(sib := Painted(c.sib, Black));
      ghost var c2 := c1.(cell := c1.cell.(color := Red));
      ghost var t2 := Lift(t, c2);
      ghost var c' := SiblingRaised(c);
      SiblingRaisedIs(t, c);
      assert t2 == Painted(Lift(t, c1), Red) && t2.cell.n == p && c'.In? && c'.up.In? && c'.up.up == c.up;
      hide Holds, Lift, Painted, SiblingRaised, Rotate, CanRotate;
      PaintSibling(w, Black, t, c);
      PaintParent(p, Red, t, c1);
      LiftHolds(t, c2);
      RotateAt(s, p, t2, c.up);
      LiftHolds(Lift(t, c'), c'.up);
      LiftHolds(t, c');
    }

    /** Case 3: near is the child of w on the side of the focus. */
    method TurnNear(s: Side, near: Node, w: Node, ghost t: Tree, ghost c: Ctx)
      requires Holds(t, c) && c.In? && c.side == s && c.sib.N? && w == c.sib.cell.n
      requires Kid(c.sib, s).N? && near == Kid(c.sib, s).cell.n
      modifies this, mem.Keys
      ensures mem.Keys == old(mem.Keys) && mem[nil] == old(mem[nil])
      ensures Holds(t, c.(sib := NearTurned(s, c.sib)))
    {
      ghost var across := In(Other(s), c.cell, t, c.up);
      ghost var below := Below1(s, c.sib, across);
      ghost var near' := Painted(Kid(c.sib, s), Black);
      ghost var w1 := Lift(near', below);
      ghost var w2 := Painted(w1, Red);
      ghost var c' := c.(sib := NearTurned(s, c.sib));
      NearTurnedIs(s, c.sib);
      assert w1 == Mk(s, near', c.sib.cell, Kid(c.sib, Other(s))) && w1.cell.n == w && w2.cell.n == w && below.In? && below.up == across;
      assert In(Other(c'.side), c'.cell, t, c'.up) == across;
      hide Holds, Lift, Painted, NearTurned, Rotate, CanRotate, Below1;
      AcrossHolds(t, c);
      KidReads(s, c.sib, across);
      Paint(near, Black, Kid(c.sib, s), below);
      LiftHolds(near', below);
      Paint(w, Red, w1, across);
      RotateAt(Other(s), w, w2, across);
      AcrossHolds(t, c');
    }

    /** Case 4: far is the other child of w. */
    method TurnFar(s: Side, p: Node, w: Node, far: Node, ghost t: Tree, ghost c: Ctx)
      requires Holds(t, c) && c.In? && c.side == s && c.sib.N? && p == c.cell.n && w == c.sib.cell.n
      requires Kid(c.sib, Other(s)).N? && far == Kid(c.sib, Other(s)).cell.n
      modifies this, mem.Keys
      ensures mem.Keys == old(mem.Keys) && mem[nil] == old(mem[nil])
      ensures Holds(FarTurned(t, c), c.up)
    {
      DeleteReads(t, c);
      ghost var w1 := Painted(c.sib, c.cell.color);
      ghost var c1 := c.(sib := w1);
      ghost var c2 := c1.(cell := c1.cell.(color := Black));
      ghost var across := In(Other(s), c2.cell, t, c.up);
      ghost var below := Below1(Other(s), w1, across);
      ghost var far' := Painted(Kid(c.sib, Other(s)), Black);
      ghost var c3 := c2.(sib := FarPainted(c));
      FarTurnedIs(t, c);
      assert Lift(far', below) == FarPainted(c) && Kid(w1, Other(s)) == Kid(c.sib, Other(s)) && below.up == across && w1.N?;
      assert Lift(t, c3) == Painted(Lift(t, c.(sib := FarPainted(c))), Black) && Lift(t, c3).cell.n == p;
      hide Holds, Coupled, ColorOf, Lift, Painted, FarTurned, FarPainted, Rotate, CanRotate, Below1, Kid, Mk;
      PaintSibling(w, ColorOf(p), t, c);
      PaintParent(p, Black, t, c1);
      AcrossHolds(t, c2);
      KidReads(Other(s), w1, across);
      Paint(far, Black, Kid(w1, Other(s)), below);
      LiftHolds(far', below);
      AcrossHolds(t, c3);
      LiftHolds(t, c3);
      RotateAt(s, p, Lift(t, c3), c.up);
    }

    /** A far red nephew: the last rotation, after which the whole tree is in focus. */
    method DeleteEnd(s: Side, p: Node, w: Node, far: Node, ghost t: Tree, ghost c: Ctx, ghost h: nat)
      returns (x': Node, ghost t': Tree, ghost h': nat)
      requires Holds(t, c) && DeleteState(t, c, h) && !IsRed(t) && c.In? && c.side == s
      requires c.sib.N? && !IsRed(c.sib) && IsRed(Kid(c.sib, Other(s)))
      requires p == c.cell.n && w == c.sib.cell.n && far == Kid(c.sib, Other(s)).cell.n
      modifies this, mem.Keys
      ensures mem.Keys == old(mem.Keys)
      ensures Holds(t', Root) && DeleteState(t', Root, h') && t'.N? && x' == t'.cell.n && Whole(t', Root) == Whole(t, c)
    {
      FarTurnedKeeps(t, c, h);
      FarTurnedEnds(t, c, h);
      hide Holds, FarTurned, DeleteState, Plug, InOrder, Before, After, Whole;
      TurnFar(s, p, w, far, t, c);
      PlugHolds(FarTurned(t, c), c.up);
      t' := Plug(FarTurned(t, c), c.up);
      h' :| DeleteState(t', Root, h');
      WholeAtRoot(t');
      Reads(t', Root);
      x' := root;
    }

    /** One round of the deletion fix-up once the sibling w is black. */
    method DeleteBlackSibling(s: Side, x: Node, p: Node, w: Node, ghost t: Tree, ghost c: Ctx, ghost h: nat)
      returns (x': Node, ghost t': Tree, ghost c': Ctx, ghost h': nat)
      requires Holds(t, c) && DeleteState(t, c, h) && !IsRed(t) && c.In? && c.side == s && c.sib.N? && !IsRed(c.sib)
      requires x == Top(t, nil) && p == c.cell.n && w == c.sib.cell.n
      modifies this, mem.Keys
      ensures mem.Keys == old(mem.Keys)
      ensures Holds(t', c') && DeleteState(t', c', h') && t'.N? && x' == t'.cell.n && Whole(t', c') == Whole(t, c)
      ensures c' == Root || (c' == c.up && t'.cell.color == c.cell.color)
    {
      DeleteReads(t, c);
      hide Holds, Coupled, Child, ColorOf, DeleteState, Whole, RB, NearTurned;
      if ColorOf(Child(Lft, w)) == Black && ColorOf(Child(Rgt, w)) == Black {
        SiblingReddened(t, c, h);
        PaintSibling(w, Red, t, c);
        x', c' := p, c.up;
        t' := Lift(t, c.(sib := Painted(c.sib, Red)));
        h' :| DeleteState(t', c', h');
        LiftHolds(t, c.(sib := Painted(c.sib, Red)));
      } else {
        ghost var c1 := c;
        var w1 := w;
        if ColorOf(Child(Other(s), w)) == Black {
          NearTurnedKeeps(t, c, h);
          TurnNear(s, Child(s, w), w, t, c);
          c1 := c.(sib := NearTurned(s, c.sib));
          DeleteReads(t, c1);
          w1 := Child(Other(s), p);
          DeleteReads(t, c1);
        }
        c' := Root;
        x', t', h' := DeleteEnd(s, p, w1, Child(Other(s), w1), t, c1, h);
      }
    }

    /** One round of the deletion fix-up at x, the s child of its parent. */
    method DeleteStep(s: Side, x: Node, ghost t: Tree, ghost c: Ctx, ghost h: nat)
      returns (x': Node, ghost t': Tree, ghost c': Ctx, ghost h': nat)
      requires Holds(t, c) && DeleteState(t, c, h) && !IsRed(t) && c.In? && c.side == s
      requires x == Top(t, nil) && x in mem && mem[x].parent == c.cell.n
      modifies this, mem.Keys
      ensures mem.Keys == old(mem.Keys)
      ensures Holds(t', c') && DeleteState(t', c', h') && t'.N? && x' == t'.cell.n && Whole(t', c') == Whole(t, c)
      ensures CtxSize(c') < CtxSize(c) || (CtxSize(c') == CtxSize(c) && IsRed(t'))
    {
      SiblingIsNode(t, c, h);
      DeleteReads(t, c);
      hide Holds, Coupled, Child, Up, ColorOf, DeleteState, Whole, RB;
      var w := Child(Other(s), Up(x));
      ghost var c1 := c;
      if ColorOf(w) == Red {
        SiblingRaisedKeeps(t, c, h);
        RaiseSibling(s, Up(x), w, t, c);
        c1 := SiblingRaised(c);
        SiblingIsNode(t, c1, h);
        GuardReads(t, c1);
        DeleteReads(t, c1);
        w := Child(Other(s), Up(x));
      }
      x', t', c', h' := DeleteBlackSibling(s, x, Up(x), w, t, c1, h);
    }

    /** The deletion fix-up: from a tree where every path through x lacks one black node. */
    method DeleteFixup(x: Node, ghost t: Tree, ghost c: Ctx, ghost h: nat) returns (ghost result: Tree)
      requires Holds(t, c) && DeleteState(t, c, h)
      requires x == Top(t, nil) && x in mem && mem[x].parent == Parent(c, nil)
      modifies this, mem.Keys
      ensures mem.Keys == old(mem.Keys)
      ensures Holds(result, Root) && RedBlack(result) && InOrder(result) == Whole(t, c)
    {
      hide Holds, Coupled, Shape, Child, Up, ColorOf, DeleteState, Whole, RB, AlmostRB, Plug, InOrder, RedBlack;
      var y := x;
      ghost var t1, c1, h1 := t, c, h;
      GuardReads(t1, c1);
      while y != root && ColorOf(y) == Black
        invariant Holds(t1, c1) && DeleteState(t1, c1, h1) && y == Top(t1, nil) && Whole(t1, c1) == Whole(t, c)
        invariant mem.Keys == old(mem.Keys)
        invariant Coupled() && y in mem && mem[y].parent == Parent(c1, nil)
        invariant mem[y].color == (if IsRed(t1) then Red else Black) && (c1.Root? <==> root == y)
        decreases CtxSize(c1), if IsRed(t1) then 0 else 1
      {
        SiblingIsNode(t1, c1, h1);
        DeleteReads(t1, c1);
        if y == Child(Lft, Up(y)) {
          y, t1, c1, h1 := DeleteStep(Lft, y, t1, c1, h1);
        } else {
          y, t1, c1, h1 := DeleteStep(Rgt, y, t1, c1, h1);
        }
        GuardReads(t1, c1);
      }
      DeleteBlackened(t1, c1, h1);
      result := PaintBlack(y, t1, c1);
    }

    method PaintBlack(x: Node, ghost t: Tree, ghost c: Ctx) returns (ghost result: Tree)
      requires Holds(t, c) && x == Top(t, nil) && (c.Root? || IsRed(t))
      requires t.N? ==> RedBlack(Plug(Painted(t, Black), c)) && Whole(Painted(t, Black), c) == Whole(t, c)
      requires t.Leaf? ==> RedBlack(Plug(t, c))
      modifies this, mem.Keys
      ensures mem.Keys == old(mem.Keys)
      ensures Holds(result, Root) && RedBlack(result) && InOrder(result) == Whole(t, c)
    {
      if x != nil {
        GuardReads(t, c);
        hide Holds, Plug, RedBlack, InOrder, Whole, Painted;
        Paint(x, Black, t, c);
        PlugHolds(Painted(t, Black), c);
        result := Plug(Painted(t, Black), c);
      } else {
        GuardReads(t, c);
        PlugHolds(t, c);
        assert mem[nil := mem[nil].(color := Black)] == mem;
        hide Shape, Plug, RedBlack, InOrder, Whole, Coupled;
        SetColor(x, Black);
        result := Plug(t, c);
      }
    }

    /** The leftmost node of the subtree in focus. */
    method Mini(x: Node, ghost t: Tree, ghost c: Ctx, ghost h: nat)
      returns (y: Node, ghost ty: Tree, ghost cy: Ctx, ghost hy: nat)
      requires Holds(t, c) && t.N? && x == t.cell.n && Balanced(t, c, h)
      ensures y in mem && y != nil && mem[y].left == nil
      ensures Holds(ty, cy) && ty.N? && y == ty.cell.n && ty.left.Leaf? && Balanced(ty, cy, hy)
      ensures Spine(cy, c) && Whole(ty, cy) == Whole(t, c)
    {
      y, ty, cy, hy := x, t, c, h;
      hide Holds, Coupled, Child, Balanced, Whole;
      KidReads(Lft, ty, cy);
      Reads(ty.left, Below1(Lft, ty, cy));
      while Child(Lft, y) != nil
        invariant Holds(ty, cy) && ty.N? && y == ty.cell.n && Balanced(ty, cy, hy) && Spine(cy, c)
        invariant Whole(ty, cy) == Whole(t, c)
        invariant Coupled() && y in mem && mem[y].left == Top(ty.left, nil) && (ty.left.N? ==> ty.left.cell.n != nil) && y != nil
        decreases ty
      {
        KidReads(Lft, ty, cy);
        y := Child(Lft, y);
        ghost var h' := StepDown(Lft, ty, cy, hy);
        ty, cy, hy := ty.left, Below1(Lft, ty, cy), h';
        KidReads(Lft, ty, cy);
        Reads(ty.left, Below1(Lft, ty, cy));
      }
    }

    /** The first ancestor that has x on its left: the next node in key order when x has no right child. */
    method ClimbFromRight(x: Node, ghost t: Tree, ghost c: Ctx)
      returns (y: Node, ghost ty: Tree, ghost cy: Ctx)
      requires Holds(t, c) && t.N? && x == t.cell.n && t.right.Leaf?
      ensures y == Top(ty, nil) && (y == nil <==> ty.Leaf?)
      ensures y == nil ==> Rank(t, c) + 1 == |Whole(t, c)|
      ensures y != nil ==> Holds(ty, cy) && Whole(ty, cy) == Whole(t, c) && Rank(ty, cy) == Rank(t, c) + 1
    {
      var n := x;
      ghost var t1, c1 := t, c;
      hide Holds, Coupled, Child, Up;
      Reads(t1, c1);
      y := Up(n);
      while y != nil && n == Child(Rgt, y)
        invariant Holds(t1, c1) && t1.N? && n == t1.cell.n && y == Parent(c1, nil) && (c1.In? ==> y != nil)
        invariant Coupled() && y in mem && (c1.In? ==> (mem[y].right == n <==> c1.side == Rgt))
        invariant Whole(t1, c1) == Whole(t, c)
        invariant |Before(c1)| + |InOrder(t1)| == Rank(t, c) + 1
        decreases c1
      {
        LiftHolds(t1, c1);
        ZipOrder(t1, c1);
        UpFromRight(t1, c1);
        n := y;
        t1, c1 := Lift(t1, c1), c1.up;
        Reads(t1, c1);
        y := Up(n);
      }
      if y == nil {
        ty, cy := Leaf, Root;
      } else {
        LiftHolds(t1, c1);
        ZipOrder(t1, c1);
        ty, cy := Lift(t1, c1), c1.up;
      }
    }

    /** The next node in key order, or the sentinel. */
    method Successor(x: Node, ghost t: Tree, ghost c: Ctx, ghost h: nat)
      returns (y: Node, ghost ty: Tree, ghost cy: Ctx, ghost hy: nat)
      requires Holds(t, c) && t.N? && x == t.cell.n && Balanced(t, c, h)
      ensures y == Top(ty, nil) && (y == nil <==> ty.Leaf?)
      ensures y == nil ==> Rank(t, c) + 1 == |Whole(t, c)|
      ensures y != nil ==> Holds(ty, cy) && Whole(ty, cy) == Whole(t, c) && Rank(ty, cy) == Rank(t, c) + 1
      ensures t.right.N? ==> ty.N? && ty.left.Leaf? && Spine(cy, Below1(Rgt, t, c)) && Balanced(ty, cy, hy)
    {
      KidReads(Rgt, t, c);
      Reads(t.right, Below1(Rgt, t, c));
      if x.right != nil {
        ghost var h' := StepDown(Rgt, t, c, h);
        hide Holds, Balanced;
        y, ty, cy, hy := Mini(x.right, t.right, Below1(Rgt, t, c), h');
        SpineBefore(cy, Below1(Rgt, t, c));
        Reads(ty, cy);
      } else {
        hide Holds, Balanced;
        hy := 0;
        y, ty, cy := ClimbFromRight(x, t, c);
      }
    }

    /** The node y leaves the memory of the tree. */
    method Forget(y: Node)
      requires Coupled() && y in mem && y != nil
      modifies `mem
      ensures Coupled() && mem == old(mem) - {y} && root == old(root) && RecOf(y) == old(mem)[y]
    {
      mem := mem - {y};
    }

    /** Take y out of its place; x, its only child or the sentinel, hangs there instead. */
    method Unlink(y: Node, x: Node, ghost t: Tree, ghost s: Side, ghost c: Ctx)
      requires Holds(t, c) && t.N? && Kid(t, Other(s)).Leaf? && y == t.cell.n && x == Top(Kid(t, s), nil)
      modifies this, mem.Keys
      ensures mem.Keys == old(mem.Keys) - {y} && x in mem && mem[x].parent == Parent(c, nil)
      ensures y.color == t.cell.color && y.key == t.cell.key && y.value == t.cell.value
      ensures Holds(Kid(t, s), c)
    {
      Reads(t, c);
      KidReads(s, t, c);
      ghost var m := mem;
      hide Shape, Coupled, Up, Kid, Relink;
      SetParent(x, Up(y));
      ReplaceChild(y, x, c);
      ghost var m1 := mem;
      Forget(y);
      UnlinkedAt(m, m1, mem, old(root), root, t, s, c, nil);
    }

    method SwapKeys(z: Node, y: Node)
      requires Coupled() && z in mem && y !in mem
      modifies `mem, z`key, y`key
      ensures Coupled() && root == old(root) && mem == old(mem)[z := old(mem)[z].(key := old(y.key))]
      ensures y.key == old(mem)[z].key
    {
      var tmp := z.key;
      z.key := y.key;
      y.key := tmp;
      mem := mem[z := mem[z].(key := z.key)];
    }

    method SwapValues(z: Node, y: Node)
      requires Coupled() && z in mem && y !in mem
      modifies `mem, z`value, y`value
      ensures Coupled() && root == old(root) && mem == old(mem)[z := old(mem)[z].(value := old(y.value))]
      ensures y.value == old(mem)[z].value
    {
      var tmp := z.value;
      z.value := y.value;
      y.value := tmp;
      mem := mem[z := mem[z].(value := z.value)];
    }

    /** z takes over the entry of y, which is out of the tree, and y that of z. */
    method SwapEntries(z: Node, y: Node)
      requires Coupled() && z in mem && y !in mem
      modifies `mem, z`key, z`value, y`key, y`value
      ensures Coupled() && root == old(root)
      ensures mem == old(mem)[z := old(mem)[z].(key := old(y.key), value := old(y.value))]
      ensures y.key == old(mem)[z].key && y.value == old(mem)[z].value
    {
      hide Coupled;
      SwapKeys(z, y);
      SwapValues(z, y);
    }

    /** The entry of the successor y, which is out of the tree, moves to z. */
    method MoveEntry(z: Node, y: Node, ghost t: Tree, ghost c: Ctx, ghost c0: Ctx)
      requires Holds(t, c) && c0.In? && Spine(c, c0) && z == c0.cell.n && y !in mem
      modifies this, mem.Keys, y
      ensures mem.Keys == old(mem.Keys) && y.color == old(y.color)
      ensures y.key == c0.cell.key && y.value == c0.cell.value
      ensures Holds(t, Renamed(c, c0, old(y.key), old(y.value)))
      ensures Top(t, nil) in mem && mem[Top(t, nil)].parent == old(mem)[Top(t, nil)].parent
    {
      GuardReads(t, c);
      RenamedShape(mem, root, t, c, c0, nil, y.key, y.value);
      EntryAt(mem, c, c0, Top(t, nil), nil);
      hide Shape, Coupled;
      SwapEntries(z, y);
    }

    /** The node z, brought into focus. */
    lemma {:induction false} Locate(t: Tree, c: Ctx, h: nat, z: Node) returns (t': Tree, c': Ctx, h': nat)
      requires Holds(t, c) && Balanced(t, c, h) && z in Nodes(t)
      ensures Holds(t', c') && Balanced(t', c', h') && t'.N? && t'.cell.n == z && Whole(t', c') == Whole(t, c)
      decreases t
    {
      if t.cell.n == z {
        t', c', h' := t, c, h;
      } else {
        var s := if z in Nodes(t.left) then Lft else Rgt;
        var h1 := StepDown(s, t, c, h);
        hide Holds, Whole, Balanced;
        LiftHolds(Kid(t, s), Below1(s, t, c));
        t', c', h' := Locate(Kid(t, s), Below1(s, t, c), h1, z);
      }
    }

    /** Take y, which has at most one child, out of the tree; x is that child or the sentinel. */
    method TakeOut(y: Node, ghost t: Tree, ghost c: Ctx) returns (x: Node, ghost s: Side)
      requires Holds(t, c) && t.N? && y == t.cell.n && (t.left.Leaf? || t.right.Leaf?)
      modifies this, mem.Keys
      ensures Kid(t, Other(s)).Leaf? && (t.left.Leaf? ==> s == Rgt)
      ensures mem.Keys == old(mem.Keys) - {y} && x == Top(Kid(t, s), nil) && x in mem && mem[x].parent == Parent(c, nil)
      ensures y.color == t.cell.color && y.key == t.cell.key && y.value == t.cell.value
      ensures Holds(Kid(t, s), c)
    {
      KidReads(Lft, t, c);
      KidReads(Rgt, t, c);
      Reads(t.left, Below1(Lft, t, c));
      Reads(t.right, Below1(Rgt, t, c));
      hide Holds, Coupled, Child;
      x := nil;
      s := if t.left.N? then Lft else Rgt;
      if Child(Lft, y) != nil {
        x := Child(Lft, y);
      } else if Child(Rgt, y) != nil {
        x := Child(Rgt, y);
      }
      Unlink(y, x, t, s, c);
    }

    /** The end of a deletion: a black node that left makes the fix-up necessary. */
    method Finish(y: Node, x: Node, ghost t: Tree, ghost s: Side, ghost c: Ctx,
        ghost h: nat) returns (ghost result: Tree)
      requires t.N? && Remains(t, s, c, h) && Holds(Kid(t, s), c) && y !in mem
      requires y.color == t.cell.color && x == Top(Kid(t, s), nil) && x in mem && mem[x].parent == Parent(c, nil)
      modifies this, mem.Keys
      ensures mem.Keys == old(mem.Keys) && y.key == old(y.key) && y.value == old(y.value)
      ensures Holds(result, Root) && RedBlack(result) && InOrder(result) == Whole(Kid(t, s), c)
    {
      if y.color == Black {
        hide Holds, DeleteState, RedBlack, InOrder, Whole;
        result := DeleteFixup(x, Kid(t, s), c, h - 1);
      } else {
        ghost var k := PlugRB(Kid(t, s), c, h);
        hide Holds, InOrder, Whole, RB;
        PlugHolds(Kid(t, s), c);
        result := Plug(Kid(t, s), c);
      }
    }

    /** The node that leaves: z itself, or its successor when z has two children. */
    method Choose(z: Node, ghost t: Tree, ghost c: Ctx, ghost h: nat)
      returns (y: Node, ghost ty: Tree, ghost cy: Ctx, ghost hy: nat)
      requires Holds(t, c) && t.N? && z == t.cell.n && Balanced(t, c, h)
      ensures Holds(ty, cy) && ty.N? && y == ty.cell.n && Balanced(ty, cy, hy) && Whole(ty, cy) == Whole(t, c)
      ensures y == z ==> ty == t && cy == c && (ty.left.Leaf? || ty.right.Leaf?)
      ensures y != z ==> ty.left.Leaf? && Spine(cy, Below1(Rgt, t, c))
    {
      KidReads(Lft, t, c);
      KidReads(Rgt, t, c);
      Reads(t.left, Below1(Lft, t, c));
      Reads(t.right, Below1(Rgt, t, c));
      hide Holds, Coupled, Child, Balanced, Whole;
      if Child(Lft, z) == nil || Child(Rgt, z) == nil {
        y, ty, cy, hy := z, t, c, h;
      } else {
        y, ty, cy, hy := Successor(z, t, c, h);
        SpineNodes(ty, cy, t, c);
      }
    }

    /** The successor of the focus is another node. */
    lemma SpineNodes(ty: Tree, cy: Ctx, t: Tree, c: Ctx)
      requires Holds(ty, cy) && ty.N? && t.N? && Spine(cy, Below1(Rgt, t, c))
      ensures ty.cell.n != t.cell.n && nil != t.cell.n
    {
      RenamedNodes(cy, Below1(Rgt, t, c), [], []);
    }

    /** Take out the node y that leaves for z, and move its entry to z if it is another one. */
    method Withdraw(z: Node, ghost t: Tree, ghost c: Ctx, ghost h: nat)
      returns (y: Node, x: Node, ghost ty: Tree, ghost s: Side, ghost cx: Ctx, ghost hy: nat)
      requires Holds(t, c) && t.N? && z == t.cell.n && Balanced(t, c, h)
      modifies this, mem.Keys
      ensures ty.N? && Remains(ty, s, cx, hy) && Holds(Kid(ty, s), cx)
      ensures Removed(Whole(t, c), PairOf(t.cell), Whole(Kid(ty, s), cx))
      ensures y.color == ty.cell.color && y.key == t.cell.key && y.value == t.cell.value
      ensures y in old(mem) && mem.Keys == old(mem.Keys) - {y}
      ensures x == Top(Kid(ty, s), nil) && x in mem && mem[x].parent == Parent(cx, nil)
    {
      hide Holds, Coupled, Balanced, Whole, Remains, Spine, Removed;
      ghost var cy;
      y, ty, cy, hy := Choose(z, t, c, h);
      Reads(ty, cy);
      x, s := TakeOut(y, ty, cy);
      cx := cy;
      if y != z {
        ghost var c0 := Below1(Rgt, t, c);
        RemainsRenamed(ty, s, cy, c0, y.key, y.value, hy);
        SuccessorOrder(ty, cy, c0);
        cx := Renamed(cy, c0, y.key, y.value);
        RenamedParent(cy, c0, y.key, y.value, nil);
        MoveEntry(z, y, Kid(ty, s), cy, c0);
      } else {
        RemainsSelf(ty, s, cy, hy);
        UnlinkOrder(ty, s, cy);
      }
    }

    lemma FocusOn(z: Node) returns (t: Tree, c: Ctx, h: nat)
      requires Valid() && z in Nodes(tree)
      ensures Holds(t, c) && Balanced(t, c, h) && t.N? && t.cell.n == z && Whole(t, c) == InOrder(tree)
      ensures z.key == t.cell.key && z.value == t.cell.value
    {
      var h0: nat :| RB(tree, h0);
      WholeAtRoot(tree);
      t, c, h := Locate(tree, Root, h0, z);
      Reads(t, c);
    }

    /** Delete the node z of the tree; the node returned is out of the tree and carries the entry of z. */
    method Delete(z: Node) returns (y: Node)
      requires Valid() && z in Nodes(tree)
      modifies this, mem.Keys
      ensures Valid() && mem.Keys == old(mem.Keys) - {y} && y in old(mem)
      ensures y.key == old(z.key) && y.value == old(z.value)
      ensures old(z.key) in old(Contents()) && Contents() == old(Contents()) - {old(z.key)}
    {
      hide Holds, Coupled, RedBlack, Balanced, Whole, InOrder, Sorted, MapOf, Remains, Nodes, Removed, RB;
      ghost var t, c, h := FocusOn(z);
      ghost var before := InOrder(tree);
      ghost var ty, s, cx, hy;
      var x;
      y, x, ty, s, cx, hy := Withdraw(z, t, c, h);
      tree := Finish(y, x, ty, s, cx, hy);
      RemovedMap(before, PairOf(t.cell), InOrder(tree));
    }

    // ---- the engine ----

    method Set(key: Option<Str>, value: Option<Str>) returns (ret: int)
      requires Valid()
      modifies this, mem.Keys
      ensures Valid() && fresh(mem.Keys - old(mem.Keys))
      ensures key.None? || value.None? ==> ret == -1 && Contents() == old(Contents())
      ensures key.Some? && value.Some? ==>
        && ret == (if key.value in old(Contents()) then 1 else 0)
        && Contents() == AfterSet(old(Contents()), key.value, value.value)
    {
      hide Valid, Contents;
      if key.None? || value.None? {
        return -1;
      }
      var found := Get(key);
      if found.Some? {
        return 1;
      }
      var node := new Node(key.value, value.value);
      Insert(node);
      return 0;
    }

    method Get(key: Option<Str>) returns (value: Option<Str>)
      requires Valid()
      ensures value == Lookup(Contents(), key)
    {
      if key.None? {
        return None;
      }
      var node, t, c, d, n := Search(key.value);
      if node == nil {
        return None;
      }
      return Some(node.value);
    }

    method Del(key: Option<Str>) returns (ret: int)
      requires Valid()
      modifies this, mem.Keys
      ensures Valid() && mem.Keys <= old(mem.Keys)
      ensures key.None? ==> ret == -1 && Contents() == old(Contents())
      ensures key.Some? ==>
        && ret == (if key.value in old(Contents()) then 0 else 1)
        && Contents() == AfterDel(old(Contents()), key.value)
    {
      if key.None? {
        return -1;
      }
      hide Valid, Contents, OnPath;
      var node, t, c, d, n := Search(key.value);
      if node == nil {
        return 1;
      }
      var cur := Delete(node);
      return 0;
    }

    method Mod(key: Option<Str>, value: Option<Str>) returns (ret: int)
      requires Valid()
      modifies this, mem.Keys
      ensures Valid() && mem.Keys == old(mem.Keys)
      ensures key.None? || value.None? ==> ret == -1 && Contents() == old(Contents())
      ensures key.Some? && value.Some? ==>
        && ret == (if key.value in old(Contents()) then 0 else 1)
        && Contents() == AfterMod(old(Contents()), key.value, value.value)
    {
      if key.None? || value.None? {
        return -1;
      }
      hide Holds, OnPath, Sorted, InOrder, MapOf, Whole, RedBlack, Plug, Balanced;
      var node, t, c, d, n := Search(key.value);
      if node == nil {
        return 1;
      }
      ghost var h := PathBalanced(t, c, key.value, d);
      RevaluedKeeps(t, c, h, value.value);
      SetValueAt(node, value.value, t, c);
      PlugHolds(Revalued(t, value.value), c);
      tree := Plug(Revalued(t, value.value), c);
      return 0;
    }

    method Exist(key: Option<Str>) returns (ret: int)
      requires Valid()
      ensures ret == if key.None? then -1 else if key.value in Contents() then 0 else 1
    {
      if key.None? {
        return -1;
      }
      var node, t, c, d, n := Search(key.value);
      return if node == nil then 1 else 0;
    }

    method SetValueAt(n: Node, v: Str, ghost t: Tree, ghost c: Ctx)
      requires Holds(t, c) && t.N? && n == t.cell.n
      modifies `mem, n`value
      ensures mem.Keys == old(mem.Keys) && root == old(root) && Holds(Revalued(t, v), c)
    {
      Reads(t, c);
      RevaluedAt(mem, root, t, c, nil, v);
      hide Shape;
      n.value := v;
      mem := mem[n := mem[n].(value := v)];
    }

    lemma PathNode(t: Tree, c: Ctx, k: Str, d: nat)
      requires Valid() && OnPath(t, c, k, d) && t.N?
      ensures t.cell.n in Nodes(tree) && t.cell.n.key == t.cell.key && t.cell.n.value == t.cell.value
    {
      Reads(t, c);
      PlugNodes(t, c);
    }

    lemma PathBalanced(t: Tree, c: Ctx, k: Str, d: nat) returns (h: nat)
      requires OnPath(t, c, k, d)
      ensures Holds(t, c) && Balanced(t, c, h) && Whole(t, c) == InOrder(tree)
    {
      h :| Balanced(t, c, h);
    }
  }
}
