/** The nodes of the red-black tree, and trees with one place in focus as the memory holds them. */
module RbShape {
  import opened Bytes

  datatype Color = Red | Black
  datatype Side = Lft | Rgt

  class Node {
    var color: Color
    var right: Node?
    var left: Node?
    var parent: Node?
    var key: Str
    var value: Str

    constructor (key: Str, value: Str)
      ensures this.key == key && this.value == value
    {
      this.key, this.value := key, value;
      color, left, right, parent := Black, null, null, null;
    }
  }

  /** The fields of one node, and the fields of all nodes of a tree. */
  datatype Rec = Rec(color: Color, left: Node?, right: Node?, parent: Node?, key: Str, value: Str)
  type Mem = map<Node, Rec>

  /** A node without its links. */
  datatype Cell = Cell(n: Node, color: Color, key: Str, value: Str)

  datatype Tree = Leaf | N(left: Tree, cell: Cell, right: Tree)

  /** A tree with a hole: the hole is the `side` child of `cell`, whose other child is `sib`. */
  datatype Ctx = Root | In(side: Side, cell: Cell, sib: Tree, up: Ctx)

  function Other(s: Side): Side { if s == Lft then Rgt else Lft }

  ghost function Mk(s: Side, a: Tree, x: Cell, b: Tree): Tree {
    if s == Lft then N(a, x, b) else N(b, x, a)
  }

  ghost function Kid(t: Tree, s: Side): Tree
    requires t.N?
  {
    if s == Lft then t.left else t.right
  }

  ghost function Nodes(t: Tree): set<Node> {
    if t.Leaf? then {} else Nodes(t.left) + {t.cell.n} + Nodes(t.right)
  }

  ghost function CtxNodes(c: Ctx): set<Node> {
    if c.Root? then {} else {c.cell.n} + Nodes(c.sib) + CtxNodes(c.up)
  }

  /** No node occurs twice. */
  ghost predicate Distinct(t: Tree) {
    t.N? ==>
      && Distinct(t.left) && Distinct(t.right)
      && t.cell.n !in Nodes(t.left) && t.cell.n !in Nodes(t.right) && Nodes(t.left) !! Nodes(t.right)
  }

  ghost predicate CtxDistinct(c: Ctx) {
    c.In? ==>
      && Distinct(c.sib) && CtxDistinct(c.up)
      && c.cell.n !in Nodes(c.sib) && c.cell.n !in CtxNodes(c.up) && Nodes(c.sib) !! CtxNodes(c.up)
  }

  ghost function Top(t: Tree, nil: Node): Node { if t.N? then t.cell.n else nil }

  ghost function Parent(c: Ctx, nil: Node): Node { if c.Root? then nil else c.cell.n }

  ghost function RootOf(c: Ctx, child: Node): Node {
    if c.Root? then child else RootOf(c.up, c.cell.n)
  }

  /** The memory holds the cell x with child a on side s, child b on the other side, and parent p. */
  ghost predicate Links(m: Mem, x: Cell, s: Side, a: Node, b: Node, p: Node) {
    && x.n in m
    && m[x.n] == Rec(x.color, if s == Lft then a else b, if s == Lft then b else a, p, x.key, x.value)
  }

  ghost predicate TopAt(m: Mem, t: Tree, p: Node, nil: Node) {
    t.N? ==> Links(m, t.cell, Lft, Top(t.left, nil), Top(t.right, nil), p)
  }

  ghost predicate TreeAt(m: Mem, t: Tree, p: Node, nil: Node) {
    t.N? ==> TopAt(m, t, p, nil) && TreeAt(m, t.left, t.cell.n, nil) && TreeAt(m, t.right, t.cell.n, nil)
  }

  ghost predicate HookAt(m: Mem, c: Ctx, child: Node, nil: Node) {
    c.In? ==> Links(m, c.cell, c.side, child, Top(c.sib, nil), Parent(c.up, nil))
  }

  ghost predicate CtxAt(m: Mem, c: Ctx, child: Node, nil: Node) {
    c.In? ==> HookAt(m, c, child, nil) && TreeAt(m, c.sib, c.cell.n, nil) && CtxAt(m, c.up, c.cell.n, nil)
  }

  ghost predicate Apart(t: Tree, c: Ctx, nil: Node) {
    Distinct(t) && CtxDistinct(c) && Nodes(t) !! CtxNodes(c) && nil !in Nodes(t) && nil !in CtxNodes(c)
  }

  /** The memory holds, below the pointer root, the tree t in the context c: every link and parent pointer. */
  ghost predicate Shape(m: Mem, root: Node, t: Tree, c: Ctx, nil: Node) {
    && Apart(t, c, nil)
    && root == RootOf(c, Top(t, nil))
    && TreeAt(m, t, Parent(c, nil), nil)
    && CtxAt(m, c, Top(t, nil), nil)
  }

  ghost predicate Agree(m: Mem, m': Mem, s: set<Node>) {
    forall n :: n in s ==> n in m && n in m' && m[n] == m'[n]
  }

  lemma {:induction false} TreeInMem(m: Mem, t: Tree, p: Node, nil: Node)
    requires TreeAt(m, t, p, nil)
    ensures Nodes(t) <= m.Keys
  {
    if t.N? {
      TreeInMem(m, t.left, t.cell.n, nil);
      TreeInMem(m, t.right, t.cell.n, nil);
    }
  }

  lemma {:induction false} CtxInMem(m: Mem, c: Ctx, child: Node, nil: Node)
    requires CtxAt(m, c, child, nil)
    ensures CtxNodes(c) <= m.Keys
  {
    if c.In? {
      TreeInMem(m, c.sib, c.cell.n, nil);
      CtxInMem(m, c.up, c.cell.n, nil);
    }
  }

  lemma {:induction false} RootInCtx(c: Ctx, x: Node)
    requires c.In?
    ensures RootOf(c, x) in CtxNodes(c)
  {
    if c.up.In? {
      RootInCtx(c.up, c.cell.n);
    }
  }

  lemma {:induction false} TreeFrame(m: Mem, m': Mem, t: Tree, p: Node, nil: Node)
    requires TreeAt(m, t, p, nil) && Agree(m, m', Nodes(t))
    ensures TreeAt(m', t, p, nil)
  {
    if t.N? {
      TreeFrame(m, m', t.left, t.cell.n, nil);
      TreeFrame(m, m', t.right, t.cell.n, nil);
    }
  }

  lemma {:induction false} CtxFrame(m: Mem, m': Mem, c: Ctx, child: Node, nil: Node)
    requires CtxAt(m, c, child, nil) && Agree(m, m', CtxNodes(c))
    ensures CtxAt(m', c, child, nil)
  {
    if c.In? {
      TreeFrame(m, m', c.sib, c.cell.n, nil);
      CtxFrame(m, m', c.up, c.cell.n, nil);
    }
  }

  /** Only the top cell of a tree changed, to t' with the same children. */
  lemma Retop(m: Mem, m': Mem, t: Tree, t': Tree, q: Node, p: Node, nil: Node)
    requires TreeAt(m, t, q, nil) && Distinct(t) && TopAt(m', t', p, nil)
    requires if t.Leaf? then t'.Leaf? else t'.N? && t'.left == t.left && t'.right == t.right && t'.cell.n == t.cell.n
    requires Agree(m, m', Nodes(t) - {Top(t, nil)})
    ensures TreeAt(m', t', p, nil)
  {
    if t.N? {
      TreeFrame(m, m', t.left, t.cell.n, nil);
      TreeFrame(m, m', t.right, t.cell.n, nil);
    }
  }

  /** Only the innermost frame of a context changed: its hole now holds y. */
  lemma Rehook(m: Mem, m': Mem, c: Ctx, x: Node, y: Node, nil: Node)
    requires CtxAt(m, c, x, nil) && CtxDistinct(c) && HookAt(m', c, y, nil)
    requires Agree(m, m', CtxNodes(c) - {Parent(c, nil)})
    ensures CtxAt(m', c, y, nil)
  {
    if c.In? {
      TreeFrame(m, m', c.sib, c.cell.n, nil);
      CtxFrame(m, m', c.up, c.cell.n, nil);
    }
  }

  lemma MkAt(m: Mem, s: Side, a: Tree, x: Cell, b: Tree, p: Node, nil: Node)
    ensures TreeAt(m, Mk(s, a, x, b), p, nil) <==>
            Links(m, x, s, Top(a, nil), Top(b, nil), p) && TreeAt(m, a, x.n, nil) && TreeAt(m, b, x.n, nil)
  {
  }

  lemma MkNodes(s: Side, a: Tree, x: Cell, b: Tree)
    ensures Nodes(Mk(s, a, x, b)) == Nodes(a) + {x.n} + Nodes(b)
    ensures Distinct(Mk(s, a, x, b)) <==>
            Distinct(a) && Distinct(b) && x.n !in Nodes(a) && x.n !in Nodes(b) && Nodes(a) !! Nodes(b)
  {
  }

  /** Moving the focus to the parent, or back to the child, leaves the memory as it is. */
  lemma Zip(m: Mem, root: Node, t: Tree, c: Ctx, nil: Node)
    requires c.In?
    ensures Shape(m, root, t, c, nil) <==> Shape(m, root, Mk(c.side, t, c.cell, c.sib), c.up, nil)
  {
    MkNodes(c.side, t, c.cell, c.sib);
    MkAt(m, c.side, t, c.cell, c.sib, Parent(c.up, nil), nil);
  }

  /** A rotation that moves the side s down: its pivot is the child on the other side. */
  ghost predicate CanRotate(s: Side, t: Tree) {
    t.N? && Kid(t, Other(s)).N?
  }

  ghost function Rotate(s: Side, t: Tree): Tree
    requires CanRotate(s, t)
  {
    var y := Kid(t, Other(s));
    Mk(s, Mk(s, Kid(t, s), t.cell, Kid(y, s)), y.cell, Kid(y, Other(s)))
  }

  lemma RotateNodes(s: Side, t: Tree)
    requires CanRotate(s, t)
    ensures Nodes(Rotate(s, t)) == Nodes(t) && (Distinct(t) ==> Distinct(Rotate(s, t)))
  {
    var y := Kid(t, Other(s));
    var a, b, d := Kid(t, s), Kid(y, s), Kid(y, Other(s));
    assert t == Mk(s, a, t.cell, y) && y == Mk(s, b, y.cell, d);
    hide Mk, Nodes, Distinct;
    MkNodes(s, b, y.cell, d);
    MkNodes(s, a, t.cell, y);
    MkNodes(s, a, t.cell, b);
    MkNodes(s, Mk(s, a, t.cell, b), y.cell, d);
  }

  /** What a rotation must leave in memory: the three changed cells, and the rest untouched. */
  lemma RotatedTree(m: Mem, m': Mem, s: Side, t: Tree, p: Node, nil: Node)
    requires CanRotate(s, t) && TreeAt(m, t, p, nil) && Distinct(t) && nil !in Nodes(t)
    requires var y := Kid(t, Other(s));
      && Links(m', t.cell, s, Top(Kid(t, s), nil), Top(Kid(y, s), nil), y.cell.n)
      && Links(m', y.cell, s, t.cell.n, Top(Kid(y, Other(s)), nil), p)
      && TopAt(m', Kid(y, s), t.cell.n, nil)
      && Agree(m, m', Nodes(t) - {t.cell.n, y.cell.n, Top(Kid(y, s), nil)})
    ensures TreeAt(m', Rotate(s, t), p, nil)
  {
    var x, y := t.cell.n, Kid(t, Other(s));
    var a, b, d := Kid(t, s), Kid(y, s), Kid(y, Other(s));
    assert TreeAt(m, y, x, nil) && Distinct(y);
    TreeFrame(m, m', a, x, nil);
    Retop(m, m', b, b, y.cell.n, x, nil);
    TreeFrame(m, m', d, y.cell.n, nil);
    MkAt(m', s, a, t.cell, b, y.cell.n, nil);
    MkAt(m', s, Mk(s, a, t.cell, b), y.cell, d, p, nil);
  }

  /** The cells that a rotation of t reads and writes, and that no two of them are the same node. */
  ghost predicate RotationAt(m: Mem, s: Side, t: Tree, c: Ctx, nil: Node)
    requires CanRotate(s, t)
  {
    var y := Kid(t, Other(s));
    var a, b, d := Kid(t, s), Kid(y, s), Kid(y, Other(s));
    && Links(m, t.cell, s, Top(a, nil), y.cell.n, Parent(c, nil))
    && Links(m, y.cell, s, Top(b, nil), Top(d, nil), t.cell.n)
    && TopAt(m, b, y.cell.n, nil)
    && HookAt(m, c, t.cell.n, nil)
    && t.cell.n != y.cell.n && Top(b, nil) !in {t.cell.n, y.cell.n}
    && nil !in {t.cell.n, y.cell.n} && (b.N? ==> b.cell.n != nil)
    && (c.In? ==> c.cell.n !in {nil, t.cell.n, y.cell.n, Top(b, nil)} && Top(c.sib, nil) != t.cell.n)
  }

  lemma RotationParts(m: Mem, root: Node, s: Side, t: Tree, c: Ctx, nil: Node)
    requires CanRotate(s, t) && Shape(m, root, t, c, nil)
    ensures RotationAt(m, s, t, c, nil)
    ensures var y := Kid(t, Other(s));
      && t.cell.n in m && y.cell.n in m && t.cell.n != y.cell.n && m[t.cell.n].parent == Parent(c, nil)
      && (s == Lft ==> t.right == y && m[t.cell.n].right == y.cell.n && m[y.cell.n].left == Top(Kid(y, s), nil))
      && (s == Rgt ==> t.left == y && m[t.cell.n].left == y.cell.n && m[y.cell.n].right == Top(Kid(y, s), nil))
      && (Kid(y, s).N? ==> Top(Kid(y, s), nil) in m && Top(Kid(y, s), nil) != nil)
      && (c.In? ==> c.cell.n in m && c.cell.n !in {nil, t.cell.n, y.cell.n, Top(Kid(y, s), nil)}
                    && (c.side == Lft <==> m[c.cell.n].left == t.cell.n))
  {
    var y := Kid(t, Other(s));
    assert t == Mk(s, Kid(t, s), t.cell, y) && y == Mk(s, Kid(y, s), y.cell, Kid(y, Other(s)));
    assert TreeAt(m, y, t.cell.n, nil) && Distinct(y);
    assert TreeAt(m, Kid(y, s), y.cell.n, nil) && Top(Kid(y, s), nil) in Nodes(Kid(y, s)) + {nil};
    assert c.In? ==> Top(c.sib, nil) in Nodes(c.sib) + {nil};
  }

  /** What a rotation leaves in memory: four changed cells at most. */
  ghost predicate RotationDone(m: Mem, m': Mem, s: Side, t: Tree, c: Ctx, nil: Node)
    requires CanRotate(s, t)
  {
    var y := Kid(t, Other(s));
    var a, b, d := Kid(t, s), Kid(y, s), Kid(y, Other(s));
    && Links(m', t.cell, s, Top(a, nil), Top(b, nil), y.cell.n)
    && Links(m', y.cell, s, t.cell.n, Top(d, nil), Parent(c, nil))
    && TopAt(m', b, t.cell.n, nil)
    && HookAt(m', c, y.cell.n, nil)
    && forall n :: n in m && n !in {t.cell.n, y.cell.n, Top(b, nil), Parent(c, nil)} ==> n in m' && m'[n] == m[n]
  }

  /** The memory after the top of t was given the parent p. */
  ghost function Reparent(m: Mem, t: Tree, p: Node): (r: Mem)
    ensures r.Keys == m.Keys
  {
    if t.N? && t.cell.n in m then m[t.cell.n := m[t.cell.n].(parent := p)] else m
  }

  /** The memory after the node in the hole of c was replaced by y. */
  ghost function Relink(m: Mem, c: Ctx, y: Node): (r: Mem)
    ensures r.Keys == m.Keys
  {
    if c.Root? || c.cell.n !in m then m
    else if c.side == Lft then m[c.cell.n := m[c.cell.n].(left := y)]
    else m[c.cell.n := m[c.cell.n].(right := y)]
  }

  /** The first half of a rotation: x takes the inner subtree of its child y, y the parent of x. */
  ghost function HalfRotated(m: Mem, s: Side, t: Tree): (r: Mem)
    requires CanRotate(s, t) && t.cell.n in m && Kid(t, Other(s)).cell.n in m
    ensures r.Keys == m.Keys
  {
    var x, y, b := t.cell.n, Kid(t, Other(s)).cell.n, Kid(Kid(t, Other(s)), s);
    var m1 := m[x := if s == Lft then m[x].(right := m[y].left) else m[x].(left := m[y].right)];
    var m2 := Reparent(m1, b, x);
    m2[y := m2[y].(parent := m2[x].parent)]
  }

  lemma RotationMiddle(m: Mem, s: Side, t: Tree, c: Ctx, nil: Node)
    requires CanRotate(s, t) && RotationAt(m, s, t, c, nil)
    ensures var m3 := HalfRotated(m, s, t);
      && t.cell.n in m3 && m3[t.cell.n].parent == Parent(c, nil)
      && (c.In? ==> c.cell.n in m3 && (c.side == Lft <==> m3[c.cell.n].left == t.cell.n))
  {
  }

  lemma RotationEnd(m: Mem, m4: Mem, m5: Mem, m': Mem, s: Side, t: Tree, c: Ctx, nil: Node)
    requires CanRotate(s, t) && RotationAt(m, s, t, c, nil)
    requires var x, y := t.cell.n, Kid(t, Other(s)).cell.n;
      && m4 == Relink(HalfRotated(m, s, t), c, y)
      && m5 == m4[y := if s == Lft then m4[y].(left := x) else m4[y].(right := x)]
      && m' == m5[x := m5[x].(parent := y)]
    ensures RotationDone(m, m', s, t, c, nil)
    ensures m'.Keys == m.Keys && (nil in m ==> nil in m' && m'[nil] == m[nil])
  {
  }

  lemma Rotated(m: Mem, m': Mem, root: Node, root': Node, s: Side, t: Tree, c: Ctx, nil: Node)
    requires CanRotate(s, t) && Shape(m, root, t, c, nil) && RotationDone(m, m', s, t, c, nil)
    requires root' == if c.Root? then Kid(t, Other(s)).cell.n else root
    ensures Shape(m', root', Rotate(s, t), c, nil)
  {
    TreeInMem(m, t, Parent(c, nil), nil);
    CtxInMem(m, c, t.cell.n, nil);
    RotateNodes(s, t);
    var y := Kid(t, Other(s));
    assert Top(Kid(y, s), nil) in Nodes(t) + {nil};
    RotatedTree(m, m', s, t, Parent(c, nil), nil);
    Rehook(m, m', c, t.cell.n, y.cell.n, nil);
  }

  ghost function Painted(t: Tree, col: Color): Tree
    requires t.N?
  {
    t.(cell := t.cell.(color := col))
  }

  lemma PaintedAt(m: Mem, root: Node, t: Tree, c: Ctx, nil: Node, col: Color)
    requires t.N? && Shape(m, root, t, c, nil)
    ensures t.cell.n in m
    ensures Shape(m[t.cell.n := m[t.cell.n].(color := col)], root, Painted(t, col), c, nil)
  {
    TreeInMem(m, t, Parent(c, nil), nil);
    CtxInMem(m, c, t.cell.n, nil);
    var m' := m[t.cell.n := m[t.cell.n].(color := col)];
    Retop(m, m', t, Painted(t, col), Parent(c, nil), Parent(c, nil), nil);
    CtxFrame(m, m', c, t.cell.n, nil);
  }

  /** The writes that hang z into the hole of c, one after the other. */
  lemma AttachSteps(m: Mem, m': Mem, c: Ctx, nil: Node, z: Node, r: Rec)
    requires z !in m && (c.In? ==> c.cell.n in m)
    requires m' == Relink(m[z := r.(parent := Parent(c, nil))], c, z)
    ensures z in m' && m'[z] == r.(parent := Parent(c, nil))
    ensures m'[z := Rec(Red, nil, nil, Parent(c, nil), r.key, r.value)]
         == Relink(m, c, z)[z := Rec(Red, nil, nil, Parent(c, nil), r.key, r.value)]
  {
  }

  /** A fresh red node z put into the empty hole of c. */
  lemma AttachedAt(m: Mem, m': Mem, root: Node, root': Node, c: Ctx, nil: Node, z: Node, k: Str, v: Str)
    requires Shape(m, root, Leaf, c, nil) && z !in m && z != nil
    requires m' == Relink(m, c, z)[z := Rec(Red, nil, nil, Parent(c, nil), k, v)]
    requires root' == if c.Root? then z else root
    ensures Shape(m', root', N(Leaf, Cell(z, Red, k, v), Leaf), c, nil)
    ensures m'.Keys == m.Keys + {z} && (nil in m ==> m'[nil] == m[nil])
  {
    CtxInMem(m, c, nil, nil);
    Rehook(m, m', c, nil, z, nil);
    assert TreeAt(m', N(Leaf, Cell(z, Red, k, v), Leaf), Parent(c, nil), nil);
  }

  /** The node y on top of t, which has at most one child, taken out: its child subtree hangs in its place. */
  lemma UnlinkedAt(m: Mem, m1: Mem, m': Mem, root: Node, root': Node, t: Tree, s: Side, c: Ctx, nil: Node)
    requires t.N? && Kid(t, Other(s)).Leaf? && Shape(m, root, t, c, nil) && nil in m
    requires var x := Kid(t, s);
      && Top(x, nil) in m
      && m1 == Relink(m[Top(x, nil) := m[Top(x, nil)].(parent := Parent(c, nil))], c, Top(x, nil))
      && m' == m1 - {t.cell.n}
      && root' == if c.Root? then Top(x, nil) else root
    ensures Shape(m', root', Kid(t, s), c, nil)
    ensures t.cell.n in m1 && var r := m1[t.cell.n]; t.cell == Cell(t.cell.n, r.color, r.key, r.value)
    ensures nil in m' && m'[nil].color == m[nil].color
    ensures Top(Kid(t, s), nil) in m' && m'[Top(Kid(t, s), nil)].parent == Parent(c, nil)
  {
    var x := Kid(t, s);
    TreeInMem(m, t, Parent(c, nil), nil);
    CtxInMem(m, c, t.cell.n, nil);
    assert TreeAt(m, x, t.cell.n, nil) && Distinct(x);
    Retop(m, m', x, x, t.cell.n, Parent(c, nil), nil);
    Rehook(m, m', c, t.cell.n, Top(x, nil), nil);
  }

  /** The context c goes from c0 down to the left only. */
  ghost predicate Spine(c: Ctx, c0: Ctx) {
    c == c0 || (c.In? && c.side == Lft && Spine(c.up, c0))
  }

  /** The context c with the entry of the frame c0 replaced. */
  ghost function Renamed(c: Ctx, c0: Ctx, k: Str, v: Str): Ctx
    requires Spine(c, c0) && c0.In?
  {
    if c == c0 then c.(cell := c.cell.(key := k, value := v)) else c.(up := Renamed(c.up, c0, k, v))
  }

  lemma {:induction false} RenamedNodes(c: Ctx, c0: Ctx, k: Str, v: Str)
    requires Spine(c, c0) && c0.In?
    ensures var c' := Renamed(c, c0, k, v);
      && CtxNodes(c') == CtxNodes(c) && CtxDistinct(c') == CtxDistinct(c)
      && c'.In? && c'.cell.n == c.cell.n && forall x: Node :: RootOf(c', x) == RootOf(c, x)
    ensures c0.cell.n in CtxNodes(c)
  {
    if c != c0 {
      RenamedNodes(c.up, c0, k, v);
    }
  }

  lemma {:induction false} RenamedAt(m: Mem, c: Ctx, c0: Ctx, child: Node, nil: Node, k: Str, v: Str)
    requires Spine(c, c0) && c0.In? && CtxAt(m, c, child, nil) && CtxDistinct(c)
    ensures c0.cell.n in m
    ensures CtxAt(m[c0.cell.n := m[c0.cell.n].(key := k, value := v)], Renamed(c, c0, k, v), child, nil)
  {
    CtxInMem(m, c, child, nil);
    RenamedNodes(c, c0, k, v);
    var z := c0.cell.n;
    var m' := m[z := m[z].(key := k, value := v)];
    if c == c0 {
      TreeFrame(m, m', c.sib, c.cell.n, nil);
      CtxFrame(m, m', c.up, c.cell.n, nil);
    } else {
      RenamedNodes(c.up, c0, k, v);
      TreeFrame(m, m', c.sib, c.cell.n, nil);
      RenamedAt(m, c.up, c0, c.cell.n, nil, k, v);
    }
  }

  lemma RenamedShape(m: Mem, root: Node, t: Tree, c: Ctx, c0: Ctx, nil: Node, k: Str, v: Str)
    requires Spine(c, c0) && c0.In? && Shape(m, root, t, c, nil)
    ensures c0.cell.n in m && c0.cell.n != nil && c0.cell.n !in Nodes(t)
    ensures Shape(m[c0.cell.n := m[c0.cell.n].(key := k, value := v)], root, t, Renamed(c, c0, k, v), nil)
  {
    var z := c0.cell.n;
    CtxInMem(m, c, Top(t, nil), nil);
    TreeInMem(m, t, Parent(c, nil), nil);
    RenamedNodes(c, c0, k, v);
    RenamedAt(m, c, c0, Top(t, nil), nil, k, v);
    TreeFrame(m, m[z := m[z].(key := k, value := v)], t, Parent(c, nil), nil);
  }

  lemma {:induction false} EntryAt(m: Mem, c: Ctx, c0: Ctx, child: Node, nil: Node)
    requires Spine(c, c0) && c0.In? && CtxAt(m, c, child, nil)
    ensures c0.cell.n in m && m[c0.cell.n].key == c0.cell.key && m[c0.cell.n].value == c0.cell.value
  {
    if c != c0 {
      EntryAt(m, c.up, c0, c.cell.n, nil);
    }
  }

  lemma RenamedParent(c: Ctx, c0: Ctx, k: Str, v: Str, nil: Node)
    requires Spine(c, c0) && c0.In?
    ensures Parent(Renamed(c, c0, k, v), nil) == Parent(c, nil)
  {
  }

  ghost function Revalued(t: Tree, v: Str): Tree
    requires t.N?
  {
    t.(cell := t.cell.(value := v))
  }

  lemma RevaluedAt(m: Mem, root: Node, t: Tree, c: Ctx, nil: Node, v: Str)
    requires t.N? && Shape(m, root, t, c, nil)
    ensures t.cell.n in m && t.cell.n != nil
    ensures Shape(m[t.cell.n := m[t.cell.n].(value := v)], root, Revalued(t, v), c, nil)
  {
    TreeInMem(m, t, Parent(c, nil), nil);
    CtxInMem(m, c, t.cell.n, nil);
    var m' := m[t.cell.n := m[t.cell.n].(value := v)];
    Retop(m, m', t, Revalued(t, v), Parent(c, nil), Parent(c, nil), nil);
    CtxFrame(m, m', c, t.cell.n, nil);
  }
}
