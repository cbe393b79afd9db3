/**
 How a memory of linked cells represents a tree, and what each group of pointer
 writes of the rebalancing code does to the tree that is represented.

 A memory is a plain map from nodes to the contents of their mutable fields, so all
 statements here are about values; `RbTree` keeps such a map in step with the fields.
 */
module RbLinks {
  import opened RbShape

  datatype Cell = Cell(left: Node?, right: Node?, parent: Node?, black: bool, sub: nat)

  type Mem = map<Node, Cell>

  ghost function MkCell(dir: bool, near: Node?, far: Node?, parent: Node?, black: bool, sub: nat): Cell {
    if dir then Cell(near, far, parent, black, sub) else Cell(far, near, parent, black, sub)
  }

  ghost function Kid(c: Cell, dir: bool): Node? {
    if dir then c.left else c.right
  }

  ghost function SetKid(c: Cell, dir: bool, x: Node?): Cell {
    if dir then c.(left := x) else c.(right := x)
  }

  /** The cells reachable from `t`'s root spell `t`, and its root's parent is `p`. */
  ghost predicate Linked(m: Mem, t: Tree, p: Node?) {
    match t
    case Leaf => true
    case Tree(l, n, b, s, r) =>
      n in m && m[n] == Cell(Root(l), Root(r), p, b, s) && Linked(m, l, n) && Linked(m, r, n)
  }

  /** The cells above a hole spell `ctx`, with `child` in the hole and `root` on top. */
  ghost predicate CtxLinked(m: Mem, ctx: Ctx, child: Node?, root: Node?) {
    match ctx
    case Top => root == child
    case In(dir, up, n, b, s, o) =>
      && n in m && m[n] == MkCell(dir, child, Root(o), Above(up), b, s)
      && Linked(m, o, n) && CtxLinked(m, up, n, root)
  }

  /** The memory has no node outside `t` and `ctx`, and none is used twice. */
  ghost predicate Once(m: Mem, ctx: Ctx, t: Tree) {
    forall x :: x in m ==> Count(t, x) + CtxCount(ctx, x) == 1
  }

  /** The whole memory is `t` plugged into `ctx`. */
  ghost predicate At(m: Mem, root: Node?, ctx: Ctx, t: Tree) {
    Linked(m, t, Above(ctx)) && CtxLinked(m, ctx, Root(t), root) && Once(m, ctx, t)
  }

  ghost function Is(x: Node, n: Node): nat {
    if x == n then 1 else 0
  }

  lemma Occurs(t: Tree)
    ensures t.Tree? ==> Count(t, t.n) >= 1
  {}

  lemma CtxOccurs(ctx: Ctx)
    ensures ctx.In? ==> CtxCount(ctx, ctx.n) >= 1
  {}

  /** `Linked` and `Count` of a node built with a direction, both directions at once. */
  lemma LinkedMk(m: Mem, dir: bool, near: Tree, n: Node, b: bool, s: nat, far: Tree, p: Node?)
    ensures Linked(m, Mk(dir, near, n, b, s, far), p) <==>
      n in m && m[n] == MkCell(dir, Root(near), Root(far), p, b, s) && Linked(m, near, n) && Linked(m, far, n)
    ensures Root(Mk(dir, near, n, b, s, far)) == n
  {}

  lemma CountMk(dir: bool, near: Tree, n: Node, b: bool, s: nat, far: Tree, x: Node)
    ensures Count(Mk(dir, near, n, b, s, far), x) == Count(near, x) + Is(x, n) + Count(far, x)
  {}

  lemma CountIn(dir: bool, up: Ctx, n: Node, b: bool, s: nat, o: Tree, x: Node)
    ensures CtxCount(In(dir, up, n, b, s, o), x) == Count(o, x) + Is(x, n) + CtxCount(up, x)
  {}

  lemma CtxLinkedIn(m: Mem, dir: bool, up: Ctx, n: Node, b: bool, s: nat, o: Tree, child: Node?, root: Node?)
    ensures CtxLinked(m, In(dir, up, n, b, s, o), child, root) <==>
      n in m && m[n] == MkCell(dir, child, Root(o), Above(up), b, s) && Linked(m, o, n) && CtxLinked(m, up, n, root)
  {}

  // ---------- moving the focus ----------

  lemma Up(m: Mem, root: Node?, dir: bool, up: Ctx, n: Node, b: bool, s: nat, o: Tree, t: Tree)
    ensures At(m, root, In(dir, up, n, b, s, o), t) <==> At(m, root, up, Mk(dir, t, n, b, s, o))
  {
    hide Count, CtxCount, Linked, CtxLinked, Mk;
    LinkedMk(m, dir, t, n, b, s, o, Above(up));
    CtxLinkedIn(m, dir, up, n, b, s, o, Root(t), root);
    forall x | x in m
      ensures Count(t, x) + CtxCount(In(dir, up, n, b, s, o), x) == Count(Mk(dir, t, n, b, s, o), x) + CtxCount(up, x)
    {
      CountMk(dir, t, n, b, s, o, x);
      CountIn(dir, up, n, b, s, o, x);
    }
  }

  lemma {:induction false} ToTop(m: Mem, root: Node?, ctx: Ctx, t: Tree)
    requires At(m, root, ctx, t)
    ensures At(m, root, Top, Plug(ctx, t))
    decreases ctx
  {
    match ctx
    case Top =>
    case In(dir, up, n, b, s, o) =>
      Up(m, root, dir, up, n, b, s, o, t);
      ToTop(m, root, up, Mk(dir, t, n, b, s, o));
  }

  // ---------- frames ----------

  /** The nodes a step writes to; `null` stands for none. */
  datatype Writes = Writes(a: Node?, b: Node?, c: Node?, d: Node?, e: Node?, f: Node?, g: Node? := null, h: Node? := null)

  ghost predicate Touched(w: Writes, x: Node) {
    x == w.a || x == w.b || x == w.c || x == w.d || x == w.e || x == w.f || x == w.g || x == w.h
  }

  /** Apart from the nodes written, the two memories agree. */
  ghost predicate Same(m: Mem, m': Mem, w: Writes) {
    forall x :: x in m && !Touched(w, x) ==> x in m' && m'[x] == m[x]
  }

  ghost predicate Absent(t: Tree, x: Node?) {
    x != null ==> Count(t, x) == 0
  }

  ghost predicate CtxAbsent(ctx: Ctx, x: Node?) {
    x != null ==> CtxCount(ctx, x) == 0
  }

  ghost predicate Avoids(t: Tree, w: Writes) {
    Absent(t, w.a) && Absent(t, w.b) && Absent(t, w.c) && Absent(t, w.d) && Absent(t, w.e) && Absent(t, w.f)
    && Absent(t, w.g) && Absent(t, w.h)
  }

  ghost predicate CtxAvoids(ctx: Ctx, w: Writes) {
    CtxAbsent(ctx, w.a) && CtxAbsent(ctx, w.b) && CtxAbsent(ctx, w.c) && CtxAbsent(ctx, w.d) && CtxAbsent(ctx, w.e) && CtxAbsent(ctx, w.f)
    && CtxAbsent(ctx, w.g) && CtxAbsent(ctx, w.h)
  }

  lemma {:induction false} Frame(m: Mem, m': Mem, t: Tree, p: Node?, w: Writes)
    requires Linked(m, t, p) && Same(m, m', w) && Avoids(t, w)
    ensures Linked(m', t, p)
  {
    match t
    case Leaf =>
    case Tree(l, n, _, _, r) =>
      assert Count(t, n) > 0;
      Frame(m, m', l, n, w);
      Frame(m, m', r, n, w);
  }

  lemma {:induction false} CtxFrame(m: Mem, m': Mem, ctx: Ctx, child: Node?, root: Node?, w: Writes)
    requires CtxLinked(m, ctx, child, root) && Same(m, m', w) && CtxAvoids(ctx, w)
    ensures CtxLinked(m', ctx, child, root)
  {
    match ctx
    case Top =>
    case In(_, up, n, _, _, o) =>
      assert CtxCount(ctx, n) > 0;
      Frame(m, m', o, n, w);
      CtxFrame(m, m', up, n, root, w);
  }

  /** The root of `t`, which `w` names last, gets a new parent and a colour. */
  lemma Adopt(m: Mem, m': Mem, t: Tree, p: Node?, p': Node?, b: bool, w: Writes)
    requires Linked(m, t, p) && Same(m, m', w) && w.f == Root(t)
    requires t.Tree? ==> Count(t, t.n) <= 1 && t.n in m && t.n in m' && m'[t.n] == m[t.n].(parent := p', black := b)
    requires Avoids(t, w.(f := null))
    ensures Linked(m', Paint(t, b), p')
  {
    if t.Tree? {
      Frame(m, m', t.left, t.n, w);
      Frame(m, m', t.right, t.n, w);
    }
  }

  lemma PaintCount(t: Tree, b: bool, x: Node)
    ensures Count(Paint(t, b), x) == Count(t, x)
  {}

  lemma PaintRoot(t: Tree, b: bool)
    ensures Root(Paint(t, b)) == Root(t)
  {}

  /** `__rb_change_child` seen from above: the node over the hole, or the root pointer,
      now leads to `child'`. */
  ghost predicate Rehung(m: Mem, m': Mem, root: Node?, root': Node?, ctx: Ctx, child': Node?) {
    if ctx.Top? then root' == child'
    else root' == root && ctx.n in m && ctx.n in m' && m'[ctx.n] == SetKid(m[ctx.n], ctx.dir, child')
  }

  lemma CtxRehang(m: Mem, m': Mem, ctx: Ctx, child: Node?, child': Node?, root: Node?, root': Node?, w: Writes)
    requires CtxLinked(m, ctx, child, root) && Same(m, m', w) && w.f == Above(ctx)
    requires ctx.In? ==> CtxCount(ctx, ctx.n) <= 1
    requires Rehung(m, m', root, root', ctx, child')
    requires CtxAvoids(ctx, w.(f := null))
    ensures CtxLinked(m', ctx, child', root')
  {
    if ctx.In? {
      Frame(m, m', ctx.other, ctx.n, w);
      CtxFrame(m, m', ctx.up, ctx.n, root, w);
    }
  }

  // ---------- rotations ----------

  ghost predicate Apart3(m: Mem, ctx: Ctx, a: Tree, c: Tree, u: Tree, p: Node, g: Node) {
    forall x :: x in m ==> Count(a, x) + Count(c, x) + Count(u, x) + CtxCount(ctx, x) + Is(x, p) + Is(x, g) == 1
  }

  /** The parts that a single rotation reassembles are still intact afterwards. */
  lemma RotatedLinks(m: Mem, m': Mem, root: Node?, root': Node?, ctx: Ctx, a: Tree, c: Tree, u: Tree,
                     p: Node, g: Node, ab: bool, cb: bool)
    requires Linked(m, a, p) && Linked(m, c, p) && Linked(m, u, g) && CtxLinked(m, ctx, g, root)
    requires p in m && g in m
    requires Apart3(m, ctx, a, c, u, p, g)
    requires a.Tree? ==> a.n in m && a.n in m' && m'[a.n] == m[a.n].(parent := p, black := ab)
    requires c.Tree? ==> c.n in m && c.n in m' && m'[c.n] == m[c.n].(parent := g, black := cb)
    requires Rehung(m, m', root, root', ctx, p)
    requires Same(m, m', Writes(p, g, null, Root(a), Root(c), Above(ctx)))
    ensures Linked(m', Paint(a, ab), p) && Linked(m', Paint(c, cb), g) && Linked(m', u, g)
    ensures CtxLinked(m', ctx, p, root')
  {
    hide Count, CtxCount, Linked, CtxLinked;
    Occurs(a); Occurs(c); CtxOccurs(ctx);
    Adopt(m, m', a, p, p, ab, Writes(p, g, null, Root(c), Above(ctx), Root(a)));
    Adopt(m, m', c, p, g, cb, Writes(p, g, null, Root(a), Above(ctx), Root(c)));
    Frame(m, m', u, g, Writes(p, g, null, Root(a), Root(c), Above(ctx)));
    CtxRehang(m, m', ctx, g, p, root, root', Writes(p, g, null, Root(a), Root(c), Above(ctx)));
  }

  /** A single rotation at `g` that lifts its child `p` on side `dir`. */
  lemma Rotated(m: Mem, m': Mem, root: Node?, root': Node?, dir: bool, ctx: Ctx,
                a: Tree, p: Node, pb: bool, ps: nat, c: Tree, g: Node, gb: bool, gs: nat, u: Tree,
                ab: bool, cb: bool, pb': bool, ps': nat, gb': bool, gs': nat)
    requires At(m, root, In(dir, ctx, g, gb, gs, u), Mk(dir, a, p, pb, ps, c))
    requires m'.Keys == m.Keys
    requires p in m && m'[p] == MkCell(dir, Root(a), g, Above(ctx), pb', ps')
    requires g in m && m'[g] == MkCell(dir, Root(c), Root(u), p, gb', gs')
    requires a.Tree? ==> a.n in m && m'[a.n] == m[a.n].(parent := p, black := ab)
    requires c.Tree? ==> c.n in m && m'[c.n] == m[c.n].(parent := g, black := cb)
    requires Rehung(m, m', root, root', ctx, p)
    requires Same(m, m', Writes(p, g, null, Root(a), Root(c), Above(ctx)))
    ensures At(m', root', ctx, Mk(dir, Paint(a, ab), p, pb', ps', Mk(dir, Paint(c, cb), g, gb', gs', u)))
  {
    hide Count, CtxCount, Linked, CtxLinked, Mk, Paint;
    LinkedMk(m, dir, a, p, pb, ps, c, g);
    CtxLinkedIn(m, dir, ctx, g, gb, gs, u, p, root);
    forall x | x in m
      ensures Count(a, x) + Count(c, x) + Count(u, x) + CtxCount(ctx, x) + Is(x, p) + Is(x, g) == 1
    {
      CountMk(dir, a, p, pb, ps, c, x);
      CountIn(dir, ctx, g, gb, gs, u, x);
    }
    RotatedLinks(m, m', root, root', ctx, a, c, u, p, g, ab, cb);
    var a', c' := Paint(a, ab), Paint(c, cb);
    var low := Mk(dir, c', g, gb', gs', u);
    LinkedMk(m', dir, c', g, gb', gs', u, p);
    LinkedMk(m', dir, a', p, pb', ps', low, Above(ctx));
    PaintRoot(a, ab); PaintRoot(c, cb);
    forall x | x in m' ensures Count(Mk(dir, a', p, pb', ps', low), x) + CtxCount(ctx, x) == 1 {
      PaintCount(a, ab, x);
      PaintCount(c, cb, x);
      CountMk(dir, c', g, gb', gs', u, x);
      CountMk(dir, a', p, pb', ps', low, x);
    }
  }

  ghost predicate Apart4(m: Mem, ctx: Ctx, a: Tree, b: Tree, c: Tree, u: Tree, p: Node, n: Node, g: Node) {
    forall x :: x in m ==>
      Count(a, x) + Count(b, x) + Count(c, x) + Count(u, x) + CtxCount(ctx, x) + Is(x, p) + Is(x, n) + Is(x, g) == 1
  }

  lemma DoublyRotatedLinks(m: Mem, m': Mem, root: Node?, root': Node?, ctx: Ctx, a: Tree, b: Tree, c: Tree, u: Tree,
                           p: Node, n: Node, g: Node, bb: bool, cb: bool)
    requires Linked(m, a, p) && Linked(m, b, n) && Linked(m, c, n) && Linked(m, u, g) && CtxLinked(m, ctx, g, root)
    requires p in m && n in m && g in m
    requires Apart4(m, ctx, a, b, c, u, p, n, g)
    requires b.Tree? ==> b.n in m && b.n in m' && m'[b.n] == m[b.n].(parent := p, black := bb)
    requires c.Tree? ==> c.n in m && c.n in m' && m'[c.n] == m[c.n].(parent := g, black := cb)
    requires Rehung(m, m', root, root', ctx, n)
    requires Same(m, m', Writes(p, g, n, Root(b), Root(c), Above(ctx)))
    ensures Linked(m', a, p) && Linked(m', Paint(b, bb), p) && Linked(m', Paint(c, cb), g) && Linked(m', u, g)
    ensures CtxLinked(m', ctx, n, root')
  {
    hide Count, CtxCount, Linked, CtxLinked;
    Occurs(b); Occurs(c); CtxOccurs(ctx);
    Frame(m, m', a, p, Writes(p, g, n, Root(b), Root(c), Above(ctx)));
    Adopt(m, m', b, n, p, bb, Writes(p, g, n, Root(c), Above(ctx), Root(b)));
    Adopt(m, m', c, n, g, cb, Writes(p, g, n, Root(b), Above(ctx), Root(c)));
    Frame(m, m', u, g, Writes(p, g, n, Root(b), Root(c), Above(ctx)));
    CtxRehang(m, m', ctx, g, n, root, root', Writes(p, g, n, Root(b), Root(c), Above(ctx)));
  }

  /** Two rotations at once: `n`, the inner child of `p`, ends up above both `p` and `g`. */
  lemma DoublyRotated(m: Mem, m': Mem, root: Node?, root': Node?, dir: bool, ctx: Ctx,
                      a: Tree, p: Node, pb: bool, ps: nat, b: Tree, n: Node, nb: bool, ns: nat, c: Tree,
                      g: Node, gb: bool, gs: nat, u: Tree,
                      bb: bool, cb: bool, pb': bool, ps': nat, nb': bool, ns': nat, gb': bool, gs': nat)
    requires At(m, root, In(!dir, In(dir, ctx, g, gb, gs, u), p, pb, ps, a), Mk(dir, b, n, nb, ns, c))
    requires m'.Keys == m.Keys
    requires p in m && m'[p] == MkCell(dir, Root(a), Root(b), n, pb', ps')
    requires n in m && m'[n] == MkCell(dir, p, g, Above(ctx), nb', ns')
    requires g in m && m'[g] == MkCell(dir, Root(c), Root(u), n, gb', gs')
    requires b.Tree? ==> b.n in m && m'[b.n] == m[b.n].(parent := p, black := bb)
    requires c.Tree? ==> c.n in m && m'[c.n] == m[c.n].(parent := g, black := cb)
    requires Rehung(m, m', root, root', ctx, n)
    requires Same(m, m', Writes(p, g, n, Root(b), Root(c), Above(ctx)))
    ensures At(m', root', ctx,
               Mk(dir, Mk(dir, a, p, pb', ps', Paint(b, bb)), n, nb', ns', Mk(dir, Paint(c, cb), g, gb', gs', u)))
  {
    hide Count, CtxCount, Linked, CtxLinked, Mk, Paint;
    var mid := In(dir, ctx, g, gb, gs, u);
    LinkedMk(m, dir, b, n, nb, ns, c, p);
    CtxLinkedIn(m, !dir, mid, p, pb, ps, a, n, root);
    CtxLinkedIn(m, dir, ctx, g, gb, gs, u, p, root);
    forall x | x in m
      ensures Count(a, x) + Count(b, x) + Count(c, x) + Count(u, x) + CtxCount(ctx, x) + Is(x, p) + Is(x, n) + Is(x, g) == 1
    {
      CountMk(dir, b, n, nb, ns, c, x);
      CountIn(!dir, mid, p, pb, ps, a, x);
      CountIn(dir, ctx, g, gb, gs, u, x);
    }
    DoublyRotatedLinks(m, m', root, root', ctx, a, b, c, u, p, n, g, bb, cb);
    var b', c' := Paint(b, bb), Paint(c, cb);
    var near, far := Mk(dir, a, p, pb', ps', b'), Mk(dir, c', g, gb', gs', u);
    LinkedMk(m', dir, a, p, pb', ps', b', n);
    LinkedMk(m', dir, c', g, gb', gs', u, n);
    LinkedMk(m', dir, near, n, nb', ns', far, Above(ctx));
    PaintRoot(b, bb); PaintRoot(c, cb);
    forall x | x in m' ensures Count(Mk(dir, near, n, nb', ns', far), x) + CtxCount(ctx, x) == 1 {
      PaintCount(b, bb, x);
      PaintCount(c, cb, x);
      CountMk(dir, a, p, pb', ps', b', x);
      CountMk(dir, c', g, gb', gs', u, x);
      CountMk(dir, near, n, nb', ns', far, x);
    }
  }

  // ---------- what the code can read, and which nodes differ ----------

  ghost predicate Differ(x: Node?, y: Node?) {
    x != null ==> x != y
  }

  /** The cell at the root of a linked tree. */
  ghost predicate Head(m: Mem, t: Tree, p: Node?) {
    t.Tree? ==> t.n in m && m[t.n] == Cell(Root(t.left), Root(t.right), p, t.black, t.sub)
  }

  /** The cell above a hole, or the root pointer. */
  ghost predicate CtxHead(m: Mem, ctx: Ctx, child: Node, root: Node?) {
    if ctx.Top? then root == child
    else
      ctx.n in m && m[ctx.n] == MkCell(ctx.dir, child, Root(ctx.other), Above(ctx.up), ctx.black, ctx.sub) && Root(ctx.other) != child
  }

  lemma CtxHeads(m: Mem, ctx: Ctx, child: Node, root: Node?)
    requires CtxLinked(m, ctx, child, root) && CtxCount(ctx, child) == 0
    ensures CtxHead(m, ctx, child, root)
  {}

  lemma Heads(m: Mem, t: Tree, p: Node?)
    requires Linked(m, t, p)
    ensures Head(m, t, p)
  {}

  /** The nodes around a single rotation: what their cells hold, and that they differ. */
  lemma SingleApart(m: Mem, root: Node?, dir: bool, ctx: Ctx, a: Tree, p: Node, pb: bool, ps: nat, c: Tree,
                    g: Node, gb: bool, gs: nat, u: Tree)
    requires At(m, root, In(dir, ctx, g, gb, gs, u), Mk(dir, a, p, pb, ps, c))
    ensures p in m && m[p] == MkCell(dir, Root(a), Root(c), g, pb, ps)
    ensures g in m && m[g] == MkCell(dir, p, Root(u), Above(ctx), gb, gs)
    ensures Head(m, a, p) && Head(m, c, p) && Head(m, u, g) && CtxHead(m, ctx, g, root)
    ensures p != g && Root(a) != p && Root(a) != g && Root(c) != p && Root(c) != g && Root(u) != p && Root(u) != g
    ensures Above(ctx) != p && Above(ctx) != g
    ensures Differ(Root(a), Root(c)) && Differ(Root(a), Above(ctx)) && Differ(Root(c), Above(ctx))
    ensures Differ(Root(u), Root(a)) && Differ(Root(u), Root(c)) && Differ(Root(u), Above(ctx))
  {
    hide Count, CtxCount, Linked, CtxLinked, Mk;
    LinkedMk(m, dir, a, p, pb, ps, c, g);
    CtxLinkedIn(m, dir, ctx, g, gb, gs, u, p, root);
    Occurs(a); Occurs(c); Occurs(u); CtxOccurs(ctx);
    forall x | x in m
      ensures Count(a, x) + Count(c, x) + Count(u, x) + CtxCount(ctx, x) + Is(x, p) + Is(x, g) == 1
    {
      CountMk(dir, a, p, pb, ps, c, x);
      CountIn(dir, ctx, g, gb, gs, u, x);
    }
    Heads(m, a, p); Heads(m, c, p); Heads(m, u, g); CtxHeads(m, ctx, g, root);
  }

  lemma DoubleApart(m: Mem, root: Node?, dir: bool, ctx: Ctx, a: Tree, p: Node, pb: bool, ps: nat,
                    b: Tree, n: Node, nb: bool, ns: nat, c: Tree, g: Node, gb: bool, gs: nat, u: Tree)
    requires At(m, root, In(!dir, In(dir, ctx, g, gb, gs, u), p, pb, ps, a), Mk(dir, b, n, nb, ns, c))
    ensures n in m && m[n] == MkCell(dir, Root(b), Root(c), p, nb, ns)
    ensures p in m && m[p] == MkCell(dir, Root(a), n, g, pb, ps)
    ensures g in m && m[g] == MkCell(dir, p, Root(u), Above(ctx), gb, gs)
    ensures Head(m, a, p) && Head(m, b, n) && Head(m, c, n) && Head(m, u, g) && CtxHead(m, ctx, g, root)
    ensures p != g && p != n && n != g
    ensures Root(a) != p && Root(a) != g && Root(a) != n && Root(b) != p && Root(b) != g && Root(b) != n
    ensures Root(c) != p && Root(c) != g && Root(c) != n && Root(u) != p && Root(u) != g && Root(u) != n
    ensures Above(ctx) != p && Above(ctx) != g && Above(ctx) != n
    ensures Differ(Root(b), Root(c)) && Differ(Root(b), Above(ctx)) && Differ(Root(c), Above(ctx))
    ensures Differ(Root(a), Root(b)) && Differ(Root(a), Root(c)) && Differ(Root(a), Above(ctx))
    ensures Differ(Root(u), Root(b)) && Differ(Root(u), Root(c)) && Differ(Root(u), Above(ctx))
  {
    hide Count, CtxCount, Linked, CtxLinked, CtxHead, Head, At, Mk;
    DoubleCells(m, root, dir, ctx, a, p, pb, ps, b, n, nb, ns, c, g, gb, gs, u);
    HeadIn(m, a, p); HeadIn(m, b, n); HeadIn(m, c, n); HeadIn(m, u, g); CtxHeadIn(m, ctx, g, root);
    OnceApart(m, ctx, a, b, c, u, p, n, g);
    OnceDiffer(m, ctx, a, b, c, u, p, n, g);
  }

  /** Three nodes, four subtrees and the context around them, without a common node. */
  ghost predicate AllApart(m: Mem, ctx: Ctx, a: Tree, b: Tree, c: Tree, u: Tree, p: Node, n: Node, g: Node) {
    && p in m && n in m && g in m
    && (a.Tree? ==> a.n in m) && (b.Tree? ==> b.n in m) && (c.Tree? ==> c.n in m) && (u.Tree? ==> u.n in m)
    && (ctx.In? ==> ctx.n in m)
    && forall x :: x in m ==> Count(a, x) + Count(b, x) + Count(c, x) + Count(u, x) + CtxCount(ctx, x) + Is(x, p) + Is(x, n) + Is(x, g) == 1
  }

  lemma OnceApart(m: Mem, ctx: Ctx, a: Tree, b: Tree, c: Tree, u: Tree, p: Node, n: Node, g: Node)
    requires AllApart(m, ctx, a, b, c, u, p, n, g)
    ensures p != g && p != n && n != g
    ensures Root(a) != p && Root(a) != g && Root(a) != n && Root(b) != p && Root(b) != g && Root(b) != n
    ensures Root(c) != p && Root(c) != g && Root(c) != n && Root(u) != p && Root(u) != g && Root(u) != n
    ensures Above(ctx) != p && Above(ctx) != g && Above(ctx) != n
  {
    hide Count, CtxCount;
    Occurs(a); Occurs(b); Occurs(c); Occurs(u); CtxOccurs(ctx);
  }

  lemma OnceDiffer(m: Mem, ctx: Ctx, a: Tree, b: Tree, c: Tree, u: Tree, p: Node, n: Node, g: Node)
    requires AllApart(m, ctx, a, b, c, u, p, n, g)
    ensures Differ(Root(b), Root(c)) && Differ(Root(b), Above(ctx)) && Differ(Root(c), Above(ctx))
    ensures Differ(Root(a), Root(b)) && Differ(Root(a), Root(c)) && Differ(Root(a), Above(ctx))
    ensures Differ(Root(u), Root(b)) && Differ(Root(u), Root(c)) && Differ(Root(u), Above(ctx))
  {
    hide Count, CtxCount, Is;
    Occurs(a); Occurs(b); Occurs(c); Occurs(u); CtxOccurs(ctx);
  }

  lemma HeadIn(m: Mem, t: Tree, p: Node?)
    requires Head(m, t, p)
    ensures t.Tree? ==> t.n in m
  {}

  lemma CtxHeadIn(m: Mem, ctx: Ctx, child: Node, root: Node?)
    requires CtxHead(m, ctx, child, root)
    ensures ctx.In? ==> ctx.n in m
  {}

  lemma DoubleCells(m: Mem, root: Node?, dir: bool, ctx: Ctx, a: Tree, p: Node, pb: bool, ps: nat,
                    b: Tree, n: Node, nb: bool, ns: nat, c: Tree, g: Node, gb: bool, gs: nat, u: Tree)
    requires At(m, root, In(!dir, In(dir, ctx, g, gb, gs, u), p, pb, ps, a), Mk(dir, b, n, nb, ns, c))
    ensures n in m && m[n] == MkCell(dir, Root(b), Root(c), p, nb, ns)
    ensures p in m && m[p] == MkCell(dir, Root(a), n, g, pb, ps)
    ensures g in m && m[g] == MkCell(dir, p, Root(u), Above(ctx), gb, gs)
    ensures Head(m, a, p) && Head(m, b, n) && Head(m, c, n) && Head(m, u, g) && CtxHead(m, ctx, g, root)
    ensures forall x :: x in m ==> Count(a, x) + Count(b, x) + Count(c, x) + Count(u, x) + CtxCount(ctx, x) + Is(x, p) + Is(x, n) + Is(x, g) == 1
  {
    hide Count, CtxCount, Linked, CtxLinked, Mk;
    var mid := In(dir, ctx, g, gb, gs, u);
    LinkedMk(m, dir, b, n, nb, ns, c, p);
    CtxLinkedIn(m, !dir, mid, p, pb, ps, a, n, root);
    CtxLinkedIn(m, dir, ctx, g, gb, gs, u, p, root);
    forall x | x in m
      ensures Count(a, x) + Count(b, x) + Count(c, x) + Count(u, x) + CtxCount(ctx, x) + Is(x, p) + Is(x, n) + Is(x, g) == 1
    {
      CountMk(dir, b, n, nb, ns, c, x);
      CountIn(!dir, mid, p, pb, ps, a, x);
      CountIn(dir, ctx, g, gb, gs, u, x);
    }
    Heads(m, a, p); Heads(m, b, n); Heads(m, c, n); Heads(m, u, g); CtxHeads(m, ctx, g, root);
  }

  /** Repainting a node, or giving it another cached value, leaves all links alone. */
  lemma Retouched(m: Mem, m': Mem, root: Node?, ctx: Ctx, l: Tree, n: Node, b: bool, s: nat, r: Tree, b': bool, s': nat)
    requires At(m, root, ctx, Tree(l, n, b, s, r))
    requires n in m && m' == m[n := m[n].(black := b', sub := s')]
    ensures At(m', root, ctx, Tree(l, n, b', s', r))
  {
    var w := Writes(n, null, null, null, null, null);
    assert Count(Tree(l, n, b, s, r), n) == Count(l, n) + 1 + Count(r, n);
    Frame(m, m', l, n, w);
    Frame(m, m', r, n, w);
    CtxFrame(m, m', ctx, n, root, w);
    forall x | x in m' ensures Count(Tree(l, n, b', s', r), x) == Count(Tree(l, n, b, s, r), x) {}
  }
}
