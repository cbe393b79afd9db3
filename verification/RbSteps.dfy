/**
 The fix-up steps of insertion and erasure as statements about values: what the writes
 of one case amount to, and that the trees before and after agree as they should.
 */
module RbSteps {
  import opened RbShape
  import opened RbLinks

  ghost function SubOf(m: Mem, x: Node?): nat {
    if x != null && x in m then m[x].sub else 0
  }

  /** What `__rb_change_child` leaves behind: the link that led to `oldn` leads to `newn`. */
  ghost predicate Hung(m: Mem, m': Mem, root: Node?, root': Node?, parent: Node?, oldn: Node, newn: Node?) {
    if parent == null then root' == newn
    else
      && root' == root && parent in m && parent in m'
      && m'[parent] == SetKid(m[parent], m[parent].left == oldn, newn)
  }

  /** The cells after `p`, the child of `g` on side `dir`, has been lifted over `g`. */
  ghost predicate Lifted(m: Mem, m': Mem, dir: bool, g: Node, p: Node, tmp: Node?, u: Node?, blacken: bool, black: bool)
    requires g in m && p in m
  {
    && g in m' && p in m'
    && m'[p] == SetKid(m[p].(parent := m[g].parent, black := m[g].black, sub := m[g].sub), !dir, g)
    && m'[g] == MkCell(dir, tmp, u, p, black, Best(g, SubOf(m, tmp), SubOf(m, u)))
    && (tmp != null ==> tmp in m && tmp in m' && m'[tmp] == m[tmp].(parent := g, black := blacken || m[tmp].black))
    && Same(m, m', Writes(p, g, null, tmp, m[g].parent, null))
  }

  /** The writes of one rotation, taken together. */
  lemma LiftSteps(m0: Mem, m1: Mem, m2: Mem, m3: Mem, m4: Mem, root: Node?, root': Node?, dir: bool,
                  g: Node, p: Node, tmp: Node?, u: Node?, blacken: bool, black: bool)
    requires g in m0 && p in m0 && g != p
    requires var q := m0[g].parent; q != null ==> q in m0 && q != g && q != p && q != tmp
    requires tmp != null ==> tmp in m0 && tmp != g && tmp != p
    requires u == Kid(m0[g], !dir) && (u != null ==> u in m0 && u != g && u != p && u != tmp)
    requires m1 == m0[g := SetKid(m0[g], dir, tmp)][p := SetKid(m0[p], !dir, g)]
    requires m2 == if tmp == null then m1 else m1[tmp := m1[tmp].(parent := g, black := blacken || m1[tmp].black)]
    requires m3.Keys == m2.Keys
    requires m3[p] == m2[p].(parent := m2[g].parent, black := m2[g].black)
    requires m3[g] == m2[g].(parent := p, black := black)
    requires Hung(m2, m3, root, root', m2[g].parent, g, p)
    requires Same(m2, m3, Writes(g, p, m2[g].parent, null, null, null))
    requires m4 == m3[p := m3[p].(sub := m3[g].sub)][g := m3[g].(sub := Best(g, SubOf(m3, m3[g].left), SubOf(m3, m3[g].right)))]
    ensures Lifted(m0, m4, dir, g, p, tmp, u, blacken, black)
    ensures Hung(m0, m4, root, root', m0[g].parent, g, p)
  {
    assert m2[g] == SetKid(m0[g], dir, tmp) && m2[p] == SetKid(m0[p], !dir, g);
    assert SubOf(m3, tmp) == SubOf(m0, tmp) && SubOf(m3, u) == SubOf(m0, u) by {
      assert u != null && u == m0[g].parent ==> m3[u].sub == m0[u].sub;
    }
    forall x | x in m0 && !Touched(Writes(p, g, null, tmp, m0[g].parent, null), x)
      ensures x in m4 && m4[x] == m0[x]
    {}
  }

  lemma SubOfRoot(m: Mem, t: Tree, p: Node?)
    requires Head(m, t, p)
    ensures SubOf(m, Root(t)) == Sub(t)
  {}

  /** The tree after one rotation. */
  lemma LiftedAt(m: Mem, m': Mem, root: Node?, root': Node?, dir: bool, up: Ctx,
                 a: Tree, p: Node, pb: bool, ps: nat, c: Tree, g: Node, gb: bool, gs: nat, u: Tree, blacken: bool, black: bool)
    requires At(m, root, In(dir, up, g, gb, gs, u), Mk(dir, a, p, pb, ps, c))
    requires g in m && p in m && m'.Keys == m.Keys
    requires Lifted(m, m', dir, g, p, Root(c), Root(u), blacken, black)
    requires Hung(m, m', root, root', m[g].parent, g, p)
    ensures At(m', root', up,
      Mk(dir, a, p, gb, gs, Mk(dir, Paint(c, blacken || c.Leaf? || c.black), g, black, Best(g, Sub(c), Sub(u)), u)))
  {
    hide At, Mk, Linked;
    SingleApart(m, root, dir, up, a, p, pb, ps, c, g, gb, gs, u);
    SubOfRoot(m, c, p);
    SubOfRoot(m, u, g);
    var cb := blacken || c.Leaf? || c.black;
    var ab := a.Leaf? || a.black;
    Rotated(m, m', root, root', dir, up, a, p, pb, ps, c, g, gb, gs, u, ab, cb, gb, gs, black, Best(g, Sub(c), Sub(u)));
    assert Paint(a, ab) == a;
  }

  /** The first half of a double rotation: `n`, the inner child of `p`, has become the
      parent of `p` and handed its subtree on side `dir`, rooted at `b`, over to it. */
  ghost predicate Inner(m: Mem, m': Mem, dir: bool, p: Node, n: Node, a: Node?, b: Node?, g: Node, pb: bool) {
    && p in m && n in m && g in m && m'.Keys == m.Keys
    && m'[p] == MkCell(dir, a, b, n, pb, Best(p, SubOf(m, a), SubOf(m, b)))
    && m'[n] == SetKid(m[n], dir, p).(sub := m[p].sub)
    && (m'[g] == m[g] || m'[g] == SetKid(m[g], dir, n))
    && (b != null ==> b in m && m'[b] == m[b].(parent := p, black := true))
    && Same(m, m', Writes(p, n, g, b, null, null))
  }

  lemma InnerFacts(m: Mem, m': Mem, dir: bool, p: Node, n: Node, a: Node?, b: Node?, g: Node, pb: bool)
    requires Inner(m, m', dir, p, n, a, b, g, pb)
    ensures p in m && n in m && g in m && m'.Keys == m.Keys
    ensures m'[g].parent == m[g].parent && Kid(m'[g], !dir) == Kid(m[g], !dir)
    ensures Kid(m'[n], !dir) == Kid(m[n], !dir)
  {}

  /** `n` becomes `p`'s parent on side `dir` and `b` changes from `n` to `p`. */
  ghost function Relinked(m: Mem, dir: bool, p: Node, n: Node, b: Node?): Mem
    requires p in m && n in m && (b != null ==> b in m)
  {
    var m1: Mem := m[p := SetKid(m[p], !dir, b)][n := SetKid(m[n], dir, p)];
    if b == null then m1 else m1[b := m1[b].(parent := p, black := true)]
  }

  /** The writes of the first half, taken together. */
  lemma InnerSteps(m0: Mem, m2: Mem, m3: Mem, m4: Mem, dir: bool, p: Node, n: Node, a: Node?, b: Node?, g: Node, pb: bool)
    requires p in m0 && n in m0 && g in m0 && p != n && g != p && g != n
    requires a == Kid(m0[p], dir) && (a != null ==> a in m0 && a != n && a != p)
    requires b == Kid(m0[n], dir) && (b != null ==> b in m0 && b != n && b != p && b != g) && Differ(b, a)
    requires m2 == Relinked(m0, dir, p, n, b)
    requires m3 == m2[p := m2[p].(parent := n, black := pb)]
    requires m4 == m3[n := m3[n].(sub := m3[p].sub)][p := m3[p].(sub := Best(p, SubOf(m3, m3[p].left), SubOf(m3, m3[p].right)))]
    ensures Inner(m0, m4, dir, p, n, a, b, g, pb)
  {
    assert m3[p] == MkCell(dir, a, b, n, pb, m0[p].sub);
    assert SubOf(m3, a) == SubOf(m0, a) && SubOf(m3, b) == SubOf(m0, b);
    BestSwap(p, SubOf(m0, a), SubOf(m0, b));
  }

  lemma PaintBlack(t: Tree, b: bool)
    requires BlackRoot(t) && (t.Tree? ==> b)
    ensures Paint(t, b) == t
  {}

  lemma PaintSame(t: Tree)
    ensures Paint(t, t.Leaf? || t.black) == t
  {}

  /** Both halves of a double rotation, taken together. */
  lemma InnerLifted(m: Mem, m1: Mem, m': Mem, dir: bool, p: Node, n: Node, g: Node, a: Node?, b: Node?, c: Node?, u: Node?,
                    pb: bool, blacken: bool, black: bool)
    requires Inner(m, m1, dir, p, n, a, b, g, pb) && Lifted(m1, m', dir, g, n, c, u, blacken, black)
    requires p != n && p != g && n != g && a != n && a != p && a != g && b != n && b != p && b != g
    requires c != n && c != p && c != g && u != n && u != p && u != g
    requires Differ(a, b) && Differ(a, c) && Differ(b, c) && Differ(u, b) && Differ(u, c)
    requires var q := m[g].parent; q != n && q != p && q != g && Differ(b, q) && Differ(c, q) && Differ(a, q) && Differ(u, q)
    ensures p in m' && m'[p] == MkCell(dir, a, b, n, pb, Best(p, SubOf(m, a), SubOf(m, b)))
    ensures n in m' && m'[n] == SetKid(SetKid(m[n], dir, p), !dir, g).(parent := m[g].parent, black := m[g].black, sub := m[g].sub)
    ensures g in m' && m'[g] == MkCell(dir, c, u, n, black, Best(g, SubOf(m, c), SubOf(m, u)))
    ensures b != null ==> b in m && b in m' && m'[b] == m[b].(parent := p, black := true)
    ensures c != null ==> c in m && c in m' && m'[c] == m[c].(parent := g, black := blacken || m[c].black)
    ensures Same(m, m', Writes(p, g, n, b, c, m[g].parent))
  {
    hide Best;
    assert SubOf(m1, c) == SubOf(m, c) && SubOf(m1, u) == SubOf(m, u);
  }

  /** The same writes in the order the erase fix-up makes them. */
  lemma InnerStepsErase(m0: Mem, m1: Mem, m2: Mem, m3: Mem, m4: Mem, dir: bool, p: Node, n: Node, a: Node?, b: Node?,
                        g: Node)
    requires p in m0 && n in m0 && g in m0 && p != n && g != p && g != n
    requires a == Kid(m0[p], dir) && (a != null ==> a in m0 && a != n && a != p && a != g)
    requires b == Kid(m0[n], dir) && (b != null ==> b in m0 && b != n && b != p && b != g) && Differ(b, a)
    requires m1 == m0[g := SetKid(m0[g], dir, n)]
    requires m2 == Relinked(m1, dir, p, n, b)
    requires m3 == m2[n := m2[n].(sub := m2[p].sub)][p := m2[p].(sub := Best(p, SubOf(m2, m2[p].left), SubOf(m2, m2[p].right)))]
    requires m4 == m3[p := m3[p].(parent := n, black := true)]
    ensures Inner(m0, m4, dir, p, n, a, b, g, true)
  {
    assert SubOf(m2, a) == SubOf(m0, a) && SubOf(m2, b) == SubOf(m0, b);
    assert m2[p] == MkCell(dir, a, b, m0[p].parent, m0[p].black, m0[p].sub);
    BestSwap(p, SubOf(m0, a), SubOf(m0, b));
  }

  /** The tree after a double rotation. */
  lemma DoublyLiftedAt(m: Mem, m1: Mem, m': Mem, root: Node?, root': Node?, dir: bool, up: Ctx,
                       a: Tree, p: Node, pb: bool, ps: nat, b: Tree, n: Node, nb: bool, ns: nat, c: Tree,
                       g: Node, gb: bool, gs: nat, u: Tree, pb': bool, blacken: bool, black: bool)
    requires At(m, root, In(!dir, In(dir, up, g, gb, gs, u), p, pb, ps, a), Mk(dir, b, n, nb, ns, c))
    requires Inner(m, m1, dir, p, n, Root(a), Root(b), g, pb')
    requires m'.Keys == m.Keys
    requires Lifted(m1, m', dir, g, n, Root(c), Root(u), blacken, black)
    requires Hung(m1, m', root, root', m1[g].parent, g, n)
    ensures At(m', root', up,
      Mk(dir, Mk(dir, a, p, pb', Best(p, Sub(a), Sub(b)), Paint(b, true)), n, gb, gs,
         Mk(dir, Paint(c, blacken || c.Leaf? || c.black), g, black, Best(g, Sub(c), Sub(u)), u)))
  {
    hide At, Mk, Linked, Best, Lifted;
    DoubleApart(m, root, dir, up, a, p, pb, ps, b, n, nb, ns, c, g, gb, gs, u);
    assert m1[g].parent == Above(up);
    InnerLifted(m, m1, m', dir, p, n, g, Root(a), Root(b), Root(c), Root(u), pb', blacken, black);
    assert CtxHead(m1, up, g, root);
    assert Rehung(m, m', root, root', up, n);
    hide Inner, Same;
    SubOfRoot(m, a, p);
    SubOfRoot(m, b, n);
    SubOfRoot(m, c, n);
    SubOfRoot(m, u, g);
    var cb := blacken || c.Leaf? || c.black;
    DoublyRotated(m, m', root, root', dir, up, a, p, pb, ps, b, n, nb, ns, c, g, gb, gs, u,
                  true, cb, pb', Best(p, Sub(a), Sub(b)), gb, gs, black, Best(g, Sub(c), Sub(u)));
  }

  // ---------- insertion, on trees ----------

  /** A red node below a red parent with a black uncle, after case 3 or cases 2 and 3.
      `dir` is the parent's side, `dn` tells which side of the parent the node is on;
      `t` is the node's subtree, `o` its sibling, `u` the uncle. */
  ghost function InsertLift(dir: bool, dn: bool, g: Node, gs: nat, u: Tree, p: Node, ps: nat, o: Tree, t: Tree): Tree
    requires t.Tree?
  {
    if dn == dir then
      Mk(dir, t, p, true, gs, Mk(dir, o, g, false, Best(g, Sub(o), Sub(u)), u))
    else
      var b, c := if dir then t.left else t.right, if dir then t.right else t.left;
      Mk(dir, Mk(dir, o, p, false, Best(p, Sub(o), Sub(b)), b), t.n, true, gs, Mk(dir, c, g, false, Best(g, Sub(c), Sub(u)), u))
  }

  lemma InsertLiftRb(dir: bool, dn: bool, g: Node, gs: nat, u: Tree, p: Node, ps: nat, o: Tree, t: Tree, h: nat)
    requires t.Tree? && !t.black && Rb(t, h) && Rb(o, h) && Rb(u, h) && BlackRoot(o) && BlackRoot(u)
    ensures var r := InsertLift(dir, dn, g, gs, u, p, ps, o, t); Rb(r, h + 1) && r.Tree? && r.black
  {}

  lemma InsertLiftExact(dir: bool, dn: bool, g: Node, gs: nat, u: Tree, p: Node, ps: nat, o: Tree, t: Tree)
    requires t.Tree? && Exact(t) && Exact(o) && Exact(u)
    requires ps == Best(p, Sub(t), Sub(o)) && gs == Best(g, ps, Sub(u))
    ensures var r := InsertLift(dir, dn, g, gs, u, p, ps, o, t); Exact(r) && Sub(r) == gs
  {
    var b, c := if dir then t.left else t.right, if dir then t.right else t.left;
    assert t == Mk(dir, b, t.n, t.black, t.sub, c);
    hide Exact, Mk, Best;
    BestSwap(p, Sub(t), Sub(o));
    if dn == dir {
      var low := Mk(dir, o, g, false, Best(g, Sub(o), Sub(u)), u);
      ExactMk(dir, o, g, false, Best(g, Sub(o), Sub(u)), u);
      ExactMk(dir, t, p, true, gs, low);
      RotateBest(g, p, Sub(t), Sub(o), Sub(u));
    } else {
      ExactMk(dir, b, t.n, t.black, t.sub, c);
      var near := Mk(dir, o, p, false, Best(p, Sub(o), Sub(b)), b);
      var far := Mk(dir, c, g, false, Best(g, Sub(c), Sub(u)), u);
      ExactMk(dir, o, p, false, Best(p, Sub(o), Sub(b)), b);
      ExactMk(dir, c, g, false, Best(g, Sub(c), Sub(u)), u);
      ExactMk(dir, near, t.n, true, gs, far);
      RotateBest(t.n, p, Sub(o), Sub(b), Sub(c));
      RotateBest(g, t.n, Sub(near), Sub(c), Sub(u));
    }
  }

  lemma InsertLiftOrder(dir: bool, dn: bool, up: Ctx, g: Node, gs: nat, u: Tree, p: Node, ps: nat, o: Tree, t: Tree)
    requires t.Tree?
    ensures Order(up, InsertLift(dir, dn, g, gs, u, p, ps, o, t)) == Order(In(dn, In(dir, up, g, true, gs, u), p, false, ps, o), t)
  {
    var low := Mk(dn, t, p, false, ps, o);
    ZipOrder(dn, In(dir, up, g, true, gs, u), t, p, false, ps, o);
    ZipOrder(dir, up, low, g, true, gs, u);
    if dn == dir {
      RotateOrder(dir, t, p, false, ps, o, g, true, gs, u, true, gs, false, Best(g, Sub(o), Sub(u)));
    } else {
      var b, c := if dir then t.left else t.right, if dir then t.right else t.left;
      var ps', gs' := Best(p, Sub(o), Sub(b)), Best(g, Sub(c), Sub(u));
      RotateOrder(dir, o, p, false, ps', b, t.n, t.black, t.sub, c, false, ps, t.black, t.sub);
      RotateOrder(dir, Mk(dir, o, p, false, ps', b), t.n, t.black, t.sub, c, g, true, gs, u, true, gs, false, gs');
      assert low == Mk(dir, o, p, false, ps, Mk(dir, b, t.n, t.black, t.sub, c));
      var mid := Mk(dir, Mk(dir, o, p, false, ps', b), t.n, t.black, t.sub, c);
      assert Inorder(mid) == Inorder(low);
      InorderMk(dir, mid, g, true, gs, u);
      InorderMk(dir, low, g, true, gs, u);
    }
    SameOrder(up, InsertLift(dir, dn, g, gs, u, p, ps, o, t), Mk(dir, low, g, true, gs, u));
  }

  /** The state of the fix-up loops: `t` sits in `ctx`, caches are exact, and both obey
      the colour rules except that the hole may be the wrong colour. */
  ghost predicate Fixing(m: Mem, root: Node?, ctx: Ctx, t: Tree, h: nat, order: seq<Node>) {
    && At(m, root, ctx, t) && Rb(t, h) && CtxRb(ctx, h)
    && Exact(t) && CtxExact(ctx, Sub(t)) && Order(ctx, t) == order
  }

  /** The finished state. */
  ghost predicate Sound(m: Mem, root: Node?, t: Tree) {
    At(m, root, Top, t) && RedBlack(t) && Exact(t)
  }

  lemma Finish(m: Mem, root: Node?, ctx: Ctx, t: Tree, h: nat, order: seq<Node>)
    requires Fixing(m, root, ctx, t, h, order)
    requires BlackRoot(t) || (ctx.In? && ctx.black)
    ensures Sound(m, root, Plug(ctx, t)) && Inorder(Plug(ctx, t)) == order
  {
    ToTop(m, root, ctx, t);
    PlugRb(ctx, t, h);
    PlugExact(ctx, t);
    PlugOrder(ctx, t);
  }

  /** What holds around a red parent with a black parent of its own: the colours. */
  lemma RedRedColors(m: Mem, root: Node?, dir: bool, dn: bool, up: Ctx, g: Node, gs: nat, u: Tree,
                     p: Node, ps: nat, o: Tree, t: Tree, h: nat, order: seq<Node>)
    requires Fixing(m, root, In(dn, In(dir, up, g, true, gs, u), p, false, ps, o), t, h, order)
    ensures Rb(t, h) && Rb(o, h) && Rb(u, h) && BlackRoot(o) && CtxRb(up, h + 1)
  {
    hide At, Order, Exact, CtxExact, Best;
    var mid := In(dir, up, g, true, gs, u);
    assert CtxRb(In(dn, mid, p, false, ps, o), h);
    assert CtxRb(mid, h);
  }

  /** The cached values, and the order. */
  lemma RedRedExact(m: Mem, root: Node?, dir: bool, dn: bool, up: Ctx, g: Node, gs: nat, u: Tree,
                    p: Node, ps: nat, o: Tree, t: Tree, h: nat, order: seq<Node>)
    requires Fixing(m, root, In(dn, In(dir, up, g, true, gs, u), p, false, ps, o), t, h, order)
    ensures Exact(t) && Exact(o) && Exact(u) && CtxExact(up, gs)
    ensures ps == Best(p, Sub(t), Sub(o)) && gs == Best(g, ps, Sub(u))
    ensures Order(In(dn, In(dir, up, g, true, gs, u), p, false, ps, o), t) == order
  {
    hide At, Rb, CtxRb, Order, Best;
    var mid := In(dir, up, g, true, gs, u);
    assert CtxExact(In(dn, mid, p, false, ps, o), Sub(t));
    assert CtxExact(mid, ps);
  }

  /** The rotation cases end with a black root in the grandparent's place. */
  lemma InsertLiftFixed(m0: Mem, root0: Node?, m: Mem, root: Node?, dir: bool, dn: bool, up: Ctx, g: Node, gs: nat, u: Tree,
                        p: Node, ps: nat, o: Tree, t: Tree, h: nat, order: seq<Node>)
    requires t.Tree? && !t.black && BlackRoot(u)
    requires Fixing(m0, root0, In(dn, In(dir, up, g, true, gs, u), p, false, ps, o), t, h, order)
    requires At(m, root, up, InsertLift(dir, dn, g, gs, u, p, ps, o, t))
    ensures Fixing(m, root, up, InsertLift(dir, dn, g, gs, u, p, ps, o, t), h + 1, order)
    ensures BlackRoot(InsertLift(dir, dn, g, gs, u, p, ps, o, t))
  {
    hide At, InsertLift, Rb, CtxRb, Exact, CtxExact, Order, Best;
    RedRedColors(m0, root0, dir, dn, up, g, gs, u, p, ps, o, t, h, order);
    RedRedExact(m0, root0, dir, dn, up, g, gs, u, p, ps, o, t, h, order);
    InsertLiftRb(dir, dn, g, gs, u, p, ps, o, t, h);
    InsertLiftExact(dir, dn, g, gs, u, p, ps, o, t);
    InsertLiftOrder(dir, dn, up, g, gs, u, p, ps, o, t);
  }

  /** Turning from a node's child on one side to its child on the other. */
  lemma Sideways(m: Mem, root: Node?, dir: bool, up: Ctx, n: Node, b: bool, s: nat, t: Tree, o: Tree)
    ensures At(m, root, In(dir, up, n, b, s, o), t) <==> At(m, root, In(!dir, up, n, b, s, t), o)
  {
    Up(m, root, dir, up, n, b, s, o, t);
    Up(m, root, !dir, up, n, b, s, t, o);
  }

  lemma RetouchedMk(m: Mem, m': Mem, root: Node?, ctx: Ctx, dir: bool, near: Tree, n: Node, b: bool, s: nat,
                    far: Tree, b': bool, s': nat)
    requires At(m, root, ctx, Mk(dir, near, n, b, s, far))
    requires n in m && m' == m[n := m[n].(black := b', sub := s')]
    ensures At(m', root, ctx, Mk(dir, near, n, b', s', far))
  {
    if dir { Retouched(m, m', root, ctx, near, n, b, s, far, b', s'); } else { Retouched(m, m', root, ctx, far, n, b, s, near, b', s'); }
  }

  lemma NodeView(m: Mem, root: Node?, ctx: Ctx, dir: bool, near: Tree, n: Node, b: bool, s: nat, far: Tree)
    requires At(m, root, ctx, Mk(dir, near, n, b, s, far))
    ensures n in m && m[n] == MkCell(dir, Root(near), Root(far), Above(ctx), b, s)
  {
    LinkedMk(m, dir, near, n, b, s, far, Above(ctx));
  }

  lemma ParentCell(m: Mem, root: Node?, ctx: Ctx, dir: bool, near: Tree, n: Node, b: bool, s: nat, far: Tree)
    requires At(m, root, ctx, Mk(dir, near, n, b, s, far))
    ensures n in m && m[n].parent == Above(ctx) && m[n].black == b && m[n].sub == s
  {
    NodeView(m, root, ctx, dir, near, n, b, s, far);
  }

  lemma TreeCell(m: Mem, root: Node?, ctx: Ctx, t: Tree)
    requires At(m, root, ctx, t) && t.Tree?
    ensures t.n in m && m[t.n] == Cell(Root(t.left), Root(t.right), Above(ctx), t.black, t.sub)
  {}

  lemma MkTree(dir: bool, near: Tree, n: Node, b: bool, s: nat, far: Tree)
    ensures var t := Mk(dir, near, n, b, s, far); t.Tree? && t.n == n && t.black == b && t.sub == s
  {}

  lemma PaintTree(t: Tree, b: bool)
    requires t.Tree?
    ensures Paint(t, b) == Tree(t.left, t.n, b, t.sub, t.right)
  {}

  /** A colour flip keeps black height and caches; only the grandparent turned red. */
  lemma FlipFixed(m0: Mem, root0: Node?, m: Mem, root: Node?, dir: bool, dn: bool, up: Ctx, g: Node, gs: nat, u: Tree,
                  p: Node, ps: nat, o: Tree, t: Tree, h: nat, order: seq<Node>)
    requires u.Tree? && !u.black && t.Tree?
    requires Fixing(m0, root0, In(dn, In(dir, up, g, true, gs, u), p, false, ps, o), t, h, order)
    requires At(m, root, up, Mk(dir, Mk(dn, t, p, true, ps, o), g, false, gs, Paint(u, true)))
    ensures Fixing(m, root, up, Mk(dir, Mk(dn, t, p, true, ps, o), g, false, gs, Paint(u, true)), h + 1, order)
  {
    hide At, Rb, CtxRb, Exact, CtxExact, Order, Best, Mk, Paint;
    RedRedColors(m0, root0, dir, dn, up, g, gs, u, p, ps, o, t, h, order);
    RedRedExact(m0, root0, dir, dn, up, g, gs, u, p, ps, o, t, h, order);
    var low', u' := Mk(dn, t, p, true, ps, o), Paint(u, true);
    FlipRb(dir, dn, g, gs, u, p, ps, o, t, h);
    PaintExact(u, true);
    ExactMk(dn, t, p, true, ps, o);
    ExactMk(dir, low', g, false, gs, u');
    FlipOrder(dir, dn, up, g, gs, u, p, ps, o, t);
  }

  lemma FlipRb(dir: bool, dn: bool, g: Node, gs: nat, u: Tree, p: Node, ps: nat, o: Tree, t: Tree, h: nat)
    requires u.Tree? && !u.black && Rb(t, h) && Rb(o, h) && Rb(u, h)
    ensures Rb(Mk(dir, Mk(dn, t, p, true, ps, o), g, false, gs, Paint(u, true)), h + 1)
  {
    assert Rb(Mk(dn, t, p, true, ps, o), h + 1) && Rb(Paint(u, true), h + 1);
  }

  lemma PaintExact(t: Tree, b: bool)
    ensures Exact(Paint(t, b)) == Exact(t) && Sub(Paint(t, b)) == Sub(t) && Inorder(Paint(t, b)) == Inorder(t)
  {}

  lemma FlipOrder(dir: bool, dn: bool, up: Ctx, g: Node, gs: nat, u: Tree, p: Node, ps: nat, o: Tree, t: Tree)
    ensures Order(up, Mk(dir, Mk(dn, t, p, true, ps, o), g, false, gs, Paint(u, true))) ==
            Order(In(dn, In(dir, up, g, true, gs, u), p, false, ps, o), t)
  {
    hide Order, Mk, Inorder, Paint;
    var low, low', u' := Mk(dn, t, p, false, ps, o), Mk(dn, t, p, true, ps, o), Paint(u, true);
    ZipOrder(dn, In(dir, up, g, true, gs, u), t, p, false, ps, o);
    ZipOrder(dir, up, low, g, true, gs, u);
    InorderMk(dn, t, p, false, ps, o);
    InorderMk(dn, t, p, true, ps, o);
    InorderMk(dir, low, g, true, gs, u);
    PaintExact(u, true);
    InorderMk(dir, low', g, false, gs, u');
    SameOrder(up, Mk(dir, low', g, false, gs, u'), Mk(dir, low, g, true, gs, u));
  }

  /** A red parent has a black parent of its own, and black children beside the node. */
  lemma RedParent(m: Mem, root: Node?, ctx: Ctx, t: Tree, h: nat, order: seq<Node>)
    requires Fixing(m, root, ctx, t, h, order)
    ensures At(m, root, ctx, t)
    ensures ctx.In? && !ctx.black ==> ctx.up.In? && ctx.up.black && BlackRoot(ctx.other)
    ensures t.Tree? && !t.black ==> BlackRoot(t.left) && BlackRoot(t.right)
  {}

  /** What the loop reads at a red node with a red parent. */
  lemma RedRedView(m: Mem, root: Node?, dir: bool, dn: bool, up: Ctx, g: Node, gs: nat, u: Tree, p: Node, ps: nat,
                   o: Tree, t: Tree)
    requires At(m, root, In(dn, In(dir, up, g, true, gs, u), p, false, ps, o), t)
    ensures p in m && m[p].parent == g && g in m && Kid(m[g], dir) == p && Kid(m[g], !dir) == Root(u) && Root(u) != p
    ensures u.Tree? ==> u.n in m && m[u.n].black == u.black
  {
    hide At;
    ParentView(m, root, dir, dn, up, g, true, gs, u, p, false, ps, o, t);
    if dn == dir {
      SingleApart(m, root, dir, up, t, p, false, ps, o, g, true, gs, u);
    } else {
      SingleApart(m, root, dir, up, o, p, false, ps, t, g, true, gs, u);
    }
  }

  /** The node above the hole, if any, is in memory. */
  lemma AboveCell(m: Mem, root: Node?, ctx: Ctx, t: Tree)
    requires At(m, root, ctx, t) && ctx.In?
    ensures ctx.n in m && m[ctx.n].black == ctx.black && m[ctx.n].parent == Above(ctx.up)
  {}

  lemma AboveIn(m: Mem, root: Node?, ctx: Ctx, t: Tree)
    requires At(m, root, ctx, t)
    ensures ctx.In? ==> ctx.n in m
  {}

  /** On which side of its parent the node above the hole is. */
  lemma SideView(m: Mem, root: Node?, ctx: Ctx, t: Tree)
    requires At(m, root, ctx, t) && ctx.In? && ctx.up.In?
    ensures ctx.up.n in m && (m[ctx.up.n].right == ctx.n <==> !ctx.up.dir)
  {
    Up(m, root, ctx.dir, ctx.up, ctx.n, ctx.black, ctx.sub, ctx.other, t);
    MkTree(ctx.dir, t, ctx.n, ctx.black, ctx.sub, ctx.other);
    if ctx.up.other.Tree? { SidesDiffer(m, root, ctx.up, Mk(ctx.dir, t, ctx.n, ctx.black, ctx.sub, ctx.other)); }
  }

  /** At the root, the red node turns black. */
  lemma BlackenRoot(m: Mem, m': Mem, root: Node?, t: Tree, h: nat, order: seq<Node>)
    requires t.Tree? && !t.black && Fixing(m, root, Top, t, h, order)
    requires t.n in m && m' == m[t.n := m[t.n].(black := true)]
    ensures Fixing(m', root, Top, Paint(t, true), h + 1, order)
  {
    Retouched(m, m', root, Top, t.left, t.n, false, t.sub, t.right, true, t.sub);
  }

  /** The pieces around a red node with a red parent, seen from the grandparent. */
  lemma ParentView(m: Mem, root: Node?, dir: bool, dn: bool, up: Ctx, g: Node, gb: bool, gs: nat, u: Tree,
                   p: Node, pb: bool, ps: nat, o: Tree, t: Tree)
    requires At(m, root, In(dn, In(dir, up, g, gb, gs, u), p, pb, ps, o), t)
    ensures At(m, root, In(dir, up, g, gb, gs, u), if dn == dir then Mk(dir, t, p, pb, ps, o) else Mk(dir, o, p, pb, ps, t))
  {
    Up(m, root, dn, In(dir, up, g, gb, gs, u), p, pb, ps, o, t);
  }

  // ---------- erasure, on trees ----------

  /** The loop invariant of the erase fix-up: `t` is black (or empty) and not the root,
      and every path through it has one black node too few. */
  ghost predicate Lacking(m: Mem, root: Node?, ctx: Ctx, t: Tree, h: nat, order: seq<Node>) {
    && ctx.In? && At(m, root, ctx, t) && Rb(t, h) && BlackRoot(t) && CtxRb(ctx, h + 1)
    && Exact(t) && CtxExact(ctx, Sub(t)) && Order(ctx, t) == order
  }

  /** What the invariant says about the node's sibling `s`: it exists, and if it is red
      then the parent and both of its own children are black nodes. */
  lemma SiblingExists(m: Mem, root: Node?, ctx: Ctx, t: Tree, h: nat, order: seq<Node>)
    requires Lacking(m, root, ctx, t, h, order)
    ensures At(m, root, ctx, t) && ctx.In? && ctx.other.Tree?
    ensures At(m, root, In(!ctx.dir, ctx.up, ctx.n, ctx.black, ctx.sub, t), ctx.other)
    ensures !ctx.other.black ==> ctx.black
    ensures !ctx.other.black ==> ctx.other.left.Tree? && ctx.other.left.black && ctx.other.right.Tree? && ctx.other.right.black
  {
    Sideways(m, root, ctx.dir, ctx.up, ctx.n, ctx.black, ctx.sub, t, ctx.other);
    var s := ctx.other;
    assert Rb(s, h + 1);
    if !s.black {
      assert Rb(s.left, h + 1) && Rb(s.right, h + 1);
    }
  }

  /** Case 1 leads to the same situation one level further down, below a red parent. */
  lemma Erase1Lacking(m0: Mem, root0: Node?, m: Mem, root: Node?, d: bool, up: Ctx, p: Node, ps: nat,
                      far: Tree, s: Node, ss: nat, near: Tree, t: Tree, h: nat, order: seq<Node>)
    requires Lacking(m0, root0, In(d, up, p, true, ps, Mk(!d, far, s, false, ss, near)), t, h, order)
    requires At(m, root, up, Mk(!d, far, s, true, ps, Mk(!d, near, p, false, Best(p, Sub(near), Sub(t)), t)))
    ensures Lacking(m, root, In(d, In(d, up, s, true, ps, far), p, false, Best(p, Sub(near), Sub(t)), near), t, h, order)
  {
    hide At, Best;
    var ps' := Best(p, Sub(near), Sub(t));
    var up' := In(d, up, s, true, ps, far);
    var low := Mk(!d, near, p, false, ps', t);
    assert low == Mk(d, t, p, false, ps', near);
    assert Mk(!d, far, s, true, ps, low) == Mk(d, low, s, true, ps, far);
    Up(m, root, d, up, s, true, ps, far, low);
    Up(m, root, d, up', p, false, ps', near, t);
    Erase1Colours(d, up, p, ps, far, s, ss, near, t, h);
    Erase1Exact(d, up, p, ps, far, s, ss, near, t);
    Erase1Order(d, up, p, ps, far, s, ss, near, t, ps');
  }

  lemma Erase1Colours(d: bool, up: Ctx, p: Node, ps: nat, far: Tree, s: Node, ss: nat, near: Tree, t: Tree, h: nat)
    requires CtxRb(In(d, up, p, true, ps, Mk(!d, far, s, false, ss, near)), h + 1)
    ensures CtxRb(In(d, In(d, up, s, true, ps, far), p, false, Best(p, Sub(near), Sub(t)), near), h + 1)
  {
    assert Rb(Mk(!d, far, s, false, ss, near), h + 1);
    assert Rb(far, h + 1) && Rb(near, h + 1) && BlackRoot(near);
    assert CtxRb(In(d, up, s, true, ps, far), h + 1);
  }

  lemma Erase1Exact(d: bool, up: Ctx, p: Node, ps: nat, far: Tree, s: Node, ss: nat, near: Tree, t: Tree)
    requires CtxExact(In(d, up, p, true, ps, Mk(!d, far, s, false, ss, near)), Sub(t))
    ensures CtxExact(In(d, In(d, up, s, true, ps, far), p, false, Best(p, Sub(near), Sub(t)), near), Sub(t))
  {
    ExactMk(!d, far, s, false, ss, near);
    hide Best, Mk, Exact;
    RotateBest(p, s, Sub(far), Sub(near), Sub(t));
    BestSwap(p, Sub(t), ss);
    BestSwap(p, Sub(near), Sub(t));
    BestSwap(s, Sub(far), Best(p, Sub(near), Sub(t)));
    assert CtxExact(In(d, up, s, true, ps, far), Best(p, Sub(near), Sub(t)));
  }

  lemma Erase1Order(d: bool, up: Ctx, p: Node, ps: nat, far: Tree, s: Node, ss: nat, near: Tree, t: Tree, ps': nat)
    ensures Order(In(d, In(d, up, s, true, ps, far), p, false, ps', near), t) ==
            Order(In(d, up, p, true, ps, Mk(!d, far, s, false, ss, near)), t)
  {
    var low := Mk(!d, near, p, false, ps', t);
    assert low == Mk(d, t, p, false, ps', near);
    assert Mk(!d, far, s, true, ps, low) == Mk(d, low, s, true, ps, far);
    var sib := Mk(!d, far, s, false, ss, near);
    assert Mk(d, t, p, true, ps, sib) == Mk(!d, sib, p, true, ps, t);
    hide *;
    ZipOrder(d, In(d, up, s, true, ps, far), t, p, false, ps', near);
    ZipOrder(d, up, low, s, true, ps, far);
    ZipOrder(d, up, t, p, true, ps, sib);
    RotateOrder(!d, far, s, false, ss, near, p, true, ps, t, true, ps, false, ps');
    SameOrder(up, Mk(!d, far, s, true, ps, low), Mk(!d, sib, p, true, ps, t));
  }

  /** Case 2: the sibling turns red.  A red parent turns black and ends the repair;
      otherwise the parent's whole subtree lacks a black node. */
  lemma Erase2Result(m0: Mem, root0: Node?, m: Mem, root: Node?, d: bool, up: Ctx, p: Node, pb: bool, ps: nat,
                     s: Tree, t: Tree, h: nat, order: seq<Node>)
    requires Lacking(m0, root0, In(d, up, p, pb, ps, s), t, h, order)
    requires s.Tree? && s.black && BlackRoot(s.left) && BlackRoot(s.right)
    requires At(m, root, up, Mk(d, t, p, true, ps, Paint(s, false)))
    ensures var r := Mk(d, t, p, true, ps, Paint(s, false));
      && BlackRoot(r) && (!pb ==> Fixing(m, root, up, r, h + 1, order))
      && (pb && up.In? ==> Lacking(m, root, up, r, h + 1, order))
      && (up.Top? ==> Fixing(m, root, up, r, h + 1, order))
  {
    hide At;
    var s' := Paint(s, false);
    var r := Mk(d, t, p, true, ps, s');
    assert Rb(s', h) && Exact(s') && Sub(s') == Sub(s);
    ExactMk(d, t, p, true, ps, s');
    assert Rb(r, h + 1);
    assert Order(up, r) == order by {
      ZipOrder(d, up, t, p, pb, ps, s);
      InorderMk(d, t, p, pb, ps, s);
      InorderMk(d, t, p, true, ps, s');
      SameOrder(up, r, Mk(d, t, p, pb, ps, s));
    }
  }

  /** Case 4: one rotation gives the node's side the missing black node. */
  lemma Erase4Fixed(m0: Mem, root0: Node?, m: Mem, root: Node?, d: bool, up: Ctx, p: Node, pb: bool, ps: nat,
                    far: Tree, s: Node, ss: nat, near: Tree, t: Tree, h: nat, order: seq<Node>)
    requires Lacking(m0, root0, In(d, up, p, pb, ps, Mk(!d, far, s, true, ss, near)), t, h, order)
    requires far.Tree? && !far.black
    requires At(m, root, up, Mk(!d, Paint(far, true), s, pb, ps, Mk(!d, near, p, true, Best(p, Sub(near), Sub(t)), t)))
    ensures var r := Mk(!d, Paint(far, true), s, pb, ps, Mk(!d, near, p, true, Best(p, Sub(near), Sub(t)), t));
      Fixing(m, root, up, r, h + 1 + Weight(pb), order) && (BlackRoot(r) || (up.In? && up.black))
  {
    hide At;
    var ps' := Best(p, Sub(near), Sub(t));
    var sib, low, far' := Mk(!d, far, s, true, ss, near), Mk(!d, near, p, true, ps', t), Paint(far, true);
    var r := Mk(!d, far', s, pb, ps, low);
    Erase4Colours(d, up, p, pb, ps, far, s, ss, near, t, h, ps');
    assert Exact(r) && Sub(r) == ps by {
      ExactMk(!d, far, s, true, ss, near);
      assert Exact(far') && Sub(far') == Sub(far);
      hide Best, Mk, Exact;
      ExactMk(!d, near, p, true, ps', t);
      ExactMk(!d, far', s, pb, ps, low);
      RotateBest(p, s, Sub(far), Sub(near), Sub(t));
      BestSwap(p, Sub(t), ss);
    }
    assert Order(up, r) == order by {
      ZipOrder(d, up, t, p, pb, ps, sib);
      assert Mk(d, t, p, pb, ps, sib) == Mk(!d, sib, p, pb, ps, t);
      RotateOrder(!d, far, s, true, ss, near, p, pb, ps, t, pb, ps, true, ps');
      InorderMk(!d, far, s, pb, ps, low);
      InorderMk(!d, far', s, pb, ps, low);
      SameOrder(up, r, Mk(!d, sib, p, pb, ps, t));
    }
  }

  lemma Erase4Colours(d: bool, up: Ctx, p: Node, pb: bool, ps: nat, far: Tree, s: Node, ss: nat, near: Tree, t: Tree,
                      h: nat, ps': nat)
    requires CtxRb(In(d, up, p, pb, ps, Mk(!d, far, s, true, ss, near)), h + 1)
    requires Rb(t, h) && BlackRoot(t) && far.Tree? && !far.black
    ensures var r := Mk(!d, Paint(far, true), s, pb, ps, Mk(!d, near, p, true, ps', t));
      Rb(r, h + 1 + Weight(pb)) && (BlackRoot(r) || (up.In? && up.black)) && CtxRb(up, h + 1 + Weight(pb))
  {
    assert Rb(Mk(!d, far, s, true, ss, near), h + 1);
    assert Rb(far, h) && Rb(near, h);
    assert Rb(Paint(far, true), h + 1);
    assert Rb(Mk(!d, near, p, true, ps', t), h + 1);
  }

  /** Cases 3 and 4: the near nephew `n` moves up two levels. */
  lemma Erase3Fixed(m0: Mem, root0: Node?, m: Mem, root: Node?, d: bool, up: Ctx, p: Node, pb: bool, ps: nat,
                    far: Tree, s: Node, ss: nat, b: Tree, n: Node, ns: nat, c: Tree, t: Tree, h: nat, order: seq<Node>)
    requires Lacking(m0, root0, In(d, up, p, pb, ps, Mk(!d, far, s, true, ss, Mk(!d, b, n, false, ns, c))), t, h, order)
    requires BlackRoot(far)
    requires At(m, root, up, Mk(!d, Mk(!d, far, s, true, Best(s, Sub(far), Sub(b)), b), n, pb, ps,
                                Mk(!d, c, p, true, Best(p, Sub(c), Sub(t)), t)))
    ensures var r := Mk(!d, Mk(!d, far, s, true, Best(s, Sub(far), Sub(b)), b), n, pb, ps,
                        Mk(!d, c, p, true, Best(p, Sub(c), Sub(t)), t));
      Fixing(m, root, up, r, h + 1 + Weight(pb), order) && (BlackRoot(r) || (up.In? && up.black))
  {
    hide At;
    var ss', ps' := Best(s, Sub(far), Sub(b)), Best(p, Sub(c), Sub(t));
    var low := Mk(!d, b, n, false, ns, c);
    var sib := Mk(!d, far, s, true, ss, low);
    var near, opp := Mk(!d, far, s, true, ss', b), Mk(!d, c, p, true, ps', t);
    var r := Mk(!d, near, n, pb, ps, opp);
    Erase3Colours(d, up, p, pb, ps, far, s, ss, b, n, ns, c, t, h, ss', ps');
    assert Exact(r) && Sub(r) == ps by {
      hide Best, Mk, Exact;
      ExactMk(!d, b, n, false, ns, c);
      ExactMk(!d, far, s, true, ss, low);
      ExactMk(!d, far, s, true, ss', b);
      ExactMk(!d, c, p, true, ps', t);
      ExactMk(!d, near, n, pb, ps, opp);
      RotateBest(n, s, Sub(far), Sub(b), Sub(c));
      RotateBest(p, n, ss', Sub(c), Sub(t));
      BestSwap(p, Sub(t), ss);
    }
    Erase3Order(d, up, p, pb, ps, far, s, ss, b, n, ns, c, t, ss', ps');
  }

  lemma Erase3Colours(d: bool, up: Ctx, p: Node, pb: bool, ps: nat, far: Tree, s: Node, ss: nat, b: Tree, n: Node,
                      ns: nat, c: Tree,
                      t: Tree, h: nat, ss': nat, ps': nat)
    requires CtxRb(In(d, up, p, pb, ps, Mk(!d, far, s, true, ss, Mk(!d, b, n, false, ns, c))), h + 1)
    requires Rb(t, h) && BlackRoot(t) && BlackRoot(far)
    ensures var r := Mk(!d, Mk(!d, far, s, true, ss', b), n, pb, ps, Mk(!d, c, p, true, ps', t));
      Rb(r, h + 1 + Weight(pb)) && (BlackRoot(r) || (up.In? && up.black)) && CtxRb(up, h + 1 + Weight(pb))
  {
    assert Rb(Mk(!d, far, s, true, ss, Mk(!d, b, n, false, ns, c)), h + 1);
    assert Rb(far, h) && Rb(Mk(!d, b, n, false, ns, c), h);
    assert Rb(Mk(!d, far, s, true, ss', b), h + 1);
    assert Rb(Mk(!d, c, p, true, ps', t), h + 1);
  }

  lemma Erase3Order(d: bool, up: Ctx, p: Node, pb: bool, ps: nat, far: Tree, s: Node, ss: nat, b: Tree, n: Node,
                    ns: nat, c: Tree,
                    t: Tree, ss': nat, ps': nat)
    ensures Order(up, Mk(!d, Mk(!d, far, s, true, ss', b), n, pb, ps, Mk(!d, c, p, true, ps', t))) ==
            Order(In(d, up, p, pb, ps, Mk(!d, far, s, true, ss, Mk(!d, b, n, false, ns, c))), t)
  {
    var sib := Mk(!d, far, s, true, ss, Mk(!d, b, n, false, ns, c));
    var near := Mk(!d, far, s, true, ss', b);
    var sib' := Mk(!d, near, n, false, ns, c);
    assert Mk(d, t, p, pb, ps, sib) == Mk(!d, sib, p, pb, ps, t);
    hide *;
    ZipOrder(d, up, t, p, pb, ps, sib);
    RotateOrder(!d, far, s, true, ss', b, n, false, ns, c, true, ss, false, ns);
    InorderMk(!d, sib, p, pb, ps, t);
    InorderMk(!d, sib', p, pb, ps, t);
    RotateOrder(!d, near, n, false, ns, c, p, pb, ps, t, pb, ps, true, ps');
    SameOrder(up, Mk(!d, near, n, pb, ps, Mk(!d, c, p, true, ps', t)), Mk(!d, sib, p, pb, ps, t));
  }

  lemma TreeMk(dir: bool, t: Tree)
    requires t.Tree?
    ensures t == Mk(dir, if dir then t.left else t.right, t.n, t.black, t.sub, if dir then t.right else t.left)
  {}

  /** A red near nephew has black children. */
  lemma RedNearKids(m: Mem, root: Node?, ctx: Ctx, t: Tree, h: nat, order: seq<Node>, n: Tree)
    requires Lacking(m, root, ctx, t, h, order) && ctx.other.Tree? && n.Tree? && !n.black
    requires n == ctx.other.left || n == ctx.other.right
    ensures BlackRoot(n.left) && BlackRoot(n.right)
  {
    assert Rb(ctx.other, h + 1);
    assert Rb(n, h + 1 - Weight(ctx.other.black));
  }

  lemma LackingAt(m: Mem, root: Node?, ctx: Ctx, t: Tree, h: nat, order: seq<Node>)
    requires Lacking(m, root, ctx, t, h, order)
    ensures At(m, root, ctx, t) && ctx.In?
  {}

  /** The children a black sibling `s` shows to the loop. */
  lemma SiblingView(m: Mem, root: Node?, ctx: Ctx, s: Tree)
    requires At(m, root, ctx, s) && s.Tree?
    ensures s.n in m && m[s.n] == Cell(Root(s.left), Root(s.right), Above(ctx), s.black, s.sub)
    ensures s.left.Tree? ==> s.left.n in m && m[s.left.n].black == s.left.black
    ensures s.right.Tree? ==> s.right.n in m && m[s.right.n].black == s.right.black
  {
    assert Linked(m, s.left, s.n) && Linked(m, s.right, s.n);
  }

  lemma RightView(m: Mem, root: Node?, ctx: Ctx, t: Tree)
    requires At(m, root, ctx, t) && t.Tree? && t.right.Tree?
    ensures t.right.n in m && m[t.right.n].left == Root(t.right.left)
  {
    assert Linked(m, t.right, t.n);
  }

  /** The node and its sibling hang on different sides of the parent. */
  lemma SidesDiffer(m: Mem, root: Node?, ctx: Ctx, t: Tree)
    requires At(m, root, ctx, t) && ctx.In? && ctx.other.Tree?
    ensures ctx.n in m && m[ctx.n] == MkCell(ctx.dir, Root(t), ctx.other.n, Above(ctx.up), ctx.black, ctx.sub)
    ensures Root(t) != ctx.other.n && ctx.other.n in m && m[ctx.other.n].parent == ctx.n && ctx.other.n != ctx.n
    ensures ctx.up.In? ==> ctx.up.n in m
  {
    Occurs(t); Occurs(ctx.other);
    assert CtxLinked(m, ctx.up, ctx.n, root);
  }

  /** Recolouring a black sibling red and, in turn, its parent black. */
  lemma Erase2Writes(m: Mem, m1: Mem, m2: Mem, root: Node?, d: bool, up: Ctx, p: Node, pb: bool, ps: nat, s: Tree, t: Tree)
    requires At(m, root, In(d, up, p, pb, ps, s), t) && s.Tree?
    requires s.n in m && p in m && m1 == m[s.n := m[s.n].(parent := p, black := false)]
    requires p in m1 && m2 == m1[p := m1[p].(black := true)]
    ensures At(m2, root, up, Mk(d, t, p, true, ps, Paint(s, false)))
  {
    hide At, Mk, Paint, MkCell;
    var s' := Paint(s, false);
    Sideways(m, root, d, up, p, pb, ps, t, s);
    TreeCell(m, root, In(!d, up, p, pb, ps, t), s);
    Retouched(m, m1, root, In(!d, up, p, pb, ps, t), s.left, s.n, s.black, s.sub, s.right, false, s.sub);
    PaintTree(s, false);
    Sideways(m1, root, d, up, p, pb, ps, t, s');
    Up(m1, root, d, up, p, pb, ps, s', t);
    ParentCell(m1, root, up, d, t, p, pb, ps, s');
    RetouchedMk(m1, m2, root, up, d, t, p, pb, ps, s', true, ps);
  }
}
