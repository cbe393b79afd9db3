/**
 Paths inside a tree: what `propagate` does along one, and how erasing a node with two
 children puts its successor in its place.
 */
module RbSplice {
  import opened RbShape
  import opened RbLinks
  import opened RbSteps

  /** The path `q` inside a subtree, continued by the path `base` above that subtree. */
  ghost function Append(q: Ctx, base: Ctx): Ctx {
    match q
    case Top => base
    case In(dir, up, n, b, s, o) => In(dir, Append(up, base), n, b, s, o)
  }

  /** The uppermost node of `q` with `child` in its hole: the root of the subtree that
      `q` runs through. */
  ghost function Foot(q: Ctx, child: Node?): Node? {
    if q.Top? then child else Foot(q.up, q.n)
  }

  ghost function Over(q: Ctx, top: Node?): Node? {
    if q.Top? then top else q.n
  }

  /** `CtxLinked` for a path that ends below `top`. */
  ghost predicate PathLinked(m: Mem, q: Ctx, child: Node?, top: Node?) {
    match q
    case Top => true
    case In(dir, up, n, b, s, o) =>
      && n in m && m[n] == MkCell(dir, child, Root(o), Over(up, top), b, s)
      && Linked(m, o, n) && PathLinked(m, up, n, top)
  }

  lemma {:induction false} AppendLinked(m: Mem, q: Ctx, base: Ctx, child: Node?, root: Node?)
    ensures CtxLinked(m, Append(q, base), child, root) <==>
      PathLinked(m, q, child, Above(base)) && CtxLinked(m, base, Foot(q, child), root)
    ensures Above(Append(q, base)) == Over(q, Above(base))
  {
    match q
    case Top =>
    case In(_, up, n, _, _, _) =>
      AppendLinked(m, up, base, n, root);
  }

  lemma {:induction false} AppendCount(q: Ctx, base: Ctx, x: Node)
    ensures CtxCount(Append(q, base), x) == CtxCount(q, x) + CtxCount(base, x)
  {
    match q
    case Top =>
    case In(_, up, _, _, _, _) =>
      AppendCount(up, base, x);
  }

  lemma {:induction false} FootOccurs(q: Ctx, child: Node?)
    requires q.In?
    ensures Foot(q, child) != null && CtxCount(q, Foot(q, child)) >= 1
    decreases q
  {
    if q.up.In? {
      FootOccurs(q.up, q.n);
    }
  }

  lemma {:induction false} FootCell(m: Mem, q: Ctx, child: Node?, top: Node?)
    requires PathLinked(m, q, child, top) && q.In?
    ensures Foot(q, child) in m && m[Foot(q, child)].parent == top
    decreases q
  {
    if q.up.In? {
      FootCell(m, q.up, q.n, top);
    }
  }

  /** The node under the hole of `q` changes. */
  lemma PathKid(m: Mem, m': Mem, q: Ctx, child: Node?, child': Node?, top: Node?)
    requires PathLinked(m, q, child, top) && q.In? && CtxCount(q, q.n) <= 1
    requires q.n in m && m' == m[q.n := SetKid(m[q.n], q.dir, child')]
    ensures PathLinked(m', q, child', top)
  {
    var w := Writes(q.n, null, null, null, null, null);
    assert CtxCount(q, q.n) == Count(q.other, q.n) + 1 + CtxCount(q.up, q.n);
    Frame(m, m', q.other, q.n, w);
    PathFrame(m, m', q.up, q.n, top, w);
  }

  lemma {:induction false} PathFrame(m: Mem, m': Mem, q: Ctx, child: Node?, top: Node?, w: Writes)
    requires PathLinked(m, q, child, top) && Same(m, m', w) && CtxAvoids(q, w)
    ensures PathLinked(m', q, child, top)
  {
    match q
    case Top =>
    case In(_, up, n, _, _, o) =>
      assert CtxCount(q, n) > 0;
      Frame(m, m', o, n, w);
      PathFrame(m, m', up, n, top, w);
  }

  /** The subtree that `q` runs through gets a new parent. */
  lemma {:induction false} PathTop(m: Mem, m': Mem, q: Ctx, child: Node?, top: Node?, top': Node?, w: Writes)
    requires PathLinked(m, q, child, top) && q.In? && Same(m, m', w) && w.h == Foot(q, child)
    requires var f := Foot(q, child); f in m && f in m' && m'[f] == m[f].(parent := top')
    requires CtxCount(q, Foot(q, child)) <= 1 && CtxAvoids(q, w.(h := null))
    ensures PathLinked(m', q, child, top')
    decreases q
  {
    var f := Foot(q, child);
    FootOccurs(q, child);
    assert q.up.Top? ==> f == q.n;
    assert q.up.In? ==> f == Foot(q.up, q.n);
    if q.up.In? { FootOccurs(q.up, q.n); }
    hide Count, CtxCount, Linked, Foot, Same, Touched, Avoids, CtxAvoids;
    CountIn(q.dir, q.up, q.n, q.black, q.sub, q.other, f);
    CountIn(q.dir, q.up, q.n, q.black, q.sub, q.other, q.n);
    AvoidsIn(q, w.(h := null));
    if q.n != f { TouchedAlso(w, q.n); }
    Frame(m, m', q.other, q.n, w);
    if q.up.In? {
      PathTop(m, m', q.up, q.n, top, top', w);
    }
  }

  lemma TouchedAlso(w: Writes, x: Node)
    requires !Touched(w.(h := null), x) && x != w.h
    ensures !Touched(w, x)
  {}

  lemma AvoidsIn(q: Ctx, w: Writes)
    requires q.In? && CtxAvoids(q, w)
    ensures Avoids(q.other, w) && CtxAvoids(q.up, w)
    ensures !Touched(w, q.n)
  {
    assert CtxCount(q, q.n) > 0;
  }

  // ---------- the successor takes the erased node's place ----------

  ghost predicate SpliceApart(m: Mem, q: Ctx, ctx: Ctx, l: Tree, c: Tree, node: Node, sc: Node) {
    forall x :: x in m ==> CtxCount(q, x) + CtxCount(ctx, x) + Count(l, x) + Count(c, x) + Is(x, node) + Is(x, sc) == 1
  }

  /** The net effect of the structural writes of `__rb_erase_augmented`, cases 2 and 3. */
  ghost predicate SpliceWrites(m: Mem, m': Mem, root: Node?, root': Node?, q: Ctx, ctx: Ctx, l: Tree, c: Tree,
                               node: Node, sc: Node, b: bool, s: nat) {
    && (forall x :: x in m' ==> x in m && x != node)
    && sc in m' && m'[sc] == Cell(Root(l), Foot(q, Root(c)), Above(ctx), b, s)
    && (q.In? ==>
          var f := Foot(q, sc);
          q.n in m && f in m && q.n in m' && f in m' &&
          if f == q.n then m'[f] == SetKid(m[f], q.dir, Root(c)).(parent := sc)
          else m'[q.n] == SetKid(m[q.n], q.dir, Root(c)) && m'[f] == m[f].(parent := sc))
    && (c.Tree? ==> c.n in m && c.n in m' && m'[c.n] == m[c.n].(parent := Over(q, sc), black := true))
    && (l.Tree? ==> l.n in m && l.n in m' && m'[l.n] == m[l.n].(parent := sc))
    && Rehung(m, m', root, root', ctx, sc)
    && Same(m, m', Writes(node, sc, Over(q, null), Root(l), Root(c), Above(ctx), null, Foot(q, null)))
  }

  lemma {:induction false} FootSame(q: Ctx, x: Node?, y: Node?)
    requires q.In?
    ensures Foot(q, x) == Foot(q, y)
  {}

  lemma SplicedPath(m: Mem, m': Mem, root: Node?, root': Node?, q: Ctx, ctx: Ctx, l: Tree, c: Tree, node: Node,
                    sc: Node, b: bool, s: nat)
    requires q.In? && PathLinked(m, q, sc, node)
    requires node in m && sc in m && SpliceApart(m, q, ctx, l, c, node, sc)
    requires Rehung(m, m', root, root', ctx, sc) && (l.Tree? ==> l.n in m) && (c.Tree? ==> c.n in m)
    requires SpliceWrites(m, m', root, root', q, ctx, l, c, node, sc, b, s)
    ensures PathLinked(m', q, Root(c), sc)
  {
    hide Count, CtxCount, Linked, PathLinked, Foot, Rehung;
    var f := Foot(q, null);
    Occurs(l); Occurs(c); CtxOccurs(ctx); CtxOccurs(q);
    FootOccurs(q, null); FootSame(q, sc, null); FootSame(q, Root(c), null); FootCell(m, q, sc, node);
    var m1 := m[q.n := SetKid(m[q.n], q.dir, Root(c))];
    var w := Writes(node, sc, null, Root(l), Root(c), Above(ctx), null, f);
    PathKid(m, m1, q, sc, Root(c), node);
    RehungIn(m, m', root, root', ctx, sc);
    assert CtxAvoids(q, w.(h := null));
    PathTop(m1, m', q, Root(c), node, sc, w);
  }

  lemma RehungIn(m: Mem, m': Mem, root: Node?, root': Node?, ctx: Ctx, child: Node?)
    requires Rehung(m, m', root, root', ctx, child)
    ensures ctx.In? ==> ctx.n in m
  {}

  lemma SplicedParts(m: Mem, m': Mem, root: Node?, root': Node?, q: Ctx, ctx: Ctx, l: Tree, c: Tree, node: Node,
                     sc: Node, b: bool, s: nat)
    requires PathLinked(m, q, sc, node) && CtxLinked(m, ctx, node, root) && Linked(m, l, node) && Linked(m, c, sc)
    requires node in m && sc in m && SpliceApart(m, q, ctx, l, c, node, sc)
    requires SpliceWrites(m, m', root, root', q, ctx, l, c, node, sc, b, s)
    ensures CtxLinked(m', ctx, sc, root')
    ensures Linked(m', l, sc) && Linked(m', Paint(c, true), Over(q, sc))
  {
    assert q.Top? ==> Foot(q, null) == null;
    hide Count, CtxCount, Linked, CtxLinked, PathLinked, Foot;
    var f := Foot(q, null);
    Occurs(l); Occurs(c); CtxOccurs(ctx); CtxOccurs(q);
    if q.In? { FootOccurs(q, null); FootSame(q, sc, null); FootCell(m, q, sc, node); }
    Adopt(m, m', c, sc, Over(q, sc), true, Writes(node, sc, Over(q, null), Root(l), Above(ctx), Root(c), null, f));
    Heads(m, l, node);
    Adopt(m, m', l, node, sc, l.Leaf? || l.black, Writes(node, sc, Over(q, null), Root(c), Above(ctx), Root(l), null, f));
    CtxRehang(m, m', ctx, node, sc, root, root', Writes(node, sc, Over(q, null), Root(l), Root(c), Above(ctx), null, f));
  }

  /** The situation before the splice, taken apart. */
  lemma SpliceOpen(m: Mem, root: Node?, q: Ctx, ctx: Ctx, l: Tree, c: Tree, node: Node, sc: Node, b: bool, s: nat,
                   sb: bool, ss: nat)
    requires At(m, root, Append(q, In(false, ctx, node, b, s, l)), Tree(Leaf, sc, sb, ss, c))
    ensures PathLinked(m, q, sc, node) && CtxLinked(m, ctx, node, root) && Linked(m, l, node) && Linked(m, c, sc)
    ensures node in m && m[node] == Cell(Root(l), Foot(q, sc), Above(ctx), b, s)
    ensures sc in m && m[sc] == Cell(null, Root(c), Over(q, node), sb, ss)
    ensures SpliceApart(m, q, ctx, l, c, node, sc)
  {
    var t := Tree(Leaf, sc, sb, ss, c);
    var base := In(false, ctx, node, b, s, l);
    assert Linked(m, c, sc) && sc in m;
    assert forall x :: x in m ==> Count(t, x) == Is(x, sc) + Count(c, x);
    AppendLinked(m, q, base, sc, root);
    hide Count, CtxCount, Linked, CtxLinked, PathLinked, Foot, Append;
    CtxLinkedIn(m, false, ctx, node, b, s, l, Foot(q, sc), root);
    forall x | x in m
      ensures CtxCount(q, x) + CtxCount(ctx, x) + Count(l, x) + Count(c, x) + Is(x, node) + Is(x, sc) == 1
    {
      AppendCount(q, base, x);
      CountIn(false, ctx, node, b, s, l, x);
    }
  }

  /** The tree after the splice: the successor sits where the erased node was. */
  lemma Spliced(m: Mem, m': Mem, root: Node?, root': Node?, q: Ctx, ctx: Ctx, l: Tree, c: Tree,
                node: Node, sc: Node, b: bool, s: nat, sb: bool, ss: nat)
    requires At(m, root, Append(q, In(false, ctx, node, b, s, l)), Tree(Leaf, sc, sb, ss, c))
    requires SpliceWrites(m, m', root, root', q, ctx, l, c, node, sc, b, s)
    ensures At(m', root', Append(q, In(false, ctx, sc, b, s, l)), Paint(c, true))
    ensures node !in m'
  {
    var base' := In(false, ctx, sc, b, s, l);
    hide Count, CtxCount, Linked, CtxLinked, PathLinked, Foot, Append;
    SpliceOpen(m, root, q, ctx, l, c, node, sc, b, s, sb, ss);
    SplicedParts(m, m', root, root', q, ctx, l, c, node, sc, b, s);
    if q.In? { SplicedPath(m, m', root, root', q, ctx, l, c, node, sc, b, s); } else { PathTopmost(m', q, Root(c), sc); }
    PaintRoot(c, true);
    CtxLinkedIn(m', false, ctx, sc, b, s, l, Foot(q, Root(c)), root');
    AppendLinked(m', q, base', Root(c), root');
    forall x | x in m' ensures Count(Paint(c, true), x) + CtxCount(Append(q, base'), x) == 1 {
      AppendCount(q, base', x);
      CountIn(false, ctx, sc, b, s, l, x);
      PaintCount(c, true, x);
    }
  }

  lemma PathTopmost(m: Mem, q: Ctx, child: Node?, top: Node?)
    requires q.Top?
    ensures PathLinked(m, q, child, top)
  {}

  // ---------- propagate ----------

  /** The path after `propagate`, given the cached value `s` of the subtree in its hole:
      values are recomputed upwards until one comes out unchanged. */
  ghost function Refresh(q: Ctx, s: nat): Ctx {
    match q
    case Top => Top
    case In(dir, up, n, b, sub, o) =>
      var best := Best(n, s, Sub(o));
      if best == sub then q else In(dir, Refresh(up, best), n, b, best, o)
  }

  ghost function RefreshMem(m: Mem, q: Ctx, s: nat): Mem {
    match q
    case Top => m
    case In(dir, up, n, b, sub, o) =>
      var best := Best(n, s, Sub(o));
      if best == sub || n !in m then m else RefreshMem(m[n := m[n].(sub := best)], up, best)
  }

  lemma {:induction false} RefreshAt(m: Mem, root: Node?, q: Ctx, base: Ctx, t: Tree)
    requires At(m, root, Append(q, base), t)
    ensures At(RefreshMem(m, q, Sub(t)), root, Append(Refresh(q, Sub(t)), base), t)
    decreases q
  {
    match q
    case Top =>
    case In(dir, up, n, b, sub, o) =>
      var best := Best(n, Sub(t), Sub(o));
      if best != sub {
        Up(m, root, dir, Append(up, base), n, b, sub, o, t);
        ParentCell(m, root, Append(up, base), dir, t, n, b, sub, o);
        var m1 := m[n := m[n].(sub := best)];
        RetouchedMk(m, m1, root, Append(up, base), dir, t, n, b, sub, o, b, best);
        var t1 := Mk(dir, t, n, b, best, o);
        assert Sub(t1) == best;
        RefreshAt(m1, root, up, base, t1);
        Up(RefreshMem(m1, up, best), root, dir, Append(Refresh(up, best), base), n, b, best, o, t);
      }
  }

  /** If only the lowest value on the path may be stale, `propagate` makes all exact. */
  lemma {:induction false} RefreshExact(q: Ctx, s: nat)
    requires q.In? ==> Exact(q.other) && CtxExact(q.up, q.sub)
    ensures CtxExact(Refresh(q, s), s)
    decreases q
  {
    if q.In? {
      RefreshExact(q.up, Best(q.n, s, Sub(q.other)));
    }
  }

  /** Paths with the same shape, colours and siblings; nodes and cached values may differ. */
  ghost predicate Alike(q: Ctx, q': Ctx) {
    if q.In? then
      q'.In? && q'.dir == q.dir && q'.black == q.black && q'.other == q.other && Alike(q.up, q'.up)
    else q'.Top?
  }

  lemma {:induction false} AlikeRb(q: Ctx, q': Ctx, h: nat)
    requires Alike(q, q') && CtxRb(q, h)
    ensures CtxRb(q', h)
    decreases q
  {
    if q.In? {
      AlikeRb(q.up, q'.up, h + Weight(q.black));
    }
  }

  lemma {:induction false} AlikeSelf(q: Ctx)
    ensures Alike(q, q)
  {
    if q.In? {
      AlikeSelf(q.up);
    }
  }

  lemma {:induction false} RefreshAlike(q: Ctx, s: nat)
    ensures Alike(q, Refresh(q, s))
    ensures Before(Refresh(q, s)) == Before(q) && After(Refresh(q, s)) == After(q)
    ensures Over(Refresh(q, s), null) == Over(q, null)
    decreases q
  {
    if q.In? {
      AlikeSelf(q);
      RefreshAlike(q.up, Best(q.n, s, Sub(q.other)));
    }
  }

  lemma {:induction false} AppendAlike(q: Ctx, q': Ctx, base: Ctx, base': Ctx)
    requires Alike(q, q') && Alike(base, base')
    ensures Alike(Append(q, base), Append(q', base'))
    decreases q
  {
    if q.In? {
      AppendAlike(q.up, q'.up, base, base');
    }
  }

  /** What `propagate` reads along the path. */
  ghost predicate PathReads(m: Mem, q: Ctx, child: Node?, top: Node?) {
    match q
    case Top => true
    case In(dir, up, n, _, sub, o) =>
      && n in m && m[n].parent == Over(up, top) && m[n].sub == sub
      && Kid(m[n], dir) == child && Kid(m[n], !dir) == Root(o)
      && (o.Tree? ==> o.n in m && m[o.n].sub == o.sub)
      && PathReads(m, up, n, top)
  }

  lemma {:induction false} LinkedReads(m: Mem, q: Ctx, child: Node?, top: Node?)
    requires PathLinked(m, q, child, top)
    ensures PathReads(m, q, child, top)
    decreases q
  {
    if q.In? {
      LinkedReads(m, q.up, q.n, top);
    }
  }

  lemma {:induction false} ReadsFrame(m: Mem, m': Mem, q: Ctx, child: Node?, top: Node?, x: Node)
    requires PathReads(m, q, child, top) && CtxCount(q, x) == 0
    requires forall y :: y in m && y != x ==> y in m' && m'[y] == m[y]
    ensures PathReads(m', q, child, top)
    decreases q
  {
    if q.In? {
      assert q.n != x;
      assert q.other.Tree? ==> q.other.n != x;
      ReadsFrame(m, m', q.up, q.n, top, x);
    }
  }

  /** No node comes twice on the path, nor does the node it stops at. */
  ghost predicate PathOnce(m: Mem, q: Ctx, top: Node?) {
    && (forall x :: x in m ==> CtxCount(q, x) <= 1)
    && (top != null ==> CtxCount(q, top) == 0)
  }

  lemma RefreshStops(m: Mem, q: Ctx, s: nat, top: Node?)
    ensures q.Top? ==> RefreshMem(m, q, s) == m
    ensures q.In? && Best(q.n, s, Sub(q.other)) == q.sub ==> RefreshMem(m, q, s) == m
    ensures PathOnce(m, q, top) && Over(q, top) == top ==> q.Top?
  {
    CtxOccurs(q);
  }

  /** What the loop of `propagate` computes at the lowest node of the path. */
  lemma PropagateHead(m: Mem, q: Ctx, child: Node?, top: Node?)
    requires PathReads(m, q, child, top) && q.In?
    ensures q.n in m && m[q.n].sub == q.sub && m[q.n].parent == Over(q.up, top)
    ensures child != null && child in m ==> Kid(m[q.n], q.dir) in m
    ensures Kid(m[q.n], q.dir) == child && (Kid(m[q.n], !q.dir) != null ==> Kid(m[q.n], !q.dir) in m)
    ensures Best(q.n, SubOf(m, m[q.n].left), SubOf(m, m[q.n].right)) == Best(q.n, SubOf(m, child), Sub(q.other))
  {
    BestSwap(q.n, SubOf(m, child), Sub(q.other));
  }

  /** One turn of that loop leaves the rest of the path as it was. */
  lemma PropagateNext(m: Mem, m': Mem, q: Ctx, child: Node?, top: Node?, v: nat)
    requires PathReads(m, q, child, top) && PathOnce(m, q, top) && q.In?
    requires q.n in m && m' == m[q.n := m[q.n].(sub := v)]
    ensures PathReads(m', q.up, q.n, top) && PathOnce(m', q.up, top) && CtxCount(q.up, q.n) == 0 && SubOf(m', q.n) == v
  {
    assert CtxCount(q, q.n) == Count(q.other, q.n) + 1 + CtxCount(q.up, q.n);
    ReadsFrame(m, m', q.up, q.n, top, q.n);
  }

  // ---------- sound trees seen from inside ----------

  /** `t` sits in `ctx`, everything is exact, and all colour rules hold. */
  ghost predicate Placed(m: Mem, root: Node?, ctx: Ctx, t: Tree, h: nat, order: seq<Node>) {
    Fixing(m, root, ctx, t, h, order) && (BlackRoot(t) || (ctx.In? && ctx.black))
  }

  lemma PlacedAtTop(m: Mem, root: Node?, t: Tree) returns (h: nat)
    requires Sound(m, root, t)
    ensures Placed(m, root, Top, t, h, Inorder(t))
  {
    h :| Rb(t, h);
    assert Order(Top, t) == Inorder(t);
  }

  /** The child on side `dir`, and the path to it. */
  ghost function Child(t: Tree, dir: bool): Tree
    requires t.Tree?
  {
    if dir then t.left else t.right
  }

  ghost function Below(ctx: Ctx, t: Tree, dir: bool): Ctx
    requires t.Tree?
  {
    In(dir, ctx, t.n, t.black, t.sub, Child(t, !dir))
  }

  lemma StepDown(m: Mem, root: Node?, ctx: Ctx, t: Tree, dir: bool, h: nat, order: seq<Node>)
    requires Placed(m, root, ctx, t, h, order) && t.Tree?
    ensures Weight(t.black) <= h && Placed(m, root, Below(ctx, t, dir), Child(t, dir), h - Weight(t.black), order)
  {
    hide At, Order, Exact, Rb, CtxRb;
    var near, far := Child(t, dir), Child(t, !dir);
    TreeMk(dir, t);
    Up(m, root, dir, ctx, t.n, t.black, t.sub, far, near);
    ZipOrder(dir, ctx, near, t.n, t.black, t.sub, far);
    ExactMk(dir, near, t.n, t.black, t.sub, far);
    RbBelow(ctx, t, dir, h);
  }

  lemma RbBelow(ctx: Ctx, t: Tree, dir: bool, h: nat)
    requires t.Tree? && Rb(t, h) && CtxRb(ctx, h)
    requires BlackRoot(t) || (ctx.In? && ctx.black)
    ensures var ctx', t' := Below(ctx, t, dir), Child(t, dir);
      && Weight(t.black) <= h && Rb(t', h - Weight(t.black)) && CtxRb(ctx', h - Weight(t.black))
      && (BlackRoot(t') || ctx'.black)
  {}

  /** Every node of a sound tree has a path to it. */
  lemma {:induction false} PathTo(m: Mem, root: Node?, ctx: Ctx, t: Tree, h: nat, order: seq<Node>, x: Node)
    returns (ctx': Ctx, t': Tree, h': nat)
    requires Placed(m, root, ctx, t, h, order) && Count(t, x) > 0
    ensures Placed(m, root, ctx', t', h', order) && t'.Tree? && t'.n == x
    decreases t
  {
    if t.n == x {
      return ctx, t, h;
    }
    var dir := Count(t.left, x) > 0;
    StepDown(m, root, ctx, t, dir, h, order);
    ctx', t', h' := PathTo(m, root, Below(ctx, t, dir), Child(t, dir), h - Weight(t.black), order, x);
  }

  lemma {:induction false} ZipDown(m: Mem, root: Node?, q: Ctx, base: Ctx, t: Tree)
    ensures At(m, root, Append(q, base), t) <==> At(m, root, base, Plug(q, t))
    decreases q
  {
    if q.In? {
      Up(m, root, q.dir, Append(q.up, base), q.n, q.black, q.sub, q.other, t);
      ZipDown(m, root, q.up, base, Mk(q.dir, t, q.n, q.black, q.sub, q.other));
    }
  }

  lemma {:induction false} AppendExact(q: Ctx, base: Ctx, t: Tree)
    requires CtxExact(q, Sub(t)) && CtxExact(base, Sub(Plug(q, t)))
    ensures CtxExact(Append(q, base), Sub(t))
    decreases q
  {
    if q.In? {
      var t1 := Mk(q.dir, t, q.n, q.black, q.sub, q.other);
      assert Sub(t1) == q.sub;
      AppendExact(q.up, base, t1);
    }
  }

  lemma {:induction false} AppendExactParts(q: Ctx, base: Ctx, s: nat, t: Tree)
    requires CtxExact(Append(q, base), s) && s == Sub(t)
    ensures CtxExact(q, s) && CtxExact(base, Sub(Plug(q, t)))
    decreases q
  {
    if q.In? {
      var t1 := Mk(q.dir, t, q.n, q.black, q.sub, q.other);
      assert Sub(t1) == q.sub;
      AppendExactParts(q.up, base, q.sub, t1);
    }
  }

  lemma {:induction false} AppendTop(q: Ctx)
    ensures Append(q, Top) == q
  {
    if q.In? {
      AppendTop(q.up);
    }
  }

  // ---------- what is left to repair after the structural part ----------

  /** A node without one child has at most a single red node on the other side. */
  lemma OnlyChild(x: Tree, y: Tree, b: bool, h: nat)
    requires Weight(b) <= h && Rb(x, h - Weight(b)) && Rb(y, h - Weight(b)) && y.Leaf?
    ensures h == Weight(b) && Rb(x, 0)
  {}

  /** Cutting a node with at most one child `x` out of the tree. */
  lemma CutOut(m: Mem, m': Mem, root: Node?, root': Node?, ctx: Ctx, x: Tree, dir: bool, node: Node, b: bool, s: nat)
    requires At(m, root, ctx, Mk(dir, Leaf, node, b, s, x))
    requires forall y :: y in m' ==> y in m && y != node
    requires x.Tree? ==> x.n in m && x.n in m' && m'[x.n] == m[x.n].(parent := Above(ctx), black := b)
    requires Rehung(m, m', root, root', ctx, Root(x))
    requires Same(m, m', Writes(node, Root(x), Above(ctx), null, null, null))
    ensures At(m', root', ctx, Paint(x, b)) && node !in m'
  {
    hide Count, CtxCount, Linked, CtxLinked, Mk;
    Occurs(x); CtxOccurs(ctx);
    LinkedMk(m, dir, Leaf, node, b, s, x, Above(ctx));
    forall y | y in m ensures Count(x, y) + CtxCount(ctx, y) + Is(y, node) == 1 {
      CountMk(dir, Leaf, node, b, s, x, y);
      LeafCount(y);
    }
    Adopt(m, m', x, node, Above(ctx), b, Writes(node, Above(ctx), null, null, null, Root(x)));
    CtxRehang(m, m', ctx, node, Root(x), root, root', Writes(node, Root(x), null, null, null, Above(ctx)));
    PaintRoot(x, b);
    forall y | y in m' ensures Count(Paint(x, b), y) + CtxCount(ctx, y) == 1 {
      PaintCount(x, b, y);
    }
  }

  lemma LeafCount(x: Node)
    ensures Count(Leaf, x) == 0
  {}

  ghost predicate AllLeft(q: Ctx) {
    q.In? ==> q.dir && AllLeft(q.up)
  }

  lemma {:induction false} AllLeftOrder(q: Ctx, base: Ctx)
    requires AllLeft(q)
    ensures Before(q) == [] && Before(Append(q, base)) == Before(base) && After(Append(q, base)) == After(q) + After(base)
    decreases q
  {
    if q.In? {
      AllLeftOrder(q.up, base);
      assert ([q.n] + Inorder(q.other)) + (After(q.up) + After(base)) == ([q.n] + Inorder(q.other)) + After(q.up) + After(base);
    } else {
      assert [] + After(base) == After(base);
    }
  }

  lemma {:induction false} AlikeAllLeft(q: Ctx, q': Ctx)
    requires AllLeft(q) && Alike(q, q')
    ensures AllLeft(q')
    decreases q
  {
    if q.In? { AlikeAllLeft(q.up, q'.up); }
  }

  /** The order after the splice is the old one without the erased node. */
  lemma SpliceOrder(q: Ctx, q': Ctx, ctx: Ctx, base': Ctx, l: Tree, sc: Node, sb: bool, ss: nat, c: Tree)
    requires AllLeft(q) && Alike(q, q') && After(q') == After(q)
    requires Before(base') == Before(ctx) + (Inorder(l) + [sc]) && After(base') == After(ctx)
    ensures Order(Append(q', base'), Paint(c, true)) ==
      (Before(ctx) + Inorder(l)) + (Inorder(Plug(q, Tree(Leaf, sc, sb, ss, c))) + After(ctx))
  {
    assert Inorder(Tree(Leaf, sc, sb, ss, c)) == [sc] + Inorder(c);
    assert Inorder(Paint(c, true)) == Inorder(c);
    hide Inorder, Before, After, Append, AllLeft, Alike, Plug;
    AlikeAllLeft(q, q');
    AllLeftOrder(q', base');
    AllLeftOrder(q, base');
    PlugOrder(q, Tree(Leaf, sc, sb, ss, c));
    SpliceSeq(Before(ctx), Inorder(l), sc, Inorder(c), After(q), After(ctx));
  }

  lemma SpliceSeq(x: seq<Node>, y: seq<Node>, sc: Node, z: seq<Node>, w: seq<Node>, v: seq<Node>)
    ensures x + (y + [sc]) + z + (w + v) == (x + y) + (([] + ([sc] + z) + w) + v)
  {}

  // ---------- the structural part with its propagation, as a whole ----------

  /** The memory the structural writes alone would have produced: on the path below the
      successor, the state before its values were refreshed. */
  ghost function Unrefreshed(m1: Mem, m': Mem, q: Ctx): Mem {
    map x | x in m' :: if CtxCount(q, x) > 0 && x in m1 then m1[x] else m'[x]
  }

  /** Only what is on the path is refreshed. */
  lemma {:induction false} RefreshKeeps(m: Mem, q: Ctx, s: nat)
    ensures RefreshMem(m, q, s).Keys == m.Keys
    ensures forall x :: x in m && CtxCount(q, x) == 0 ==> RefreshMem(m, q, s)[x] == m[x]
    decreases q
  {
    if q.In? {
      var best := Best(q.n, s, Sub(q.other));
      assert CtxCount(q, q.n) > 0;
      if best != q.sub && q.n in m { RefreshKeeps(m[q.n := m[q.n].(sub := best)], q.up, best); }
    }
  }

  lemma {:induction false} RefreshLocal(m: Mem, m': Mem, q: Ctx, s: nat)
    requires forall x :: x in m' && CtxCount(q, x) > 0 ==> x in m && m[x] == m'[x]
    requires forall x :: x in m && CtxCount(q, x) > 0 ==> x in m'
    requires RefreshMem(m', q, s).Keys == m'.Keys && RefreshMem(m, q, s).Keys == m.Keys
    ensures forall x :: x in m' && CtxCount(q, x) > 0 ==> RefreshMem(m', q, s)[x] == RefreshMem(m, q, s)[x]
    decreases q
  {
    if q.In? {
      var n := q.n;
      var best := Best(n, s, Sub(q.other));
      assert CtxCount(q, n) > 0;
      if best != q.sub && n in m {
        var r, r' := m[n := m[n].(sub := best)], m'[n := m'[n].(sub := best)];
        RefreshKeeps(r, q.up, best);
        RefreshKeeps(r', q.up, best);
        RefreshLocal(r, r', q.up, best);
      }
    }
  }

  /** What the splice finds around the nodes it writes. */
  lemma SpliceView(m: Mem, root: Node?, q: Ctx, ctx: Ctx, l: Tree, c: Tree, node: Node, sc: Node, b: bool, s: nat,
                   sb: bool, ss: nat)
    requires At(m, root, Append(q, In(false, ctx, node, b, s, l)), Tree(Leaf, sc, sb, ss, c))
    ensures PathLinked(m, q, sc, node) && SpliceApart(m, q, ctx, l, c, node, sc)
    ensures node in m && m[node] == Cell(Root(l), Foot(q, sc), Above(ctx), b, s)
    ensures sc in m && m[sc] == Cell(null, Root(c), Over(q, node), sb, ss)
    ensures Head(m, l, node) && Head(m, c, sc) && CtxHead(m, ctx, node, root)
  {
    SpliceOpen(m, root, q, ctx, l, c, node, sc, b, s, sb, ss);
    Heads(m, l, node); Heads(m, c, sc);
    CtxHeads(m, ctx, node, root);
  }

  /** The nodes whose fields the splice writes are different ones. */
  lemma SpliceDiffer(m: Mem, root: Node?, q: Ctx, ctx: Ctx, l: Tree, c: Tree, node: Node, sc: Node)
    requires SpliceApart(m, q, ctx, l, c, node, sc) && node in m && sc in m
    requires Head(m, l, node) && Head(m, c, sc) && CtxHead(m, ctx, node, root)
    ensures node != sc && Root(l) != node && Root(l) != sc && Root(c) != node && Root(c) != sc
    ensures Above(ctx) != node && Above(ctx) != sc && Differ(Root(l), Root(c)) && Differ(Root(l), Above(ctx)) && Differ(Root(c), Above(ctx))
    ensures CtxCount(q, node) == 0 && CtxCount(q, sc) == 0
    ensures l.Tree? ==> CtxCount(q, l.n) == 0
    ensures c.Tree? ==> CtxCount(q, c.n) == 0
    ensures ctx.In? ==> CtxCount(q, ctx.n) == 0
    ensures forall x :: x in m ==> CtxCount(q, x) <= 1
  {
    hide Count, CtxCount;
    Occurs(l); Occurs(c); CtxOccurs(ctx);
  }

  /** What `TakePlace` does: the successor moves into the place of the erased node. */
  ghost predicate Taken(m: Mem, m': Mem, root: Node?, root': Node?, node: Node, sc: Node, l: Node?, c: Node?, par: Node) {
    && (forall x :: x in m' ==> x in m && x != node)
    && node in m && sc in m && sc in m' && l != null && l in m && l in m'
    && m'[sc] == m[sc].(left := l, parent := m[node].parent, black := m[node].black)
    && m'[l] == m[l].(parent := sc)
    && (c != null ==> c in m && c in m' && m'[c] == m[c].(parent := par, black := true))
    && Hung(m, m', root, root', m[node].parent, node, sc)
    && Same(m, m', Writes(node, sc, l, c, m[node].parent, null))
  }

  lemma DetachSteps(m0: Mem, m4: Mem, node: Node, sc: Node, par: Node, child: Node, c: Node?)
    requires node in m0 && sc in m0 && par in m0 && child in m0
    requires node != sc && sc != par && sc != child && node != par && node != child
    requires var m1: Mem := m0[par := SetKid(m0[par], true, c)];
      var m2: Mem := m1[sc := SetKid(m1[sc], false, child)];
      var m3: Mem := m2[child := m2[child].(parent := sc)];
      m4 == m3[sc := m3[sc].(sub := m3[node].sub)]
    ensures Detached(m0, m4, node, sc, par, child, c)
  {}

  lemma TakeSteps(m0: Mem, m2: Mem, m3: Mem, m4: Mem, root: Node?, root': Node?, node: Node, sc: Node, l: Node,
                  c: Node?, par: Node)
    requires node in m0 && sc in m0 && node != sc && l == m0[node].left && l in m0 && l != node && l != sc && l != c
    requires var q := m0[node].parent; q != null ==> q in m0 && q != node && q != sc && q != c && q != l
    requires c != null ==> c in m0 && c != node && c != sc
    requires m2.Keys == m0.Keys && m2[sc] == SetKid(m0[sc], true, l) && m2[l] == m0[l].(parent := sc)
    requires Hung(m0, m2, root, root', m0[node].parent, node, sc)
    requires Same(m0, m2, Writes(sc, l, m0[node].parent, null, null, null))
    requires var m' := m2[sc := m2[sc].(parent := m0[node].parent, black := m0[node].black)];
      m3 == if c == null then m' else m'[c := m'[c].(parent := par, black := true)]
    requires m4 == m3 - {node}
    ensures Taken(m0, m4, root, root', node, sc, l, c, par)
    ensures m4.Keys == m0.Keys - {node}
  {
    assert m3.Keys == m0.Keys;
  }

  lemma SetKidBlack(c: Cell, dir: bool, x: Node?)
    ensures SetKid(c, dir, x).black == c.black
  {}

  /** The successor is the right child: only its place is taken. */
  lemma TakenChild(m: Mem, m': Mem, root: Node?, root': Node?, ctx: Ctx, l: Tree, c: Tree, node: Node, sc: Node,
                   b: bool, s: nat, sb: bool, ss: nat, m1: Mem)
    requires At(m, root, In(false, ctx, node, b, s, l), Tree(Leaf, sc, sb, ss, c)) && l.Tree?
    requires sc in m && node in m && m1 == m[sc := m[sc].(sub := m[node].sub)]
    requires Taken(m1, m', root, root', node, sc, Root(l), Root(c), sc)
    ensures At(m', root', In(false, ctx, sc, b, s, l), Paint(c, true)) && node !in m'
  {
    assert Append(Top, In(false, ctx, node, b, s, l)) == In(false, ctx, node, b, s, l);
    SpliceView(m, root, Top, ctx, l, c, node, sc, b, s, sb, ss);
    SpliceDiffer(m, root, Top, ctx, l, c, node, sc);
    assert CtxHead(m1, ctx, node, root);
    assert SpliceWrites(m, m', root, root', Top, ctx, l, c, node, sc, b, s);
    Spliced(m, m', root, root', Top, ctx, l, c, node, sc, b, s, sb, ss);
  }

  /** What `DetachSuccessor` does: the successor leaves its old place at the foot of the
      path and becomes the parent of the subtree the path runs through. */
  ghost predicate Detached(m: Mem, m1: Mem, node: Node, sc: Node, par: Node, child: Node, c: Node?) {
    && node in m && sc in m && par in m && child in m
    && (forall x :: x in m1 ==> x in m) && (forall x :: x in m ==> x in m1)
    && m1[sc] == SetKid(m[sc], false, child).(sub := m[node].sub)
    && (if par == child then m1[par] == SetKid(m[par], true, c).(parent := sc)
        else m1[par] == SetKid(m[par], true, c) && m1[child] == m[child].(parent := sc))
    && Same(m, m1, Writes(sc, par, child, null, null, null))
  }

  /** The path is readable for `propagate` while the successor hangs loose. */
  lemma DetachedPath(m: Mem, m1: Mem, root: Node?, q: Ctx, ctx: Ctx, l: Tree, c: Tree, node: Node, sc: Node,
                     b: bool, s: nat, sb: bool, ss: nat)
    requires At(m, root, Append(q, In(false, ctx, node, b, s, l)), Tree(Leaf, sc, sb, ss, c)) && q.In? && q.dir
    requires Foot(q, sc) != null && Detached(m, m1, node, sc, q.n, Foot(q, sc), Root(c))
    ensures PathReads(m1, q, Root(c), sc) && PathOnce(m1, q, sc)
    ensures c.Tree? ==> c.n in m1 && CtxCount(q, c.n) == 0 && m1[c.n] == m[c.n]
    ensures SubOf(m1, Root(c)) == Sub(c)
  {
    SpliceView(m, root, q, ctx, l, c, node, sc, b, s, sb, ss);
    SpliceDiffer(m, root, q, ctx, l, c, node, sc);
    FootOccurs(q, sc);
    FootSame(q, sc, Root(c));
    CtxOccurs(q);
    hide Count, CtxCount, PathLinked, PathReads, SpliceApart, At;
    var f := Foot(q, sc);
    var m' := m[q.n := SetKid(m[q.n], q.dir, Root(c))];
    PathKid(m, m', q, sc, Root(c), node);
    FootCell(m, q, sc, node);
    var w := Writes(sc, null, null, null, null, null, null, f);
    PathTop(m', m1, q, Root(c), node, sc, w);
    LinkedReads(m1, q, Root(c), sc);
  }

  ghost predicate Spread(m: Mem, q: Ctx, s: nat, m2: Mem) {
    m2 == RefreshMem(m, q, s)
  }

  /** All writes of case 3 together, in the order the code makes them. */
  lemma TakenDeep(m: Mem, m1: Mem, m2: Mem, m': Mem, root: Node?, root': Node?, q: Ctx, ctx: Ctx, l: Tree, c: Tree,
                  node: Node, sc: Node, b: bool, s: nat, sb: bool, ss: nat)
    requires At(m, root, Append(q, In(false, ctx, node, b, s, l)), Tree(Leaf, sc, sb, ss, c)) && l.Tree? && q.In? && q.dir
    requires Foot(q, sc) != null && Detached(m, m1, node, sc, q.n, Foot(q, sc), Root(c))
    requires Spread(m1, q, Sub(c), m2)
    requires Taken(m2, m', root, root', node, sc, Root(l), Root(c), q.n)
    ensures At(m', root', Append(Refresh(q, Sub(c)), In(false, ctx, sc, b, s, l)), Paint(c, true)) && node !in m'
  {
    var ms := Unrefreshed(m1, m', q);
    SpliceView(m, root, q, ctx, l, c, node, sc, b, s, sb, ss);
    SpliceDiffer(m, root, q, ctx, l, c, node, sc);
    TakenDeepWrites(m, m1, m2, m', ms, root, root', q, ctx, l, c, node, sc, b, s, sb, ss);
    Spliced(m, ms, root, root', q, ctx, l, c, node, sc, b, s, sb, ss);
    assert Sub(Paint(c, true)) == Sub(c);
    RefreshAt(ms, root', q, In(false, ctx, sc, b, s, l), Paint(c, true));
  }

  /** The states of case 3, with the parts of the tree they are seen through. */
  ghost predicate DeepStates(m: Mem, m1: Mem, m2: Mem, m': Mem, ms: Mem, root: Node?, root': Node?, q: Ctx, ctx: Ctx,
                             l: Tree, c: Tree, node: Node, sc: Node, b: bool, s: nat, sb: bool, ss: nat) {
    && PathLinked(m, q, sc, node) && SpliceApart(m, q, ctx, l, c, node, sc)
    && node in m && m[node] == Cell(Root(l), Foot(q, sc), Above(ctx), b, s)
    && sc in m && m[sc] == Cell(null, Root(c), Over(q, node), sb, ss)
    && Head(m, l, node) && Head(m, c, sc) && CtxHead(m, ctx, node, root)
    && l.Tree? && q.In? && q.dir
    && Foot(q, sc) != null && Detached(m, m1, node, sc, q.n, Foot(q, sc), Root(c))
    && Spread(m1, q, Sub(c), m2)
    && Taken(m2, m', root, root', node, sc, Root(l), Root(c), q.n)
    && ms == Unrefreshed(m1, m', q)
  }

  lemma TakenDeepWrites(m: Mem, m1: Mem, m2: Mem, m': Mem, ms: Mem, root: Node?, root': Node?, q: Ctx, ctx: Ctx,
                        l: Tree, c: Tree, node: Node, sc: Node, b: bool, s: nat, sb: bool, ss: nat)
    requires DeepStates(m, m1, m2, m', ms, root, root', q, ctx, l, c, node, sc, b, s, sb, ss)
    ensures SpliceWrites(m, ms, root, root', q, ctx, l, c, node, sc, b, s)
    ensures m' == RefreshMem(ms, q, Sub(c))
  {
    hide Count, CtxCount, PathLinked, SpliceApart, RefreshMem, Unrefreshed, Foot, Spread;
    hide Head, CtxHead, Hung, Rehung;
    TakenDeepOutside(m, m1, m2, m', ms, root, root', q, ctx, l, c, node, sc, b, s, sb, ss);
    SpliceDiffer(m, root, q, ctx, l, c, node, sc);
    FootOccurs(q, sc);
    FootSame(q, sc, Root(c)); FootSame(q, sc, null);
    CtxOccurs(q);
    OffPath(m1, m2, m', root, root', q, node, sc, Root(l), Root(c), Sub(c));
  }

  /** Above the erased node, and apart from the nodes written. */
  lemma TakenDeepOutside(m: Mem, m1: Mem, m2: Mem, m': Mem, ms: Mem, root: Node?, root': Node?, q: Ctx, ctx: Ctx,
                         l: Tree, c: Tree, node: Node, sc: Node, b: bool, s: nat, sb: bool, ss: nat)
    requires DeepStates(m, m1, m2, m', ms, root, root', q, ctx, l, c, node, sc, b, s, sb, ss)
    ensures Rehung(m, ms, root, root', ctx, sc)
    ensures Same(m, ms, Writes(node, sc, Over(q, null), Root(l), Root(c), Above(ctx), null, Foot(q, null)))
  {
    hide Count, CtxCount, PathLinked, SpliceApart, RefreshMem, Unrefreshed, Foot, Spread;
    hide Head, CtxHead, Rehung;
    SpliceDiffer(m, root, q, ctx, l, c, node, sc);
    FootOccurs(q, sc);
    FootSame(q, sc, null);
    CtxOccurs(q);
    OffPath(m1, m2, m', root, root', q, node, sc, Root(l), Root(c), Sub(c));
    CtxHeadIn(m, ctx, node, root);
    assert ctx.In? ==> ctx.n in m' && ctx.n in ms && m2[ctx.n] == m1[ctx.n] == m[ctx.n];
    TakenRehung(m, m2, m', ms, root, root', ctx, node, sc);
    SameThrough(m, m1, m2, m', ms, q, node, sc, q.n, Foot(q, sc), Root(l), Root(c), Above(ctx));
  }

  lemma TakenRehung(m: Mem, m2: Mem, m': Mem, ms: Mem, root: Node?, root': Node?, ctx: Ctx, node: Node, sc: Node)
    requires CtxHead(m, ctx, node, root) && Hung(m2, m', root, root', Above(ctx), node, sc)
    requires ctx.In? ==> ctx.n in m2 && ctx.n in m && m2[ctx.n] == m[ctx.n]
    requires ctx.In? ==> ctx.n in m' && ctx.n in ms && ms[ctx.n] == m'[ctx.n]
    ensures Rehung(m, ms, root, root', ctx, sc)
  {}

  lemma SameThrough(m: Mem, m1: Mem, m2: Mem, m': Mem, ms: Mem, q: Ctx, node: Node, sc: Node, par: Node, child: Node,
                    l: Node?, c: Node?, above: Node?)
    requires forall x :: x in m ==> x in m1
    requires Same(m, m1, Writes(sc, par, child, null, null, null))
    requires forall x :: x in m1 && CtxCount(q, x) == 0 ==> x in m2 && m2[x] == m1[x]
    requires forall x :: x in m1 && CtxCount(q, x) > 0 ==> x in ms && ms[x] == m1[x]
    requires forall x :: x in m' && CtxCount(q, x) == 0 ==> x in ms && ms[x] == m'[x]
    requires Same(m2, m', Writes(node, sc, l, c, above, null))
    ensures Same(m, ms, Writes(node, sc, par, l, c, above, null, child))
  {
    hide CtxCount;
  }

  /** Taking the successor's new place does not write to the path. */
  lemma OffPath(m1: Mem, m2: Mem, m': Mem, root: Node?, root': Node?, q: Ctx, node: Node, sc: Node, l: Node?,
                c: Node?, s: nat)
    requires Spread(m1, q, s, m2) && q.In?
    requires Taken(m2, m', root, root', node, sc, l, c, q.n)
    requires CtxCount(q, node) == 0 && CtxCount(q, sc) == 0 && (l != null ==> CtxCount(q, l) == 0)
    requires c != null ==> CtxCount(q, c) == 0
    requires node in m1 && (m1[node].parent != null ==> CtxCount(q, m1[node].parent) == 0)
    ensures m1.Keys == m2.Keys
    ensures forall x :: x in m1 && CtxCount(q, x) == 0 ==> m2[x] == m1[x]
    ensures forall x :: x in m1 && CtxCount(q, x) > 0 ==> x in m' && m'[x] == m2[x]
    ensures forall x :: x in m' && CtxCount(q, x) > 0 ==> x in m1
    ensures var ms := Unrefreshed(m1, m', q);
      && ms.Keys == m'.Keys
      && (forall x :: x in m1 && CtxCount(q, x) > 0 ==> ms[x] == m1[x])
      && (forall x :: x in m' && CtxCount(q, x) == 0 ==> ms[x] == m'[x])
      && m' == RefreshMem(ms, q, s)
  {
    hide CtxCount, RefreshMem;
    RefreshKeeps(m1, q, s);
    UnrefreshedBack(m1, m', q, s);
  }

  lemma UnrefreshedBack(m1: Mem, m': Mem, q: Ctx, s: nat)
    requires RefreshMem(m1, q, s).Keys == m1.Keys
    requires forall x :: x in m1 && CtxCount(q, x) > 0 ==> x in m' && m'[x] == RefreshMem(m1, q, s)[x]
    requires forall x :: x in m' && CtxCount(q, x) > 0 ==> x in m1
    ensures m' == RefreshMem(Unrefreshed(m1, m', q), q, s)
  {
    hide CtxCount, RefreshMem;
    var ms := Unrefreshed(m1, m', q);
    RefreshKeeps(ms, q, s);
    RefreshLocal(m1, ms, q, s);
    var r := RefreshMem(ms, q, s);
    assert ms.Keys == m'.Keys == r.Keys;
    assert forall x :: x in m' ==> r[x] == m'[x];
  }

  // ---------- the structural part, case by case ----------

  /** The whole path up to the root is readable for `propagate`. */
  lemma WholePath(m: Mem, root: Node?, ctx: Ctx, t: Tree)
    requires At(m, root, ctx, t)
    ensures PathReads(m, ctx, Root(t), null) && PathOnce(m, ctx, null) && SubOf(m, Root(t)) == Sub(t)
    ensures t.Tree? ==> t.n in m && CtxCount(ctx, t.n) == 0
  {
    AppendTop(ctx);
    AppendLinked(m, ctx, Top, Root(t), root);
    LinkedReads(m, ctx, Root(t), null);
    Occurs(t);
  }

  /** The order without the node at the focus. */
  ghost function Without(ctx: Ctx, t: Tree): seq<Node>
    requires t.Tree?
  {
    (Before(ctx) + Inorder(t.left)) + (Inorder(t.right) + After(ctx))
  }

  /** The outcome of the structural part: done, or a black node is missing below `rebalance`. */
  ghost predicate Unlinked(m: Mem, root: Node?, rebalance: Node?, hole: Ctx, done: Tree, order: seq<Node>) {
    if rebalance == null then Sound(m, root, done) && Inorder(done) == order
    else hole.In? && hole.n == rebalance && Lacking(m, root, hole, Leaf, 0, order)
  }

  /** Both structural outcomes lead here: `x` fills the place `ctx` of a node of colour `b`. */
  lemma HoleDone(m: Mem, root: Node?, ctx: Ctx, x: Tree, b: bool, h: nat, order: seq<Node>)
    requires At(m, root, ctx, Paint(x, true)) && CtxRb(ctx, h) && h == Weight(b)
    requires Rb(x, 0) && (!b ==> BlackRoot(x) && ctx.In? && ctx.black)
    requires Exact(x) && CtxExact(ctx, Sub(x)) && Order(ctx, Paint(x, true)) == order
    ensures Unlinked(m, root, if x.Leaf? && b then Above(ctx) else null, ctx, Plug(ctx, Paint(x, true)), order)
  {
    if x.Tree? {
      Finish(m, root, ctx, Paint(x, true), h, order);
    } else if !b || ctx.Top? {
      Finish(m, root, ctx, Leaf, 0, order);
    }
  }

  lemma OneChildDone(m0: Mem, root0: Node?, m: Mem, root: Node?, ctx: Ctx, t: Tree, dir: bool, h: nat, order: seq<Node>)
    requires Placed(m0, root0, ctx, t, h, order) && t.Tree? && Child(t, dir).Leaf?
    requires var x := Child(t, !dir); At(m, root, Refresh(ctx, Sub(x)), Paint(x, t.black))
    ensures var x := Child(t, !dir); var ctx' := Refresh(ctx, Sub(x));
      Unlinked(m, root, if x.Leaf? && t.black then Above(ctx) else null, ctx', Plug(ctx', Paint(x, true)), Without(ctx, t))
  {
    var x, b := Child(t, !dir), t.black;
    var ctx' := Refresh(ctx, Sub(x));
    OnlyChild(x, Child(t, dir), b, h);
    assert x.Tree? ==> b;
    assert Paint(x, b) == Paint(x, true);
    RefreshAlike(ctx, Sub(x));
    AlikeRb(ctx, ctx', h);
    RefreshExact(ctx, Sub(x));
    assert Order(ctx', Paint(x, true)) == Without(ctx, t) by {
      assert Inorder(Paint(x, true)) == Inorder(x);
      OneChildSeq(Before(ctx), Inorder(x), After(ctx));
    }
    hide At;
    HoleDone(m, root, ctx', x, b, h, Without(ctx, t));
  }

  lemma PlacedAt(m: Mem, root: Node?, ctx: Ctx, t: Tree, h: nat, order: seq<Node>)
    requires Placed(m, root, ctx, t, h, order)
    ensures At(m, root, ctx, t)
  {}

  /** The nodes written when `node` is cut out are different ones. */
  lemma OneChildApart(m: Mem, root: Node?, ctx: Ctx, dir: bool, node: Node, b: bool, s: nat, x: Tree)
    requires At(m, root, ctx, Mk(dir, Leaf, node, b, s, x))
    ensures Root(x) != node && Above(ctx) != node && Differ(Root(x), Above(ctx))
    ensures Head(m, x, node) && CtxHead(m, ctx, node, root)
  {
    hide Count, CtxCount, Linked, CtxLinked, Mk;
    Occurs(x); CtxOccurs(ctx);
    LinkedMk(m, dir, Leaf, node, b, s, x, Above(ctx));
    forall y | y in m ensures Count(x, y) + CtxCount(ctx, y) + Is(y, node) == 1 {
      CountMk(dir, Leaf, node, b, s, x, y);
      LeafCount(y);
    }
    Heads(m, x, node);
    CtxHeads(m, ctx, node, root);
  }

  lemma CutOutSteps(m0: Mem, m1: Mem, m2: Mem, m3: Mem, root: Node?, root': Node?, ctx: Ctx, x: Tree, dir: bool,
                    node: Node, b: bool, s: nat)
    requires At(m0, root, ctx, Mk(dir, Leaf, node, b, s, x))
    requires Above(ctx) == null ==> root' == Root(x) && m1 == m0
    requires Above(ctx) != null ==> Above(ctx) in m0 && root' == root
    requires Above(ctx) != null ==> m1 == m0[Above(ctx) := SetKid(m0[Above(ctx)], m0[Above(ctx)].left == node, Root(x))]
    requires x.Tree? ==> x.n in m1
    requires m2 == if Root(x) == null then m1 else m1[x.n := m1[x.n].(parent := Above(ctx), black := b)]
    requires m3 == m2 - {node}
    ensures At(m3, root', ctx, Paint(x, b)) && m3.Keys == m0.Keys - {node}
  {
    OneChildApart(m0, root, ctx, dir, node, b, s, x);
    hide At, Mk;
    CutOut(m0, m3, root, root', ctx, x, dir, node, b, s);
  }

  lemma OneChildSeq(a: seq<Node>, x: seq<Node>, z: seq<Node>)
    ensures a + x + z == (a + x) + ([] + z)
    ensures a + x + z == (a + []) + (x + z)
  {}

  /** Two children: `q` leads from the right child down to the successor's place. */
  lemma TwoChildrenDone(m0: Mem, root0: Node?, m: Mem, root: Node?, q: Ctx, ctx: Ctx, t: Tree, sc: Node, sb: bool,
                        ss: nat, c: Tree,
                        h: nat, order: seq<Node>)
    requires t.Tree? && AllLeft(q) && t.right == Plug(q, Tree(Leaf, sc, sb, ss, c))
    requires Placed(m0, root0, Append(q, In(false, ctx, t.n, t.black, t.sub, t.left)), Tree(Leaf, sc, sb, ss, c), h, order)
    requires var q' := Refresh(q, Sub(c));
      At(m, root, Refresh(In(false, ctx, sc, t.black, t.sub, t.left), Sub(Plug(q', Paint(c, true)))), Plug(q', Paint(c, true)))
    ensures var q' := Refresh(q, Sub(c)); var base := Refresh(In(false, ctx, sc, t.black, t.sub, t.left), Sub(Plug(q', Paint(c, true))));
      var hole := Append(q', base);
      Unlinked(m, root, if c.Leaf? && sb then Over(q, sc) else null, hole, Plug(hole, Paint(c, true)), Without(ctx, t))
  {
    hide At, Alike, AllLeft, Order, Exact, CtxExact, CtxRb, Rb, Placed, Unlinked, Best;
    var node, b, s, l := t.n, t.black, t.sub, t.left;
    var u, c' := Tree(Leaf, sc, sb, ss, c), Paint(c, true);
    var base0, base1 := In(false, ctx, node, b, s, l), In(false, ctx, sc, b, s, l);
    var q' := Refresh(q, Sub(c));
    var r := Plug(q', c');
    var base := Refresh(base1, Sub(r));
    var hole := Append(q', base);
    assert Sub(c') == Sub(c);
    ZipDown(m, root, q', base, c');
    RefreshAlike(q, Sub(c)); RefreshAlike(base1, Sub(r));
    PlacedParts(m0, root0, Append(q, base0), u, h, order);
    TwoChildrenColours(q, q', base0, base1, base, ctx, h);
    TwoChildrenExact(q, ctx, node, sc, b, s, l, u, c);
    SpliceOrder(q, q', ctx, base, l, sc, sb, ss, c);
    PlacedHole(m0, root0, Append(q, base0), u, h, order);
    OnlyChild(c, Leaf, sb, h);
    hide Refresh, Append, Plug;
    HoleDone(m, root, hole, c, sb, h, Without(ctx, t));
  }

  lemma PlacedParts(m: Mem, root: Node?, ctx: Ctx, t: Tree, h: nat, order: seq<Node>)
    requires Placed(m, root, ctx, t, h, order)
    ensures CtxRb(ctx, h) && CtxExact(ctx, Sub(t))
  {}

  lemma PlacedHole(m: Mem, root: Node?, ctx: Ctx, u: Tree, h: nat, order: seq<Node>)
    requires Placed(m, root, ctx, u, h, order) && u.Tree? && u.left.Leaf?
    ensures !u.black ==> BlackRoot(u.right) && ctx.In? && ctx.black
    ensures Exact(u.right) && Weight(u.black) <= h && Rb(u.right, h - Weight(u.black)) && h == Weight(u.black)
    ensures Rb(u.left, h - Weight(u.black))
  {
    assert Rb(u.left, h - Weight(u.black));
  }

  lemma TwoChildrenColours(q: Ctx, q': Ctx, base0: Ctx, base1: Ctx, base: Ctx, ctx: Ctx, h: nat)
    requires Alike(q, q') && Alike(base1, base) && CtxRb(Append(q, base0), h)
    requires base0.In? && base1.In? && base0.up == ctx == base1.up && base1 == base0.(n := base1.n)
    ensures CtxRb(Append(q', base), h) && Alike(Append(q, base0), Append(q', base))
  {
    AlikeSelf(ctx);
    assert Alike(base0, base1);
    AlikeTrans(base0, base1, base);
    AppendAlike(q, q', base0, base);
    AlikeRb(Append(q, base0), Append(q', base), h);
  }

  lemma {:induction false} AlikeTrans(a: Ctx, b: Ctx, c: Ctx)
    requires Alike(a, b) && Alike(b, c)
    ensures Alike(a, c)
    decreases a
  {
    if a.In? { AlikeTrans(a.up, b.up, c.up); }
  }

  lemma TwoChildrenExact(q: Ctx, ctx: Ctx, node: Node, sc: Node, b: bool, s: nat, l: Tree, u: Tree, c: Tree)
    requires CtxExact(Append(q, In(false, ctx, node, b, s, l)), Sub(u))
    ensures var q' := Refresh(q, Sub(c)); var base := Refresh(In(false, ctx, sc, b, s, l), Sub(Plug(q', Paint(c, true))));
      CtxExact(Append(q', base), Sub(c))
  {
    var q', c' := Refresh(q, Sub(c)), Paint(c, true);
    AppendExactParts(q, In(false, ctx, node, b, s, l), Sub(u), u);
    RefreshExact(q, Sub(c));
    RefreshExact(In(false, ctx, sc, b, s, l), Sub(Plug(q', c')));
    assert Sub(c') == Sub(c);
    AppendExact(q', Refresh(In(false, ctx, sc, b, s, l), Sub(Plug(q', c'))), c');
  }

  // ---------- on the way down to the successor ----------

  /** The state of the walk: `u` is the subtree reached, `q` the path to it. */
  ghost predicate Walking(m: Mem, root: Node?, q: Ctx, base: Ctx, r: Tree, u: Tree, h: nat, order: seq<Node>) {
    && Placed(m, root, Append(q, base), u, h, order) && u.Tree?
    && AllLeft(q) && r == Plug(q, u) && Foot(q, u.n) == Root(r)
  }

  lemma WalkLeft(m: Mem, root: Node?, q: Ctx, base: Ctx, r: Tree, u: Tree, h: nat, order: seq<Node>)
    requires Walking(m, root, q, base, r, u, h, order) && u.left.Tree?
    ensures Weight(u.black) <= h
    ensures Walking(m, root, In(true, q, u.n, u.black, u.sub, u.right), base, r, u.left, h - Weight(u.black), order)
  {
    var c := Append(q, base);
    StepDown(m, root, c, u, true, h, order);
    assert Below(c, u, true) == Append(In(true, q, u.n, u.black, u.sub, u.right), base);
    assert Mk(true, u.left, u.n, u.black, u.sub, u.right) == u;
  }

  lemma WalkFirst(m: Mem, root: Node?, base: Ctx, r: Tree, h: nat, order: seq<Node>)
    requires Placed(m, root, base, r, h, order) && r.Tree?
    ensures Walking(m, root, Top, base, r, r, h, order)
  {}

  lemma WalkView(m: Mem, root: Node?, q: Ctx, base: Ctx, r: Tree, u: Tree, h: nat, order: seq<Node>)
    requires Walking(m, root, q, base, r, u, h, order)
    ensures At(m, root, Append(q, base), u) && u.Tree?
    ensures u.n in m && m[u.n].left == Root(u.left) && m[u.n].right == Root(u.right)
    ensures u.left.Tree? ==> u.left.n in m
  {
    assert Linked(m, u.left, u.n);
  }

  /** From the sound tree at `node` to the walk below its right child. */
  lemma WalkStart(m: Mem, root: Node?, ctx: Ctx, t: Tree, h: nat, order: seq<Node>)
    requires Placed(m, root, ctx, t, h, order) && t.Tree? && t.right.Tree?
    ensures Weight(t.black) <= h
    ensures var base := In(false, ctx, t.n, t.black, t.sub, t.left);
      Placed(m, root, base, t.right, h - Weight(t.black), order) && Walking(m, root, Top, base, t.right, t.right, h - Weight(t.black), order)
  {
    StepDown(m, root, ctx, t, false, h, order);
    assert Below(ctx, t, false) == In(false, ctx, t.n, t.black, t.sub, t.left);
  }

  /** The nodes that are written when `sc` takes the place of `node` are different ones. */
  ghost predicate Replaceable(m: Mem, node: Node, sc: Node, child2: Node?) {
    && node in m && sc in m && node != sc
    && (var l := m[node].left; l != null && l in m && l != node && l != sc && l != child2 && l != m[node].parent)
    && (var q := m[node].parent; q != null ==> q in m && q != node && q != sc && q != child2)
    && (child2 != null ==> child2 in m && child2 != node && child2 != sc)
  }

  lemma StillReplaceable(m: Mem, m': Mem, node: Node, sc: Node, child2: Node?)
    requires Replaceable(m, node, sc, child2) && m'.Keys == m.Keys && m'[node] == m[node]
    ensures Replaceable(m', node, sc, child2)
  {}

  /** What the code may rely on before the successor takes its place. */
  lemma WalkEnd(m: Mem, root: Node?, q: Ctx, ctx: Ctx, t: Tree, u: Tree, h: nat, order: seq<Node>)
    requires t.Tree? && t.left.Tree? && t.right.Tree?
    requires Walking(m, root, q, In(false, ctx, t.n, t.black, t.sub, t.left), t.right, u, h, order) && u.left.Leaf?
    ensures var node, sc, l, c := t.n, u.n, t.left, u.right;
      && u == Tree(Leaf, sc, u.black, u.sub, c)
      && At(m, root, Append(q, In(false, ctx, node, t.black, t.sub, l)), Tree(Leaf, sc, u.black, u.sub, c))
      && Foot(q, sc) == t.right.n && AllLeft(q) && t.right == Plug(q, Tree(Leaf, sc, u.black, u.sub, c))
      && node in m && m[node] == Cell(l.n, t.right.n, Above(ctx), t.black, t.sub)
      && sc in m && m[sc] == Cell(null, Root(c), Over(q, node), u.black, u.sub)
      && (c.Tree? ==> c.n in m) && Replaceable(m, node, sc, Root(c))
  {
    var node, sc, l, c := t.n, u.n, t.left, u.right;
    SpliceView(m, root, q, ctx, l, c, node, sc, t.black, t.sub, u.black, u.sub);
    SpliceDiffer(m, root, q, ctx, l, c, node, sc);
  }

  lemma AllLeftHead(q: Ctx)
    requires AllLeft(q) && q.In?
    ensures q.dir
  {}

  /** The nodes at both ends of the path. */
  lemma AfterDetach(m: Mem, m1: Mem, m2: Mem, q: Ctx, s: nat, node: Node, sc: Node, par: Node, child: Node, c: Node?)
    requires Detached(m, m1, node, sc, par, child, c) && m2 == RefreshMem(m1, q, s)
    requires node != sc && CtxCount(q, node) == 0 && CtxCount(q, sc) == 0
    requires CtxCount(q, par) > 0 && CtxCount(q, child) > 0
    ensures m2.Keys == m.Keys && Spread(m1, q, s, m2)
    ensures node in m && sc in m && m2[node] == m[node] && m2[sc].black == m[sc].black
  {
    RefreshKeeps(m1, q, s);
    assert m1.Keys == m.Keys;
  }

  // ---------- linking a new leaf ----------

  lemma LinkedLeaf(m: Mem, m1: Mem, m': Mem, root: Node?, root': Node?, ctx: Ctx, node: Node, s: nat)
    requires At(m, root, ctx, Leaf) && node !in m
    requires m1 == m[node := Cell(null, null, Above(ctx), false, s)]
    requires ctx.Top? ==> root' == node && m' == m1
    requires ctx.In? ==> root' == root && ctx.n in m1 && m' == m1[ctx.n := SetKid(m1[ctx.n], ctx.dir, node)]
    ensures At(m', root', ctx, Tree(Leaf, node, false, s, Leaf))
  {
    CtxOccurs(ctx);
    CtxMembers(m, ctx, null, root, node);
    CtxRehang(m, m', ctx, null, node, root, root', Writes(node, null, null, null, null, Above(ctx)));
    forall x | x in m' ensures Count(Tree(Leaf, node, false, s, Leaf), x) + CtxCount(ctx, x) == 1 {
      if x != node { assert x in m; }
    }
  }

  /** A node outside the memory is nowhere in the tree. */
  lemma {:induction false} TreeMembers(m: Mem, t: Tree, p: Node?, x: Node)
    requires Linked(m, t, p) && x !in m
    ensures Count(t, x) == 0
  {
    if t.Tree? {
      TreeMembers(m, t.left, t.n, x);
      TreeMembers(m, t.right, t.n, x);
    }
  }

  lemma {:induction false} CtxMembers(m: Mem, ctx: Ctx, child: Node?, root: Node?, x: Node)
    requires CtxLinked(m, ctx, child, root) && x !in m
    ensures CtxCount(ctx, x) == 0
    decreases ctx
  {
    if ctx.In? {
      TreeMembers(m, ctx.other, ctx.n, x);
      CtxMembers(m, ctx.up, ctx.n, root, x);
    }
  }
}
