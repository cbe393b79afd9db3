/**
 The pointer code of the augmented red-black tree: `rb_root` and the routines that
 link, rotate, recolour and unlink its nodes.
 */
module RbTree {
  import opened RbShape
  import opened RbLinks
  import opened RbSteps
  import opened RbSplice

  class RbRoot {
    var root: Node?
    /** What the fields of the tree's nodes hold. */
    ghost var mem: Mem
    /** The tree they spell. */
    ghost var tree: Tree

    ghost predicate Valid()
      reads this, mem.Keys
    {
      Agrees() && Sound(mem, root, tree)
    }

    /** The nodes of the tree from left to right. */
    ghost function Contents(): seq<Node>
      reads this
    {
      Inorder(tree)
    }

    ghost predicate Agrees()
      reads this, mem.Keys
    {
      forall n :: n in mem ==> Cell(n.left, n.right, n.parent, n.black, n.sub) == mem[n]
    }

    constructor ()
      ensures Valid() && Contents() == [] && mem.Keys == {}
    {
      root, mem, tree := null, map[], Leaf;
      new;
      assert Rb(Leaf, 0);
    }

    // ---------- single reads and writes ----------

    method ParentOf(n: Node) returns (p: Node?)
      requires Agrees() && n in mem
      ensures p == mem[n].parent
    {
      p := n.parent;
    }

    method SubtreeLast(n: Node) returns (s: nat)
      requires Agrees() && n in mem
      ensures s == mem[n].sub
    {
      s := n.sub;
    }

    method IsBlack(n: Node) returns (b: bool)
      requires Agrees() && n in mem
      ensures b == mem[n].black
    {
      b := n.black;
    }

    /** `tmp && rb_is_red(tmp)` */
    method IsRed(n: Node?) returns (r: bool)
      requires Agrees() && (n != null ==> n in mem)
      ensures r <==> n != null && !mem[n].black
    {
      r := n != null && !n.black;
    }

    method LeftOf(n: Node) returns (x: Node?)
      requires Agrees() && n in mem
      ensures x == mem[n].left
    {
      x := n.left;
    }

    method RightOf(n: Node) returns (x: Node?)
      requires Agrees() && n in mem
      ensures x == mem[n].right
    {
      x := n.right;
    }

    method SetLeft(n: Node, x: Node?)
      requires Agrees() && n in mem
      modifies this`mem, n
      ensures Agrees() && mem.Keys == old(mem.Keys) && mem == old(mem)[n := SetKid(old(mem)[n], true, x)]
    {
      n.left := x;
      mem := mem[n := mem[n].(left := x)];
    }

    method SetRight(n: Node, x: Node?)
      requires Agrees() && n in mem
      modifies this`mem, n
      ensures Agrees() && mem.Keys == old(mem.Keys) && mem == old(mem)[n := SetKid(old(mem)[n], false, x)]
    {
      n.right := x;
      mem := mem[n := mem[n].(right := x)];
    }

    method SetParent(n: Node, p: Node?)
      requires Agrees() && n in mem
      modifies this`mem, n
      ensures Agrees() && mem.Keys == old(mem.Keys) && mem == old(mem)[n := old(mem)[n].(parent := p)]
    {
      n.parent := p;
      mem := mem[n := mem[n].(parent := p)];
    }

    method SetParentColor(n: Node, p: Node?, black: bool)
      requires Agrees() && n in mem
      modifies this`mem, n
      ensures Agrees() && mem.Keys == old(mem.Keys) && mem == old(mem)[n := old(mem)[n].(parent := p, black := black)]
    {
      n.parent, n.black := p, black;
      mem := mem[n := mem[n].(parent := p, black := black)];
    }

    method SetBlack(n: Node)
      requires Agrees() && n in mem
      modifies this`mem, n
      ensures Agrees() && mem.Keys == old(mem.Keys) && mem == old(mem)[n := old(mem)[n].(black := true)]
    {
      n.black := true;
      mem := mem[n := mem[n].(black := true)];
    }

    method SetSub(n: Node, s: nat)
      requires Agrees() && n in mem
      modifies this`mem, n
      ensures Agrees() && mem.Keys == old(mem.Keys) && mem == old(mem)[n := old(mem)[n].(sub := s)]
    {
      n.sub := s;
      mem := mem[n := mem[n].(sub := s)];
    }

    method SetRoot(n: Node?)
      requires Agrees()
      modifies this`root
      ensures Agrees() && root == n
    {
      root := n;
    }

    method ChangeChild(oldn: Node, newn: Node?, parent: Node?)
      requires Agrees() && (parent != null ==> parent in mem)
      modifies this`root, this`mem, parent
      ensures Agrees() && mem.Keys == old(mem.Keys)
      ensures parent == null ==> root == newn && mem == old(mem)
      ensures parent != null ==> root == old(root) && mem == old(mem)[parent :=
        SetKid(old(mem)[parent], old(mem)[parent].left == oldn, newn)]
    {
      if parent != null {
        if parent.left == oldn {
          SetLeft(parent, newn);
        } else {
          SetRight(parent, newn);
        }
      } else {
        SetRoot(newn);
      }
    }

    /** Where `oldn` was, below its parent and in its colour, `newn` takes over; `oldn` hangs
        below it, in the colour given. */
    method RotateSetParents(oldn: Node, newn: Node, black: bool)
      requires Agrees() && oldn in mem && newn in mem && oldn != newn
      requires var p := mem[oldn].parent; p != null ==> p in mem && p != oldn && p != newn
      modifies this`root, this`mem, mem.Keys
      ensures Agrees() && mem.Keys == old(mem.Keys)
      ensures mem[newn] == old(mem)[newn].(parent := old(mem)[oldn].parent, black := old(mem)[oldn].black)
      ensures mem[oldn] == old(mem)[oldn].(parent := newn, black := black)
      ensures Hung(old(mem), mem, old(root), root, old(mem)[oldn].parent, oldn, newn)
      ensures Same(old(mem), mem, Writes(oldn, newn, old(mem)[oldn].parent, null, null, null))
    {
      var parent := oldn.parent;
      SetParentColor(newn, oldn.parent, oldn.black);
      SetParentColor(oldn, newn, black);
      ChangeChild(oldn, newn, parent);
    }

    method ComputeSubtreeLast(node: Node) returns (max: nat)
      requires Agrees() && node in mem
      requires mem[node].left != null ==> mem[node].left in mem
      requires mem[node].right != null ==> mem[node].right in mem
      ensures max == Best(node, SubOf(mem, mem[node].left), SubOf(mem, mem[node].right))
    {
      max := node.last;
      if node.left != null {
        var subtreeLast := node.left.sub;
        if max < subtreeLast { max := subtreeLast; }
      }
      if node.right != null {
        var subtreeLast := node.right.sub;
        if max < subtreeLast { max := subtreeLast; }
      }
    }

    method AugmentRotate(oldn: Node, newn: Node)
      requires Agrees() && oldn in mem && newn in mem && oldn != newn
      requires mem[oldn].left != null ==> mem[oldn].left in mem && mem[oldn].left != newn && mem[oldn].left != oldn
      requires mem[oldn].right != null ==> mem[oldn].right in mem && mem[oldn].right != newn && mem[oldn].right != oldn
      modifies this`mem, oldn, newn
      ensures Agrees() && mem.Keys == old(mem.Keys)
      ensures mem == old(mem)[newn := old(mem)[newn].(sub := old(mem)[oldn].sub)]
                             [oldn := old(mem)[oldn].(sub := Best(oldn, SubOf(old(mem), old(mem)[oldn].left), SubOf(old(mem), old(mem)[oldn].right)))]
    {
      SetSub(newn, oldn.sub);
      var s := ComputeSubtreeLast(oldn);
      SetSub(oldn, s);
    }

    // ---------- rotations ----------

    /** A subtree that changes sides in a rotation gets its new parent and, where the
        code says so, turns black. */
    method HandOver(tmp: Node?, g: Node, blacken: bool)
      requires Agrees() && (tmp != null ==> tmp in mem)
      modifies this`mem, tmp
      ensures Agrees() && mem.Keys == old(mem.Keys)
      ensures mem == if tmp == null then old(mem)
                     else old(mem)[tmp := old(mem)[tmp].(parent := g, black := blacken || old(mem)[tmp].black)]
    {
      if tmp != null {
        if blacken { SetParentColor(tmp, g, true); } else { SetParent(tmp, g); }
      }
    }

    /** Right rotation at `g`: its left child `p` takes its place, `tmp` becomes `g`'s left child. */
    method LiftLeft(g: Node, p: Node, tmp: Node?, blacken: bool, black: bool)
      requires Agrees() && g in mem && p in mem && g != p
      requires var q := mem[g].parent; q != null ==> q in mem && q != g && q != p && q != tmp
      requires tmp != null ==> tmp in mem && tmp != g && tmp != p
      requires var u := mem[g].right; u != null ==> u in mem && u != g && u != p && u != tmp
      modifies this`root, this`mem, mem.Keys
      ensures Agrees() && mem.Keys == old(mem.Keys)
      ensures Lifted(old(mem), mem, true, g, p, tmp, old(mem)[g].right, blacken, black)
      ensures Hung(old(mem), mem, old(root), root, old(mem)[g].parent, g, p)
    {
      hide Agrees, Lifted, Hung, Same, Best, SubOf, MkCell;
      ghost var m0, root0 := mem, root;
      SetLeft(g, tmp);
      SetRight(p, g);
      ghost var m1 := mem;
      HandOver(tmp, g, blacken);
      ghost var m2 := mem;
      RotateSetParents(g, p, black);
      ghost var m3 := mem;
      AugmentRotate(g, p);
      LiftSteps(m0, m1, m2, m3, mem, root0, root, true, g, p, tmp, m0[g].right, blacken, black);
    }

    /** Left rotation at `g`: its right child `p` takes its place, `tmp` becomes `g`'s right child. */
    method LiftRight(g: Node, p: Node, tmp: Node?, blacken: bool, black: bool)
      requires Agrees() && g in mem && p in mem && g != p
      requires var q := mem[g].parent; q != null ==> q in mem && q != g && q != p && q != tmp
      requires tmp != null ==> tmp in mem && tmp != g && tmp != p
      requires var u := mem[g].left; u != null ==> u in mem && u != g && u != p && u != tmp
      modifies this`root, this`mem, mem.Keys
      ensures Agrees() && mem.Keys == old(mem.Keys)
      ensures Lifted(old(mem), mem, false, g, p, tmp, old(mem)[g].left, blacken, black)
      ensures Hung(old(mem), mem, old(root), root, old(mem)[g].parent, g, p)
    {
      hide Agrees, Lifted, Hung, Same, Best, SubOf, MkCell;
      ghost var m0, root0 := mem, root;
      SetRight(g, tmp);
      SetLeft(p, g);
      ghost var m1 := mem;
      HandOver(tmp, g, blacken);
      ghost var m2 := mem;
      RotateSetParents(g, p, black);
      ghost var m3 := mem;
      AugmentRotate(g, p);
      LiftSteps(m0, m1, m2, m3, mem, root0, root, false, g, p, tmp, m0[g].left, blacken, black);
    }

    // ---------- insertion ----------

    /** The links of a left rotation at `p`, below the node that points to `p`. */
    method RelinkLeft(p: Node, n: Node, tmp: Node?)
      requires Agrees() && p in mem && n in mem && p != n && (tmp != null ==> tmp in mem)
      modifies this`mem, p, n, tmp
      ensures Agrees() && mem.Keys == old(mem.Keys) && mem == Relinked(old(mem), true, p, n, tmp)
    {
      hide Agrees;
      SetRight(p, tmp);
      SetLeft(n, p);
      HandOver(tmp, p, true);
    }

    /** The links of a right rotation at `p`, below the node that points to `p`. */
    method RelinkRight(p: Node, n: Node, tmp: Node?)
      requires Agrees() && p in mem && n in mem && p != n && (tmp != null ==> tmp in mem)
      modifies this`mem, p, n, tmp
      ensures Agrees() && mem.Keys == old(mem.Keys) && mem == Relinked(old(mem), false, p, n, tmp)
    {
      hide Agrees;
      SetLeft(p, tmp);
      SetRight(n, p);
      HandOver(tmp, p, true);
    }

    /** Case 2: left rotate at `parent`; the grandparent's link still leads to `parent`. */
    method InsertCase2Left(parent: Node, node: Node, ghost g: Node)
      requires Agrees() && parent in mem && node in mem && g in mem && parent != node && g != parent && g != node
      requires mem[parent].left != null ==> mem[parent].left in mem && mem[parent].left != node && mem[parent].left != parent
      requires mem[node].left != null ==> mem[node].left in mem
      requires Differ(mem[node].left, mem[parent].left)
      requires mem[node].left != node && mem[node].left != parent && mem[node].left != g
      modifies this`root, this`mem, mem.Keys
      ensures Agrees() && root == old(root)
      ensures Inner(old(mem), mem, true, parent, node, old(mem)[parent].left, old(mem)[node].left, g, false)
    {
      hide Agrees, Best, Inner, SubOf, MkCell, Same;
      var tmp := LeftOf(node);
      ghost var m0 := mem;
      RelinkLeft(parent, node, tmp);
      ghost var m2 := mem;
      SetParentColor(parent, node, false);
      ghost var m3 := mem;
      AugmentRotate(parent, node);
      InnerSteps(m0, m2, m3, mem, true, parent, node, m0[parent].left, tmp, g, false);
    }

    /** Cases 2 and 3 for a parent that is its parent's left child. */
    method InsertRotateLeft(node: Node, parent: Node, gparent: Node,
                            ghost dn: bool, ghost up: Ctx, ghost gs: nat, ghost u: Tree, ghost ps: nat, ghost o: Tree, ghost t: Tree)
      requires Agrees() && t.Tree? && t.n == node && !t.black && BlackRoot(o) && BlackRoot(t.left) && BlackRoot(t.right)
      requires At(mem, root, In(dn, In(true, up, gparent, true, gs, u), parent, false, ps, o), t)
      modifies this`root, this`mem, mem.Keys
      ensures Agrees() && mem.Keys == old(mem.Keys)
      ensures At(mem, root, up, InsertLift(true, dn, gparent, gs, u, parent, ps, o, t))
    {
      hide At, Inner, Lifted, Hung, Best, Paint;
      ghost var m0, root0 := mem, root;
      if dn == true {
        ParentView(m0, root, true, dn, up, gparent, true, gs, u, parent, false, ps, o, t);
        SingleApart(m0, root, true, up, t, parent, false, ps, o, gparent, true, gs, u);
      } else {
        assert t == Mk(true, t.left, node, false, t.sub, t.right);
        DoubleApart(m0, root, true, up, o, parent, false, ps, t.left, node, false, t.sub, t.right, gparent, true, gs, u);
      }
      var tmp := parent.right;
      if node == tmp {
        // case 2, then case 3 with the node in the parent's place
        InsertCase2Left(parent, node, gparent);
        ghost var m1 := mem;
        InnerFacts(m0, m1, true, parent, node, Root(o), Root(t.left), gparent, false);
        tmp := node.right;
        LiftLeft(gparent, node, tmp, true, false);
        DoublyLiftedAt(m0, m1, mem, root0, root, true, up, o, parent, false, ps, t.left, node, false, t.sub, t.right,
                       gparent, true, gs, u, false, true, false);
        PaintBlack(t.left, true); PaintBlack(t.right, true);
      } else {
        // case 3: right rotate at gparent
        LiftLeft(gparent, parent, tmp, true, false);
        LiftedAt(m0, mem, root0, root, true, up, t, parent, false, ps, o, gparent, true, gs, u, true, false);
        PaintBlack(o, true);
      }
    }

    /** Case 2: right rotate at `parent`; the grandparent's link still leads to `parent`. */
    method InsertCase2Right(parent: Node, node: Node, ghost g: Node)
      requires Agrees() && parent in mem && node in mem && g in mem && parent != node && g != parent && g != node
      requires mem[parent].right != null ==> mem[parent].right in mem && mem[parent].right != node && mem[parent].right != parent
      requires mem[node].right != null ==> mem[node].right in mem
      requires Differ(mem[node].right, mem[parent].right)
      requires mem[node].right != node && mem[node].right != parent && mem[node].right != g
      modifies this`root, this`mem, mem.Keys
      ensures Agrees() && root == old(root)
      ensures Inner(old(mem), mem, false, parent, node, old(mem)[parent].right, old(mem)[node].right, g, false)
    {
      hide Agrees, Best, Inner, SubOf, MkCell, Same;
      var tmp := RightOf(node);
      ghost var m0 := mem;
      RelinkRight(parent, node, tmp);
      ghost var m2 := mem;
      SetParentColor(parent, node, false);
      ghost var m3 := mem;
      AugmentRotate(parent, node);
      InnerSteps(m0, m2, m3, mem, false, parent, node, m0[parent].right, tmp, g, false);
    }

    /** Cases 2 and 3 for a parent that is its parent's right child. */
    method InsertRotateRight(node: Node, parent: Node, gparent: Node,
                            ghost dn: bool, ghost up: Ctx, ghost gs: nat, ghost u: Tree, ghost ps: nat, ghost o: Tree, ghost t: Tree)
      requires Agrees() && t.Tree? && t.n == node && !t.black && BlackRoot(o) && BlackRoot(t.left) && BlackRoot(t.right)
      requires At(mem, root, In(dn, In(false, up, gparent, true, gs, u), parent, false, ps, o), t)
      modifies this`root, this`mem, mem.Keys
      ensures Agrees() && mem.Keys == old(mem.Keys)
      ensures At(mem, root, up, InsertLift(false, dn, gparent, gs, u, parent, ps, o, t))
    {
      hide At, Inner, Lifted, Hung, Best, Paint;
      ghost var m0, root0 := mem, root;
      if dn == false {
        ParentView(m0, root, false, dn, up, gparent, true, gs, u, parent, false, ps, o, t);
        SingleApart(m0, root, false, up, t, parent, false, ps, o, gparent, true, gs, u);
      } else {
        assert t == Mk(false, t.right, node, false, t.sub, t.left);
        DoubleApart(m0, root, false, up, o, parent, false, ps, t.right, node, false, t.sub, t.left, gparent, true, gs, u);
      }
      var tmp := parent.left;
      if node == tmp {
        // case 2, then case 3 with the node in the parent's place
        InsertCase2Right(parent, node, gparent);
        ghost var m1 := mem;
        InnerFacts(m0, m1, false, parent, node, Root(o), Root(t.right), gparent, false);
        tmp := node.left;
        LiftRight(gparent, node, tmp, true, false);
        DoublyLiftedAt(m0, m1, mem, root0, root, false, up, o, parent, false, ps, t.right, node, false, t.sub, t.left,
                       gparent, true, gs, u, false, true, false);
        PaintBlack(t.right, true); PaintBlack(t.left, true);
      } else {
        // case 3: left rotate at gparent
        LiftRight(gparent, parent, tmp, true, false);
        LiftedAt(m0, mem, root0, root, false, up, t, parent, false, ps, o, gparent, true, gs, u, true, false);
        PaintBlack(o, true);
      }
    }

    /** Case 1: colour flips. */
    method FlipColors(uncle: Node, parent: Node, gparent: Node, ghost dir: bool, ghost dn: bool, ghost up: Ctx,
                      ghost gs: nat, ghost u: Tree, ghost ps: nat, ghost o: Tree, ghost t: Tree)
      requires Agrees() && u.Tree? && u.n == uncle
      requires At(mem, root, In(dn, In(dir, up, gparent, true, gs, u), parent, false, ps, o), t)
      modifies this`root, this`mem, mem.Keys
      ensures Agrees() && mem.Keys == old(mem.Keys)
      ensures At(mem, root, up, Mk(dir, Mk(dn, t, parent, true, ps, o), gparent, false, gs, Paint(u, true)))
    {
      hide At, Mk, Paint, Linked, MkCell;
      ghost var low, low', u' := Mk(dn, t, parent, false, ps, o), Mk(dn, t, parent, true, ps, o), Paint(u, true);
      Up(mem, root, dn, In(dir, up, gparent, true, gs, u), parent, false, ps, o, t);
      Sideways(mem, root, dir, up, gparent, true, gs, low, u);
      TreeCell(mem, root, In(!dir, up, gparent, true, gs, low), u);
      SetParentColor(uncle, gparent, true);
      Retouched(old(mem), mem, root, In(!dir, up, gparent, true, gs, low), u.left, uncle, u.black, u.sub, u.right, true, u.sub);
      PaintTree(u, true);
      Sideways(mem, root, dir, up, gparent, true, gs, low, u');
      ghost var m1 := mem;
      ParentCell(mem, root, In(dir, up, gparent, true, gs, u'), dn, t, parent, false, ps, o);
      SetParentColor(parent, gparent, true);
      RetouchedMk(m1, mem, root, In(dir, up, gparent, true, gs, u'), dn, t, parent, false, ps, o, true, ps);
      Up(mem, root, dir, up, gparent, true, gs, u', low');
      ghost var m2 := mem;
      ParentCell(mem, root, up, dir, low', gparent, true, gs, u');
      var above := gparent.parent;
      SetParentColor(gparent, above, false);
      RetouchedMk(m2, mem, root, up, dir, low', gparent, true, gs, u', false, gs);
    }

    /** A red node below a red parent that is its parent's left child.  Either the colours
        flip and the violation moves up to the grandparent, or a rotation ends it. */
    method InsertStepLeft(node: Node, parent: Node, gparent: Node, ghost ctx: Ctx, ghost t: Tree, ghost h: nat,
                          ghost order: seq<Node>)
      returns (stop: bool, ghost ctx': Ctx, ghost t': Tree)
      requires Agrees() && t.Tree? && t.n == node && !t.black && Fixing(mem, root, ctx, t, h, order)
      requires ctx.In? && !ctx.black && ctx.n == parent && ctx.up.In? && ctx.up.n == gparent && ctx.up.dir
      modifies this`root, this`mem, mem.Keys
      ensures Agrees() && mem.Keys == old(mem.Keys)
      ensures Fixing(mem, root, ctx', t', h + 1, order) && ctx' < ctx
      ensures if stop then BlackRoot(t') else t'.Tree? && t'.n == gparent && !t'.black
    {
      hide Agrees, At, Paint, Mk, Order, Fixing, InsertLift, MkCell;
      RedParent(mem, root, ctx, t, h, order);
      ghost var dn, ps, o, up, gs, u := ctx.dir, ctx.sub, ctx.other, ctx.up.up, ctx.up.sub, ctx.up.other;
      RedRedView(mem, root, true, dn, up, gparent, gs, u, parent, ps, o, t);
      ghost var m0, root0 := mem, root;
      var tmp := RightOf(gparent);
      var redUncle := IsRed(tmp);
      if redUncle {
        FlipColors(tmp, parent, gparent, true, dn, up, gs, u, ps, o, t);
        FlipFixed(m0, root0, mem, root, true, dn, up, gparent, gs, u, parent, ps, o, t, h, order);
        MkTree(true, Mk(dn, t, parent, true, ps, o), gparent, false, gs, Paint(u, true));
        return false, up, Mk(true, Mk(dn, t, parent, true, ps, o), gparent, false, gs, Paint(u, true));
      }
      InsertRotateLeft(node, parent, gparent, dn, up, gs, u, ps, o, t);
      InsertLiftFixed(m0, root0, mem, root, true, dn, up, gparent, gs, u, parent, ps, o, t, h, order);
      return true, up, InsertLift(true, dn, gparent, gs, u, parent, ps, o, t);
    }

    /** The same with a parent that is its parent's right child. */
    method InsertStepRight(node: Node, parent: Node, gparent: Node, ghost ctx: Ctx, ghost t: Tree, ghost h: nat,
                           ghost order: seq<Node>)
      returns (stop: bool, ghost ctx': Ctx, ghost t': Tree)
      requires Agrees() && t.Tree? && t.n == node && !t.black && Fixing(mem, root, ctx, t, h, order)
      requires ctx.In? && !ctx.black && ctx.n == parent && ctx.up.In? && ctx.up.n == gparent && !ctx.up.dir
      modifies this`root, this`mem, mem.Keys
      ensures Agrees() && mem.Keys == old(mem.Keys)
      ensures Fixing(mem, root, ctx', t', h + 1, order) && ctx' < ctx
      ensures if stop then BlackRoot(t') else t'.Tree? && t'.n == gparent && !t'.black
    {
      hide Agrees, At, Paint, Mk, Order, Fixing, InsertLift, MkCell;
      RedParent(mem, root, ctx, t, h, order);
      ghost var dn, ps, o, up, gs, u := ctx.dir, ctx.sub, ctx.other, ctx.up.up, ctx.up.sub, ctx.up.other;
      RedRedView(mem, root, false, dn, up, gparent, gs, u, parent, ps, o, t);
      ghost var m0, root0 := mem, root;
      var tmp := LeftOf(gparent);
      var redUncle := IsRed(tmp);
      if redUncle {
        FlipColors(tmp, parent, gparent, false, dn, up, gs, u, ps, o, t);
        FlipFixed(m0, root0, mem, root, false, dn, up, gparent, gs, u, parent, ps, o, t, h, order);
        MkTree(false, Mk(dn, t, parent, true, ps, o), gparent, false, gs, Paint(u, true));
        return false, up, Mk(false, Mk(dn, t, parent, true, ps, o), gparent, false, gs, Paint(u, true));
      }
      InsertRotateRight(node, parent, gparent, dn, up, gs, u, ps, o, t);
      InsertLiftFixed(m0, root0, mem, root, false, dn, up, gparent, gs, u, parent, ps, o, t, h, order);
      return true, up, InsertLift(false, dn, gparent, gs, u, parent, ps, o, t);
    }

    /** `__rb_insert`: `node0` has just been linked as a red leaf, or a red violation has
        moved up to it. */
    method InsertColor(node0: Node, ghost ctx0: Ctx, ghost t0: Tree, ghost h0: nat) returns (ghost done: Tree)
      requires Agrees() && t0.Tree? && t0.n == node0 && !t0.black && Fixing(mem, root, ctx0, t0, h0, Order(ctx0, t0))
      modifies this`root, this`mem, mem.Keys
      ensures Agrees() && mem.Keys == old(mem.Keys)
      ensures Sound(mem, root, done) && Inorder(done) == Order(ctx0, t0)
    {
      hide Agrees, At, Paint, Order, Fixing, Linked, Plug, Sound, MkCell;
      var node := node0;
      ghost var ctx, t, h, order := ctx0, t0, h0, Order(ctx0, t0);
      RedParent(mem, root, ctx, t, h, order);
      TreeCell(mem, root, ctx, t);
      var parent := ParentOf(node);
      while true
        invariant Agrees() && mem.Keys == old(mem.Keys)
        invariant t.Tree? && t.n == node && !t.black && Fixing(mem, root, ctx, t, h, order)
        invariant parent == Above(ctx)
        decreases ctx
      {
        RedParent(mem, root, ctx, t, h, order);
        if parent == null {
          TreeCell(mem, root, ctx, t);
          ghost var m0 := mem;
          SetParentColor(node, null, true);
          BlackenRoot(m0, mem, root, t, h, order);
          PaintTree(t, true);
          Finish(mem, root, ctx, Paint(t, true), h + 1, order);
          return Plug(ctx, Paint(t, true));
        }
        AboveCell(mem, root, ctx, t);
        var parentBlack := IsBlack(parent);
        if parentBlack {
          Finish(mem, root, ctx, t, h, order);
          return Plug(ctx, t);
        }
        var gparent := ParentOf(parent);
        SideView(mem, root, ctx, t);
        var tmp := RightOf(gparent);
        var stop;
        if parent != tmp {
          // parent == gparent.left
          stop, ctx, t := InsertStepLeft(node, parent, gparent, ctx, t, h, order);
        } else {
          stop, ctx, t := InsertStepRight(node, parent, gparent, ctx, t, h, order);
        }
        h := h + 1;
        if stop {
          Finish(mem, root, ctx, t, h, order);
          return Plug(ctx, t);
        }
        node := gparent;
        RedParent(mem, root, ctx, t, h, order);
        TreeCell(mem, root, ctx, t);
        parent := ParentOf(node);
      }
    }

    // ---------- erasure: restoring the colours ----------

    /** Case 1: left rotate at `parent`. */
    method EraseCase1Left(parent: Node, sibling: Node, ghost up: Ctx, ghost ps: nat, ghost ss: nat,
                       ghost farT: Tree, ghost nearT: Tree, ghost t: Tree) returns (tmp1: Node)
      requires Agrees() && nearT.Tree? && nearT.black
      requires At(mem, root, In(false, up, parent, true, ps, t), Mk(false, farT, sibling, false, ss, nearT))
      modifies this`root, this`mem, mem.Keys
      ensures Agrees() && mem.Keys == old(mem.Keys) && tmp1 == nearT.n
      ensures At(mem, root, up, Mk(false, farT, sibling, true, ps, Mk(false, nearT, parent, false, Best(parent, Sub(nearT), Sub(t)), t)))
    {
      hide Agrees, At, Lifted, Hung, Best, Paint, Mk;
      ghost var m0, root0 := mem, root;
      SingleApart(m0, root, false, up, farT, sibling, false, ss, nearT, parent, true, ps, t);
      var near := LeftOf(sibling);
      LiftRight(parent, sibling, near, true, false);
      LiftedAt(m0, mem, root0, root, false, up, farT, sibling, false, ss, nearT, parent, true, ps, t, true, false);
      PaintBlack(nearT, true);
      tmp1 := near;
    }

    /** Case 4: left rotate at `parent` + colour flips. */
    method EraseCase4Left(parent: Node, sibling: Node, tmp1: Node, ghost up: Ctx, ghost pb: bool, ghost ps: nat,
                          ghost ss: nat,
                       ghost farT: Tree, ghost nearT: Tree, ghost t: Tree)
      requires Agrees() && farT.Tree? && farT.n == tmp1
      requires At(mem, root, In(false, up, parent, pb, ps, t), Mk(false, farT, sibling, true, ss, nearT))
      modifies this`root, this`mem, mem.Keys
      ensures Agrees() && mem.Keys == old(mem.Keys)
      ensures At(mem, root, up, Mk(false, Paint(farT, true), sibling, pb, ps, Mk(false, nearT, parent, true, Best(parent, Sub(nearT), Sub(t)), t)))
    {
      hide Agrees, At, Lifted, Hung, Best, Paint, Mk;
      ghost var mid, farT' := In(false, up, parent, pb, ps, t), Paint(farT, true);
      Up(mem, root, false, mid, sibling, true, ss, nearT, farT);
      TreeCell(mem, root, In(false, mid, sibling, true, ss, nearT), farT);
      SetParentColor(tmp1, sibling, true);
      Retouched(old(mem), mem, root, In(false, mid, sibling, true, ss, nearT), farT.left, tmp1, farT.black, farT.sub, farT.right, true, farT.sub);
      PaintTree(farT, true);
      Up(mem, root, false, mid, sibling, true, ss, nearT, farT');
      ghost var m0, root0 := mem, root;
      SingleApart(m0, root, false, up, farT', sibling, true, ss, nearT, parent, pb, ps, t);
      var tmp2 := LeftOf(sibling);
      LiftRight(parent, sibling, tmp2, false, true);
      LiftedAt(m0, mem, root0, root, false, up, farT', sibling, true, ss, nearT, parent, pb, ps, t, false, true);
      PaintSame(nearT);
    }

    /** Case 3: right rotate at `sibling`; its own parent link follows in case 4. */
    method EraseCase3Left(parent: Node, sibling: Node, tmp2: Node)
      requires Agrees() && parent in mem && sibling in mem && tmp2 in mem && sibling != tmp2 && parent != sibling && parent != tmp2
      requires var a := mem[sibling].right; a != null ==> a in mem && a != tmp2 && a != sibling && a != parent
      requires var b := mem[tmp2].right; (b != null ==> b in mem && b != tmp2 && b != sibling && b != parent) && Differ(b, mem[sibling].right)
      modifies this`root, this`mem, mem.Keys
      ensures Agrees() && root == old(root)
      ensures Inner(old(mem), mem, false, sibling, tmp2, old(mem)[sibling].right, old(mem)[tmp2].right, parent, true)
    {
      hide Agrees, Best, Inner, SubOf, MkCell, Same;
      var tmp1 := RightOf(tmp2);
      ghost var m0 := mem;
      SetRight(parent, tmp2);
      ghost var m1 := mem;
      RelinkRight(sibling, tmp2, tmp1);
      ghost var m2 := mem;
      AugmentRotate(sibling, tmp2);
      ghost var m3 := mem;
      SetParentColor(sibling, tmp2, true);
      InnerStepsErase(m0, m1, m2, m3, mem, false, sibling, tmp2, m0[sibling].right, tmp1, parent);
    }

    /** Case 3 followed by case 4. */
    method EraseCase34Left(parent: Node, sibling: Node, tmp2: Node, ghost up: Ctx, ghost pb: bool, ghost ps: nat,
                           ghost ss: nat,
                        ghost farT: Tree, ghost b: Tree, ghost ns: nat, ghost c: Tree, ghost t: Tree)
      requires Agrees() && BlackRoot(b)
      requires At(mem, root, In(false, up, parent, pb, ps, t), Mk(false, farT, sibling, true, ss, Mk(false, b, tmp2, false, ns, c)))
      modifies this`root, this`mem, mem.Keys
      ensures Agrees() && mem.Keys == old(mem.Keys)
      ensures At(mem, root, up, Mk(false, Mk(false, farT, sibling, true, Best(sibling, Sub(farT), Sub(b)), b), tmp2, pb, ps,
                                   Mk(false, c, parent, true, Best(parent, Sub(c), Sub(t)), t)))
    {
      ghost var low := Mk(false, b, tmp2, false, ns, c);
      assert Mk(false, farT, sibling, true, ss, low) == Mk(true, low, sibling, true, ss, farT);
      hide Agrees, At, Lifted, Hung, Best, Paint, Mk, Inner;
      ghost var mid := In(false, up, parent, pb, ps, t);
      ghost var m0, root0 := mem, root;
      Up(mem, root, true, mid, sibling, true, ss, farT, low);
      DoubleApart(m0, root, false, up, farT, sibling, true, ss, b, tmp2, false, ns, c, parent, pb, ps, t);
      EraseCase3Left(parent, sibling, tmp2);
      ghost var m1 := mem;
      InnerFacts(m0, m1, false, sibling, tmp2, Root(farT), Root(b), parent, true);
      var tmp := LeftOf(tmp2);
      LiftRight(parent, tmp2, tmp, false, true);
      DoublyLiftedAt(m0, m1, mem, root0, root, false, up, farT, sibling, true, ss, b, tmp2, false, ns, c,
                     parent, pb, ps, t, true, false, true);
      PaintBlack(b, true); PaintSame(c);
    }

    /** Case 1: right rotate at `parent`. */
    method EraseCase1Right(parent: Node, sibling: Node, ghost up: Ctx, ghost ps: nat, ghost ss: nat,
                       ghost farT: Tree, ghost nearT: Tree, ghost t: Tree) returns (tmp1: Node)
      requires Agrees() && nearT.Tree? && nearT.black
      requires At(mem, root, In(true, up, parent, true, ps, t), Mk(true, farT, sibling, false, ss, nearT))
      modifies this`root, this`mem, mem.Keys
      ensures Agrees() && mem.Keys == old(mem.Keys) && tmp1 == nearT.n
      ensures At(mem, root, up, Mk(true, farT, sibling, true, ps, Mk(true, nearT, parent, false, Best(parent, Sub(nearT), Sub(t)), t)))
    {
      hide Agrees, At, Lifted, Hung, Best, Paint, Mk;
      ghost var m0, root0 := mem, root;
      SingleApart(m0, root, true, up, farT, sibling, false, ss, nearT, parent, true, ps, t);
      var near := RightOf(sibling);
      LiftLeft(parent, sibling, near, true, false);
      LiftedAt(m0, mem, root0, root, true, up, farT, sibling, false, ss, nearT, parent, true, ps, t, true, false);
      PaintBlack(nearT, true);
      tmp1 := near;
    }

    /** Case 4: right rotate at `parent` + colour flips. */
    method EraseCase4Right(parent: Node, sibling: Node, tmp1: Node, ghost up: Ctx, ghost pb: bool, ghost ps: nat,
                           ghost ss: nat,
                       ghost farT: Tree, ghost nearT: Tree, ghost t: Tree)
      requires Agrees() && farT.Tree? && farT.n == tmp1
      requires At(mem, root, In(true, up, parent, pb, ps, t), Mk(true, farT, sibling, true, ss, nearT))
      modifies this`root, this`mem, mem.Keys
      ensures Agrees() && mem.Keys == old(mem.Keys)
      ensures At(mem, root, up, Mk(true, Paint(farT, true), sibling, pb, ps, Mk(true, nearT, parent, true, Best(parent, Sub(nearT), Sub(t)), t)))
    {
      hide Agrees, At, Lifted, Hung, Best, Paint, Mk;
      ghost var mid, farT' := In(true, up, parent, pb, ps, t), Paint(farT, true);
      Up(mem, root, true, mid, sibling, true, ss, nearT, farT);
      TreeCell(mem, root, In(true, mid, sibling, true, ss, nearT), farT);
      SetParentColor(tmp1, sibling, true);
      Retouched(old(mem), mem, root, In(true, mid, sibling, true, ss, nearT), farT.left, tmp1, farT.black, farT.sub, farT.right, true, farT.sub);
      PaintTree(farT, true);
      Up(mem, root, true, mid, sibling, true, ss, nearT, farT');
      ghost var m0, root0 := mem, root;
      SingleApart(m0, root, true, up, farT', sibling, true, ss, nearT, parent, pb, ps, t);
      var tmp2 := RightOf(sibling);
      LiftLeft(parent, sibling, tmp2, false, true);
      LiftedAt(m0, mem, root0, root, true, up, farT', sibling, true, ss, nearT, parent, pb, ps, t, false, true);
      PaintSame(nearT);
    }

    /** Case 3: left rotate at `sibling`; its own parent link follows in case 4. */
    method EraseCase3Right(parent: Node, sibling: Node, tmp2: Node)
      requires Agrees() && parent in mem && sibling in mem && tmp2 in mem && sibling != tmp2 && parent != sibling && parent != tmp2
      requires var a := mem[sibling].left; a != null ==> a in mem && a != tmp2 && a != sibling && a != parent
      requires var b := mem[tmp2].left; (b != null ==> b in mem && b != tmp2 && b != sibling && b != parent) && Differ(b, mem[sibling].left)
      modifies this`root, this`mem, mem.Keys
      ensures Agrees() && root == old(root)
      ensures Inner(old(mem), mem, true, sibling, tmp2, old(mem)[sibling].left, old(mem)[tmp2].left, parent, true)
    {
      hide Agrees, Best, Inner, SubOf, MkCell, Same;
      var tmp1 := LeftOf(tmp2);
      ghost var m0 := mem;
      SetLeft(parent, tmp2);
      ghost var m1 := mem;
      RelinkLeft(sibling, tmp2, tmp1);
      ghost var m2 := mem;
      AugmentRotate(sibling, tmp2);
      ghost var m3 := mem;
      SetParentColor(sibling, tmp2, true);
      InnerStepsErase(m0, m1, m2, m3, mem, true, sibling, tmp2, m0[sibling].left, tmp1, parent);
    }

    /** Case 3 followed by case 4. */
    method EraseCase34Right(parent: Node, sibling: Node, tmp2: Node, ghost up: Ctx, ghost pb: bool, ghost ps: nat,
                            ghost ss: nat,
                        ghost farT: Tree, ghost b: Tree, ghost ns: nat, ghost c: Tree, ghost t: Tree)
      requires Agrees() && BlackRoot(b)
      requires At(mem, root, In(true, up, parent, pb, ps, t), Mk(true, farT, sibling, true, ss, Mk(true, b, tmp2, false, ns, c)))
      modifies this`root, this`mem, mem.Keys
      ensures Agrees() && mem.Keys == old(mem.Keys)
      ensures At(mem, root, up, Mk(true, Mk(true, farT, sibling, true, Best(sibling, Sub(farT), Sub(b)), b), tmp2, pb, ps,
                                   Mk(true, c, parent, true, Best(parent, Sub(c), Sub(t)), t)))
    {
      ghost var low := Mk(true, b, tmp2, false, ns, c);
      assert Mk(true, farT, sibling, true, ss, low) == Mk(false, low, sibling, true, ss, farT);
      hide Agrees, At, Lifted, Hung, Best, Paint, Mk, Inner;
      ghost var mid := In(true, up, parent, pb, ps, t);
      ghost var m0, root0 := mem, root;
      Up(mem, root, false, mid, sibling, true, ss, farT, low);
      DoubleApart(m0, root, true, up, farT, sibling, true, ss, b, tmp2, false, ns, c, parent, pb, ps, t);
      EraseCase3Right(parent, sibling, tmp2);
      ghost var m1 := mem;
      InnerFacts(m0, m1, true, sibling, tmp2, Root(farT), Root(b), parent, true);
      var tmp := RightOf(tmp2);
      LiftLeft(parent, tmp2, tmp, false, true);
      DoublyLiftedAt(m0, m1, mem, root0, root, true, up, farT, sibling, true, ss, b, tmp2, false, ns, c,
                     parent, pb, ps, t, true, false, true);
      PaintBlack(b, true); PaintSame(c);
    }

    /** Case 2: sibling colour flip.  `stop` tells that the tree is repaired. */
    method EraseCase2(parent: Node, sibling: Node, ghost ctx: Ctx, ghost t: Tree, ghost h: nat, ghost order: seq<Node>)
      returns (stop: bool, node': Node, parent': Node?)
      requires Agrees() && ctx.In? && Lacking(mem, root, ctx, t, h, order) && ctx.n == parent
      requires ctx.other.Tree? && ctx.other.n == sibling && ctx.other.black
      requires BlackRoot(ctx.other.left) && BlackRoot(ctx.other.right)
      modifies this`root, this`mem, mem.Keys
      ensures Agrees() && mem.Keys == old(mem.Keys)
      ensures var r := Mk(ctx.dir, t, parent, true, ctx.sub, Paint(ctx.other, false));
        && r.Tree? && r.n == parent && node' == parent && parent' == Above(ctx.up)
        && if stop then Fixing(mem, root, ctx.up, r, h + 1, order) && BlackRoot(r)
           else Lacking(mem, root, ctx.up, r, h + 1, order) && ctx.black
    {
      hide Agrees, At, Lacking, Fixing, Mk, Paint;
      ghost var m0, root0 := mem, root;
      LackingAt(mem, root, ctx, t, h, order);
      SidesDiffer(mem, root, ctx, t);
      SetParentColor(sibling, parent, false);
      ghost var m1 := mem;
      parent' := ParentOf(parent);
      node' := parent;
      var red := IsRed(parent);
      if red {
        SetBlack(parent);
      }
      Erase2Writes(m0, m1, mem, root, ctx.dir, ctx.up, parent, ctx.black, ctx.sub, ctx.other, t);
      Erase2Result(m0, root0, mem, root, ctx.dir, ctx.up, parent, ctx.black, ctx.sub, ctx.other, t, h, order);
      MkTree(ctx.dir, t, parent, true, ctx.sub, Paint(ctx.other, false));
      stop := red || parent' == null;
    }

    /** Cases 2 to 4, for a black sibling. */
    method EraseBlackSiblingLeft(parent: Node, sibling0: Node, ghost ctx: Ctx, ghost t: Tree, ghost h: nat,
                                 ghost order: seq<Node>)
      returns (stop: bool, node': Node?, parent': Node?, ghost ctx': Ctx, ghost t': Tree, ghost h': nat)
      requires Agrees() && Lacking(mem, root, ctx, t, h, order) && ctx.dir == true && ctx.n == parent
      requires ctx.other.Tree? && ctx.other.n == sibling0 && ctx.other.black
      modifies this`root, this`mem, mem.Keys
      ensures Agrees() && mem.Keys == old(mem.Keys)
      ensures stop ==> Fixing(mem, root, ctx', t', h', order) && (BlackRoot(t') || (ctx'.In? && ctx'.black))
      ensures !stop ==> Lacking(mem, root, ctx', t', h', order) && node' == Root(t') && parent' == Above(ctx') && ctx' == ctx.up && ctx.black
    {
      hide Agrees, At, Lacking, Fixing, Mk, Paint, Best;
      ghost var m0, root0 := mem, root;
      SiblingExists(mem, root, ctx, t, h, order);
      ghost var S := ctx.other;
      var sibling := sibling0;
      SiblingView(mem, root, In(false, ctx.up, parent, ctx.black, ctx.sub, t), S);
      TreeMk(false, S);
      var tmp1 := RightOf(sibling);
      var redFar := IsRed(tmp1);
      if !redFar {
        var tmp2 := LeftOf(sibling);
        var redNear := IsRed(tmp2);
        if !redNear {
          stop, node', parent' := EraseCase2(parent, sibling, ctx, t, h, order);
          ctx', t', h' := ctx.up, Mk(true, t, parent, true, ctx.sub, Paint(S, false)), h + 1;
        } else {
          ghost var n := S.left;
          TreeMk(false, n);
          RedNearKids(mem, root, ctx, t, h, order, n);
          EraseCase34Left(parent, sibling, tmp2, ctx.up, ctx.black, ctx.sub, S.sub, S.right, n.right, n.sub, n.left, t);
          Erase3Fixed(m0, root0, mem, root, true, ctx.up, parent, ctx.black, ctx.sub, S.right, sibling, S.sub, n.right, tmp2, n.sub, n.left, t, h, order);
          stop, node', parent' := true, null, null;
          ctx', h' := ctx.up, h + 1 + Weight(ctx.black);
          t' := Mk(false, Mk(false, S.right, sibling, true, Best(sibling, Sub(S.right), Sub(n.right)), n.right), tmp2, ctx.black, ctx.sub,
                   Mk(false, n.left, parent, true, Best(parent, Sub(n.left), Sub(t)), t));
        }
      } else {
        EraseCase4Left(parent, sibling, tmp1, ctx.up, ctx.black, ctx.sub, S.sub, S.right, S.left, t);
        Erase4Fixed(m0, root0, mem, root, true, ctx.up, parent, ctx.black, ctx.sub, S.right, sibling, S.sub, S.left, t, h, order);
        stop, node', parent' := true, null, null;
        ctx', h' := ctx.up, h + 1 + Weight(ctx.black);
        t' := Mk(false, Paint(S.right, true), sibling, ctx.black, ctx.sub, Mk(false, S.left, parent, true, Best(parent, Sub(S.left), Sub(t)), t));
      }
    }

    /** One turn of the loop for a node that is its parent's left child. */
    method EraseStepLeft(parent: Node, ghost ctx0: Ctx, ghost t: Tree, ghost h: nat, ghost order: seq<Node>)
      returns (stop: bool, node': Node?, parent': Node?, ghost ctx': Ctx, ghost t': Tree, ghost h': nat)
      requires Agrees() && Lacking(mem, root, ctx0, t, h, order) && ctx0.dir == true && ctx0.n == parent
      modifies this`root, this`mem, mem.Keys
      ensures Agrees() && mem.Keys == old(mem.Keys)
      ensures stop ==> Fixing(mem, root, ctx', t', h', order) && (BlackRoot(t') || (ctx'.In? && ctx'.black))
      ensures !stop ==> Lacking(mem, root, ctx', t', h', order) && node' == Root(t') && parent' == Above(ctx') && ctx' == ctx0.up
    {
      hide Agrees, At, Lacking, Fixing, Mk, Paint, Best;
      ghost var ctx := ctx0;
      SiblingExists(mem, root, ctx, t, h, order);
      SidesDiffer(mem, root, ctx, t);
      var sibling := RightOf(parent);
      SiblingView(mem, root, In(false, ctx.up, parent, ctx.black, ctx.sub, t), ctx.other);
      var redSibling := IsRed(sibling);
      if redSibling {
        ghost var m0, root0 := mem, root;
        ghost var S, up := ctx.other, ctx.up;
        TreeMk(false, S);
        var tmp1 := EraseCase1Left(parent, sibling, up, ctx.sub, S.sub, S.right, S.left, t);
        Erase1Lacking(m0, root0, mem, root, true, up, parent, ctx.sub, S.right, sibling, S.sub, S.left, t, h, order);
        ctx := In(true, In(true, up, sibling, true, ctx.sub, S.right), parent, false, Best(parent, Sub(S.left), Sub(t)), S.left);
        sibling := tmp1;
      }
      stop, node', parent', ctx', t', h' := EraseBlackSiblingLeft(parent, sibling, ctx, t, h, order);
    }

    /** Cases 2 to 4, for a black sibling. */
    method EraseBlackSiblingRight(parent: Node, sibling0: Node, ghost ctx: Ctx, ghost t: Tree, ghost h: nat,
                                  ghost order: seq<Node>)
      returns (stop: bool, node': Node?, parent': Node?, ghost ctx': Ctx, ghost t': Tree, ghost h': nat)
      requires Agrees() && Lacking(mem, root, ctx, t, h, order) && ctx.dir == false && ctx.n == parent
      requires ctx.other.Tree? && ctx.other.n == sibling0 && ctx.other.black
      modifies this`root, this`mem, mem.Keys
      ensures Agrees() && mem.Keys == old(mem.Keys)
      ensures stop ==> Fixing(mem, root, ctx', t', h', order) && (BlackRoot(t') || (ctx'.In? && ctx'.black))
      ensures !stop ==> Lacking(mem, root, ctx', t', h', order) && node' == Root(t') && parent' == Above(ctx') && ctx' == ctx.up && ctx.black
    {
      hide Agrees, At, Lacking, Fixing, Mk, Paint, Best;
      ghost var m0, root0 := mem, root;
      SiblingExists(mem, root, ctx, t, h, order);
      ghost var S := ctx.other;
      var sibling := sibling0;
      SiblingView(mem, root, In(true, ctx.up, parent, ctx.black, ctx.sub, t), S);
      TreeMk(true, S);
      var tmp1 := LeftOf(sibling);
      var redFar := IsRed(tmp1);
      if !redFar {
        var tmp2 := RightOf(sibling);
        var redNear := IsRed(tmp2);
        if !redNear {
          stop, node', parent' := EraseCase2(parent, sibling, ctx, t, h, order);
          ctx', t', h' := ctx.up, Mk(false, t, parent, true, ctx.sub, Paint(S, false)), h + 1;
        } else {
          ghost var n := S.right;
          TreeMk(true, n);
          RedNearKids(mem, root, ctx, t, h, order, n);
          EraseCase34Right(parent, sibling, tmp2, ctx.up, ctx.black, ctx.sub, S.sub, S.left, n.left, n.sub, n.right, t);
          Erase3Fixed(m0, root0, mem, root, false, ctx.up, parent, ctx.black, ctx.sub, S.left, sibling, S.sub, n.left, tmp2, n.sub, n.right, t, h, order);
          stop, node', parent' := true, null, null;
          ctx', h' := ctx.up, h + 1 + Weight(ctx.black);
          t' := Mk(true, Mk(true, S.left, sibling, true, Best(sibling, Sub(S.left), Sub(n.left)), n.left), tmp2, ctx.black, ctx.sub,
                   Mk(true, n.right, parent, true, Best(parent, Sub(n.right), Sub(t)), t));
        }
      } else {
        EraseCase4Right(parent, sibling, tmp1, ctx.up, ctx.black, ctx.sub, S.sub, S.left, S.right, t);
        Erase4Fixed(m0, root0, mem, root, false, ctx.up, parent, ctx.black, ctx.sub, S.left, sibling, S.sub, S.right, t, h, order);
        stop, node', parent' := true, null, null;
        ctx', h' := ctx.up, h + 1 + Weight(ctx.black);
        t' := Mk(true, Paint(S.left, true), sibling, ctx.black, ctx.sub, Mk(true, S.right, parent, true, Best(parent, Sub(S.right), Sub(t)), t));
      }
    }

    /** One turn of the loop for a node that is its parent's right child. */
    method EraseStepRight(parent: Node, ghost ctx0: Ctx, ghost t: Tree, ghost h: nat, ghost order: seq<Node>)
      returns (stop: bool, node': Node?, parent': Node?, ghost ctx': Ctx, ghost t': Tree, ghost h': nat)
      requires Agrees() && Lacking(mem, root, ctx0, t, h, order) && ctx0.dir == false && ctx0.n == parent
      modifies this`root, this`mem, mem.Keys
      ensures Agrees() && mem.Keys == old(mem.Keys)
      ensures stop ==> Fixing(mem, root, ctx', t', h', order) && (BlackRoot(t') || (ctx'.In? && ctx'.black))
      ensures !stop ==> Lacking(mem, root, ctx', t', h', order) && node' == Root(t') && parent' == Above(ctx') && ctx' == ctx0.up
    {
      hide Agrees, At, Lacking, Fixing, Mk, Paint, Best;
      ghost var ctx := ctx0;
      SiblingExists(mem, root, ctx, t, h, order);
      SidesDiffer(mem, root, ctx, t);
      var sibling := LeftOf(parent);
      SiblingView(mem, root, In(true, ctx.up, parent, ctx.black, ctx.sub, t), ctx.other);
      var redSibling := IsRed(sibling);
      if redSibling {
        ghost var m0, root0 := mem, root;
        ghost var S, up := ctx.other, ctx.up;
        TreeMk(true, S);
        var tmp1 := EraseCase1Right(parent, sibling, up, ctx.sub, S.sub, S.left, S.right, t);
        Erase1Lacking(m0, root0, mem, root, false, up, parent, ctx.sub, S.left, sibling, S.sub, S.right, t, h, order);
        ctx := In(false, In(false, up, sibling, true, ctx.sub, S.left), parent, false, Best(parent, Sub(S.right), Sub(t)), S.right);
        sibling := tmp1;
      }
      stop, node', parent', ctx', t', h' := EraseBlackSiblingRight(parent, sibling, ctx, t, h, order);
    }

    /** `____rb_erase_color`: the empty place below `parent0` lacks a black node. */
    method EraseColor(parent0: Node, ghost ctx0: Ctx, ghost h0: nat, ghost order: seq<Node>) returns (ghost done: Tree)
      requires Agrees() && Lacking(mem, root, ctx0, Leaf, h0, order) && ctx0.n == parent0
      modifies this`root, this`mem, mem.Keys
      ensures Agrees() && mem.Keys == old(mem.Keys)
      ensures Sound(mem, root, done) && Inorder(done) == order
    {
      hide Agrees, At, Lacking, Fixing, Sound, Plug;
      var node: Node?, parent: Node? := null, parent0;
      ghost var ctx, t, h := ctx0, Leaf, h0;
      LackingAt(mem, root, ctx, t, h, order);
      while true
        invariant Agrees() && mem.Keys == old(mem.Keys)
        invariant Lacking(mem, root, ctx, t, h, order) && ctx.In? && parent == ctx.n && node == Root(t)
        decreases ctx
      {
        SiblingExists(mem, root, ctx, t, h, order);
        SidesDiffer(mem, root, ctx, t);
        var stop;
        var sibling := RightOf(parent);
        if node != sibling {
          stop, node, parent, ctx, t, h := EraseStepLeft(parent, ctx, t, h, order);
        } else {
          stop, node, parent, ctx, t, h := EraseStepRight(parent, ctx, t, h, order);
        }
        if stop {
          Finish(mem, root, ctx, t, h, order);
          return Plug(ctx, t);
        }
        LackingAt(mem, root, ctx, t, h, order);
      }
    }

    // ---------- the propagate and copy callbacks ----------

    /** Recomputes cached values upwards from `rb0` until `stop`, or until one is unchanged. */
    method Propagate(rb0: Node?, stop: Node?, ghost q: Ctx, ghost child: Node?)
      requires Agrees() && PathReads(mem, q, child, stop) && PathOnce(mem, q, stop) && rb0 == Over(q, stop)
      requires child != null ==> child in mem && CtxCount(q, child) == 0
      modifies this`mem, mem.Keys
      ensures Agrees() && mem.Keys == old(mem.Keys)
      ensures mem == RefreshMem(old(mem), q, SubOf(old(mem), child))
    {
      hide Agrees, PathReads, PathOnce, CtxCount, SubOf, Best;
      var rb := rb0;
      ghost var c, ch := q, child;
      ghost var m0, s0 := mem, SubOf(mem, child);
      while rb != stop
        invariant Agrees() && mem.Keys == old(mem.Keys)
        invariant PathReads(mem, c, ch, stop) && PathOnce(mem, c, stop) && rb == Over(c, stop)
        invariant ch != null ==> ch in mem && CtxCount(c, ch) == 0
        invariant RefreshMem(mem, c, SubOf(mem, ch)) == RefreshMem(m0, q, s0)
        decreases c
      {
        ghost var m1, n := mem, c.n;
        PropagateHead(mem, c, ch, stop);
        var augmented := ComputeSubtreeLast(rb);
        var current := SubtreeLast(rb);
        if current == augmented {
          RefreshStops(mem, c, SubOf(mem, ch), stop);
          return;
        }
        SetSub(rb, augmented);
        PropagateNext(m1, mem, c, ch, stop, augmented);
        c, ch := c.up, n;
        rb := ParentOf(rb);
      }
      RefreshStops(mem, c, SubOf(mem, ch), stop);
    }

    method CopySub(oldn: Node, newn: Node)
      requires Agrees() && oldn in mem && newn in mem
      modifies this`mem, newn
      ensures Agrees() && mem.Keys == old(mem.Keys) && mem == old(mem)[newn := old(mem)[newn].(sub := old(mem)[oldn].sub)]
    {
      SetSub(newn, oldn.sub);
    }

    /** The node is out of the tree; its fields no longer matter. */
    ghost method Forget(n: Node)
      requires Agrees()
      modifies this`mem
      ensures Agrees() && mem == old(mem) - {n}
    {
      mem := mem - {n};
    }

    // ---------- erasure: the structural part ----------

    /** The successor leaves the foot of the path below `node`'s right child. */
    method DetachSuccessor(node: Node, successor: Node, parent: Node, child: Node, child2: Node?)
      requires Agrees() && node in mem && successor in mem && parent in mem && child in mem
      requires node != successor && successor != parent && successor != child && node != parent && node != child
      modifies this`mem, successor, parent, child
      ensures Agrees() && mem.Keys == old(mem.Keys)
      ensures Detached(old(mem), mem, node, successor, parent, child, child2)
    {
      hide Agrees, SetKid, Detached, Same;
      ghost var m0 := mem;
      SetLeft(parent, child2);
      SetRight(successor, child);
      SetParent(child, successor);
      CopySub(node, successor);
      DetachSteps(m0, mem, node, successor, parent, child, child2);
    }

    /** The links of `node`'s left child and of its parent lead to the successor. */
    method MoveUp(node: Node, successor: Node, tmp: Node)
      requires Agrees() && node in mem && successor in mem && node != successor
      requires tmp in mem && tmp != node && tmp != successor && tmp != mem[node].parent
      requires var q := mem[node].parent; q != null ==> q in mem && q != node && q != successor
      modifies this`root, this`mem, mem.Keys
      ensures Agrees() && mem.Keys == old(mem.Keys)
      ensures mem[node] == old(mem)[node] && mem[successor] == SetKid(old(mem)[successor], true, tmp)
      ensures mem[tmp] == old(mem)[tmp].(parent := successor)
      ensures Hung(old(mem), mem, old(root), root, mem[node].parent, node, successor)
      ensures Same(old(mem), mem, Writes(successor, tmp, mem[node].parent, null, null, null))
    {
      hide Agrees, SetKid;
      SetLeft(successor, tmp);
      SetParent(tmp, successor);
      var pparent := ParentOf(node);
      ChangeChild(node, successor, pparent);
    }

    /** The successor moves into `node`'s place; `child2`, its former right child, has
        already moved below `parent`.  Returns the node below which a black one is missing. */
    method TakePlace(node: Node, successor: Node, parent: Node, child2: Node?) returns (rebalance: Node?)
      requires Agrees() && Replaceable(mem, node, successor, child2)
      modifies this`root, this`mem, mem.Keys
      ensures Agrees()
      ensures Taken(old(mem), mem, old(root), root, node, successor, old(mem)[node].left, child2, parent)
      ensures mem.Keys == old(mem.Keys) - {node}
      ensures rebalance == if child2 == null && old(mem)[successor].black then parent else null
    {
      hide Agrees, Hung, Taken, SetKid;
      ghost var m0, root0 := mem, root;
      var tmp := LeftOf(node);
      MoveUp(node, successor, tmp);
      ghost var m2 := mem;
      SetKidBlack(m0[successor], true, tmp);
      var pparent := ParentOf(node);
      var pblack := IsBlack(node);
      rebalance := null;
      if child2 != null {
        SetParentColor(successor, pparent, pblack);
        SetParentColor(child2, parent, true);
      } else {
        var black2 := IsBlack(successor);
        SetParentColor(successor, pparent, pblack);
        if black2 {
          rebalance := parent;
        }
      }
      ghost var m3 := mem;
      Forget(node);
      TakeSteps(m0, m2, m3, mem, root0, root, node, successor, tmp, child2, parent);
    }

    /** `propagate` without a stop node. */
    method PropagateUp(rb: Node?, ghost ctx: Ctx, ghost t: Tree)
      requires Agrees() && At(mem, root, ctx, t) && rb == Above(ctx)
      modifies this`mem, mem.Keys
      ensures Agrees() && mem.Keys == old(mem.Keys)
      ensures At(mem, root, Refresh(ctx, Sub(t)), t)
    {
      WholePath(mem, root, ctx, t);
      Propagate(rb, null, ctx, Root(t));
      AppendTop(ctx);
      AppendTop(Refresh(ctx, Sub(t)));
      RefreshAt(old(mem), root, ctx, Top, t);
    }

    /** `node`, with at most the child `child`, leaves; `dir` is the childless side. */
    method CutNodeOut(node: Node, child: Node?, ghost dir: bool, ghost ctx: Ctx, ghost b: bool, ghost s: nat, ghost x: Tree)
      returns (parent: Node?, black: bool)
      requires Agrees() && At(mem, root, ctx, Mk(dir, Leaf, node, b, s, x)) && child == Root(x)
      modifies this`root, this`mem, mem.Keys
      ensures Agrees() && mem.Keys == old(mem.Keys) - {node}
      ensures At(mem, root, ctx, Paint(x, b)) && parent == Above(ctx) && black == b
    {
      ghost var m0, root0 := mem, root;
      NodeView(mem, root, ctx, dir, Leaf, node, b, s, x);
      OneChildApart(mem, root, ctx, dir, node, b, s, x);
      hide Agrees, At, Mk, Hung, Rehung, Paint, SetKid, Same;
      parent := ParentOf(node);
      black := IsBlack(node);
      ChangeChild(node, child, parent);
      ghost var m1 := mem;
      if child != null {
        SetParentColor(child, parent, black);
      }
      ghost var m2 := mem;
      Forget(node);
      CutOutSteps(m0, m1, m2, mem, root0, root, ctx, x, dir, node, b, s);
    }

    /** Case 1: `node` has at most one child, `child`. */
    method UnlinkOne(node: Node, child: Node?, ghost dir: bool, ghost ctx: Ctx, ghost t: Tree, ghost h: nat,
                     ghost order: seq<Node>)
      returns (rebalance: Node?, ghost hole: Ctx, ghost done: Tree)
      requires Agrees() && Placed(mem, root, ctx, t, h, order) && t.Tree? && t.n == node
      requires Child(t, dir).Leaf? && child == Root(Child(t, !dir))
      modifies this`root, this`mem, mem.Keys
      ensures Agrees() && mem.Keys == old(mem.Keys) - {node}
      ensures Unlinked(mem, root, rebalance, hole, done, Without(ctx, t))
    {
      ghost var x, b := Child(t, !dir), t.black;
      ghost var m0, root0 := mem, root;
      TreeMk(dir, t);
      PlacedAt(mem, root, ctx, t, h, order);
      hide Agrees, At, Mk, Child, Placed, Refresh, Without, Plug, Paint, Unlinked;
      var parent, black;
      parent, black := CutNodeOut(node, child, dir, ctx, b, t.sub, x);
      rebalance := if child == null && black then parent else null;
      PropagateUp(parent, ctx, Paint(x, b));
      OneChildDone(m0, root0, mem, root, ctx, t, dir, h, order);
      hole := Refresh(ctx, Sub(x));
      done := Plug(hole, Paint(x, true));
    }

    /** Walks from the right child to the leftmost node below it. */
    method FindSuccessor(child: Node, first: Node, ghost base: Ctx, ghost r: Tree, ghost h0: nat, ghost order: seq<Node>)
      returns (parent: Node, successor: Node, ghost q: Ctx, ghost u: Tree, ghost h: nat)
      requires Agrees() && Placed(mem, root, base, r, h0, order) && r.Tree? && r.n == child && Root(r.left) == first
      ensures Walking(mem, root, q, base, r, u, h, order)
      ensures u.n == successor && u.left.Leaf? && q.In? && q.n == parent
    {
      hide Agrees, Placed, Walking, Append, Plug, Foot;
      parent, successor := child, first;
      q, u, h := Top, r, h0;
      WalkFirst(mem, root, base, r, h, order);
      WalkLeft(mem, root, q, base, r, u, h, order);
      q, u, h := In(true, q, u.n, u.black, u.sub, u.right), u.left, h - Weight(u.black);
      WalkView(mem, root, q, base, r, u, h, order);
      var tmp := LeftOf(successor);
      while tmp != null
        invariant Walking(mem, root, q, base, r, u, h, order) && u.Tree?
        invariant u.n == successor && q.In? && q.n == parent && tmp == Root(u.left)
        decreases u
      {
        WalkLeft(mem, root, q, base, r, u, h, order);
        q, u, h := In(true, q, u.n, u.black, u.sub, u.right), u.left, h - Weight(u.black);
        parent, successor := successor, tmp;
        WalkView(mem, root, q, base, r, u, h, order);
        tmp := LeftOf(tmp);
      }
    }

    /** Case 2: the successor is `node`'s right child. */
    method UnlinkAboveChild(node: Node, successor: Node, ghost ctx: Ctx, ghost t: Tree, ghost h: nat, ghost order: seq<Node>)
      returns (rebalance: Node?, ghost hole: Ctx, ghost done: Tree)
      requires Agrees() && Placed(mem, root, ctx, t, h, order) && t.Tree? && t.n == node && t.left.Tree? && t.right.Tree?
      requires successor == t.right.n && t.right.left.Leaf?
      modifies this`root, this`mem, mem.Keys
      ensures Agrees() && mem.Keys == old(mem.Keys) - {node}
      ensures Unlinked(mem, root, rebalance, hole, done, Without(ctx, t))
    {
      ghost var m0, root0 := mem, root;
      ghost var u, hs := t.right, h - Weight(t.black);
      ghost var base := In(false, ctx, node, t.black, t.sub, t.left);
      hide Agrees, Placed, Walking, At, Refresh, Paint, Plug, Without, Unlinked, Append, AllLeft;
      WalkStart(m0, root0, ctx, t, h, order);
      rebalance := TakeFromChild(node, successor, ctx, t, hs, order);
      hole, done := FinishSplice(successor, m0, root0, Top, ctx, t, u, hs, order);
    }

    /** The right child moves into `node`'s place. */
    method TakeFromChild(node: Node, successor: Node, ghost ctx: Ctx, ghost t: Tree, ghost h: nat, ghost order: seq<Node>)
      returns (rebalance: Node?)
      requires Agrees() && t.Tree? && t.n == node && t.left.Tree? && t.right.Tree? && t.right.left.Leaf? && t.right.n == successor
      requires Walking(mem, root, Top, In(false, ctx, node, t.black, t.sub, t.left), t.right, t.right, h, order)
      modifies this`root, this`mem, mem.Keys
      ensures Agrees() && mem.Keys == old(mem.Keys) - {node}
      ensures var u := t.right; At(mem, root, In(false, ctx, successor, t.black, t.sub, t.left), Paint(u.right, true))
      ensures rebalance == if t.right.right.Leaf? && t.right.black then successor else null
    {
      ghost var m0, root0, u := mem, root, t.right;
      ghost var c, base := u.right, In(false, ctx, node, t.black, t.sub, t.left);
      assert Append(Top, base) == base;
      hide Agrees, Walking, At, Taken, Paint, Plug, Append, AllLeft, Foot, CtxCount, Replaceable;
      WalkEnd(m0, root0, Top, ctx, t, u, h, order);
      var child2 := RightOf(successor);
      CopySub(node, successor);
      ghost var m1 := mem;
      StillReplaceable(m0, m1, node, successor, child2);
      rebalance := TakePlace(node, successor, successor, child2);
      TakenChild(m0, mem, root0, root, ctx, t.left, c, node, successor, t.black, t.sub, u.black, u.sub, m1);
    }

    /** The successor leaves its old place and the cached values below it are refreshed. */
    method DetachAndRefresh(node: Node, successor: Node, parent: Node, child: Node, child2: Node?,
                            ghost q: Ctx, ghost ctx: Ctx, ghost t: Tree, ghost u: Tree) returns (ghost m1: Mem)
      requires Agrees() && t.Tree? && u.Tree? && q.In? && q.n == parent && Foot(q, successor) == child && AllLeft(q)
      requires At(mem, root, Append(q, In(false, ctx, node, t.black, t.sub, t.left)), Tree(Leaf, successor, u.black, u.sub, u.right))
      requires t.n == node && child2 == Root(u.right)
      modifies this`mem, mem.Keys
      ensures Agrees() && mem.Keys == old(mem.Keys)
      ensures Detached(old(mem), m1, node, successor, parent, child, child2)
      ensures Spread(m1, q, Sub(u.right), mem) && mem.Keys == old(mem).Keys
      ensures node in mem && successor in mem && mem[node] == old(mem)[node] && mem[successor].black == old(mem)[successor].black
    {
      ghost var m0, c := mem, u.right;
      SpliceView(m0, root, q, ctx, t.left, c, node, successor, t.black, t.sub, u.black, u.sub);
      SpliceDiffer(m0, root, q, ctx, t.left, c, node, successor);
      FootOccurs(q, successor);
      FootCell(m0, q, successor, node);
      CtxOccurs(q);
      hide Agrees, At, Detached, PathReads, PathOnce, PathLinked, RefreshMem, Append, Foot, CtxCount, Spread, SubOf,
        SpliceApart;
      DetachSuccessor(node, successor, parent, child, child2);
      m1 := mem;
      DetachedPath(m0, m1, root, q, ctx, t.left, c, node, successor, t.black, t.sub, u.black, u.sub);
      Propagate(parent, successor, q, child2);
      AfterDetach(m0, m1, mem, q, Sub(c), node, successor, parent, child, child2);
    }

    /** Case 3: the successor is the leftmost node below `node`'s right child. */
    method UnlinkAboveDeep(node: Node, child: Node, first: Node, ghost ctx: Ctx, ghost t: Tree, ghost h: nat,
                           ghost order: seq<Node>)
      returns (rebalance: Node?, ghost hole: Ctx, ghost done: Tree)
      requires Agrees() && Placed(mem, root, ctx, t, h, order) && t.Tree? && t.n == node && t.left.Tree? && t.right.Tree?
      requires child == t.right.n && first == Root(t.right.left)
      modifies this`root, this`mem, mem.Keys
      ensures Agrees() && mem.Keys == old(mem.Keys) - {node}
      ensures Unlinked(mem, root, rebalance, hole, done, Without(ctx, t))
    {
      ghost var m0, root0 := mem, root;
      ghost var base := In(false, ctx, node, t.black, t.sub, t.left);
      hide Agrees, Placed, Walking, At, Refresh, Paint, Plug, Without, Unlinked, Append, AllLeft;
      WalkStart(m0, root0, ctx, t, h, order);
      var parent, successor;
      ghost var q, u, hs;
      parent, successor, q, u, hs := FindSuccessor(child, first, base, t.right, h - Weight(t.black), order);
      rebalance := TakeFromDeep(node, successor, parent, child, q, ctx, t, u, hs, order);
      hole, done := FinishSplice(successor, m0, root0, q, ctx, t, u, hs, order);
    }

    /** The leftmost node below the right child moves into `node`'s place. */
    method TakeFromDeep(node: Node, successor: Node, parent: Node, child: Node,
                        ghost q: Ctx, ghost ctx: Ctx, ghost t: Tree, ghost u: Tree, ghost h: nat, ghost order: seq<Node>)
      returns (rebalance: Node?)
      requires Agrees() && t.Tree? && t.n == node && t.left.Tree? && t.right.Tree? && t.right.n == child
      requires Walking(mem, root, q, In(false, ctx, node, t.black, t.sub, t.left), t.right, u, h, order)
      requires u.left.Leaf? && u.n == successor && q.In? && q.n == parent
      modifies this`root, this`mem, mem.Keys
      ensures Agrees() && mem.Keys == old(mem.Keys) - {node}
      ensures var base := In(false, ctx, successor, t.black, t.sub, t.left);
        At(mem, root, Append(Refresh(q, Sub(u.right)), base), Paint(u.right, true))
      ensures rebalance == if u.right.Leaf? && u.black then parent else null
    {
      ghost var m0, root0, c := mem, root, u.right;
      hide Agrees, Walking, At, Taken, Detached, Refresh, Paint, Plug, Append, Foot, CtxCount, AllLeft, Spread, Replaceable;
      WalkEnd(m0, root0, q, ctx, t, u, h, order);
      AllLeftHead(q);
      var child2 := RightOf(successor);
      ghost var m1 := DetachAndRefresh(node, successor, parent, child, child2, q, ctx, t, u);
      ghost var m2 := mem;
      StillReplaceable(m0, m2, node, successor, child2);
      rebalance := TakePlace(node, successor, parent, child2);
      TakenDeep(m0, m1, m2, mem, root0, root, q, ctx, t.left, c, node, successor, t.black, t.sub, u.black, u.sub);
    }

    /** The last propagation, from the successor's new place to the root. */
    method FinishSplice(successor: Node, ghost m0: Mem, ghost root0: Node?, ghost q: Ctx, ghost ctx: Ctx,
                        ghost t: Tree, ghost u: Tree,
                        ghost h: nat, ghost order: seq<Node>) returns (ghost hole: Ctx, ghost done: Tree)
      requires Agrees() && t.Tree? && AllLeft(q) && u.Tree? && u == Tree(Leaf, successor, u.black, u.sub, u.right) && t.right == Plug(q, u)
      requires Placed(m0, root0, Append(q, In(false, ctx, t.n, t.black, t.sub, t.left)), u, h, order)
      requires At(mem, root, Append(Refresh(q, Sub(u.right)), In(false, ctx, successor, t.black, t.sub, t.left)), Paint(u.right, true))
      modifies this`mem, mem.Keys
      ensures Agrees() && mem.Keys == old(mem.Keys)
      ensures Unlinked(mem, root, if u.right.Leaf? && u.black then Over(q, successor) else null, hole, done, Without(ctx, t))
    {
      hide Agrees, Placed, At, Refresh, Paint, Plug, Without, Unlinked, Append, AllLeft;
      ghost var c := u.right;
      ghost var base1, q' := In(false, ctx, successor, t.black, t.sub, t.left), Refresh(q, Sub(c));
      ZipDown(mem, root, q', base1, Paint(c, true));
      PropagateUp(successor, base1, Plug(q', Paint(c, true)));
      TwoChildrenDone(m0, root0, mem, root, q, ctx, t, successor, u.black, u.sub, c, h, order);
      hole := Append(q', Refresh(base1, Sub(Plug(q', Paint(c, true)))));
      done := Plug(hole, Paint(c, true));
    }

    /** `__rb_erase_augmented` */
    method EraseAugmented(node: Node, ghost ctx: Ctx, ghost t: Tree, ghost h: nat, ghost order: seq<Node>)
      returns (rebalance: Node?, ghost hole: Ctx, ghost done: Tree)
      requires Agrees() && Placed(mem, root, ctx, t, h, order) && t.Tree? && t.n == node
      modifies this`root, this`mem, mem.Keys
      ensures Agrees() && mem.Keys == old(mem.Keys) - {node}
      ensures Unlinked(mem, root, rebalance, hole, done, Without(ctx, t))
    {
      hide Agrees, Placed, Unlinked, Without;
      PlacedAt(mem, root, ctx, t, h, order);
      SiblingView(mem, root, ctx, t);
      if t.right.Tree? { RightView(mem, root, ctx, t); }
      var child := RightOf(node);
      var tmp := LeftOf(node);
      if tmp == null {
        rebalance, hole, done := UnlinkOne(node, child, true, ctx, t, h, order);
      } else if child == null {
        rebalance, hole, done := UnlinkOne(node, tmp, false, ctx, t, h, order);
      } else {
        var successor := child;
        tmp := LeftOf(child);
        if tmp == null {
          rebalance, hole, done := UnlinkAboveChild(node, successor, ctx, t, h, order);
        } else {
          rebalance, hole, done := UnlinkAboveDeep(node, child, tmp, ctx, t, h, order);
        }
      }
    }

    /** `rb_erase_augmented` */
    method Erase(node: Node, ghost ctx: Ctx, ghost t: Tree, ghost h: nat, ghost order: seq<Node>) returns (ghost done: Tree)
      requires Agrees() && Placed(mem, root, ctx, t, h, order) && t.Tree? && t.n == node
      modifies this`root, this`mem, mem.Keys
      ensures Agrees() && mem.Keys == old(mem.Keys) - {node}
      ensures Sound(mem, root, done) && Inorder(done) == Without(ctx, t)
    {
      hide Agrees, Placed, Without, Sound;
      var rebalance;
      ghost var hole;
      rebalance, hole, done := EraseAugmented(node, ctx, t, h, order);
      if rebalance != null {
        done := EraseColor(rebalance, hole, 0, Without(ctx, t));
      }
    }

    // ---------- linking ----------

    /** The fields of a node that joins the tree. */
    method Adopt(node: Node, parent: Node?, s: nat)
      requires Agrees() && node !in mem
      modifies this`mem, node
      ensures Agrees() && mem == old(mem)[node := Cell(null, null, parent, false, s)]
    {
      node.parent, node.black, node.left, node.right, node.sub := parent, false, null, null, s;
      mem := mem[node := Cell(null, null, parent, false, s)];
    }

    /** `rb_link_node`: `node` becomes a red leaf below `parent`, on its left side iff `left`. */
    method LinkNode(node: Node, parent: Node?, left: bool, s: nat, ghost ctx: Ctx)
      requires Agrees() && node !in mem && At(mem, root, ctx, Leaf)
      requires parent == Above(ctx) && (ctx.In? ==> ctx.dir == left)
      modifies this`root, this`mem, mem.Keys, node
      ensures Agrees() && mem.Keys == old(mem.Keys) + {node}
      ensures At(mem, root, ctx, Tree(Leaf, node, false, s, Leaf))
    {
      ghost var m0, root0 := mem, root;
      AboveIn(mem, root, ctx, Leaf);
      hide Agrees, At;
      Adopt(node, parent, s);
      ghost var m1 := mem;
      if parent == null {
        SetRoot(node);
      } else if left {
        SetLeft(parent, node);
      } else {
        SetRight(parent, node);
      }
      LinkedLeaf(m0, m1, mem, root0, root, ctx, node, s);
    }
  }
}
