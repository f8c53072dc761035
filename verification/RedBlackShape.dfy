/**
 The mathematical side of the red-black trees: shapes, a zipper over them, and what the
 node objects of a tree hold. `N` stands for the node objects. Mirror-image cases share one
 statement: `s` is a side, `Other(s)` the opposite one.
 */
module RedBlackShape {

  datatype Color = Red | Black
  datatype Side = L | R
  datatype Tree<N> = Leaf | Node(color: Color, left: Tree<N>, entry: N, right: Tree<N>)

  /** A zipper context: the way from a subtree up to the root. `side` is the side the subtree hangs on. */
  datatype Path<N> = Top | Frame(side: Side, color: Color, entry: N, sibling: Tree<N>, up: Path<N>)

  function Other(s: Side): Side {
    if s == L then R else L
  }

  function Kid<N>(t: Tree<N>, s: Side): Tree<N>
    requires t.Node?
  {
    if s == L then t.left else t.right
  }

  /** A node with `near` on side `s`. */
  function Join<N>(s: Side, c: Color, near: Tree<N>, n: N, far: Tree<N>): Tree<N> {
    if s == L then Node(c, near, n, far) else Node(c, far, n, near)
  }

  function ColorOf<N>(t: Tree<N>): Color {
    if t.Leaf? then Black else t.color
  }

  function PathColor<N>(p: Path<N>): Color {
    if p.Top? then Black else p.color
  }

  ghost function Nodes<N>(t: Tree<N>): (s: set<N>)
    ensures t.Node? ==> t.entry in s
  {
    match t
    case Leaf => {}
    case Node(_, l, n, r) => Nodes(l) + {n} + Nodes(r)
  }

  ghost function PathNodes<N>(p: Path<N>): (s: set<N>)
    ensures p.Frame? ==> p.entry in s
  {
    match p
    case Top => {}
    case Frame(_, _, n, s, up) => {n} + Nodes(s) + PathNodes(up)
  }

  /** No node object occurs twice. */
  ghost predicate Distinct<N>(t: Tree<N>) {
    match t
    case Leaf => true
    case Node(_, l, n, r) =>
      n !in Nodes(l) && n !in Nodes(r) && Nodes(l) !! Nodes(r) && Distinct(l) && Distinct(r)
  }

  ghost predicate PathDistinct<N>(p: Path<N>) {
    match p
    case Top => true
    case Frame(_, _, n, s, up) =>
      n !in Nodes(s) && n !in PathNodes(up) && Nodes(s) !! PathNodes(up) && Distinct(s) && PathDistinct(up)
  }

  ghost predicate Apart<N>(t: Tree<N>, p: Path<N>) {
    Distinct(t) && PathDistinct(p) && Nodes(t) !! PathNodes(p)
  }

  /** The subtree that appears one step up. */
  function Step<N>(t: Tree<N>, p: Path<N>): Tree<N>
    requires p.Frame?
  {
    Join(p.side, p.color, t, p.entry, p.sibling)
  }

  /** The whole tree around a focus. */
  function Plug<N>(t: Tree<N>, p: Path<N>): Tree<N>
    decreases p
  {
    if p.Top? then t else Plug(Step(t, p), p.up)
  }

  /** The fields of one node object. */
  datatype Cell<N> = Cell(color: Color, parent: N, left: N, right: N) {
    function Child(s: Side): N {
      if s == L then left else right
    }

    function With(s: Side, n: N): Cell<N> {
      if s == L then this.(left := n) else this.(right := n)
    }
  }

  function Ptr<N>(t: Tree<N>, nil: N): N {
    if t.Leaf? then nil else t.entry
  }

  function PathPtr<N>(p: Path<N>, nil: N): N {
    if p.Top? then nil else p.entry
  }

  ghost function PathRoot<N>(p: Path<N>, hole: N): N {
    if p.Top? then hole else PathRoot(p.up, p.entry)
  }

  /** What the node objects of a subtree hold when the subtree hangs below `parent`. */
  ghost predicate Shaped<N>(m: map<N, Cell<N>>, t: Tree<N>, parent: N, nil: N) {
    match t
    case Leaf => true
    case Node(c, l, n, r) =>
      && n in m && n != nil && m[n] == Cell(c, parent, Ptr(l, nil), Ptr(r, nil))
      && Shaped(m, l, n, nil) && Shaped(m, r, n, nil)
  }

  ghost predicate PathShaped<N>(m: map<N, Cell<N>>, p: Path<N>, hole: N, nil: N) {
    p.Frame? ==>
      && p.entry in m && p.entry != nil && m[p.entry].color == p.color && m[p.entry].parent == PathPtr(p.up, nil)
      && m[p.entry].Child(p.side) == hole && m[p.entry].Child(Other(p.side)) == Ptr(p.sibling, nil)
      && Shaped(m, p.sibling, p.entry, nil) && PathShaped(m, p.up, p.entry, nil)
  }

  /** The memory holds exactly the tree around focus `t`. */
  ghost predicate At<N>(m: map<N, Cell<N>>, t: Tree<N>, p: Path<N>, nil: N) {
    && Apart(t, p)
    && m.Keys == Nodes(t) + PathNodes(p)
    && Shaped(m, t, PathPtr(p, nil), nil)
    && PathShaped(m, p, Ptr(t, nil), nil)
  }

  lemma {:induction false} MoveUp<N>(m: map<N, Cell<N>>, t: Tree<N>, p: Path<N>, nil: N)
    requires p.Frame?
    requires At(m, t, p, nil)
    ensures At(m, Step(t, p), p.up, nil)
  {
  }

  lemma {:induction false} MoveDown<N>(m: map<N, Cell<N>>, t: Tree<N>, p: Path<N>, s: Side, nil: N)
    requires t.Node?
    requires At(m, t, p, nil)
    ensures At(m, Kid(t, s), Frame(s, t.color, t.entry, Kid(t, Other(s)), p), nil)
  {
  }

  ghost predicate Agree<N>(m: map<N, Cell<N>>, m': map<N, Cell<N>>, s: set<N>) {
    forall n | n in s && n in m :: n in m' && m'[n] == m[n]
  }

  lemma {:induction false} ShapedFrame<N>(m: map<N, Cell<N>>, m': map<N, Cell<N>>, t: Tree<N>, parent: N, nil: N)
    requires Shaped(m, t, parent, nil) && Agree(m, m', Nodes(t))
    ensures Shaped(m', t, parent, nil)
  {
    if t.Node? {
      ShapedFrame(m, m', t.left, t.entry, nil);
      ShapedFrame(m, m', t.right, t.entry, nil);
    }
  }

  lemma {:induction false} PathShapedFrame<N>(m: map<N, Cell<N>>, m': map<N, Cell<N>>, p: Path<N>, hole: N, nil: N)
    requires PathShaped(m, p, hole, nil) && Agree(m, m', PathNodes(p))
    ensures PathShaped(m', p, hole, nil)
  {
    if p.Frame? {
      ShapedFrame(m, m', p.sibling, p.entry, nil);
      PathShapedFrame(m, m', p.up, p.entry, nil);
    }
  }

  /** Hanging a subtree below another parent changes one field of one node. */
  lemma {:induction false} Reparent<N>(m: map<N, Cell<N>>, m': map<N, Cell<N>>, t: Tree<N>, parent: N, parent': N,
                                       nil: N)
    requires Distinct(t) && Shaped(m, t, parent, nil)
    requires t.Node? ==>
      Agree(m, m', Nodes(t) - {t.entry}) && t.entry in m' && m'[t.entry] == m[t.entry].(parent := parent')
    ensures Shaped(m', t, parent', nil)
  {
    if t.Node? {
      ShapedFrame(m, m', t.left, t.entry, nil);
      ShapedFrame(m, m', t.right, t.entry, nil);
    }
  }

  /** Filling the hole of a context with another node changes one field of one node. */
  lemma {:induction false} Rehole<N>(m: map<N, Cell<N>>, m': map<N, Cell<N>>, p: Path<N>, hole: N, hole': N, nil: N)
    requires PathDistinct(p) && PathShaped(m, p, hole, nil)
    requires p.Frame? ==>
      Agree(m, m', PathNodes(p) - {p.entry}) && p.entry in m' && m'[p.entry] == m[p.entry].With(p.side, hole')
    ensures PathShaped(m', p, hole', nil)
  {
    if p.Frame? {
      ShapedFrame(m, m', p.sibling, p.entry, nil);
      PathShapedFrame(m, m', p.up, p.entry, nil);
    }
  }

  // ---------- Rotation ----------

  /** The rotation towards side `s`: the child on the other side rises. */
  function Turn<N>(t: Tree<N>, s: Side): (r: Tree<N>)
    requires t.Node? && Kid(t, Other(s)).Node?
  {
    var y := Kid(t, Other(s));
    Join(s, y.color, Join(s, t.color, Kid(t, s), t.entry, Kid(y, s)), y.entry, Kid(y, Other(s)))
  }

  /** `y` is the child of `x` opposite to `s`, `b` the inner grandchild, `q` the parent. */
  ghost predicate CanTurn<N>(m: map<N, Cell<N>>, s: Side, x: N, y: N, b: N, q: N, nil: N) {
    && x in m && y in m && x != y && nil !in m
    && m[x].Child(Other(s)) == y && m[x].parent == q && m[y].Child(s) == b
    && (b != nil ==> b in m && b != x && b != y)
    && (q != nil ==> q in m && q != x && q != y && q != b && (m[q].left == x || m[q].right == x))
  }

  ghost predicate Turned<N>(m: map<N, Cell<N>>, m': map<N, Cell<N>>, s: Side, x: N, y: N, b: N, q: N, nil: N)
    requires CanTurn(m, s, x, y, b, q, nil)
  {
    && m'.Keys == m.Keys
    && m'[x] == m[x].(parent := y).With(Other(s), b)
    && m'[y] == m[y].(parent := q).With(s, x)
    && (b != nil ==> m'[b] == m[b].(parent := x))
    && (q != nil ==> m'[q] == if m[q].left == x then m[q].(left := y) else m[q].(right := y))
    && (forall n | n in m && n != x && n != y && n != b && n != q :: m'[n] == m[n])
  }

  lemma {:induction false} TurnApart<N>(t: Tree<N>, s: Side)
    requires t.Node? && Kid(t, Other(s)).Node? && Distinct(t)
    ensures Nodes(Turn(t, s)) == Nodes(t) && Distinct(Turn(t, s))
  {
    var y := Kid(t, Other(s));
    var x' := Join(s, t.color, Kid(t, s), t.entry, Kid(y, s));
    assert Nodes(y) == Nodes(Kid(y, s)) + {y.entry} + Nodes(Kid(y, Other(s)));
    assert Nodes(x') == Nodes(Kid(t, s)) + {t.entry} + Nodes(Kid(y, s));
    assert Distinct(y) && Distinct(x');
  }

  /** The fields that a rotation reads. */
  lemma {:induction false} TurnReady<N>(m: map<N, Cell<N>>, t: Tree<N>, p: Path<N>, s: Side, nil: N)
    requires At(m, t, p, nil) && nil !in m && t.Node? && Kid(t, Other(s)).Node?
    ensures CanTurn(m, s, t.entry, Kid(t, Other(s)).entry, Ptr(Kid(Kid(t, Other(s)), s), nil), PathPtr(p, nil), nil)
    ensures p.Frame? && p.side == R ==> m[p.entry].left != t.entry
  {
    assert Distinct(Kid(t, Other(s)));
    assert Shaped(m, Kid(t, Other(s)), t.entry, nil);
  }

  lemma {:induction false} TurnShaped<N>(m: map<N, Cell<N>>, m': map<N, Cell<N>>, t: Tree<N>, q: N, s: Side, nil: N)
    requires t.Node? && Kid(t, Other(s)).Node? && Distinct(t) && Shaped(m, t, q, nil) && q !in Nodes(t)
    requires CanTurn(m, s, t.entry, Kid(t, Other(s)).entry, Ptr(Kid(Kid(t, Other(s)), s), nil), q, nil)
    requires Turned(m, m', s, t.entry, Kid(t, Other(s)).entry, Ptr(Kid(Kid(t, Other(s)), s), nil), q, nil)
    ensures Shaped(m', Turn(t, s), q, nil)
  {
    var child := Kid(t, Other(s));
    var a, b, d, x, y := Kid(t, s), Kid(child, s), Kid(child, Other(s)), t.entry, child.entry;
    assert Nodes(child) == Nodes(b) + {y} + Nodes(d) && Distinct(child);
    assert Shaped(m, child, x, nil);
    ShapedFrame(m, m', a, x, nil);
    Reparent(m, m', b, y, x, nil);
    ShapedFrame(m, m', d, y, nil);
    assert Shaped(m', Join(s, t.color, a, x, b), y, nil);
  }

  /** A rotation at `t` as it changes the fields of up to four nodes. */
  lemma {:induction false} TurnDone<N>(m: map<N, Cell<N>>, m': map<N, Cell<N>>, t: Tree<N>, p: Path<N>, s: Side, nil: N)
    requires At(m, t, p, nil) && nil !in m && t.Node? && Kid(t, Other(s)).Node?
    requires CanTurn(m, s, t.entry, Kid(t, Other(s)).entry, Ptr(Kid(Kid(t, Other(s)), s), nil), PathPtr(p, nil), nil)
    requires Turned(m, m', s, t.entry, Kid(t, Other(s)).entry, Ptr(Kid(Kid(t, Other(s)), s), nil), PathPtr(p, nil), nil)
    ensures At(m', Turn(t, s), p, nil)
  {
    var child := Kid(t, Other(s));
    TurnReady(m, t, p, s, nil);
    TurnApart(t, s);
    assert PathPtr(p, nil) !in Nodes(t);
    TurnShaped(m, m', t, PathPtr(p, nil), s, nil);
    assert child.entry in Nodes(child) && Nodes(child) <= Nodes(t) && Nodes(Kid(child, s)) <= Nodes(child);
    Rehole(m, m', p, t.entry, child.entry, nil);
  }

  // ---------- Reading and painting around a focus ----------

  lemma {:induction false} FocusFields<N>(m: map<N, Cell<N>>, t: Tree<N>, p: Path<N>, nil: N)
    requires At(m, t, p, nil) && t.Node?
    ensures t.entry in m && t.entry != nil
    ensures m[t.entry] == Cell(t.color, PathPtr(p, nil), Ptr(t.left, nil), Ptr(t.right, nil))
  {
  }

  lemma {:induction false} PaintDone<N>(m: map<N, Cell<N>>, m': map<N, Cell<N>>, t: Tree<N>, p: Path<N>, c: Color,
                                        nil: N)
    requires At(m, t, p, nil) && t.Node? && t.entry in m
    requires m' == m[t.entry := m[t.entry].(color := c)]
    ensures At(m', t.(color := c), p, nil)
  {
    ShapedFrame(m, m', t.left, t.entry, nil);
    ShapedFrame(m, m', t.right, t.entry, nil);
    PathShapedFrame(m, m', p, t.entry, nil);
  }

  function Depth<N>(p: Path<N>): nat {
    if p.Top? then 0 else 1 + Depth(p.up)
  }

  // ---------- Attaching, splicing out and replacing a node ----------

  /** `m'` is `m` with the hole of `p` filled by `n`, apart from the nodes in `s`. */
  ghost predicate Rehung<N>(m: map<N, Cell<N>>, m': map<N, Cell<N>>, p: Path<N>, n: N, s: set<N>) {
    && (p.Frame? ==> p.entry in m && p.entry in m' && m'[p.entry] == m[p.entry].With(p.side, n))
    && (forall k | k in m && k !in s && (p.Frame? ==> k != p.entry) :: k in m' && m'[k] == m[k])
  }

  lemma {:induction false} AttachDone<N>(m: map<N, Cell<N>>, m': map<N, Cell<N>>, n: N, c: Color, p: Path<N>, nil: N)
    requires At(m, Leaf, p, nil) && n !in m && n != nil
    requires m'.Keys == m.Keys + {n} && m'[n] == Cell(c, PathPtr(p, nil), nil, nil)
    requires Rehung(m, m', p, n, {n})
    ensures At(m', Node(c, Leaf, n, Leaf), p, nil)
  {
    Rehole(m, m', p, nil, n, nil);
  }

  /** The node at the focus lacks a child on side `s`; its other subtree takes its place. */
  lemma {:induction false} SpliceDone<N>(m: map<N, Cell<N>>, m': map<N, Cell<N>>, t: Tree<N>, p: Path<N>, s: Side,
                                         nil: N)
    requires At(m, t, p, nil) && nil !in m && t.Node? && Kid(t, s).Leaf?
    requires var u := Kid(t, Other(s));
      && m'.Keys == m.Keys - {t.entry}
      && (u.Node? ==> u.entry in m && u.entry in m' && m'[u.entry] == m[u.entry].(parent := PathPtr(p, nil)))
      && Rehung(m, m', p, Ptr(u, nil), {t.entry, Ptr(u, nil)})
    ensures At(m', Kid(t, Other(s)), p, nil)
  {
    var u := Kid(t, Other(s));
    assert Nodes(t) == {t.entry} + Nodes(u);
    Reparent(m, m', u, t.entry, PathPtr(p, nil), nil);
    Rehole(m, m', p, t.entry, Ptr(u, nil), nil);
  }

  /** The nodes around a focus are different objects. */
  lemma {:induction false} Neighbours<N>(m: map<N, Cell<N>>, t: Tree<N>, p: Path<N>, nil: N)
    requires At(m, t, p, nil) && nil !in m && t.Node?
    ensures t.entry in m && t.entry != nil
      && m[t.entry] == Cell(t.color, PathPtr(p, nil), Ptr(t.left, nil), Ptr(t.right, nil))
    ensures t.left.Node? ==> t.left.entry in m && t.left.entry != t.entry && t.left.entry != Ptr(t.right, nil)
    ensures t.right.Node? ==> t.right.entry in m && t.right.entry != t.entry
    ensures p.Frame? ==>
      && p.entry in m && p.entry !in {nil, t.entry, Ptr(t.left, nil), Ptr(t.right, nil)}
      && m[p.entry].Child(p.side) == t.entry && (p.side == R ==> m[p.entry].left != t.entry)
  {
  }

  lemma {:induction false} ChildNodes<N>(m: map<N, Cell<N>>, t: Tree<N>, p: Path<N>, nil: N)
    requires At(m, t, p, nil) && nil !in m && t.Node?
    ensures t.entry !in Nodes(t.left) && t.entry !in Nodes(t.right) && Nodes(t.left) !! Nodes(t.right)
    ensures Distinct(t.left) && Distinct(t.right) && Nodes(t.left) <= m.Keys && Nodes(t.right) <= m.Keys
  {
  }

  /** The memory after such a splice. */
  ghost function SpliceMap<N>(m: map<N, Cell<N>>, t: Tree<N>, p: Path<N>, s: Side, nil: N): map<N, Cell<N>>
    requires t.Node?
  {
    var u := Kid(t, Other(s));
    map k | k in m && k != t.entry ::
      if p.Frame? && k == p.entry then m[k].With(p.side, Ptr(u, nil))
      else if u.Node? && k == u.entry then m[k].(parent := PathPtr(p, nil))
      else m[k]
  }

  lemma {:induction false} SpliceMapAt<N>(m: map<N, Cell<N>>, t: Tree<N>, p: Path<N>, s: Side, nil: N)
    requires At(m, t, p, nil) && nil !in m && t.Node? && Kid(t, s).Leaf?
    ensures At(SpliceMap(m, t, p, s, nil), Kid(t, Other(s)), p, nil)
    ensures SpliceMap(m, t, p, s, nil).Keys == m.Keys - {t.entry}
  {
    assert Nodes(t) == {t.entry} + Nodes(Kid(t, Other(s)));
    SpliceDone(m, SpliceMap(m, t, p, s, nil), t, p, s, nil);
  }

  /** A new node takes over the place, the colour and the children of the focus. */
  lemma {:induction false} ReplaceDone<N>(m: map<N, Cell<N>>, m': map<N, Cell<N>>, t: Tree<N>, p: Path<N>, n: N, nil: N)
    requires At(m, t, p, nil) && nil !in m && t.Node? && n !in m && n != nil
    requires var l, r := t.left, t.right;
      && m'.Keys == m.Keys - {t.entry} + {n}
      && m'[n] == Cell(t.color, PathPtr(p, nil), Ptr(l, nil), Ptr(r, nil))
      && (l.Node? ==> l.entry in m && l.entry in m' && m'[l.entry] == m[l.entry].(parent := n))
      && (r.Node? ==> r.entry in m && r.entry in m' && m'[r.entry] == m[r.entry].(parent := n))
      && Rehung(m, m', p, n, {t.entry, Ptr(l, nil), Ptr(r, nil)})
    ensures At(m', t.(entry := n), p, nil)
  {
    Reparent(m, m', t.left, t.entry, n, nil);
    Reparent(m, m', t.right, t.entry, n, nil);
    Rehole(m, m', p, t.entry, n, nil);
  }

  // ---------- The outermost node on one side ----------

  function End<N>(t: Tree<N>, s: Side): (e: Tree<N>)
    requires t.Node?
    ensures e.Node? && Kid(e, s).Leaf?
  {
    if Kid(t, s).Leaf? then t else if s == L then End(t.left, s) else End(t.right, s)
  }

  function EndPath<N>(t: Tree<N>, p: Path<N>, s: Side): Path<N>
    requires t.Node?
    decreases t
  {
    if Kid(t, s).Leaf? then p
    else if s == L then EndPath(t.left, Frame(L, t.color, t.entry, t.right, p), s)
    else EndPath(t.right, Frame(R, t.color, t.entry, t.left, p), s)
  }

  /** The subtree without its leftmost node. */
  function WithoutFirst<N>(t: Tree<N>): Tree<N>
    requires t.Node?
  {
    if t.left.Leaf? then t.right else t.(left := WithoutFirst(t.left))
  }

  /** Where the leftmost node hangs: on the start itself, or deeper down on a left side. */
  lemma {:induction false} EndPlace<N>(t: Tree<N>, p: Path<N>)
    requires t.Node?
    ensures t.left.Leaf? ==> EndPath(t, p, L) == p && End(t, L) == t && WithoutFirst(t) == t.right
    ensures t.left.Node? ==>
      var q := EndPath(t, p, L);
      && q.Frame? && q.side == L && q.entry in Nodes(t)
      && WithoutFirst(t).Node? && WithoutFirst(t).entry == t.entry && (Distinct(t) ==> End(t, L).entry != t.entry)
    ensures Nodes(End(t, L)) <= Nodes(t) && (Distinct(t) && t.left.Node? ==> t.entry !in Nodes(End(t, L)))
    ensures End(t, L).right.Node? ==> End(t, L).right.entry in Nodes(End(t, L))
    decreases t
  {
    if t.left.Node? {
      EndPlace(t.left, Frame(L, t.color, t.entry, t.right, p));
    }
  }

  lemma {:induction false} EndPathPtr<N>(t: Tree<N>, p: Path<N>, p': Path<N>)
    requires t.Node? && t.left.Node?
    ensures EndPath(t, p, L).Frame? && EndPath(t, p', L).Frame? && EndPath(t, p, L).entry == EndPath(t, p', L).entry
    decreases t
  {
    if t.left.left.Node? {
      EndPathPtr(t.left, Frame(L, t.color, t.entry, t.right, p), Frame(L, t.color, t.entry, t.right, p'));
    }
  }

  lemma {:induction false} EndRoot<N>(t: Tree<N>, p: Path<N>, a: N, b: N)
    requires t.Node? && p.Frame?
    ensures PathRoot(EndPath(t, p, L), a) == PathRoot(p, b)
    decreases t
  {
    if t.left.Node? {
      EndRoot(t.left, Frame(L, t.color, t.entry, t.right, p), a, b);
    }
  }

  lemma {:induction false} EndAt<N>(m: map<N, Cell<N>>, t: Tree<N>, p: Path<N>, s: Side, nil: N)
    requires At(m, t, p, nil) && t.Node?
    ensures At(m, End(t, s), EndPath(t, p, s), nil)
    decreases t
  {
    if Kid(t, s).Node? {
      MoveDown(m, t, p, s, nil);
      if s == L {
        EndAt(m, t.left, Frame(L, t.color, t.entry, t.right, p), s, nil);
      } else {
        EndAt(m, t.right, Frame(R, t.color, t.entry, t.left, p), s, nil);
      }
    }
  }

  /** The place of the leftmost node, once it is gone, seen from its own level and from above. */
  lemma {:induction false} WithoutFirstAt<N>(m: map<N, Cell<N>>, t: Tree<N>, p: Path<N>, nil: N)
    requires t.Node?
    ensures At(m, End(t, L).right, EndPath(t, p, L), nil) <==> At(m, WithoutFirst(t), p, nil)
    decreases t
  {
    if t.left.Node? {
      var f := Frame(L, t.color, t.entry, t.right, p);
      WithoutFirstAt(m, t.left, f, nil);
      if At(m, WithoutFirst(t.left), f, nil) {
        MoveUp(m, WithoutFirst(t.left), f, nil);
      }
      if At(m, WithoutFirst(t), p, nil) {
        MoveDown(m, WithoutFirst(t), p, L, nil);
      }
    }
  }

  lemma {:induction false} RootInPath<N>(p: Path<N>, hole: N)
    ensures p.Frame? ==> PathRoot(p, hole) in PathNodes(p)
  {
    if p.Frame? {
      RootInPath(p.up, p.entry);
    }
  }
}
