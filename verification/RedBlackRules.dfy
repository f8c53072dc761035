/**
 The red-black rules on shapes, and how each case of the two fixup loops restores them.
 */
module RedBlackRules {
  import opened Bits
  import opened RedBlackShape

  /** No red node has a red child, and every path to a leaf passes `h` black nodes. */
  ghost predicate RB<N>(t: Tree<N>, h: int) {
    match t
    case Leaf => h == 0
    case Node(Black, l, _, r) => RB(l, h - 1) && RB(r, h - 1)
    case Node(Red, l, _, r) => RB(l, h) && RB(r, h) && ColorOf(l) == Black && ColorOf(r) == Black
  }

  /** The context accepts a subtree of black height `h`. */
  ghost predicate Fits<N>(p: Path<N>, h: int) {
    p.Frame? ==>
      && RB(p.sibling, h)
      && (p.color == Red ==> ColorOf(p.sibling) == Black && p.up.Frame? && p.up.color == Black)
      && Fits(p.up, if p.color == Black then h + 1 else h)
  }

  function BlackHeight<N>(t: Tree<N>): nat {
    if t.Leaf? then 0 else BlackHeight(t.left) + if t.color == Black then 1 else 0
  }

  /** A complete red-black tree. */
  ghost predicate RedBlack<N>(t: Tree<N>) {
    ColorOf(t) == Black && RB(t, BlackHeight(t))
  }

  /** A focus inside a complete red-black tree. */
  ghost predicate Sound<N>(t: Tree<N>, p: Path<N>, h: int) {
    RB(t, h) && Fits(p, h) && (ColorOf(t) == Red ==> p.Frame? && p.color == Black)
  }

  function Paint<N>(t: Tree<N>, c: Color): Tree<N> {
    if t.Leaf? then t else t.(color := c)
  }

  ghost function Inorder<N>(t: Tree<N>): seq<N> {
    match t
    case Leaf => []
    case Node(_, l, n, r) => Inorder(l) + [n] + Inorder(r)
  }

  lemma {:induction false} InorderNodes<N>(t: Tree<N>)
    ensures forall n :: n in Inorder(t) <==> n in Nodes(t)
  {
    if t.Node? {
      InorderNodes(t.left);
      InorderNodes(t.right);
    }
  }

  /** The entries to the left of the focus. */
  ghost function Before<N>(p: Path<N>): seq<N> {
    if p.Top? then [] else if p.side == L then Before(p.up) else Before(p.up) + Inorder(p.sibling) + [p.entry]
  }

  /** The entries to the right of the focus. */
  ghost function After<N>(p: Path<N>): seq<N> {
    if p.Top? then [] else if p.side == R then After(p.up) else [p.entry] + Inorder(p.sibling) + After(p.up)
  }

  lemma {:induction false} InorderPlug<N>(t: Tree<N>, p: Path<N>)
    ensures Inorder(Plug(t, p)) == Before(p) + Inorder(t) + After(p)
    decreases p
  {
    if p.Frame? {
      InorderPlug(Step(t, p), p.up);
      assert Inorder(Plug(t, p)) == Before(p) + Inorder(t) + After(p);
    }
  }

  /** Where the focus lies in the order after a step down. */
  lemma {:induction false} DownOrder<N>(t: Tree<N>, p: Path<N>, s: Side)
    requires t.Node?
    ensures var k, f := Kid(t, s), Frame(s, t.color, t.entry, Kid(t, Other(s)), p);
      && Plug(k, f) == Plug(t, p)
      && |Before(f)| == (if s == L then |Before(p)| else |Before(p)| + |Inorder(t.left)| + 1)
      && |Before(f)| + |Inorder(k)| == (if s == L then |Before(p)| + |Inorder(t.left)| else |Before(p)| + |Inorder(t)|)
      && |Inorder(t)| == |Inorder(t.left)| + 1 + |Inorder(t.right)|
  {
  }

  lemma {:induction false} InsertOrder<N>(p: Path<N>, n: N, c: Color)
    ensures var before, i := Inorder(Plug(Leaf, p)), |Before(p)|;
      i <= |before| && Inorder(Plug(Node(c, Leaf, n, Leaf), p)) == before[..i] + [n] + before[i..]
  {
    InorderPlug(Leaf, p);
    InorderPlug(Node(c, Leaf, n, Leaf), p);
    assert Before(p) + [] + After(p) == Before(p) + After(p);
  }

  lemma {:induction false} StepOrder<N>(t: Tree<N>, p: Path<N>)
    requires p.Frame?
    ensures Before(p.up) + Inorder(Step(t, p)) + After(p.up) == Before(p) + Inorder(t) + After(p)
    ensures p.side == R ==> |Before(p.up)| + |Inorder(Step(t, p))| == |Before(p)| + |Inorder(t)|
    ensures p.side == L ==> |Before(p.up)| == |Before(p)|
    ensures p.side == L ==> |After(p)| > 0 && After(p)[0] == p.entry
    ensures p.side == R ==> |Before(p)| > 0 && Before(p)[|Before(p)| - 1] == p.entry
  {
  }

  lemma {:induction false} InorderTurn<N>(t: Tree<N>, s: Side)
    requires t.Node? && Kid(t, Other(s)).Node?
    ensures Inorder(Turn(t, s)) == Inorder(t)
  {
    var y := Kid(t, Other(s));
    var x' := Join(s, t.color, Kid(t, s), t.entry, Kid(y, s));
    if s == L {
      assert Inorder(y) == Inorder(y.left) + [y.entry] + Inorder(y.right);
      assert Inorder(x') == Inorder(t.left) + [t.entry] + Inorder(y.left);
    } else {
      assert Inorder(y) == Inorder(y.left) + [y.entry] + Inorder(y.right);
      assert Inorder(x') == Inorder(y.right) + [t.entry] + Inorder(t.right);
    }
  }

  lemma {:induction false} HeightIs<N>(t: Tree<N>, h: int)
    requires RB(t, h)
    ensures BlackHeight(t) == h
  {
    if t.Node? {
      HeightIs(t.left, if t.color == Black then h - 1 else h);
    }
  }

  lemma {:induction false} PlugSound<N>(t: Tree<N>, p: Path<N>, h: int)
    requires Sound(t, p, h)
    ensures RedBlack(Plug(t, p)) && (t.Node? ==> Plug(t, p).Node?)
    decreases p
  {
    if p.Frame? {
      PlugSound(Step(t, p), p.up, if p.color == Black then h + 1 else h);
    } else {
      HeightIs(t, h);
    }
  }

  lemma {:induction false} DownSound<N>(t: Tree<N>, p: Path<N>, h: int, s: Side)
    requires Sound(t, p, h) && t.Node?
    ensures Sound(Kid(t, s), Frame(s, t.color, t.entry, Kid(t, Other(s)), p), if t.color == Black then h - 1 else h)
  {
  }

  /** Rewriting the focus in place keeps the order of all entries. */
  lemma {:induction false} Refocus<N>(t: Tree<N>, t': Tree<N>, p: Path<N>)
    requires Inorder(t) == Inorder(t')
    ensures Inorder(Plug(t, p)) == Inorder(Plug(t', p))
  {
    InorderPlug(t, p);
    InorderPlug(t', p);
  }

  lemma {:induction false} PaintBlack<N>(t: Tree<N>, h: int)
    requires RB(t, h)
    ensures ColorOf(t) == Red ==> RB(Paint(t, Black), h + 1)
    ensures Inorder(Paint(t, Black)) == Inorder(t)
  {
  }

  lemma {:induction false} JoinRB<N>(s: Side, c: Color, near: Tree<N>, n: N, far: Tree<N>, h: int)
    requires RB(near, h) && RB(far, h)
    requires c == Red ==> ColorOf(near) == Black && ColorOf(far) == Black
    ensures RB(Join(s, c, near, n, far), if c == Black then h + 1 else h)
  {
  }

  // ---------- Insertion ----------

  /** During the insert loop: a red focus whose parent may be red as well. */
  ghost predicate RedFocus<N>(t: Tree<N>, p: Path<N>, h: int) {
    t.Node? && t.color == Red && RB(t, h) && Fits(p, h)
  }

  lemma {:induction false} LeafFits<N>(t: Tree<N>, p: Path<N>, h: int)
    requires t.Node? && t.left.Leaf? && t.right.Leaf? && Sound(Leaf, p, h)
    ensures t.color == Red ==> RedFocus(t, p, h)
    ensures t.color == Black && p.Top? ==> RedBlack(t) && Plug(t, p) == t
  {
  }

  /** Red uncle: both parents turn black, the grandparent red, and the focus moves there. */
  function Pushed<N>(t: Tree<N>, p: Path<N>): Tree<N>
    requires p.Frame? && p.up.Frame?
  {
    Join(p.up.side, Red, Paint(Step(t, p), Black), p.up.entry, Paint(p.up.sibling, Black))
  }

  lemma {:induction false} PushedOk<N>(t: Tree<N>, p: Path<N>, h: int)
    requires RedFocus(t, p, h) && PathColor(p) == Red && ColorOf(p.up.sibling) == Red
    ensures RedFocus(Pushed(t, p), p.up.up, h + 1)
    ensures Inorder(Plug(Pushed(t, p), p.up.up)) == Inorder(Plug(t, p))
  {
    var parent := Paint(Step(t, p), Black);
    JoinRB(p.side, Black, t, p.entry, p.sibling, h);
    assert Fits(p.up, h);
    PaintBlack(p.up.sibling, h);
    JoinRB(p.up.side, Red, parent, p.up.entry, Paint(p.up.sibling, Black), h + 1);
    Refocus(Step(Step(t, p), p.up), Pushed(t, p), p.up.up);
    assert Plug(t, p) == Plug(Step(t, p), p.up);
  }

  /** Black uncle, outer red grandchild: the parent rises above the grandparent. */
  function Raised<N>(p: Path<N>): Path<N>
    requires p.Frame? && p.up.Frame?
  {
    Frame(p.side, Black, p.entry, Join(p.side, Red, p.sibling, p.up.entry, p.up.sibling), p.up.up)
  }

  lemma {:induction false} RaisedOk<N>(t: Tree<N>, p: Path<N>, h: int)
    requires RedFocus(t, p, h) && PathColor(p) == Red && ColorOf(p.up.sibling) == Black && p.side == p.up.side
    ensures RedFocus(t, Raised(p), h)
    ensures Inorder(Plug(t, Raised(p))) == Inorder(Plug(t, p))
  {
    var s := p.side;
    var grand := Join(s, Red, Join(s, Black, t, p.entry, p.sibling), p.up.entry, p.up.sibling);
    assert Fits(p.up, h);
    JoinRB(s, Red, p.sibling, p.up.entry, p.up.sibling, h);
    InorderTurn(grand, Other(s));
    assert Step(t, Raised(p)) == Turn(grand, Other(s));
    Refocus(Step(Step(t, p), p.up), Step(t, Raised(p)), p.up.up);
    assert Plug(t, p) == Plug(Step(t, p), p.up);
  }

  /** Black uncle, inner red grandchild: a rotation at the parent makes it the outer case. */
  function Unkinked<N>(t: Tree<N>, p: Path<N>): (Tree<N>, Path<N>)
    requires t.Node? && p.Frame? && p.up.Frame?
  {
    var s := p.up.side;
    (Join(s, p.color, p.sibling, p.entry, Kid(t, s)), Frame(s, t.color, t.entry, Kid(t, Other(s)), p.up))
  }

  lemma {:induction false} UnkinkedOk<N>(t: Tree<N>, p: Path<N>, h: int)
    requires RedFocus(t, p, h) && PathColor(p) == Red && p.side != p.up.side
    ensures Turn(Step(t, p), p.up.side) == Step(Unkinked(t, p).0, Unkinked(t, p).1)
    ensures RedFocus(Unkinked(t, p).0, Unkinked(t, p).1, h)
    ensures Inorder(Plug(Unkinked(t, p).0, Unkinked(t, p).1)) == Inorder(Plug(t, p))
  {
    JoinRB(p.up.side, Red, p.sibling, p.entry, Kid(t, p.up.side), h);
    InorderTurn(Step(t, p), p.up.side);
    Refocus(Step(t, p), Turn(Step(t, p), p.up.side), p.up);
  }

  /** Blackening the root ends the insert loop. */
  lemma {:induction false} RootBlack<N>(t: Tree<N>, p: Path<N>, h: int)
    requires RedFocus(t, p, h) && PathColor(p) == Black
    ensures Plug(t, p).Node? && RedBlack(Paint(Plug(t, p), Black))
  {
    if p.Frame? {
      PlugSound(t, p, h);
    } else {
      PaintBlack(t, h);
      HeightIs(Paint(t, Black), h + 1);
    }
  }

  // ---------- Deletion ----------

  /** During the delete loop: the focus brings one black node too few. */
  ghost predicate Short<N>(t: Tree<N>, p: Path<N>, h: int) {
    Fits(p, h + 1) && if ColorOf(t) == Red then RB(Paint(t, Black), h + 1) else RB(t, h)
  }

  /** The sibling of a short focus is a real node, and so is the nephew when the sibling is red. */
  lemma {:induction false} SiblingIsNode<N>(t: Tree<N>, p: Path<N>, h: int)
    requires Short(t, p, h) && ColorOf(t) == Black && p.Frame?
    ensures h >= 0 && p.sibling.Node?
    ensures p.sibling.color == Red ==>
      p.color == Black && Kid(p.sibling, p.side).Node? && Kid(p.sibling, p.side).color == Black
  {
    HeightIs(t, h);
    if p.sibling.Node? {
      assert RB(Kid(p.sibling, p.side), if p.sibling.color == Black then h else h + 1);
    }
  }

  /** Red sibling: it rises above the parent, and the focus gets a black sibling. */
  function Leaned<N>(p: Path<N>): Path<N>
    requires p.Frame? && p.sibling.Node?
  {
    var s, sib := p.side, p.sibling;
    Frame(s, Red, p.entry, Kid(sib, s), Frame(s, Black, sib.entry, Kid(sib, Other(s)), p.up))
  }

  lemma {:induction false} LeanedOk<N>(t: Tree<N>, p: Path<N>, h: int)
    requires Short(t, p, h) && ColorOf(t) == Black && p.Frame? && ColorOf(p.sibling) == Red
    ensures Short(t, Leaned(p), h)
    ensures Inorder(Plug(t, Leaned(p))) == Inorder(Plug(t, p))
    ensures Turn(Join(p.side, Red, t, p.entry, Paint(p.sibling, Black)), p.side)
      == Step(Step(t, Leaned(p)), Leaned(p).up)
  {
    SiblingIsNode(t, p, h);
    var painted := Join(p.side, Red, t, p.entry, Paint(p.sibling, Black));
    InorderTurn(painted, p.side);
    Refocus(Step(t, p), Turn(painted, p.side), p.up);
    assert Plug(t, Leaned(p)) == Plug(Step(t, Leaned(p)), Leaned(p).up);
  }

  /** Black sibling with black children: it turns red and the shortage moves up. */
  lemma {:induction false} LiftedOk<N>(t: Tree<N>, p: Path<N>, h: int)
    requires Short(t, p, h) && ColorOf(t) == Black && p.Frame?
    requires p.sibling.Node? && p.sibling.color == Black
    requires ColorOf(p.sibling.left) == Black && ColorOf(p.sibling.right) == Black
    ensures Short(Join(p.side, p.color, t, p.entry, Paint(p.sibling, Red)), p.up, if p.color == Black then h + 1 else h)
    ensures Inorder(Plug(Join(p.side, p.color, t, p.entry, Paint(p.sibling, Red)), p.up)) == Inorder(Plug(t, p))
  {
    JoinRB(p.side, Black, t, p.entry, Paint(p.sibling, Red), h);
    Refocus(Step(t, p), Join(p.side, p.color, t, p.entry, Paint(p.sibling, Red)), p.up);
  }

  /** Black sibling with only its near child red: that child becomes the sibling. */
  function Straightened<N>(p: Path<N>): Path<N>
    requires p.Frame? && p.sibling.Node? && Kid(p.sibling, p.side).Node?
  {
    var s, sib, near := p.side, p.sibling, Kid(p.sibling, p.side);
    p.(sibling :=
      Join(s, Black, Kid(near, s), near.entry, Join(s, Red, Kid(near, Other(s)), sib.entry, Kid(sib, Other(s)))))
  }

  lemma {:induction false} StraightenedOk<N>(t: Tree<N>, p: Path<N>, h: int)
    requires Short(t, p, h) && ColorOf(t) == Black && p.Frame?
    requires p.sibling.Node? && p.sibling.color == Black
    requires ColorOf(Kid(p.sibling, p.side)) == Red && ColorOf(Kid(p.sibling, Other(p.side))) == Black
    ensures Short(t, Straightened(p), h)
    ensures Inorder(Plug(t, Straightened(p))) == Inorder(Plug(t, p))
    ensures Straightened(p).sibling ==
      Turn(Join(p.side, Red, Paint(Kid(p.sibling, p.side), Black), p.sibling.entry, Kid(p.sibling, Other(p.side))),
           Other(p.side))
  {
    var s, sib, near := p.side, p.sibling, Kid(p.sibling, p.side);
    var painted := Join(s, Red, Paint(near, Black), sib.entry, Kid(sib, Other(s)));
    assert RB(sib, h + 1) && RB(near, h);
    JoinRB(s, Red, Kid(near, Other(s)), sib.entry, Kid(sib, Other(s)), h);
    JoinRB(s, Black, Kid(near, s), near.entry, Kid(Straightened(p).sibling, Other(s)), h);
    PaintBlack(near, h);
    InorderTurn(painted, Other(s));
    Refocus(Step(t, p), Step(t, Straightened(p)), p.up);
  }

  /** Black sibling with its far child red: one rotation makes up for the missing black node. */
  function Settled<N>(t: Tree<N>, p: Path<N>): Tree<N>
    requires p.Frame? && p.sibling.Node?
  {
    var s, sib := p.side, p.sibling;
    Join(s, p.color, Join(s, Black, t, p.entry, Kid(sib, s)), sib.entry, Paint(Kid(sib, Other(s)), Black))
  }

  lemma {:induction false} SettledOk<N>(t: Tree<N>, p: Path<N>, h: int)
    requires Short(t, p, h) && ColorOf(t) == Black && p.Frame?
    requires p.sibling.Node? && p.sibling.color == Black && ColorOf(Kid(p.sibling, Other(p.side))) == Red
    ensures Sound(Settled(t, p), p.up, if p.color == Black then h + 2 else h + 1)
    ensures Inorder(Plug(Settled(t, p), p.up)) == Inorder(Plug(t, p))
    ensures Settled(t, p) ==
      Turn(Join(p.side, Black, t, p.entry,
                Join(p.side, p.color, Kid(p.sibling, p.side), p.sibling.entry,
                     Paint(Kid(p.sibling, Other(p.side)), Black))), p.side)
  {
    var s, sib := p.side, p.sibling;
    var painted := Join(s, Black, t, p.entry,
                        Join(s, p.color, Kid(sib, s), sib.entry, Paint(Kid(sib, Other(s)), Black)));
    PaintBlack(Kid(sib, Other(s)), h);
    JoinRB(s, Black, t, p.entry, Kid(sib, s), h);
    JoinRB(s, p.color, Join(s, Black, t, p.entry, Kid(sib, s)), sib.entry, Paint(Kid(sib, Other(s)), Black), h + 1);
    InorderTurn(painted, s);
    Refocus(Step(t, p), Settled(t, p), p.up);
  }

  // ---------- Taking a node out ----------

  lemma {:induction false} EndSound<N>(t: Tree<N>, p: Path<N>, h: int, s: Side) returns (h': int)
    requires Sound(t, p, h) && t.Node?
    ensures Sound(End(t, s), EndPath(t, p, s), h')
    decreases t
  {
    h' := h;
    if Kid(t, s).Node? {
      DownSound(t, p, h, s);
      var k := if t.color == Black then h - 1 else h;
      if s == L {
        h' := EndSound(t.left, Frame(L, t.color, t.entry, t.right, p), k, s);
      } else {
        h' := EndSound(t.right, Frame(R, t.color, t.entry, t.left, p), k, s);
      }
    }
  }

  lemma {:induction false} PlugWithoutFirst<N>(t: Tree<N>, p: Path<N>)
    requires t.Node?
    ensures Plug(End(t, L).right, EndPath(t, p, L)) == Plug(WithoutFirst(t), p)
    ensures Plug(End(t, L), EndPath(t, p, L)) == Plug(t, p)
    ensures Inorder(t) == [End(t, L).entry] + Inorder(WithoutFirst(t))
    decreases t
  {
    if t.left.Node? {
      PlugWithoutFirst(t.left, Frame(L, t.color, t.entry, t.right, p));
    }
  }

  lemma {:induction false} InorderEnds<N>(t: Tree<N>)
    requires t.Node?
    ensures |Inorder(t)| > 0
    ensures Inorder(t)[0] == End(t, L).entry && Inorder(t)[|Inorder(t)| - 1] == End(t, R).entry
    decreases t
  {
    if t.left.Node? {
      InorderEnds(t.left);
    }
    if t.right.Node? {
      InorderEnds(t.right);
    }
  }

  /** What remains when the focus has a leaf on side `s` and its other subtree takes its place. */
  lemma {:induction false} SpliceSound<N>(t: Tree<N>, p: Path<N>, h: int, s: Side)
    requires Sound(t, p, h) && t.Node? && Kid(t, s).Leaf?
    ensures t.color == Red ==> Sound(Kid(t, Other(s)), p, h)
    ensures t.color == Black ==> Short(Kid(t, Other(s)), p, h - 1)
  {
    var u := Kid(t, Other(s));
    if t.color == Black && ColorOf(u) == Red {
      PaintBlack(u, h - 1);
    }
  }

  /** The order without the entry of the focus, after either way of taking it out. */
  lemma {:induction false} RemoveOrder<N>(t: Tree<N>, p: Path<N>)
    requires t.Node?
    ensures var before, i := Inorder(Plug(t, p)), |Before(p)| + |Inorder(t.left)|;
      && i < |before| && before[i] == t.entry
      && (t.left.Leaf? ==> Inorder(Plug(t.right, p)) == before[..i] + before[i + 1..])
      && (t.right.Leaf? ==> Inorder(Plug(t.left, p)) == before[..i] + before[i + 1..])
      && (t.right.Node? ==>
        Inorder(Plug(t.(entry := End(t.right, L).entry, right := WithoutFirst(t.right)), p))
          == before[..i] + before[i + 1..])
  {
    hide Plug, Before, After;
    var b, l, r, a := Before(p), Inorder(t.left), Inorder(t.right), After(p);
    InorderPlug(t, p);
    Drop(b, l, t.entry, r, a);
    assert Inorder(t) == l + [t.entry] + r;
    if t.left.Leaf? {
      InorderPlug(t.right, p);
      assert [] + r == r;
    }
    if t.right.Leaf? {
      InorderPlug(t.left, p);
      assert l + [] == l;
    } else {
      PlugWithoutFirst(t.right, p);
      var t' := t.(entry := End(t.right, L).entry, right := WithoutFirst(t.right));
      InorderPlug(t', p);
      assert Inorder(t') == l + [End(t.right, L).entry] + Inorder(WithoutFirst(t.right)) == l + r;
    }
  }

  lemma Drop<N>(b: seq<N>, l: seq<N>, n: N, r: seq<N>, a: seq<N>)
    ensures var s, i := b + (l + [n] + r) + a, |b| + |l|;
      i < |s| && s[i] == n && s[..i] + s[i + 1..] == b + (l + r) + a
  {
    var s, i := b + (l + [n] + r) + a, |b| + |l|;
    assert s[..i] == b + l && s[i + 1..] == r + a;
  }

  /** The children of a focus stay sound below another node object. */
  lemma {:induction false} DownSoundAs<N>(t: Tree<N>, p: Path<N>, h: int, s: Side, n: N)
    requires Sound(t, p, h) && t.Node?
    ensures Sound(Kid(t, s), Frame(s, t.color, n, Kid(t, Other(s)), p), if t.color == Black then h - 1 else h)
  {
  }

  // ---------- Depth ----------

  function Height<N>(t: Tree<N>): nat {
    if t.Leaf? then 0 else 1 + if Height(t.left) > Height(t.right) then Height(t.left) else Height(t.right)
  }

  lemma {:induction false} HeightBound<N>(t: Tree<N>, h: int)
    requires RB(t, h)
    ensures h >= 0 && Height(t) <= 2 * h + (if ColorOf(t) == Red then 1 else 0)
    ensures Pow2(h) <= |Inorder(t)| + 1
  {
    if t.Node? {
      var k := if t.color == Black then h - 1 else h;
      HeightBound(t.left, k);
      HeightBound(t.right, k);
    }
  }

  lemma {:induction false} Pow2Double(a: nat)
    ensures Pow2(2 * a) == Pow2(a) * Pow2(a)
  {
    if a > 0 {
      Pow2Double(a - 1);
      var q := Pow2(a - 1);
      assert Pow2(2 * a) == 2 * Pow2(2 * a - 1) == 4 * (q * q);
    }
  }

  /** At most 2 log2(n + 1) steps. */
  ghost predicate Logarithmic(steps: nat, n: nat) {
    Pow2(steps) <= (n + 1) * (n + 1)
  }

  /** No walk down a red-black tree is longer. */
  lemma {:induction false} LogarithmicWalk<N>(t: Tree<N>, steps: nat)
    requires RedBlack(t) && steps <= Height(t)
    ensures Logarithmic(steps, |Inorder(t)|)
  {
    var b := BlackHeight(t);
    HeightBound(t, b);
    PowMono(steps, 2 * b);
    Pow2Double(b);
    SquareMono(Pow2(b), |Inorder(t)| + 1);
  }

  lemma SquareMono(a: nat, b: nat)
    requires a <= b
    ensures a * a <= b * b
  {
    assert a * a <= a * b <= b * b;
  }
}
