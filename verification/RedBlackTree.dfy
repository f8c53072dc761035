/**
 The red-black tree that the tree map and the tree set share: node objects with parent links
 and one sentinel object, rewritten in place. Ghost arguments `t` and `p` give the place a
 method works at, as a zipper over the mathematical tree.
 */
module RedBlackTrees {
  import opened Ordering
  import opened RedBlackShape
  import opened RedBlackRules
  import opened SortedItems
  import opened Sequences

  class Entry<K(0), V(0)> {
    const key: K
    var value: V
    var color: Color
    var parent: Entry?<K, V>
    var left: Entry?<K, V>
    var right: Entry?<K, V>

    constructor (key: K, value: V, sentinel: Entry<K, V>)
      ensures this.key == key && this.value == value
      ensures parent == sentinel && left == sentinel && right == sentinel
    {
      this.key, this.value := key, value;
      parent, left, right := sentinel, sentinel, sentinel;
      color := Red;
    }

    constructor Sentinel()
      ensures color == Black && parent == null && left == null && right == null
    {
      color, parent, left, right := Black, null, null, null;
    }
  }

  ghost function ItemsOf<K(0), V(0)>(s: seq<Entry<K, V>>): (items: seq<(K, V)>)
    reads (set e: Entry<K, V> | e in s)`value
    ensures |items| == |s|
    ensures forall i | 0 <= i < |s| :: items[i] == (s[i].key, s[i].value)
  {
    if s == [] then [] else [(s[0].key, s[0].value)] + ItemsOf(s[1..])
  }

  class RedBlackTree<K(!new, 0), V(0)> {
    const compare: Comparator<K>
    const sentinel: Entry<K, V>
    var root: Entry<K, V>
    var size: int
    ghost var repr: set<Entry<K, V>>
    ghost var tree: Tree<Entry?<K, V>>
    ghost var order: seq<Entry<K, V>>

    constructor (compare: Comparator<K>)
      ensures Valid() && Items() == [] && this.compare == compare && fresh(sentinel) && repr == {}
    {
      this.compare := compare;
      var nil := new Entry<K, V>.Sentinel();
      sentinel := nil;
      root := nil;
      size := 0;
      repr, tree, order := {}, Leaf, [];
    }

    ghost predicate Valid()
      reads this, repr, sentinel, order
    {
      && Holds(tree, Top) && RedBlack(tree)
      && sentinel.color == Black && sentinel.left == null && sentinel.right == null
      && Inorder(tree) == order && size == |order|
      && Ascending(Items(), compare)
    }

    /** The key-value pairs in key order. */
    ghost function Items(): (items: seq<(K, V)>)
      reads this`order, (set e: Entry<K, V> | e in order)`value
      ensures |items| == |order|
      ensures forall i | 0 <= i < |order| :: items[i] == (order[i].key, order[i].value)
    {
      ItemsOf(order)
    }

    /** The link and colour fields of the nodes. */
    ghost function Snap(): map<Entry?<K, V>, Cell<Entry?<K, V>>>
      reads this`repr, repr`color, repr`parent, repr`left, repr`right
    {
      map n | n in repr :: Cell(n.color, n.parent, n.left, n.right)
    }

    /** The objects form the tree around focus `t`. */
    ghost predicate Holds(t: Tree<Entry?<K, V>>, p: Path<Entry?<K, V>>)
      reads this`repr, this`root, repr`color, repr`parent, repr`left, repr`right
    {
      At(Snap(), t, p, sentinel) && root == PathRoot(p, Ptr(t, sentinel)) && sentinel !in repr
    }

    method LinkLeft(entry: Entry<K, V>)
      requires entry in repr && entry.right != null && entry.right.left != null && entry.parent != null
      requires CanTurn(Snap(), L, entry, entry.right, entry.right.left, entry.parent, sentinel)
      modifies this`root, repr`left, repr`right, repr`parent
      ensures
        Turned(old(Snap()), Snap(), L, entry, old(entry.right), old(entry.right.left), old(entry.parent), sentinel)
      ensures root == if old(entry.parent) == sentinel then old(entry.right) else old(root)
    {
      var current := entry.right;
      entry.right := current.left;
      if current.left != sentinel {
        current.left.parent := entry;
      }
      current.parent := entry.parent;
      if entry.parent == sentinel {
        root := current;
      } else if entry == entry.parent.left {
        entry.parent.left := current;
      } else {
        entry.parent.right := current;
      }
      current.left := entry;
      entry.parent := current;
    }

    method RotateLeft(entry: Entry<K, V>, ghost t: Tree<Entry?<K, V>>, ghost p: Path<Entry?<K, V>>)
      requires Holds(t, p)
      requires t.Node? && t.right.Node? && entry == t.entry
      modifies this`root, repr`left, repr`right, repr`parent
      ensures Holds(Turn(t, L), p)
    {
      ghost var before := Snap();
      TurnReady(before, t, p, L, sentinel);
      LinkLeft(entry);
      TurnDone(before, Snap(), t, p, L, sentinel);
    }

    method LinkRight(entry: Entry<K, V>)
      requires entry in repr && entry.left != null && entry.left.right != null && entry.parent != null
      requires CanTurn(Snap(), R, entry, entry.left, entry.left.right, entry.parent, sentinel)
      requires entry.parent != sentinel ==> (entry.parent.right == entry ==> entry.parent.left != entry)
      modifies this`root, repr`left, repr`right, repr`parent
      ensures Turned(old(Snap()), Snap(), R, entry, old(entry.left), old(entry.left.right), old(entry.parent), sentinel)
      ensures root == if old(entry.parent) == sentinel then old(entry.left) else old(root)
    {
      var current := entry.left;
      entry.left := current.right;
      if current.right != sentinel {
        current.right.parent := entry;
      }
      current.parent := entry.parent;
      if entry.parent == sentinel {
        root := current;
      } else if entry == entry.parent.right {
        entry.parent.right := current;
      } else {
        entry.parent.left := current;
      }
      current.right := entry;
      entry.parent := current;
    }

    method RotateRight(entry: Entry<K, V>, ghost t: Tree<Entry?<K, V>>, ghost p: Path<Entry?<K, V>>)
      requires Holds(t, p)
      requires t.Node? && t.left.Node? && entry == t.entry
      modifies this`root, repr`left, repr`right, repr`parent
      ensures Holds(Turn(t, R), p)
    {
      ghost var before := Snap();
      TurnReady(before, t, p, R, sentinel);
      LinkRight(entry);
      TurnDone(before, Snap(), t, p, R, sentinel);
    }

    method SetColor(entry: Entry<K, V>, c: Color, ghost t: Tree<Entry?<K, V>>, ghost p: Path<Entry?<K, V>>)
      requires Holds(t, p)
      requires t.Node? && entry == t.entry
      modifies repr`color
      ensures Holds(t.(color := c), p)
    {
      ghost var before := Snap();
      FocusFields(before, t, p, sentinel);
      entry.color := c;
      PaintDone(before, Snap(), t, p, c, sentinel);
    }

    /** The focus may be the sentinel. */
    method Blacken(entry: Entry<K, V>, ghost t: Tree<Entry?<K, V>>, ghost p: Path<Entry?<K, V>>)
      requires Holds(t, p) && entry == Ptr(t, sentinel) && sentinel.color == Black
      modifies repr`color, sentinel`color
      ensures Holds(Paint(t, Black), p) && sentinel.color == Black
    {
      ghost var before := Snap();
      if t.Node? {
        FocusFields(before, t, p, sentinel);
      }
      entry.color := Black;
      if t.Node? {
        PaintDone(before, Snap(), t, p, Black, sentinel);
      } else {
        assert Snap() == before;
      }
    }

    lemma Up(t: Tree<Entry?<K, V>>, p: Path<Entry?<K, V>>)
      requires Holds(t, p) && p.Frame?
      ensures Holds(Step(t, p), p.up)
    {
      MoveUp(Snap(), t, p, sentinel);
    }

    lemma Parent(t: Tree<Entry?<K, V>>, p: Path<Entry?<K, V>>)
      requires Holds(t, p) && t.Node? && p.Frame?
      ensures Holds(Step(t, p), p.up)
      ensures t.entry in repr && t.entry != sentinel && t.entry.parent == p.entry
      ensures p.entry in repr && p.entry != sentinel && p.entry.color == p.color
        && p.entry.parent == PathPtr(p.up, sentinel)
      ensures p.entry.left == t.entry <==> p.side == L
      ensures p.entry.right == t.entry <==> p.side == R
      ensures p.side == L ==> p.entry.right == Ptr(p.sibling, sentinel)
      ensures p.side == R ==> p.entry.left == Ptr(p.sibling, sentinel)
    {
      Up(t, p);
      Fields(t, p);
      Fields(Step(t, p), p.up);
    }

    lemma Down(t: Tree<Entry?<K, V>>, p: Path<Entry?<K, V>>, s: Side)
      requires Holds(t, p) && t.Node?
      ensures Holds(Kid(t, s), Frame(s, t.color, t.entry, Kid(t, Other(s)), p))
    {
      MoveDown(Snap(), t, p, s, sentinel);
    }

    lemma Fields(t: Tree<Entry?<K, V>>, p: Path<Entry?<K, V>>)
      requires Holds(t, p) && t.Node?
      ensures t.entry in repr && t.entry != sentinel
      ensures t.entry.color == t.color && t.entry.parent == PathPtr(p, sentinel)
      ensures t.entry.left == Ptr(t.left, sentinel) && t.entry.right == Ptr(t.right, sentinel)
    {
      FocusFields(Snap(), t, p, sentinel);
    }

    method PaintKid(entry: Entry<K, V>, c: Color, ghost s: Side, ghost t: Tree<Entry?<K, V>>,
                    ghost p: Path<Entry?<K, V>>)
      requires Holds(t, p) && t.Node? && Kid(t, s).Node? && entry == Kid(t, s).entry
      modifies repr`color
      ensures Holds(Join(s, t.color, Kid(t, s).(color := c), t.entry, Kid(t, Other(s))), p)
    {
      Down(t, p, s);
      SetColor(entry, c, Kid(t, s), Frame(s, t.color, t.entry, Kid(t, Other(s)), p));
      Up(Kid(t, s).(color := c), Frame(s, t.color, t.entry, Kid(t, Other(s)), p));
    }

    /** A red uncle: the colours of the grandparent and its children swap. */
    method PushRedUp(parent: Entry<K, V>, uncle: Entry<K, V>, grand: Entry<K, V>,
                     ghost t: Tree<Entry?<K, V>>, ghost p: Path<Entry?<K, V>>)
      requires Holds(t, p) && p.Frame? && p.up.Frame? && p.up.sibling.Node?
      requires parent == p.entry && uncle == p.up.sibling.entry && grand == p.up.entry
      modifies repr`color
      ensures Holds(Pushed(t, p), p.up.up)
    {
      ghost var top, s := p.up.up, p.up.side;
      Up(t, p);
      Up(Step(t, p), p.up);
      ghost var g := Step(Step(t, p), p.up);
      PaintKid(parent, Black, s, g, top);
      g := Join(s, g.color, Paint(Step(t, p), Black), p.up.entry, p.up.sibling);
      PaintKid(uncle, Black, Other(s), g, top);
      g := Join(s, g.color, Paint(Step(t, p), Black), p.up.entry, Paint(p.up.sibling, Black));
      SetColor(grand, Red, g, top);
    }

    lemma Shade(t: Tree<Entry?<K, V>>, p: Path<Entry?<K, V>>)
      requires Holds(t, p) && sentinel.color == Black
      ensures var e := Ptr(t, sentinel); e != null && e.color == ColorOf(t)
    {
      if t.Node? {
        Fields(t, p);
      }
    }

    lemma AtRoot(t: Tree<Entry?<K, V>>, p: Path<Entry?<K, V>>)
      requires Holds(t, p)
      ensures Ptr(t, sentinel) == root <==> p.Top?
    {
      RootInPath(p, Ptr(t, sentinel));
    }

    /** The loop body of the insert fixup when the parent is a left child. */
    method FixInsertLeft(entry: Entry<K, V>, ghost t: Tree<Entry?<K, V>>, ghost p: Path<Entry?<K, V>>, ghost h: int)
      returns (next: Entry<K, V>, ghost t': Tree<Entry?<K, V>>, ghost p': Path<Entry?<K, V>>, ghost h': int)
      requires Holds(t, p) && RedFocus(t, p, h) && entry == t.entry && sentinel.color == Black
      requires PathColor(p) == Red && p.up.side == L
      modifies this`root, repr`left, repr`right, repr`parent, repr`color
      ensures Holds(t', p') && RedFocus(t', p', h') && next == t'.entry
      ensures Depth(p') < Depth(p) && Inorder(Plug(t', p')) == Inorder(Plug(t, p))
    {
      hide At;
      next, t', p', h' := entry, t, p, h;
      Parent(t, p);
      Parent(Step(t, p), p.up);
      ghost var g := Step(Step(t, p), p.up);
      Down(g, p.up.up, R);
      Shade(p.up.sibling, Frame(R, g.color, g.entry, g.left, p.up.up));
      var current := entry.parent.parent.right;
      if current.color == Red {
        next := entry.parent.parent;
        PushedOk(t, p, h);
        PushRedUp(entry.parent, current, entry.parent.parent, t, p);
        t', p', h' := Pushed(t, p), p.up.up, h + 1;
      } else {
        if entry == entry.parent.right {
          next := entry.parent;
          UnkinkedOk(t, p, h);
          RotateLeft(next, Step(t, p), p.up);
          Down(Turn(Step(t, p), L), p.up, L);
          t', p' := Unkinked(t, p).0, Unkinked(t, p).1;
          Parent(t', p');
          Parent(Step(t', p'), p'.up);
        }
        RaisedOk(t', p', h);
        g := Step(Step(t', p'), p'.up);
        PaintKid(next.parent, Black, L, g, p'.up.up);
        g := g.(left := g.left.(color := Black));
        SetColor(next.parent.parent, Red, g, p'.up.up);
        g := g.(color := Red);
        RotateRight(next.parent.parent, g, p'.up.up);
        Down(Turn(g, R), p'.up.up, L);
        p' := Raised(p');
      }
    }

    /** The same tree seen from its root. */
    lemma {:induction false} ToTop(t: Tree<Entry?<K, V>>, p: Path<Entry?<K, V>>)
      requires Holds(t, p)
      ensures Holds(Plug(t, p), Top)
      decreases p
    {
      if p.Frame? {
        Up(t, p);
        ToTop(Step(t, p), p.up);
      }
    }

    /** A short left focus with a red sibling: afterwards the sibling is black. */
    method LeanLeft(entry: Entry<K, V>, current: Entry<K, V>, ghost t: Tree<Entry?<K, V>>, ghost p: Path<Entry?<K, V>>,
                    ghost h: int)
      requires Holds(t, p) && Short(t, p, h) && ColorOf(t) == Black && p.Frame? && p.side == L
      requires entry == Ptr(t, sentinel) && entry.parent == p.entry
      requires ColorOf(p.sibling) == Red && current == p.sibling.entry
      modifies this`root, repr`left, repr`right, repr`parent, repr`color
      ensures Holds(t, Leaned(p)) && entry.parent == p.entry
    {
      hide At;
      LeanedOk(t, p, h);
      ghost var q := Step(t, p);
      Up(t, p);
      Fields(q, p.up);
      PaintKid(current, Black, R, q, p.up);
      q := Join(L, q.color, t, p.entry, Paint(p.sibling, Black));
      SetColor(entry.parent, Red, q, p.up);
      q := Join(L, Red, t, p.entry, Paint(p.sibling, Black));
      RotateLeft(entry.parent, q, p.up);
      Down(Turn(q, L), p.up, L);
      Down(Step(t, Leaned(p)), Leaned(p).up, L);
      if t.Node? {
        Fields(t, Leaned(p));
      }
    }

    /** A short left focus whose black sibling has only its near child red: afterwards its far child is red. */
    method StraightenLeft(entry: Entry<K, V>, current: Entry<K, V>, ghost t: Tree<Entry?<K, V>>,
                          ghost p: Path<Entry?<K, V>>, ghost h: int)
      requires Holds(t, p) && Short(t, p, h) && ColorOf(t) == Black && p.Frame? && p.side == L
      requires entry == Ptr(t, sentinel) && entry.parent == p.entry
      requires p.sibling.Node? && p.sibling.color == Black && current == p.sibling.entry
      requires ColorOf(p.sibling.left) == Red && ColorOf(p.sibling.right) == Black
      modifies this`root, repr`left, repr`right, repr`parent, repr`color
      ensures Holds(t, Straightened(p)) && entry.parent == p.entry
    {
      hide At;
      StraightenedOk(t, p, h);
      ghost var sib, at := p.sibling, Frame(R, p.color, p.entry, t, p.up);
      Up(t, p);
      Down(Step(t, p), p.up, R);
      Fields(sib, at);
      Down(sib, at, L);
      Fields(sib.left, Frame(L, sib.color, sib.entry, sib.right, at));
      PaintKid(current.left, Black, L, sib, at);
      sib := sib.(left := sib.left.(color := Black));
      SetColor(current, Red, sib, at);
      RotateRight(current, sib.(color := Red), at);
      Up(Straightened(p).sibling, at);
      Down(Step(t, Straightened(p)), p.up, L);
      if t.Node? {
        Fields(t, Straightened(p));
      }
    }

    /** A short left focus whose black sibling has a red far child: the shortage ends here. */
    method SettleLeft(entry: Entry<K, V>, current: Entry<K, V>, ghost t: Tree<Entry?<K, V>>,
                      ghost p: Path<Entry?<K, V>>, ghost h: int)
      returns (ghost t': Tree<Entry?<K, V>>)
      requires Holds(t, p) && Short(t, p, h) && ColorOf(t) == Black && p.Frame? && p.side == L
      requires entry == Ptr(t, sentinel) && entry.parent == p.entry
      requires p.sibling.Node? && p.sibling.color == Black && current == p.sibling.entry
      requires ColorOf(p.sibling.right) == Red
      modifies this`root, repr`left, repr`right, repr`parent, repr`color
      ensures Holds(t', Top) && RedBlack(t') && Inorder(t') == Inorder(Plug(t, p)) && t'.Node? && root == t'.entry
    {
      hide At;
      SettledOk(t, p, h);
      ghost var q, sib, at := Step(t, p), p.sibling, Frame(R, Black, p.entry, t, p.up);
      Up(t, p);
      Fields(q, p.up);
      PaintKid(current, entry.parent.color, R, q, p.up);
      q := q.(right := sib.(color := p.color));
      SetColor(entry.parent, Black, q, p.up);
      q := q.(color := Black);
      Down(q, p.up, R);
      Fields(q.right, at);
      Down(q.right, at, R);
      Fields(sib.right, Frame(R, p.color, sib.entry, sib.left, at));
      PaintKid(current.right, Black, R, q.right, at);
      q := q.(right := q.right.(right := sib.right.(color := Black)));
      Up(q.right, at);
      RotateLeft(entry.parent, q, p.up);
      t' := Plug(Settled(t, p), p.up);
      ToTop(Settled(t, p), p.up);
      PlugSound(Settled(t, p), p.up, if p.color == Black then h + 2 else h + 1);
      Fields(t', Top);
    }

    /** The loop body of the delete fixup when the short focus is a left child. */
    method FixDeleteLeft(entry: Entry<K, V>, ghost t: Tree<Entry?<K, V>>, ghost p: Path<Entry?<K, V>>, ghost h: int)
      returns (next: Entry<K, V>, ghost t': Tree<Entry?<K, V>>, ghost p': Path<Entry?<K, V>>, ghost h': int)
      requires Holds(t, p) && Short(t, p, h) && ColorOf(t) == Black && p.Frame? && p.side == L
      requires entry == Ptr(t, sentinel) && entry.parent == p.entry && sentinel.color == Black
      modifies this`root, repr`left, repr`right, repr`parent, repr`color
      ensures Holds(t', p') && Short(t', p', h') && t'.Node? && next == t'.entry
      ensures ColorOf(t') == Red || Depth(p') < Depth(p)
      ensures Inorder(Plug(t', p')) == Inorder(Plug(t, p))
    {
      hide At;
      p', h' := p, h;
      Up(t, p);
      Fields(Step(t, p), p.up);
      SiblingIsNode(t, p, h);
      Down(Step(t, p), p.up, R);
      Fields(p.sibling, Frame(R, p.color, p.entry, t, p.up));
      var current := entry.parent.right;
      if current.color == Red {
        LeanedOk(t, p, h);
        LeanLeft(entry, current, t, p, h);
        p' := Leaned(p);
        Up(t, p');
        Fields(Step(t, p'), p'.up);
        SiblingIsNode(t, p', h);
        Down(Step(t, p'), p'.up, R);
        current := entry.parent.right;
      }
      ghost var sib, at := p'.sibling, Frame(R, p'.color, p'.entry, t, p'.up);
      Fields(sib, at);
      Down(sib, at, L);
      Down(sib, at, R);
      Shade(sib.left, Frame(L, sib.color, sib.entry, sib.right, at));
      Shade(sib.right, Frame(R, sib.color, sib.entry, sib.left, at));
      if current.left.color == Black && current.right.color == Black {
        LiftedOk(t, p', h);
        PaintKid(current, Red, R, Step(t, p'), p'.up);
        next := entry.parent;
        t', p', h' := Join(L, p'.color, t, p'.entry, Paint(sib, Red)), p'.up, if p'.color == Black then h + 1 else h;
      } else {
        if current.right.color == Black {
          StraightenedOk(t, p', h);
          StraightenLeft(entry, current, t, p', h);
          p' := Straightened(p');
          Up(t, p');
          Fields(Step(t, p'), p'.up);
          Down(Step(t, p'), p'.up, R);
          current := entry.parent.right;
        }
        t' := SettleLeft(entry, current, t, p', h);
        next, p', h' := root, Top, BlackHeight(t');
      }
    }

    /** The loop body of the insert fixup when the parent is a right child. */
    method FixInsertRight(entry: Entry<K, V>, ghost t: Tree<Entry?<K, V>>, ghost p: Path<Entry?<K, V>>, ghost h: int)
      returns (next: Entry<K, V>, ghost t': Tree<Entry?<K, V>>, ghost p': Path<Entry?<K, V>>, ghost h': int)
      requires Holds(t, p) && RedFocus(t, p, h) && entry == t.entry && sentinel.color == Black
      requires PathColor(p) == Red && p.up.side == R
      modifies this`root, repr`right, repr`left, repr`parent, repr`color
      ensures Holds(t', p') && RedFocus(t', p', h') && next == t'.entry
      ensures Depth(p') < Depth(p) && Inorder(Plug(t', p')) == Inorder(Plug(t, p))
    {
      hide At;
      next, t', p', h' := entry, t, p, h;
      Parent(t, p);
      Parent(Step(t, p), p.up);
      ghost var g := Step(Step(t, p), p.up);
      Down(g, p.up.up, L);
      Shade(p.up.sibling, Frame(L, g.color, g.entry, g.right, p.up.up));
      var current := entry.parent.parent.left;
      if current.color == Red {
        next := entry.parent.parent;
        PushedOk(t, p, h);
        PushRedUp(entry.parent, current, entry.parent.parent, t, p);
        t', p', h' := Pushed(t, p), p.up.up, h + 1;
      } else {
        if entry == entry.parent.left {
          next := entry.parent;
          UnkinkedOk(t, p, h);
          RotateRight(next, Step(t, p), p.up);
          Down(Turn(Step(t, p), R), p.up, R);
          t', p' := Unkinked(t, p).0, Unkinked(t, p).1;
          Parent(t', p');
          Parent(Step(t', p'), p'.up);
        }
        RaisedOk(t', p', h);
        g := Step(Step(t', p'), p'.up);
        PaintKid(next.parent, Black, R, g, p'.up.up);
        g := g.(right := g.right.(color := Black));
        SetColor(next.parent.parent, Red, g, p'.up.up);
        g := g.(color := Red);
        RotateLeft(next.parent.parent, g, p'.up.up);
        Down(Turn(g, L), p'.up.up, R);
        p' := Raised(p');
      }
    }

    /** A short right focus with a red sibling: afterwards the sibling is black. */
    method LeanRight(entry: Entry<K, V>, current: Entry<K, V>, ghost t: Tree<Entry?<K, V>>, ghost p: Path<Entry?<K, V>>,
                     ghost h: int)
      requires Holds(t, p) && Short(t, p, h) && ColorOf(t) == Black && p.Frame? && p.side == R
      requires entry == Ptr(t, sentinel) && entry.parent == p.entry
      requires ColorOf(p.sibling) == Red && current == p.sibling.entry
      modifies this`root, repr`right, repr`left, repr`parent, repr`color
      ensures Holds(t, Leaned(p)) && entry.parent == p.entry
    {
      hide At;
      LeanedOk(t, p, h);
      ghost var q := Step(t, p);
      Up(t, p);
      Fields(q, p.up);
      PaintKid(current, Black, L, q, p.up);
      q := Join(R, q.color, t, p.entry, Paint(p.sibling, Black));
      SetColor(entry.parent, Red, q, p.up);
      q := Join(R, Red, t, p.entry, Paint(p.sibling, Black));
      RotateRight(entry.parent, q, p.up);
      Down(Turn(q, R), p.up, R);
      Down(Step(t, Leaned(p)), Leaned(p).up, R);
      if t.Node? {
        Fields(t, Leaned(p));
      }
    }

    /** A short right focus whose black sibling has only its near child red: afterwards its far child is red. */
    method StraightenRight(entry: Entry<K, V>, current: Entry<K, V>, ghost t: Tree<Entry?<K, V>>,
                           ghost p: Path<Entry?<K, V>>, ghost h: int)
      requires Holds(t, p) && Short(t, p, h) && ColorOf(t) == Black && p.Frame? && p.side == R
      requires entry == Ptr(t, sentinel) && entry.parent == p.entry
      requires p.sibling.Node? && p.sibling.color == Black && current == p.sibling.entry
      requires ColorOf(p.sibling.right) == Red && ColorOf(p.sibling.left) == Black
      modifies this`root, repr`right, repr`left, repr`parent, repr`color
      ensures Holds(t, Straightened(p)) && entry.parent == p.entry
    {
      hide At;
      StraightenedOk(t, p, h);
      ghost var sib, at := p.sibling, Frame(L, p.color, p.entry, t, p.up);
      Up(t, p);
      Down(Step(t, p), p.up, L);
      Fields(sib, at);
      Down(sib, at, R);
      Fields(sib.right, Frame(R, sib.color, sib.entry, sib.left, at));
      PaintKid(current.right, Black, R, sib, at);
      sib := sib.(right := sib.right.(color := Black));
      SetColor(current, Red, sib, at);
      RotateLeft(current, sib.(color := Red), at);
      Up(Straightened(p).sibling, at);
      Down(Step(t, Straightened(p)), p.up, R);
      if t.Node? {
        Fields(t, Straightened(p));
      }
    }

    /** A short right focus whose black sibling has a red far child: the shortage ends here. */
    method SettleRight(entry: Entry<K, V>, current: Entry<K, V>, ghost t: Tree<Entry?<K, V>>,
                       ghost p: Path<Entry?<K, V>>, ghost h: int)
      returns (ghost t': Tree<Entry?<K, V>>)
      requires Holds(t, p) && Short(t, p, h) && ColorOf(t) == Black && p.Frame? && p.side == R
      requires entry == Ptr(t, sentinel) && entry.parent == p.entry
      requires p.sibling.Node? && p.sibling.color == Black && current == p.sibling.entry
      requires ColorOf(p.sibling.left) == Red
      modifies this`root, repr`right, repr`left, repr`parent, repr`color
      ensures Holds(t', Top) && RedBlack(t') && Inorder(t') == Inorder(Plug(t, p)) && t'.Node? && root == t'.entry
    {
      hide At;
      SettledOk(t, p, h);
      ghost var q, sib, at := Step(t, p), p.sibling, Frame(L, Black, p.entry, t, p.up);
      Up(t, p);
      Fields(q, p.up);
      PaintKid(current, entry.parent.color, L, q, p.up);
      q := q.(left := sib.(color := p.color));
      SetColor(entry.parent, Black, q, p.up);
      q := q.(color := Black);
      Down(q, p.up, L);
      Fields(q.left, at);
      Down(q.left, at, L);
      Fields(sib.left, Frame(L, p.color, sib.entry, sib.right, at));
      PaintKid(current.left, Black, L, q.left, at);
      q := q.(left := q.left.(left := sib.left.(color := Black)));
      Up(q.left, at);
      RotateRight(entry.parent, q, p.up);
      t' := Plug(Settled(t, p), p.up);
      ToTop(Settled(t, p), p.up);
      PlugSound(Settled(t, p), p.up, if p.color == Black then h + 2 else h + 1);
      Fields(t', Top);
    }

    /** The loop body of the delete fixup when the short focus is a right child. */
    method FixDeleteRight(entry: Entry<K, V>, ghost t: Tree<Entry?<K, V>>, ghost p: Path<Entry?<K, V>>, ghost h: int)
      returns (next: Entry<K, V>, ghost t': Tree<Entry?<K, V>>, ghost p': Path<Entry?<K, V>>, ghost h': int)
      requires Holds(t, p) && Short(t, p, h) && ColorOf(t) == Black && p.Frame? && p.side == R
      requires entry == Ptr(t, sentinel) && entry.parent == p.entry && sentinel.color == Black
      modifies this`root, repr`right, repr`left, repr`parent, repr`color
      ensures Holds(t', p') && Short(t', p', h') && t'.Node? && next == t'.entry
      ensures ColorOf(t') == Red || Depth(p') < Depth(p)
      ensures Inorder(Plug(t', p')) == Inorder(Plug(t, p))
    {
      hide At;
      p', h' := p, h;
      Up(t, p);
      Fields(Step(t, p), p.up);
      SiblingIsNode(t, p, h);
      Down(Step(t, p), p.up, L);
      Fields(p.sibling, Frame(L, p.color, p.entry, t, p.up));
      var current := entry.parent.left;
      if current.color == Red {
        LeanedOk(t, p, h);
        LeanRight(entry, current, t, p, h);
        p' := Leaned(p);
        Up(t, p');
        Fields(Step(t, p'), p'.up);
        SiblingIsNode(t, p', h);
        Down(Step(t, p'), p'.up, L);
        current := entry.parent.left;
      }
      ghost var sib, at := p'.sibling, Frame(L, p'.color, p'.entry, t, p'.up);
      Fields(sib, at);
      Down(sib, at, R);
      Down(sib, at, L);
      Shade(sib.right, Frame(R, sib.color, sib.entry, sib.left, at));
      Shade(sib.left, Frame(L, sib.color, sib.entry, sib.right, at));
      if current.right.color == Black && current.left.color == Black {
        LiftedOk(t, p', h);
        PaintKid(current, Red, L, Step(t, p'), p'.up);
        next := entry.parent;
        t', p', h' := Join(R, p'.color, t, p'.entry, Paint(sib, Red)), p'.up, if p'.color == Black then h + 1 else h;
      } else {
        if current.left.color == Black {
          StraightenedOk(t, p', h);
          StraightenRight(entry, current, t, p', h);
          p' := Straightened(p');
          Up(t, p');
          Fields(Step(t, p'), p'.up);
          Down(Step(t, p'), p'.up, L);
          current := entry.parent.left;
        }
        t' := SettleRight(entry, current, t, p', h);
        next, p', h' := root, Top, BlackHeight(t');
      }
    }

    // ---------- The two fixup loops ----------

    method RebalanceAfterInsert(first: Entry<K, V>, ghost t0: Tree<Entry?<K, V>>, ghost p0: Path<Entry?<K, V>>,
                                ghost h0: int)
      returns (ghost tree': Tree<Entry?<K, V>>)
      requires Holds(t0, p0) && RedFocus(t0, p0, h0) && first == t0.entry && sentinel.color == Black
      modifies this`root, repr`left, repr`right, repr`parent, repr`color
      ensures Holds(tree', Top) && RedBlack(tree') && Inorder(tree') == Inorder(Plug(t0, p0))
    {
      hide At;
      var entry := first;
      ghost var t, p, h := t0, p0, h0;
      Shade(t, p);
      Fields(t, p);
      if p.Frame? {
        Parent(t, p);
      }
      while entry.parent.color == Red
        invariant Holds(t, p) && RedFocus(t, p, h) && entry == t.entry
        invariant Inorder(Plug(t, p)) == Inorder(Plug(t0, p0))
        invariant entry.parent == PathPtr(p, sentinel) && entry.parent != null && entry.parent.color == PathColor(p)
        decreases Depth(p)
      {
        Parent(t, p);
        Parent(Step(t, p), p.up);
        if entry.parent == entry.parent.parent.left {
          entry, t, p, h := FixInsertLeft(entry, t, p, h);
        } else {
          entry, t, p, h := FixInsertRight(entry, t, p, h);
        }
        Fields(t, p);
        if p.Frame? {
          Parent(t, p);
        }
      }
      tree' := Plug(t, p);
      ToTop(t, p);
      RootBlack(t, p, h);
      Fields(tree', Top);
      SetColor(root, Black, tree', Top);
      tree' := Paint(tree', Black);
    }

    method RebalanceAfterDelete(first: Entry<K, V>, ghost t0: Tree<Entry?<K, V>>, ghost p0: Path<Entry?<K, V>>,
                                ghost h0: int)
      returns (ghost tree': Tree<Entry?<K, V>>)
      requires Holds(t0, p0) && Short(t0, p0, h0) && first == Ptr(t0, sentinel)
      requires first.parent == PathPtr(p0, sentinel) && sentinel.color == Black
      modifies this`root, repr`left, repr`right, repr`parent, repr`color, sentinel`color
      ensures Holds(tree', Top) && RedBlack(tree') && Inorder(tree') == Inorder(Plug(t0, p0)) && sentinel.color == Black
    {
      hide At;
      var entry := first;
      ghost var t, p, h := t0, p0, h0;
      Shade(t, p);
      AtRoot(t, p);
      while entry != root && entry.color == Black
        invariant Holds(t, p) && Short(t, p, h) && entry == Ptr(t, sentinel)
        invariant entry.color == ColorOf(t) && sentinel.color == Black
        invariant entry.parent == PathPtr(p, sentinel) && (entry == root <==> p.Top?)
        invariant Inorder(Plug(t, p)) == Inorder(Plug(t0, p0))
        decreases if ColorOf(t) == Red then 0 else Depth(p) + 1
      {
        Up(t, p);
        Fields(Step(t, p), p.up);
        SiblingIsNode(t, p, h);
        Down(Step(t, p), p.up, Other(p.side));
        Fields(p.sibling, Frame(Other(p.side), p.color, p.entry, t, p.up));
        if t.Node? {
          Parent(t, p);
        }
        if entry == entry.parent.left {
          entry, t, p, h := FixDeleteLeft(entry, t, p, h);
        } else {
          entry, t, p, h := FixDeleteRight(entry, t, p, h);
        }
        Fields(t, p);
        AtRoot(t, p);
      }
      assert p.Top? || ColorOf(t) == Red;
      Blacken(entry, t, p);
      ghost var t' := Paint(t, Black);
      ToTop(t', p);
      PlugSound(t', p, if ColorOf(t) == Red then h + 1 else h);
      Refocus(t, t', p);
      tree' := Plug(t', p);
    }

    // ---------- Searching ----------

    /** The focus is where `key` belongs: all entries before it are smaller, all after it greater. */
    ghost predicate Window(t: Tree<Entry?<K, V>>, p: Path<Entry?<K, V>>, key: K)
      reads this`tree, this`order, (set e: Entry<K, V> | e in order)`value
    {
      Plug(t, p) == tree && Between(Items(), key, |Before(p)|, |Before(p)| + |Inorder(t)|, compare)
    }

    /** Where the entry of the focus stands in the order. */
    lemma InOrderAt(t: Tree<Entry?<K, V>>, p: Path<Entry?<K, V>>)
      requires t.Node? && Plug(t, p) == tree && Inorder(tree) == order
      ensures var i := |Before(p)| + |Inorder(t.left)|; i < |order| && order[i] == t.entry
      ensures |order| == |Before(p)| + |Inorder(t)| + |After(p)|
    {
      InorderPlug(t, p);
      assert Inorder(tree)[|Before(p)| + |Inorder(t.left)|] == t.entry;
    }

    lemma Narrow(t: Tree<Entry?<K, V>>, p: Path<Entry?<K, V>>, key: K, s: Side)
      requires Window(t, p, key) && t.Node? && Inorder(tree) == order && Ascending(Items(), compare)
      requires t.entry != null && if s == L then compare(key, t.entry.key) < 0 else compare(key, t.entry.key) > 0
      ensures Window(Kid(t, s), Frame(s, t.color, t.entry, Kid(t, Other(s)), p), key)
    {
      hide IsComparator, Plug, Inorder, Before, After, Between, Ascending;
      InOrderAt(t, p);
      DownOrder(t, p, s);
      Narrowed(Items(), key, |Before(p)|, |Before(p)| + |Inorder(t)|, |Before(p)| + |Inorder(t.left)|, compare);
    }

    lemma WindowStart(key: K)
      requires Valid()
      ensures Window(tree, Top, key)
    {
    }

    lemma WindowEnd(p: Path<Entry?<K, V>>, key: K)
      requires Window(Leaf, p, key) && Ascending(Items(), compare)
      ensures Rank(Items(), key, compare) == |Before(p)| && !Has(Items(), key, compare)
    {
      NotFound(Items(), key, |Before(p)|, compare);
    }

    /** Finds the entry of a key in at most 2 log2(size + 1) steps. */
    method GetEntry(key: K) returns (entry: Entry?<K, V>, ghost steps: nat)
      requires Valid()
      ensures entry == null <==> !Has(Items(), key, compare)
      ensures entry != null ==> entry == order[Rank(Items(), key, compare)]
      ensures Logarithmic(steps, |order|)
    {
      hide At, IsComparator, RB, Plug, Inorder, Before, After, Between, Ascending, Logarithmic, Rank, ItemsOf;
      var current := root;
      ghost var t, p := tree, Path<Entry?<K, V>>.Top;
      steps := 0;
      WindowStart(key);
      while current != sentinel
        invariant Holds(t, p) && Window(t, p, key) && current == Ptr(t, sentinel)
        invariant steps + Height(t) <= Height(tree)
        decreases Height(t)
      {
        Fields(t, p);
        InOrderAt(t, p);
        var result := compare(key, current.key);
        steps := steps + 1;
        if result < 0 {
          Narrow(t, p, key, L);
          Down(t, p, L);
          t, p := t.left, Frame(L, t.color, t.entry, t.right, p);
          current := current.left;
        } else if result > 0 {
          Narrow(t, p, key, R);
          Down(t, p, R);
          t, p := t.right, Frame(R, t.color, t.entry, t.left, p);
          current := current.right;
        } else {
          Laws(compare, key, current.key, key);
          FindSome(Items(), key, compare, |Before(p)| + |Inorder(t.left)|);
          LogarithmicWalk(tree, steps);
          return current, steps;
        }
      }
      Shade(t, p);
      if t.Node? {
        Fields(t, p);
      }
      WindowEnd(p, key);
      LogarithmicWalk(tree, steps);
      return null, steps;
    }

    // ---------- Searching for the nearest key ----------

    /** The focus is where the search for the nearest key has led. */
    ghost predicate CutAt(t: Tree<Entry?<K, V>>, p: Path<Entry?<K, V>>, key: K, tie: Tie)
      reads this`tree, this`order, (set e: Entry<K, V> | e in order)`value
    {
      Plug(t, p) == tree && Cut(Items(), key, |Before(p)|, |Before(p)| + |Inorder(t)|, tie, compare)
    }

    /** The entry at position `i`, or the sentinel outside. */
    ghost function EntryAt(i: int): Entry<K, V>
      reads this`order
    {
      if 0 <= i < |order| then order[i] else sentinel
    }

    lemma CutStart(key: K, tie: Tie)
      requires Valid()
      ensures Holds(tree, Top) && CutAt(tree, Top, key, tie) && root == Ptr(tree, sentinel)
      ensures EntryAt(|Before(Path<Entry?<K, V>>.Top)| + |Inorder(tree)|) == sentinel
      ensures EntryAt(|Before(Path<Entry?<K, V>>.Top)| - 1) == sentinel
    {
    }

    /** One step of the search, to the side that the comparison says. */
    lemma CutDown(t: Tree<Entry?<K, V>>, p: Path<Entry?<K, V>>, key: K, tie: Tie)
      requires Valid() && Holds(t, p) && CutAt(t, p, key, tie) && Ptr(t, sentinel) != sentinel
      ensures t.Node? && t.entry != null && t.entry.left == Ptr(t.left, sentinel)
        && t.entry.right == Ptr(t.right, sentinel)
      ensures t.entry.left != null && t.entry.right != null
      ensures
        var result := compare(key, t.entry.key);
        var l, r := Frame(L, t.color, t.entry, t.right, p), Frame(R, t.color, t.entry, t.left, p);
        (if result < 0 || (result == 0 && tie == High) then
           && Holds(t.left, l) && CutAt(t.left, l, key, tie)
           && EntryAt(|Before(l)| + |Inorder(t.left)|) == t.entry && |Before(l)| == |Before(p)|
         else
           && Holds(t.right, r) && CutAt(t.right, r, key, tie)
           && EntryAt(|Before(r)| - 1) == t.entry && |Before(r)| + |Inorder(t.right)| == |Before(p)| + |Inorder(t)|)
    {
      hide At, IsComparator, RB, Plug, Inorder, Before, After, Cut, ItemsOf;
      Fields(t, p);
      Ends(t, p);
      InOrderAt(t, p);
      Down(t, p, L);
      Down(t, p, R);
      DownOrder(t, p, L);
      DownOrder(t, p, R);
      CutNarrowed(Items(), key, |Before(p)|, |Before(p)| + |Inorder(t)|, |Before(p)| + |Inorder(t.left)|, tie, compare);
    }

    lemma CutEnd(t: Tree<Entry?<K, V>>, p: Path<Entry?<K, V>>, key: K, tie: Tie)
      requires Valid() && Holds(t, p) && CutAt(t, p, key, tie) && Ptr(t, sentinel) == sentinel
      ensures |Inorder(t)| == 0 && CutPoint(Items(), key, tie, compare) == |Before(p)|
      ensures sentinel !in order
    {
      hide Cut, IsComparator, ItemsOf;
      OrderFacts();
      if t.Node? {
        Fields(t, p);
      }
      CutPointIs(Items(), key, |Before(p)|, tie, compare);
    }

    // ---------- Insertion ----------

    /** Hangs a new node into the hole of `p`. */
    method Attach(entry: Entry<K, V>, parent: Entry<K, V>, ghost p: Path<Entry?<K, V>>)
      requires Holds(Leaf, p) && parent == PathPtr(p, sentinel)
      requires entry !in repr && entry != sentinel && entry.left == sentinel && entry.right == sentinel
      requires p.Frame? ==> p.entry != null && (p.side == L <==> compare(entry.key, p.entry.key) < 0)
      modifies this`root, this`repr, entry`parent, entry`color, repr`left, repr`right
      ensures repr == old(repr) + {entry} && (parent == sentinel <==> p.Top?)
      ensures Holds(Node(if p.Top? then Black else Red, Leaf, entry, Leaf), p)
    {
      ghost var before := Snap();
      assert p.Frame? ==> p.entry in repr;
      entry.parent := parent;
      if parent == sentinel {
        entry.color := Black;
        root := entry;
      } else {
        entry.color := Red;
        if compare(entry.key, parent.key) < 0 {
          parent.left := entry;
        } else {
          parent.right := entry;
        }
      }
      repr := repr + {entry};
      AttachDone(before, Snap(), entry, entry.color, p, sentinel);
    }

    /** The nodes of the tree are the entries in order, each once. */
    lemma OrderFacts()
      requires Valid()
      ensures forall e :: e in order <==> e in repr
      ensures forall i, j | 0 <= i < j < |order| :: order[i] != order[j]
      ensures sentinel !in order && size == |order| && Ascending(Items(), compare)
    {
      hide RB;
      InorderNodes(tree);
      assert Snap().Keys == Nodes(tree);
      forall i, j | 0 <= i < j < |order| ensures order[i] != order[j] {
        assert compare(Items()[i].0, Items()[j].0) < 0;
      }
    }

    lemma Basics()
      requires Valid()
      ensures sentinel !in order && size == |order| && Ascending(Items(), compare)
      ensures forall e | e in order :: e in repr
    {
      OrderFacts();
    }

    method Overwrite(entry: Entry<K, V>, value: V, ghost key: K, ghost i: nat)
      requires Valid() && i < |order| && entry == order[i] && Rank(Items(), key, compare) == i
        && compare(key, entry.key) == 0
      modifies repr`value
      ensures Valid() && Items() == SortedItems.Put(old(Items()), key, value, compare)
    {
      hide At, IsComparator, RB, Rank, ItemsOf;
      OrderFacts();
      Laws(compare, key, entry.key, key);
      ghost var items := Items();
      entry.value := value;
      assert Items() == items[i := (items[i].0, value)];
      PutAscending(items, key, value, compare);
    }

    /** Hangs a new node into the hole of `p` and rebalances. */
    method Link(entry: Entry<K, V>, last: Entry<K, V>, ghost p: Path<Entry?<K, V>>, ghost h: int)
      requires Holds(Leaf, p) && Sound(Leaf, p, h) && last == PathPtr(p, sentinel) && sentinel.color == Black
      requires entry !in repr && entry != sentinel && entry.left == sentinel && entry.right == sentinel
      requires p.Frame? ==> p.entry != null && (p.side == L <==> compare(entry.key, p.entry.key) < 0)
      modifies this`root, this`repr, this`tree, entry`parent, entry`left, entry`right, entry`color
      modifies repr`left, repr`right, repr`parent, repr`color
      ensures Holds(tree, Top) && RedBlack(tree) && repr == old(repr) + {entry}
      ensures var before, i := Inorder(Plug(Leaf, p)), |Before(p)|;
        i <= |before| && Inorder(tree) == before[..i] + [entry] + before[i..]
    {
      hide At, RB, Plug, Inorder, Before;
      Attach(entry, last, p);
      tree := Node(if p.Top? then Black else Red, Leaf, entry, Leaf);
      InsertOrder(p, entry, tree.color);
      LeafFits(tree, p, h);
      if last != sentinel {
        tree := RebalanceAfterInsert(entry, tree, p, h);
      }
    }

    /** A key that was not found gets a new node where the search ended. */
    method Insert(key: K, value: V, last: Entry<K, V>, ghost p: Path<Entry?<K, V>>, ghost h: int)
      requires Valid() && Holds(Leaf, p) && Sound(Leaf, p, h) && Plug(Leaf, p) == tree && last == PathPtr(p, sentinel)
      requires p.Frame? ==> p.entry != null && (p.side == L <==> compare(key, p.entry.key) < 0)
      requires Rank(Items(), key, compare) == |Before(p)| && !Has(Items(), key, compare)
      modifies this, repr
      ensures Valid() && fresh(repr - old(repr))
      ensures Items() == SortedItems.Put(old(Items()), key, value, compare)
    {
      hide At, IsComparator, RB, Plug, Inorder, Before, After, Ascending, Rank, ItemsOf;
      OrderFacts();
      ghost var items, i := Items(), |Before(p)|;
      PutAscending(items, key, value, compare);
      var entry := new Entry(key, value, sentinel);
      Link(entry, last, p, h);
      size := size + 1;
      order := order[..i] + [entry] + order[i..];
      assert Items() == items[..i] + [(key, value)] + items[i..];
    }

    method Put(key: K, value: V, memory: bool) returns (previous: Option<V>, failed: bool)
      requires Valid()
      modifies this, repr
      ensures Valid() && fresh(repr - old(repr))
      ensures previous == Find(old(Items()), key, compare)
      ensures failed <==> !memory && previous == None
      ensures Items() == if failed then old(Items()) else SortedItems.Put(old(Items()), key, value, compare)
    {
      hide At, IsComparator, RB, Plug, Inorder, Before, After, Between, Ascending, Rank, ItemsOf;
      var current, last := root, sentinel;
      ghost var t, p := tree, Path<Entry?<K, V>>.Top;
      ghost var h: int := BlackHeight(tree);
      WindowStart(key);
      while current != sentinel
        invariant unchanged(this) && unchanged(repr) && Valid()
        invariant Holds(t, p) && Window(t, p, key) && Sound(t, p, h)
        invariant current == Ptr(t, sentinel) && last == PathPtr(p, sentinel)
        invariant p.Frame? ==> p.entry != null && (p.side == L <==> compare(key, p.entry.key) < 0)
        decreases Height(t)
      {
        Fields(t, p);
        InOrderAt(t, p);
        var result := compare(key, current.key);
        last := current;
        if result < 0 {
          Narrow(t, p, key, L);
          Down(t, p, L);
          DownSound(t, p, h, L);
          t, p, h := t.left, Frame(L, t.color, t.entry, t.right, p), if t.color == Black then h - 1 else h;
          current := current.left;
        } else if result > 0 {
          Narrow(t, p, key, R);
          Down(t, p, R);
          DownSound(t, p, h, R);
          t, p, h := t.right, Frame(R, t.color, t.entry, t.left, p), if t.color == Black then h - 1 else h;
          current := current.right;
        } else {
          ghost var i := |Before(p)| + |Inorder(t.left)|;
          Laws(compare, key, current.key, key);
          FindSome(Items(), key, compare, i);
          previous, failed := Some(current.value), false;
          Overwrite(current, value, key, i);
          return;
        }
      }
      previous, failed := None, !memory;
      if t.Node? {
        Fields(t, p);
      }
      WindowEnd(p, key);
      if memory {
        Insert(key, value, last, p, h);
      }
    }

    // ---------- Walking ----------

    lemma {:induction false} LocateBelow(n: Entry<K, V>, t0: Tree<Entry?<K, V>>, p0: Path<Entry?<K, V>>, h0: int)
      returns (t: Tree<Entry?<K, V>>, p: Path<Entry?<K, V>>, h: int)
      requires Holds(t0, p0) && Sound(t0, p0, h0) && n in Nodes(t0)
      ensures Holds(t, p) && Sound(t, p, h) && Plug(t, p) == Plug(t0, p0) && t.Node? && t.entry == n
      decreases t0
    {
      t, p, h := t0, p0, h0;
      if t0.entry != n {
        var s := if n in Nodes(t0.left) then L else R;
        Down(t0, p0, s);
        DownSound(t0, p0, h0, s);
        DownOrder(t0, p0, s);
        t, p, h := LocateBelow(n, if s == L then t0.left else t0.right,
                               Frame(s, t0.color, t0.entry, Kid(t0, Other(s)), p0),
                               if t0.color == Black then h0 - 1 else h0);
      }
    }

    /** The zipper of an entry. */
    lemma Locate(n: Entry<K, V>, i: nat) returns (t: Tree<Entry?<K, V>>, p: Path<Entry?<K, V>>, h: int)
      requires Valid() && i < |order| && n == order[i]
      ensures Holds(t, p) && Sound(t, p, h) && Plug(t, p) == tree && t.Node? && t.entry == n
      ensures |Before(p)| + |Inorder(t.left)| == i
    {
      hide RB, IsComparator, Before;
      OrderFacts();
      assert Snap().Keys == Nodes(tree);
      t, p, h := LocateBelow(n, tree, Top, BlackHeight(tree));
      InOrderAt(t, p);
    }

    method GetLowerEntry(entry: Entry<K, V>, ghost t: Tree<Entry?<K, V>>, ghost p: Path<Entry?<K, V>>)
      returns (lowest: Entry<K, V>)
      requires Holds(t, p) && entry == Ptr(t, sentinel)
      ensures t.Leaf? ==> lowest == sentinel
      ensures t.Node? ==> lowest == End(t, L).entry && lowest in repr && Holds(End(t, L), EndPath(t, p, L))
    {
      hide At;
      lowest := entry;
      if t.Node? {
        Fields(t, p);
        Ends(t, p);
      }
      if lowest == sentinel {
        return;
      }
      ghost var c, q := t, p;
      while lowest.left != sentinel
        invariant Holds(c, q) && c.Node? && lowest == c.entry && lowest in repr
        invariant lowest.left == Ptr(c.left, sentinel) && lowest.left != null
        invariant End(c, L) == End(t, L) && EndPath(c, q, L) == EndPath(t, p, L)
        decreases c
      {
        Down(c, q, L);
        c, q := c.left, Frame(L, c.color, c.entry, c.right, q);
        Fields(c, q);
        Ends(c, q);
        lowest := lowest.left;
      }
      Ends(c, q);
    }

    method GetHigherEntry(entry: Entry<K, V>, ghost t: Tree<Entry?<K, V>>, ghost p: Path<Entry?<K, V>>)
      returns (highest: Entry<K, V>)
      requires Holds(t, p) && entry == Ptr(t, sentinel)
      ensures t.Leaf? ==> highest == sentinel
      ensures t.Node? ==> highest == End(t, R).entry && highest in repr && Holds(End(t, R), EndPath(t, p, R))
    {
      hide At;
      highest := entry;
      if t.Node? {
        Fields(t, p);
        Ends(t, p);
      }
      if highest == sentinel {
        return;
      }
      ghost var c, q := t, p;
      while highest.right != sentinel
        invariant Holds(c, q) && c.Node? && highest == c.entry && highest in repr
        invariant highest.right == Ptr(c.right, sentinel) && highest.right != null
        invariant End(c, R) == End(t, R) && EndPath(c, q, R) == EndPath(t, p, R)
        decreases c
      {
        Down(c, q, R);
        c, q := c.right, Frame(R, c.color, c.entry, c.left, q);
        Fields(c, q);
        Ends(c, q);
        highest := highest.right;
      }
      Ends(c, q);
    }

    /** The children of a focus are real objects. */
    lemma Ends(t: Tree<Entry?<K, V>>, p: Path<Entry?<K, V>>)
      requires Holds(t, p) && t.Node?
      ensures Ptr(t.left, sentinel) != null && Ptr(t.right, sentinel) != null
      ensures t.left.Node? ==> t.left.entry in repr
      ensures t.right.Node? ==> t.right.entry in repr
    {
      Down(t, p, L);
      Down(t, p, R);
    }

    method GetFirstEntry() returns (entry: Entry<K, V>)
      requires Valid()
      ensures entry == if order == [] then sentinel else order[0]
      ensures entry == sentinel ==> order == []
    {
      hide At, RB, IsComparator, Ascending, ItemsOf;
      OrderFacts();
      if tree.Node? {
        InorderEnds(tree);
      }
      entry := GetLowerEntry(root, tree, Top);
    }

    method GetLastEntry() returns (entry: Entry<K, V>)
      requires Valid()
      ensures entry == if order == [] then sentinel else order[|order| - 1]
      ensures entry == sentinel ==> order == []
    {
      hide At, RB, IsComparator, Ascending, ItemsOf;
      OrderFacts();
      if tree.Node? {
        InorderEnds(tree);
      }
      entry := GetHigherEntry(root, tree, Top);
    }

    method GetSuccessorEntry(start: Entry<K, V>, ghost i: nat) returns (next: Entry<K, V>)
      requires Valid() && i < |order| && start == order[i]
      ensures next == if i + 1 < |order| then order[i + 1] else sentinel
    {
      hide At, RB, IsComparator, Ascending, ItemsOf, End, EndPath, WithoutFirst, Plug;
      ghost var t, p, _ := Locate(start, i);
      Fields(t, p);
      Ends(t, p);
      InorderPlug(t, p);
      if start.right != sentinel {
        Down(t, p, R);
        InorderEnds(t.right);
        assert Inorder(t)[|Inorder(t.left)| + 1] == Inorder(t.right)[0];
        next := GetLowerEntry(start.right, t.right, Frame(R, t.color, t.entry, t.left, p));
        return;
      }
      var entry := start;
      if p.Frame? {
        Parent(t, p);
      }
      next := entry.parent;
      while next != sentinel && entry == next.right
        invariant Holds(t, p) && t.Node? && entry == t.entry && next == PathPtr(p, sentinel)
          && (next == sentinel <==> p.Top?)
        invariant p.Frame? ==> (next.right == entry <==> p.side == R)
        invariant Before(p) + Inorder(t) + After(p) == order && |Before(p)| + |Inorder(t)| == i + 1
        decreases p
      {
        StepOrder(t, p);
        Parent(t, p);
        t, p := Step(t, p), p.up;
        entry := next;
        Fields(t, p);
        if p.Frame? {
          Parent(t, p);
        }
        next := next.parent;
      }
      if p.Frame? {
        StepOrder(t, p);
      }
    }

    method GetPredecessorEntry(start: Entry<K, V>, ghost i: nat) returns (next: Entry<K, V>)
      requires Valid() && i < |order| && start == order[i]
      ensures next == if i > 0 then order[i - 1] else sentinel
    {
      hide At, RB, IsComparator, Ascending, ItemsOf, End, EndPath, WithoutFirst, Plug;
      ghost var t, p, _ := Locate(start, i);
      Fields(t, p);
      Ends(t, p);
      InorderPlug(t, p);
      if start.left != sentinel {
        Down(t, p, L);
        InorderEnds(t.left);
        assert Inorder(t)[|Inorder(t.left)| - 1] == Inorder(t.left)[|Inorder(t.left)| - 1];
        next := GetHigherEntry(start.left, t.left, Frame(L, t.color, t.entry, t.right, p));
        return;
      }
      var entry := start;
      if p.Frame? {
        Parent(t, p);
      }
      next := entry.parent;
      while next != sentinel && entry == next.left
        invariant Holds(t, p) && t.Node? && entry == t.entry && next == PathPtr(p, sentinel)
          && (next == sentinel <==> p.Top?)
        invariant p.Frame? ==> (next.left == entry <==> p.side == L)
        invariant Before(p) + Inorder(t) + After(p) == order && |Before(p)| == i
        decreases p
      {
        StepOrder(t, p);
        Parent(t, p);
        t, p := Step(t, p), p.up;
        entry := next;
        Fields(t, p);
        if p.Frame? {
          Parent(t, p);
        }
        next := next.parent;
      }
      if p.Frame? {
        StepOrder(t, p);
      }
    }

    // ---------- Removal ----------

    /** Puts `second` where `first` hangs, and points it at the parent, even when it is the sentinel. */
    method Transplant(first: Entry<K, V>, second: Entry<K, V>, ghost p: Path<Entry?<K, V>>)
      requires sentinel !in repr && second in repr + {sentinel} && first in repr && first != second
      requires first.parent == PathPtr(p, sentinel)
      requires p.Frame? ==>
        && p.entry in repr && p.entry != first && p.entry != second
        && (p.side == L <==> p.entry.left == first)
      modifies this`root, repr`left, repr`right, second`parent
      ensures second.parent == PathPtr(p, sentinel)
      ensures root == if p.Top? then second else old(root)
      ensures Rehung(old(Snap()), Snap(), p, second, {second})
      ensures second in repr ==> Snap()[second] == old(Snap())[second].(parent := PathPtr(p, sentinel))
    {
      if first.parent == sentinel {
        root := second;
      } else if first == first.parent.left {
        first.parent.left := second;
      } else {
        first.parent.right := second;
      }
      second.parent := first.parent;
    }

    /** Takes a node without a child on side `s` out of the tree. */
    method SpliceOut(entry: Entry<K, V>, child: Entry<K, V>, ghost t: Tree<Entry?<K, V>>, ghost p: Path<Entry?<K, V>>,
                     ghost s: Side)
      requires Holds(t, p) && t.Node? && Kid(t, s).Leaf? && entry == t.entry && child == Ptr(Kid(t, Other(s)), sentinel)
      modifies this`root, this`repr, repr`left, repr`right, repr`parent, sentinel`parent
      ensures repr == old(repr) - {entry} && Holds(Kid(t, Other(s)), p)
      ensures child.parent == PathPtr(p, sentinel)
    {
      hide At;
      ghost var before := Snap();
      Neighbours(before, t, p, sentinel);
      Transplant(entry, child, p);
      repr := repr - {entry};
      SpliceDone(before, Snap(), t, p, s, sentinel);
    }

    /** The writes that give `current` the parent, the left child and the colour of `entry`. */
    method Crown(entry: Entry<K, V>, current: Entry<K, V>, ghost p: Path<Entry?<K, V>>)
      requires sentinel !in repr && entry in repr && current in repr && entry != current
      requires entry.left != null && entry.left in repr && entry.left != entry && entry.left != current
      requires entry.parent == PathPtr(p, sentinel)
      requires p.Frame? ==>
        && p.entry in repr && p.entry != entry && p.entry != current && p.entry != entry.left
        && (p.side == L <==> p.entry.left == entry)
      modifies this`root, repr`left, repr`right, repr`parent, repr`color
      ensures root == if p.Top? then current else old(root)
      ensures var m, m', l := old(Snap()), Snap(), old(entry.left);
        && m'[current] == Cell(m[entry].color, m[entry].parent, l, m[current].right)
        && m'[l] == m[l].(parent := current)
        && Rehung(m, m', p, current, {current, l})
    {
      ghost var m := Snap();
      Transplant(entry, current, p);
      assert Snap()[entry] == m[entry];
      current.left := entry.left;
      current.left.parent := current;
      current.color := entry.color;
    }

    /** `current`, already cut out of the tree, takes over the place of `entry`. `m` is the tree without `current`. */
    method TakePlace(entry: Entry<K, V>, current: Entry<K, V>, ghost m: map<Entry?<K, V>, Cell<Entry?<K, V>>>,
                     ghost t: Tree<Entry?<K, V>>, ghost p: Path<Entry?<K, V>>)
      requires At(m, t, p, sentinel) && root == PathRoot(p, entry) && sentinel !in repr
      requires t.Node? && t.left.Node? && t.entry == entry && current in repr && m.Keys == repr - {current}
      requires entry.parent == PathPtr(p, sentinel) && entry.left == t.left.entry && entry.color == t.color
      requires current.right == Ptr(t.right, sentinel)
      requires t.right.Node? ==> t.right.entry in m && Snap()[t.right.entry] == m[t.right.entry].(parent := current)
      requires forall k | k in m && k != entry && k != Ptr(t.right, sentinel) :: Snap()[k] == m[k]
      modifies this`root, this`repr, repr`left, repr`right, repr`parent, repr`color
      ensures repr == old(repr) - {entry} && Holds(t.(entry := current), p)
    {
      hide At, PathRoot;
      Neighbours(m, t, p, sentinel);
      NewRoot(p, entry, current);
      Crown(entry, current, p);
      ghost var after := Snap() - {entry};
      ReplaceDone(m, after, t, p, current, sentinel);
      repr := repr - {entry};
      assert Snap() == after;
    }

    lemma NewRoot(p: Path<Entry?<K, V>>, hole: Entry<K, V>, hole': Entry<K, V>)
      ensures PathRoot(p, hole') == if p.Top? then hole' else PathRoot(p, hole)
    {
    }

    /** The writes that take the successor `current` out of its old place and give it the right subtree of `entry`. */
    method Detach(entry: Entry<K, V>, current: Entry<K, V>, auxiliar: Entry<K, V>, ghost e: Tree<Entry?<K, V>>,
                  ghost q: Path<Entry?<K, V>>)
      requires sentinel !in repr && entry in repr && current in repr && entry != current
      requires e.Node? && current == e.entry && current.right == auxiliar && auxiliar == Ptr(e.right, sentinel)
      requires auxiliar in repr + {sentinel} && auxiliar != current && auxiliar != entry
      requires q.Frame? && q.entry in repr && current.parent == q.entry && q.entry != current && q.entry != auxiliar
      requires q.entry != entry ==> q.side == L && q.entry.left == current
      requires q.entry == entry ==> q.side == R
      requires entry.right != null && entry.right in repr && entry.right != entry
      requires if current.parent == entry then entry.right == current
        else entry.right != current && entry.right != auxiliar
      modifies repr`left, repr`right, repr`parent, sentinel`parent, this`root
      ensures root == old(root) && entry.parent == old(entry.parent)
      ensures entry.left == old(entry.left) && entry.color == old(entry.color)
      ensures auxiliar.parent == if q.entry == entry then current else q.entry
      ensures var m1 := SpliceMap(old(Snap()), e, q, L, sentinel);
        if q.entry == entry then
          && current.right == auxiliar
          && (auxiliar != sentinel ==> Snap()[auxiliar] == m1[auxiliar].(parent := current))
          && forall k | k in m1 && k != entry && k != auxiliar :: Snap()[k] == m1[k]
        else
          && current.right == old(entry.right) && Snap()[current.right] == m1[current.right].(parent := current)
          && forall k | k in m1 && k != current.right :: Snap()[k] == m1[k]
    {
      ghost var m := Snap();
      assert m[entry].left == entry.left && m[current].parent == current.parent;
      if current.parent == entry {
        auxiliar.parent := current;
      } else {
        Transplant(current, current.right, q);
        assert Snap()[entry] == m[entry];
        current.right := entry.right;
        current.right.parent := current;
      }
    }

    /** Cuts out a node with two children; its in-order successor takes its place. */
    method Replace(entry: Entry<K, V>, current: Entry<K, V>, auxiliar: Entry<K, V>, ghost t: Tree<Entry?<K, V>>,
                   ghost p: Path<Entry?<K, V>>)
      requires Holds(t, p) && t.Node? && t.left.Node? && t.right.Node? && entry == t.entry
      requires current == End(t.right, L).entry && auxiliar == Ptr(End(t.right, L).right, sentinel)
      modifies this`root, this`repr, repr`left, repr`right, repr`parent, repr`color, sentinel`parent
      ensures repr == old(repr) - {entry}
      ensures Holds(End(t.right, L).right, EndPath(t.right, Frame(R, t.color, current, t.left, p), L))
      ensures auxiliar.parent == PathPtr(EndPath(t.right, Frame(R, t.color, current, t.left, p), L), sentinel)
    {
      hide At, Nodes, PathNodes, Distinct, SpliceMap, End, EndPath, WithoutFirst, PathRoot;
      ghost var r, base, base' := t.right, Frame(R, t.color, t.entry, t.left, p), Frame(R, t.color, current, t.left, p);
      ghost var t' := t.(right := WithoutFirst(r));
      ghost var e, q, m := End(r, L), EndPath(r, base, L), Snap();
      Down(t, p, R);
      EndAt(m, r, base, L, sentinel);
      SpliceMapAt(m, e, q, L, sentinel);
      ghost var m1 := SpliceMap(m, e, q, L, sentinel);
      WithoutFirstAt(m1, r, base, sentinel);
      MoveUp(m1, WithoutFirst(r), base, sentinel);
      Neighbours(m, t, p, sentinel);
      Neighbours(m, e, q, sentinel);
      EndPlace(r, base);
      EndPlace(r, base');
      if r.left.Node? {
        EndPathPtr(r, base, base');
      }
      ChildNodes(m, t, p, sentinel);
      Detach(entry, current, auxiliar, e, q);
      TakePlace(entry, current, m1, t', p);
      Down(t'.(entry := current), p, R);
      WithoutFirstAt(Snap(), r, base', sentinel);
      EndRoot(r, base', auxiliar, Ptr(WithoutFirst(r), sentinel));
      if e.right.Node? {
        Fields(e.right, EndPath(r, base', L));
      }
    }

    /** Takes the node of the focus out of the tree and rebalances. */
    method Unlink(entry: Entry<K, V>, ghost t: Tree<Entry?<K, V>>, ghost p: Path<Entry?<K, V>>, ghost h: int)
      requires Holds(t, p) && Sound(t, p, h) && t.Node? && entry == t.entry && sentinel.color == Black
      modifies this`root, this`repr, this`tree, repr`left, repr`right, repr`parent, repr`color,
               sentinel`parent, sentinel`color
      ensures Holds(tree, Top) && RedBlack(tree) && repr == old(repr) - {entry} && sentinel.color == Black
      ensures var before, i := Inorder(Plug(t, p)), |Before(p)| + |Inorder(t.left)|;
        i < |before| && before[i] == entry && Inorder(tree) == before[..i] + before[i + 1..]
    {
      hide At, RB, Inorder, Plug, Before, After, Fits, End, EndPath, WithoutFirst;
      var current, color, auxiliar := entry, entry.color, sentinel;
      ghost var t', p', k := t, p, h;
      Fields(t, p);
      Ends(t, p);
      RemoveOrder(t, p);
      if entry.left == sentinel {
        auxiliar := entry.right;
        SpliceSound(t, p, h, L);
        SpliceOut(entry, entry.right, t, p, L);
        t' := t.right;
      } else if entry.right == sentinel {
        auxiliar := entry.left;
        SpliceSound(t, p, h, R);
        SpliceOut(entry, entry.left, t, p, R);
        t' := t.left;
      } else {
        ghost var base := Frame(R, t.color, t.entry, t.left, p);
        Down(t, p, R);
        current := GetLowerEntry(entry.right, t.right, base);
        Fields(End(t.right, L), EndPath(t.right, base, L));
        Ends(End(t.right, L), EndPath(t.right, base, L));
        color, auxiliar := current.color, current.right;
        Replace(entry, current, auxiliar, t, p);
        base := base.(entry := current);
        DownSoundAs(t, p, h, R, current);
        k := EndSound(t.right, base, if t.color == Black then h - 1 else h, L);
        SpliceSound(End(t.right, L), EndPath(t.right, base, L), k, L);
        PlugWithoutFirst(t.right, base);
        DownOrder(t.(entry := current, right := WithoutFirst(t.right)), p, R);
        t', p' := End(t.right, L).right, EndPath(t.right, base, L);
      }
      if color == Black {
        tree := RebalanceAfterDelete(auxiliar, t', p', k - 1);
      } else {
        tree := Plug(t', p');
        ToTop(t', p');
        PlugSound(t', p', k);
      }
    }

    /** Removes an entry; all other entry objects keep their keys, values and order. */
    method RemoveEntry(entry: Entry<K, V>, ghost i: nat) returns (view: (K, V))
      requires Valid() && i < |order| && entry == order[i]
      modifies this, repr, sentinel
      ensures Valid() && order == Without(old(order), i) && repr == old(repr) - {entry}
      ensures view == old(Items()[i]) && Items() == Without(old(Items()), i)
    {
      hide At, IsComparator, RB, Plug, Inorder, Before, After, Ascending, ItemsOf;
      OrderFacts();
      ghost var items := Items();
      ghost var t, p, h := Locate(entry, i);
      view := (entry.key, entry.value);
      Unlink(entry, t, p, h);
      size := size - 1;
      order := order[..i] + order[i + 1..];
      assert Items() == Without(items, i);
      RemoveAscendingAt(items, i, compare);
    }
  }
}
