/** The AVL tree of boltons/treeutils.py with one key and at most one value
    per node (`key_size` 1, `val_size` 0 or 1; the value type `V` is `()`
    for `val_size` 0). Each node stores its own height; equal keys go right
    on insertion. The tree is a value; the node stack that `insert`,
    `delete` and `_rebalance` keep is a list of frames, each frame being a
    node on the path with the slot the walk continued into left open. */
module TreeUtils {
  import opened Wrappers

  datatype Node<V> = Nil | Node(left: Node<V>, key: int, val: V, right: Node<V>, height: int)

  /** A node's key and value as the traversal yields them. */
  datatype Entry<V> = Entry(key: int, val: V)

  function Max(a: int, b: int): int {
    if a < b then b else a
  }

  /** `node and node[H] or 0`: the stored height, 0 for a missing child. */
  function H<V>(t: Node<V>): int {
    if t.Nil? then 0 else t.height
  }

  /** A node whose height is recomputed from its children:
      `max(0, left height, right height) + 1`. */
  function MakeNode<V>(l: Node<V>, k: int, v: V, r: Node<V>): Node<V> {
    Node(l, k, v, r, Max(0, Max(H(l), H(r))) + 1)
  }

  /** Every stored height is right and no node's children differ in height
      by more than one. */
  ghost predicate AVL<V>(t: Node<V>) {
    match t
    case Nil => true
    case Node(l, _, _, r, h) =>
      && AVL(l) && AVL(r)
      && h == Max(0, Max(H(l), H(r))) + 1
      && -1 <= H(l) - H(r) <= 1
  }

  /** The in-order traversal: what `_iternodes` yields. */
  function InOrder<V>(t: Node<V>): seq<Entry<V>> {
    match t
    case Nil => []
    case Node(l, k, v, r, _) => InOrder(l) + [Entry(k, v)] + InOrder(r)
  }

  ghost predicate Sorted<V>(s: seq<Entry<V>>) {
    forall i, j :: 0 <= i < j < |s| ==> s[i].key <= s[j].key
  }

  lemma AVLHeight<V>(t: Node<V>)
    requires AVL(t)
    ensures H(t) >= 0 && (H(t) == 0 <==> t.Nil?)
  {
  }

  lemma NilIffEmpty<V>(t: Node<V>)
    ensures t.Nil? <==> InOrder(t) == []
  {
  }

  lemma SortedParts<V>(a: seq<Entry<V>>, x: Entry<V>, b: seq<Entry<V>>)
    requires Sorted(a + [x] + b)
    ensures Sorted(a) && Sorted(b)
    ensures forall e :: e in a ==> e.key <= x.key
    ensures forall e :: e in b ==> x.key <= e.key
  {
    var s := a + [x] + b;
    forall i, j | 0 <= i < j < |a|
      ensures a[i].key <= a[j].key
    {
      assert s[i] == a[i] && s[j] == a[j];
    }
    forall i, j | 0 <= i < j < |b|
      ensures b[i].key <= b[j].key
    {
      assert s[|a| + 1 + i] == b[i] && s[|a| + 1 + j] == b[j];
    }
    forall e | e in a
      ensures e.key <= x.key
    {
      var i :| 0 <= i < |a| && a[i] == e;
      assert s[i] == e && s[|a|] == x;
    }
    forall e | e in b
      ensures x.key <= e.key
    {
      var i :| 0 <= i < |b| && b[i] == e;
      assert s[|a| + 1 + i] == e && s[|a|] == x;
    }
  }

  /** The heavy side's child after the optional first rotation of a double
      rotation; for a left-heavy node `n` with left child `c`, the source
      makes `c`'s right child `g` the new child, with `c` as its left. */
  function LeftChild<V>(c: Node<V>): Node<V>
    requires AVL(c) && c.Node?
  {
    AVLHeight(c.left);
    if H(c.left) - H(c.right) < 0 then
      var g := c.right;
      Node(MakeNode(c.left, c.key, c.val, g.left), g.key, g.val, g.right, g.height)
    else c
  }

  function RightChild<V>(c: Node<V>): Node<V>
    requires AVL(c) && c.Node?
  {
    AVLHeight(c.right);
    if H(c.left) - H(c.right) > 0 then
      var g := c.left;
      Node(g.left, g.key, g.val, MakeNode(g.right, c.key, c.val, c.right), g.height)
    else c
  }

  /** One pass of `_rebalance`'s inner loop at a node whose children may
      differ in height by two: the node's height is recomputed and, when it
      is out of balance, it is rotated toward the lighter side, first
      rotating the heavy child when that child leans the other way. */
  function Fix<V>(l: Node<V>, k: int, v: V, r: Node<V>): Node<V>
    requires AVL(l) && AVL(r)
  {
    AVLHeight(l);
    AVLHeight(r);
    var balance := H(l) - H(r);
    if -2 < balance < 2 then MakeNode(l, k, v, r)
    else if balance > 0 then
      var child := LeftChild(l);
      MakeNode(child.left, child.key, child.val, MakeNode(child.right, k, v, r))
    else
      var child := RightChild(r);
      MakeNode(MakeNode(l, k, v, child.left), child.key, child.val, child.right)
  }

  /** A node built from balanced children is balanced. */
  lemma Make<V>(l: Node<V>, k: int, v: V, r: Node<V>)
    requires AVL(l) && AVL(r) && -1 <= H(l) - H(r) <= 1
    ensures AVL(MakeNode(l, k, v, r))
    ensures H(MakeNode(l, k, v, r)) == Max(H(l), H(r)) + 1
    ensures InOrder(MakeNode(l, k, v, r)) == InOrder(l) + [Entry(k, v)] + InOrder(r)
  {
    AVLHeight(l);
  }

  lemma LeftChildSpec<V>(c: Node<V>)
    requires AVL(c) && c.Node?
    ensures var d := LeftChild(c);
      && d.Node? && AVL(d.left) && AVL(d.right)
      && InOrder(d.left) + [Entry(d.key, d.val)] + InOrder(d.right) == InOrder(c)
      && H(d.left) == H(c) - 1 && H(c) - 3 <= H(d.right) <= H(c) - 1
  {
    AVLHeight(c.left);
    AVLHeight(c.right);
    if H(c.left) - H(c.right) < 0 {
      var g := c.right;
      AVLHeight(g.left);
      AVLHeight(g.right);
      Make(c.left, c.key, c.val, g.left);
      assert InOrder(c) == InOrder(c.left) + [Entry(c.key, c.val)] + InOrder(g.left) + [Entry(g.key, g.val)] + InOrder(g.right);
    }
  }

  lemma RightChildSpec<V>(c: Node<V>)
    requires AVL(c) && c.Node?
    ensures var d := RightChild(c);
      && d.Node? && AVL(d.left) && AVL(d.right)
      && InOrder(d.left) + [Entry(d.key, d.val)] + InOrder(d.right) == InOrder(c)
      && H(d.right) == H(c) - 1 && H(c) - 3 <= H(d.left) <= H(c) - 1
  {
    AVLHeight(c.left);
    AVLHeight(c.right);
    if H(c.left) - H(c.right) > 0 {
      var g := c.left;
      AVLHeight(g.left);
      AVLHeight(g.right);
      Make(g.right, c.key, c.val, c.right);
      assert InOrder(c) == InOrder(g.left) + [Entry(g.key, g.val)] + InOrder(g.right) + [Entry(c.key, c.val)] + InOrder(c.right);
    }
  }

  lemma LeftHeavy<V>(l: Node<V>, k: int, v: V, r: Node<V>)
    requires AVL(l) && AVL(r) && H(l) - H(r) == 2
    ensures AVL(Fix(l, k, v, r))
    ensures InOrder(Fix(l, k, v, r)) == InOrder(l) + [Entry(k, v)] + InOrder(r)
    ensures H(l) <= H(Fix(l, k, v, r)) <= H(l) + 1
  {
    AVLHeight(r);
    AVLHeight(l);
    LeftChildSpec(l);
    var d := LeftChild(l);
    var n := MakeNode(d.right, k, v, r);
    assert Fix(l, k, v, r) == MakeNode(d.left, d.key, d.val, n);
    Make(d.right, k, v, r);
    Make(d.left, d.key, d.val, n);
    var a, y, b, x, c := InOrder(d.left), Entry(d.key, d.val), InOrder(d.right), Entry(k, v), InOrder(r);
    assert InOrder(l) == a + [y] + b;
    assert a + [y] + (b + [x] + c) == (a + [y] + b) + [x] + c;
  }

  /** The single rotation to the left that ends every right-heavy fix:
      `d` is the right child after the optional first rotation. */
  lemma RotateLeft<V>(l: Node<V>, k: int, v: V, d: Node<V>)
    requires d.Node? && AVL(l) && AVL(d.left) && AVL(d.right)
    requires H(l) >= 0 && H(d.right) == H(l) + 1 && H(l) - 1 <= H(d.left) <= H(l) + 1
    ensures AVL(MakeNode(MakeNode(l, k, v, d.left), d.key, d.val, d.right))
    ensures InOrder(MakeNode(MakeNode(l, k, v, d.left), d.key, d.val, d.right))
      == InOrder(l) + [Entry(k, v)] + (InOrder(d.left) + [Entry(d.key, d.val)] + InOrder(d.right))
    ensures H(l) + 2 <= H(MakeNode(MakeNode(l, k, v, d.left), d.key, d.val, d.right)) <= H(l) + 3
  {
    var n := MakeNode(l, k, v, d.left);
    Make(l, k, v, d.left);
    Make(n, d.key, d.val, d.right);
  }

  lemma RightHeavy<V>(l: Node<V>, k: int, v: V, r: Node<V>)
    requires AVL(l) && AVL(r) && H(r) - H(l) == 2
    ensures AVL(Fix(l, k, v, r))
    ensures InOrder(Fix(l, k, v, r)) == InOrder(l) + [Entry(k, v)] + InOrder(r)
    ensures H(r) <= H(Fix(l, k, v, r)) <= H(r) + 1
  {
    AVLHeight(r);
    AVLHeight(l);
    RightChildSpec(r);
    var d := RightChild(r);
    assert Fix(l, k, v, r) == MakeNode(MakeNode(l, k, v, d.left), d.key, d.val, d.right);
    RotateLeft(l, k, v, d);
  }

  /** A rebalanced node is an AVL tree with the same traversal. Its height is
      the recomputed one when no rotation was needed, and otherwise the
      taller child's height or one more. Balance at the node left below
      the new top is part of `AVL`, which is why the inner `while 1` loop
      ends after one rotation. */
  lemma FixSpec<V>(l: Node<V>, k: int, v: V, r: Node<V>)
    requires AVL(l) && AVL(r) && -2 <= H(l) - H(r) <= 2
    ensures AVL(Fix(l, k, v, r))
    ensures InOrder(Fix(l, k, v, r)) == InOrder(l) + [Entry(k, v)] + InOrder(r)
    ensures -1 <= H(l) - H(r) <= 1 ==> H(Fix(l, k, v, r)) == Max(H(l), H(r)) + 1
    ensures Max(H(l), H(r)) <= H(Fix(l, k, v, r)) <= Max(H(l), H(r)) + 1
  {
    AVLHeight(l);
    AVLHeight(r);
    if H(l) - H(r) == 2 {
      LeftHeavy(l, k, v, r);
    } else if H(r) - H(l) == 2 {
      RightHeavy(l, k, v, r);
    }
  }

  datatype Side = Left | Right

  /** A node on the stack, with the slot on `side` open: the walk went
      down that side, and the rebuilt subtree goes back there. */
  datatype Frame<V> = Frame(side: Side, key: int, val: V, sibling: Node<V>, height: int)

  function Plug<V>(f: Frame<V>, t: Node<V>): Node<V> {
    if f.side == Left then Node(t, f.key, f.val, f.sibling, f.height)
    else Node(f.sibling, f.key, f.val, t, f.height)
  }

  /** The tree with `t` put back in the open slot of the deepest frame, and
      so on up to the root (the first frame). */
  function Fill<V>(fs: seq<Frame<V>>, t: Node<V>): Node<V>
    decreases |fs|
  {
    if fs == [] then t else Fill(fs[..|fs| - 1], Plug(fs[|fs| - 1], t))
  }

  /** What the traversal yields before and after the open slot. */
  function Before<V>(fs: seq<Frame<V>>): seq<Entry<V>>
    decreases |fs|
  {
    if fs == [] then []
    else
      var f := fs[|fs| - 1];
      Before(fs[..|fs| - 1]) + (if f.side == Left then [] else InOrder(f.sibling) + [Entry(f.key, f.val)])
  }

  function After<V>(fs: seq<Frame<V>>): seq<Entry<V>>
    decreases |fs|
  {
    if fs == [] then []
    else
      var f := fs[|fs| - 1];
      (if f.side == Left then [Entry(f.key, f.val)] + InOrder(f.sibling) else []) + After(fs[..|fs| - 1])
  }

  lemma {:induction false} FillOrder<V>(fs: seq<Frame<V>>, t: Node<V>)
    ensures InOrder(Fill(fs, t)) == Before(fs) + InOrder(t) + After(fs)
    decreases |fs|
  {
    if fs != [] {
      var f := fs[|fs| - 1];
      var init := fs[..|fs| - 1];
      FillOrder(init, Plug(f, t));
      var b, a, m := Before(init), After(init), InOrder(t);
      if f.side == Left {
        var y := [Entry(f.key, f.val)] + InOrder(f.sibling);
        assert InOrder(Plug(f, t)) == m + y;
        assert Before(fs) == b + [] && After(fs) == y + a;
        RegroupLeft(b, m, y, a);
      } else {
        var x := InOrder(f.sibling) + [Entry(f.key, f.val)];
        assert InOrder(Plug(f, t)) == x + m;
        assert Before(fs) == b + x && After(fs) == [] + a;
        RegroupRight(b, x, m, a);
      }
    }
  }

  lemma RegroupLeft<V>(b: seq<Entry<V>>, m: seq<Entry<V>>, y: seq<Entry<V>>, a: seq<Entry<V>>)
    ensures b + (m + y) + a == (b + []) + m + (y + a)
  {
  }

  lemma RegroupRight<V>(b: seq<Entry<V>>, x: seq<Entry<V>>, m: seq<Entry<V>>, a: seq<Entry<V>>)
    ensures b + (x + m) + a == (b + x) + m + ([] + a)
  {
  }

  lemma {:induction false} BeforeAfterAppend<V>(fs: seq<Frame<V>>, gs: seq<Frame<V>>)
    ensures Before(fs + gs) == Before(fs) + Before(gs)
    ensures After(fs + gs) == After(gs) + After(fs)
    decreases |gs|
  {
    if gs == [] {
      assert fs + gs == fs;
    } else {
      var g := gs[|gs| - 1];
      var init := gs[..|gs| - 1];
      FramesSplit(fs, gs);
      BeforeAfterAppend(fs, init);
      var xb := if g.side == Left then [] else InOrder(g.sibling) + [Entry(g.key, g.val)];
      var xa := if g.side == Left then [Entry(g.key, g.val)] + InOrder(g.sibling) else [];
      assert Before(fs + gs) == (Before(fs) + Before(init)) + xb;
      assert Before(gs) == Before(init) + xb;
      assert After(fs + gs) == xa + (After(init) + After(fs));
      assert After(gs) == xa + After(init);
      EntriesAssoc(Before(fs), Before(init), xb);
      EntriesAssoc(xa, After(init), After(fs));
    }
  }

  lemma FramesSplit<V>(fs: seq<Frame<V>>, gs: seq<Frame<V>>)
    requires gs != []
    ensures (fs + gs)[..|fs + gs| - 1] == fs + gs[..|gs| - 1]
    ensures (fs + gs)[|fs + gs| - 1] == gs[|gs| - 1]
  {
  }

  lemma EntriesAssoc<V>(a: seq<Entry<V>>, b: seq<Entry<V>>, c: seq<Entry<V>>)
    ensures (a + b) + c == a + (b + c)
  {
  }

  /** The frames are the path of an AVL tree down to a slot that held a
      subtree of height `hole`: every sibling is AVL and every frame's
      stored height is right for, and balanced with, the subtree it held. */
  ghost predicate PathOk<V>(fs: seq<Frame<V>>, hole: int)
    decreases |fs|
  {
    fs != [] ==>
      var f := fs[|fs| - 1];
      && AVL(f.sibling)
      && -1 <= hole - H(f.sibling) <= 1
      && f.height == Max(0, Max(hole, H(f.sibling))) + 1
      && PathOk(fs[..|fs| - 1], f.height)
  }

  /** Going one step down from an AVL subtree keeps the path condition. */
  lemma PathPush<V>(fs: seq<Frame<V>>, t: Node<V>, side: Side)
    requires PathOk(fs, H(t)) && AVL(t) && t.Node?
    ensures var f := Frame(side, t.key, t.val, if side == Left then t.right else t.left, t.height);
      var next := if side == Left then t.left else t.right;
      && PathOk(fs + [f], H(next)) && AVL(next)
      && Fill(fs + [f], next) == Fill(fs, t)
  {
    var f := Frame(side, t.key, t.val, if side == Left then t.right else t.left, t.height);
    assert (fs + [f])[..|fs|] == fs;
  }

  /** `_rebalance` popping one node: the subtree is put back in its slot and
      that node is fixed. */
  function FixAt<V>(f: Frame<V>, t: Node<V>): Node<V>
    requires AVL(t) && AVL(f.sibling)
  {
    if f.side == Left then Fix(t, f.key, f.val, f.sibling) else Fix(f.sibling, f.key, f.val, t)
  }

  lemma FixAtSpec<V>(f: Frame<V>, t: Node<V>, hole: int)
    requires AVL(t) && AVL(f.sibling) && -1 <= hole - H(f.sibling) <= 1
    requires f.height == Max(0, Max(hole, H(f.sibling))) + 1
    requires -1 <= H(t) - hole <= 1
    ensures AVL(FixAt(f, t)) && InOrder(FixAt(f, t)) == InOrder(Plug(f, t))
    ensures -1 <= H(FixAt(f, t)) - f.height <= 1
  {
    AVLHeight(t);
    AVLHeight(f.sibling);
    if f.side == Left {
      FixSpec(t, f.key, f.val, f.sibling);
    } else {
      FixSpec(f.sibling, f.key, f.val, t);
    }
  }

  /** `_rebalance(stack)`: pops the frames deepest first, fixing each node
      on the way up. The result is an AVL tree with the same traversal as
      the tree the frames and `t0` make up. */
  method Rebalance<V>(fs: seq<Frame<V>>, t0: Node<V>, ghost hole: int) returns (t: Node<V>)
    requires PathOk(fs, hole) && AVL(t0) && -1 <= H(t0) - hole <= 1
    ensures AVL(t) && InOrder(t) == InOrder(Fill(fs, t0))
  {
    var stack := fs;
    t := t0;
    ghost var h := hole;
    while stack != []
      invariant PathOk(stack, h) && AVL(t) && -1 <= H(t) - h <= 1
      invariant InOrder(Fill(stack, t)) == InOrder(Fill(fs, t0))
      decreases |stack|
    {
      var f := stack[|stack| - 1];
      var rest := stack[..|stack| - 1];
      FixAtSpec(f, t, h);
      FillOrder(rest, Plug(f, t));
      FillOrder(rest, FixAt(f, t));
      t := FixAt(f, t);
      h := f.height;
      stack := rest;
    }
  }

  ghost predicate HasKey<V>(s: seq<Entry<V>>, k: int) {
    exists e :: e in s && e.key == k
  }

  /** Where an item lands in a sorted traversal when equal keys go right:
      after every entry whose key is not larger. */
  function SortedInsert<V>(s: seq<Entry<V>>, x: Entry<V>): (r: seq<Entry<V>>)
    ensures |r| == |s| + 1
  {
    if s == [] then [x]
    else if x.key < s[0].key then [x] + s
    else [s[0]] + SortedInsert(s[1..], x)
  }

  /** The number of leading entries whose key is not larger than `k`. */
  function UpperBound<V>(s: seq<Entry<V>>, k: int): (u: nat)
    ensures u <= |s| && forall i :: 0 <= i < u ==> s[i].key <= k
    ensures u < |s| ==> k < s[u].key
  {
    if s == [] || k < s[0].key then 0 else 1 + UpperBound(s[1..], k)
  }

  lemma {:induction false} SortedInsertSplit<V>(s: seq<Entry<V>>, x: Entry<V>)
    ensures SortedInsert(s, x) == s[..UpperBound(s, x.key)] + [x] + s[UpperBound(s, x.key)..]
    decreases |s|
  {
    if s != [] && x.key >= s[0].key {
      SortedInsertSplit(s[1..], x);
      var u := UpperBound(s[1..], x.key);
      assert s[1..][..u] == s[1..u + 1];
      assert s[..u + 1] == [s[0]] + s[1..u + 1];
      assert s[1..][u..] == s[u + 1..];
    }
  }

  lemma SortedJoin<V>(a: seq<Entry<V>>, x: Entry<V>, b: seq<Entry<V>>)
    requires Sorted(a) && Sorted(b)
    requires forall i :: 0 <= i < |a| ==> a[i].key <= x.key
    requires forall i :: 0 <= i < |b| ==> x.key <= b[i].key
    ensures Sorted(a + [x] + b)
  {
    var r := a + [x] + b;
    forall i, j | 0 <= i < j < |r|
      ensures r[i].key <= r[j].key
    {
      if j < |a| {
        assert r[i] == a[i] && r[j] == a[j];
      } else if i < |a| {
        assert r[i] == a[i];
        if j > |a| {
          assert r[j] == b[j - |a| - 1];
        }
      } else if i > |a| {
        assert r[i] == b[i - |a| - 1] && r[j] == b[j - |a| - 1];
      } else {
        assert r[j] == b[j - |a| - 1];
      }
    }
  }

  /** A sorted traversal cut where the keys pass `k`. */
  lemma SortedCut<V>(s: seq<Entry<V>>, u: nat, k: int)
    requires Sorted(s) && u <= |s|
    requires forall i :: 0 <= i < u ==> s[i].key <= k
    requires u < |s| ==> k < s[u].key
    ensures Sorted(s[..u]) && Sorted(s[u..])
    ensures forall i :: u <= i < |s| ==> k < s[i].key
  {
    forall i | u <= i < |s|
      ensures k < s[i].key
    {
      assert s[u].key <= s[i].key;
    }
  }

  /** Equal keys keep insertion order: the new entry goes after all the
      entries with the same key and before every larger key. */
  lemma SortedInsertAt<V>(s: seq<Entry<V>>, x: Entry<V>)
    requires Sorted(s)
    ensures var u := UpperBound(s, x.key);
      && SortedInsert(s, x) == s[..u] + [x] + s[u..]
      && (forall i :: 0 <= i < u ==> s[i].key <= x.key)
      && (forall i :: u <= i < |s| ==> x.key < s[i].key)
      && Sorted(SortedInsert(s, x))
  {
    var u := UpperBound(s, x.key);
    SortedInsertSplit(s, x);
    SortedCut(s, u, x.key);
    var a, b := s[..u], s[u..];
    assert forall i :: 0 <= i < |a| ==> a[i].key <= x.key;
    assert forall i :: 0 <= i < |b| ==> x.key <= b[i].key by {
      forall i | 0 <= i < |b|
        ensures x.key <= b[i].key
      {
        assert b[i] == s[u + i];
      }
    }
    SortedJoin(a, x, b);
  }

  lemma {:induction false} InsertBetween<V>(a: seq<Entry<V>>, b: seq<Entry<V>>, x: Entry<V>)
    requires forall e :: e in a ==> e.key <= x.key
    requires forall e :: e in b ==> x.key < e.key
    ensures SortedInsert(a + b, x) == a + [x] + b
    decreases |a|
  {
    if a == [] {
      assert a + b == b;
      if b != [] {
        assert b[0] in b;
      }
    } else {
      assert (a + b)[0] == a[0] && (a + b)[1..] == a[1..] + b;
      assert a[0] in a;
      InsertBetween(a[1..], b, x);
    }
  }

  /** A step down the tree from a node with sorted traversal, to the side
      the walk takes, and what it adds before and after the open slot. */
  lemma Descend<V>(fs: seq<Frame<V>>, t: Node<V>, side: Side)
    requires t.Node? && Sorted(InOrder(t))
    ensures var f := Frame(side, t.key, t.val, if side == Left then t.right else t.left, t.height);
      && Before(fs + [f]) == Before(fs) + (if side == Left then [] else InOrder(t.left) + [Entry(t.key, t.val)])
      && After(fs + [f]) == (if side == Left then [Entry(t.key, t.val)] + InOrder(t.right) else []) + After(fs)
    ensures Sorted(InOrder(t.left)) && Sorted(InOrder(t.right))
    ensures forall e :: e in InOrder(t.left) ==> e.key <= t.key
    ensures forall e :: e in InOrder(t.right) ==> t.key <= e.key
  {
    var f := Frame(side, t.key, t.val, if side == Left then t.right else t.left, t.height);
    assert (fs + [f])[..|fs|] == fs;
    SortedParts(InOrder(t.left), Entry(t.key, t.val), InOrder(t.right));
  }

  /** The walk of `insert`, which keeps every entry before the open slot
      no larger than the key, and every entry after it larger. */
  ghost predicate InsertWalk<V>(root: Node<V>, fs: seq<Frame<V>>, cur: Node<V>, k: int) {
    && PathOk(fs, H(cur)) && AVL(cur) && Fill(fs, cur) == root
    && Sorted(InOrder(cur))
    && (forall e :: e in Before(fs) ==> e.key <= k)
    && (forall e :: e in After(fs) ==> k < e.key)
  }

  lemma InsertWalkStep<V>(root: Node<V>, fs: seq<Frame<V>>, cur: Node<V>, k: int)
    requires InsertWalk(root, fs, cur, k) && cur.Node?
    ensures var side := if k < cur.key then Left else Right;
      var f := Frame(side, cur.key, cur.val, if side == Left then cur.right else cur.left, cur.height);
      InsertWalk(root, fs + [f], if side == Left then cur.left else cur.right, k)
  {
    var side := if k < cur.key then Left else Right;
    PathPush(fs, cur, side);
    Descend(fs, cur, side);
  }

  lemma FillEmpty<V>(fs: seq<Frame<V>>)
    ensures InOrder(Fill(fs, Nil)) == Before(fs) + After(fs)
  {
    FillOrder(fs, Nil);
    assert Before(fs) + [] + After(fs) == Before(fs) + After(fs);
  }

  lemma FillLeaf<V>(fs: seq<Frame<V>>, k: int, v: V)
    ensures InOrder(Fill(fs, Node(Nil, k, v, Nil, 1))) == Before(fs) + [Entry(k, v)] + After(fs)
  {
    FillOrder(fs, Node(Nil, k, v, Nil, 1));
  }

  /** The walk has reached an empty slot: the new leaf placed there gives
      the stable sorted insertion. */
  lemma InsertLands<V>(fs: seq<Frame<V>>, k: int, v: V)
    requires forall e :: e in Before(fs) ==> e.key <= k
    requires forall e :: e in After(fs) ==> k < e.key
    ensures InOrder(Fill(fs, Node(Nil, k, v, Nil, 1))) == SortedInsert(InOrder(Fill(fs, Nil)), Entry(k, v))
  {
    FillEmpty(fs);
    FillLeaf(fs, k, v);
    InsertBetween(Before(fs), After(fs), Entry(k, v));
  }

  /** `insert`: walk down from the root, going left when the key is
      smaller and right otherwise, hang the new leaf in the empty slot
      reached, and rebalance the path. */
  method InsertNode<V>(root: Node<V>, k: int, v: V) returns (t: Node<V>)
    requires AVL(root) && Sorted(InOrder(root))
    ensures AVL(t) && InOrder(t) == SortedInsert(InOrder(root), Entry(k, v))
  {
    var item := Node(Nil, k, v, Nil, 1);
    if root.Nil? {
      return item;
    }
    var stack: seq<Frame<V>> := [];
    var cur := root;
    while cur.Node?
      invariant InsertWalk(root, stack, cur, k)
      decreases cur
    {
      InsertWalkStep(root, stack, cur, k);
      var side := if k < cur.key then Left else Right;
      stack := stack + [Frame(side, cur.key, cur.val, if side == Left then cur.right else cur.left, cur.height)];
      cur := if side == Left then cur.left else cur.right;
    }
    InsertLands(stack, k, v);
    t := Rebalance(stack, item, 0);
  }

  /** `delete` removes one entry holding the key; among equal keys it may
      be any of them. */
  ghost predicate RemovedOne<V>(s: seq<Entry<V>>, t: seq<Entry<V>>, k: int) {
    exists i :: 0 <= i < |s| && s[i].key == k && t == s[..i] + s[i + 1..]
  }

  /** The walk of `delete` and `__contains__` before the key is met: every
      entry before the open slot is smaller than the key and every entry
      after it larger. */
  ghost predicate KeyWalk<V>(root: Node<V>, fs: seq<Frame<V>>, cur: Node<V>, k: int) {
    && Fill(fs, cur) == root && Sorted(InOrder(cur))
    && (forall e :: e in Before(fs) ==> e.key < k)
    && (forall e :: e in After(fs) ==> k < e.key)
  }

  lemma KeyWalkStep<V>(root: Node<V>, fs: seq<Frame<V>>, cur: Node<V>, k: int)
    requires KeyWalk(root, fs, cur, k) && cur.Node? && k != cur.key
    ensures var side := if k < cur.key then Left else Right;
      var f := Frame(side, cur.key, cur.val, if side == Left then cur.right else cur.left, cur.height);
      KeyWalk(root, fs + [f], if side == Left then cur.left else cur.right, k)
  {
    var side := if k < cur.key then Left else Right;
    var f := Frame(side, cur.key, cur.val, if side == Left then cur.right else cur.left, cur.height);
    assert (fs + [f])[..|fs|] == fs;
    Descend(fs, cur, side);
  }

  /** The same walk as `delete` keeps it, with the path condition. */
  ghost predicate SearchWalk<V>(root: Node<V>, fs: seq<Frame<V>>, cur: Node<V>, k: int) {
    PathOk(fs, H(cur)) && AVL(cur) && KeyWalk(root, fs, cur, k)
  }

  lemma SearchWalkStep<V>(root: Node<V>, fs: seq<Frame<V>>, cur: Node<V>, k: int)
    requires SearchWalk(root, fs, cur, k) && cur.Node? && k != cur.key
    ensures var side := if k < cur.key then Left else Right;
      var f := Frame(side, cur.key, cur.val, if side == Left then cur.right else cur.left, cur.height);
      SearchWalk(root, fs + [f], if side == Left then cur.left else cur.right, k)
  {
    var side := if k < cur.key then Left else Right;
    PathPush(fs, cur, side);
    KeyWalkStep(root, fs, cur, k);
  }

  /** The walk fell off the tree: no entry holds the key. */
  lemma SearchMiss<V>(root: Node<V>, fs: seq<Frame<V>>, k: int)
    requires KeyWalk(root, fs, Nil, k)
    ensures !HasKey(InOrder(root), k)
  {
    FillEmpty(fs);
    var b, a := Before(fs), After(fs);
    forall e: Entry<V> | e in b + a
      ensures e.key != k
    {
      assert e in b || e in a;
    }
  }

  /** Taking the entry between `p` and `q` out is a `RemovedOne`. */
  lemma RemovedMiddle<V>(p: seq<Entry<V>>, c: Entry<V>, q: seq<Entry<V>>)
    ensures RemovedOne(p + [c] + q, p + q, c.key)
  {
    var s := p + [c] + q;
    assert s[|p|] == c;
    assert s[..|p|] == p && s[|p| + 1..] == q;
  }

  lemma RemovedJoin<V>(s: seq<Entry<V>>, t: seq<Entry<V>>, p: seq<Entry<V>>, c: Entry<V>, q: seq<Entry<V>>)
    requires s == p + [c] + q && t == p + q
    ensures RemovedOne(s, t, c.key)
  {
    RemovedMiddle(p, c, q);
  }

  lemma RemovedHasKey<V>(s: seq<Entry<V>>, t: seq<Entry<V>>, k: int)
    requires RemovedOne(s, t, k)
    ensures HasKey(s, k) && |t| == |s| - 1
  {
    var i :| 0 <= i < |s| && s[i].key == k && t == s[..i] + s[i + 1..];
    assert s[i] in s;
  }

  /** The traversal around a node on the path. */
  lemma FillAround<V>(fs: seq<Frame<V>>, cur: Node<V>)
    requires cur.Node?
    ensures InOrder(Fill(fs, cur)) == (Before(fs) + InOrder(cur.left)) + [Entry(cur.key, cur.val)] + (InOrder(cur.right) + After(fs))
  {
    FillOrder(fs, cur);
    Regroup(Before(fs), InOrder(cur.left), Entry(cur.key, cur.val), InOrder(cur.right), After(fs));
  }

  lemma Regroup<V>(b: seq<Entry<V>>, l: seq<Entry<V>>, c: Entry<V>, r: seq<Entry<V>>, a: seq<Entry<V>>)
    ensures b + (l + [c] + r) + a == (b + l) + [c] + (r + a)
  {
  }

  /** Removing a node with at most one child: the child takes its place. */
  lemma DropNode<V>(fs: seq<Frame<V>>, cur: Node<V>)
    requires cur.Node? && (cur.left.Nil? || cur.right.Nil?)
    ensures RemovedOne(InOrder(Fill(fs, cur)), InOrder(Fill(fs, if cur.left.Node? then cur.left else cur.right)), cur.key)
  {
    var b, a, l, r := Before(fs), After(fs), InOrder(cur.left), InOrder(cur.right);
    FillAround(fs, cur);
    if cur.left.Node? {
      assert InOrder(Fill(fs, cur.left)) == (b + l) + (r + a) by {
        FillOrder(fs, cur.left);
        assert r == [];
      }
    } else {
      assert InOrder(Fill(fs, cur.right)) == (b + l) + (r + a) by {
        FillOrder(fs, cur.right);
        assert l == [];
      }
    }
    RemovedMiddle(b + l, Entry(cur.key, cur.val), r + a);
  }

  /** A frame on the way down to the in-order successor. */
  lemma SuccessorStep<V>(gs: seq<Frame<V>>, rep: Node<V>)
    requires rep.Node? && Before(gs) == []
    ensures var g := Frame(Left, rep.key, rep.val, rep.right, rep.height);
      && Before(gs + [g]) == []
      && Fill(gs + [g], rep.left) == Fill(gs, rep)
  {
    var g := Frame(Left, rep.key, rep.val, rep.right, rep.height);
    assert (gs + [g])[..|gs|] == gs;
  }

  /** What one more frame adds before and after the open slot. */
  lemma FramePush<V>(fs: seq<Frame<V>>, f: Frame<V>)
    ensures Before(fs + [f]) == Before(fs) + (if f.side == Left then [] else InOrder(f.sibling) + [Entry(f.key, f.val)])
    ensures After(fs + [f]) == (if f.side == Left then [Entry(f.key, f.val)] + InOrder(f.sibling) else []) + After(fs)
  {
    assert (fs + [f])[..|fs|] == fs;
  }

  /** The traversal of the subtree below the successor's path: the
      successor first, as it has no left child. */
  lemma SuccessorOrder<V>(gs: seq<Frame<V>>, rep: Node<V>)
    requires rep.Node? && rep.left.Nil? && Before(gs) == []
    ensures InOrder(Fill(gs, rep)) == [Entry(rep.key, rep.val)] + InOrder(rep.right) + After(gs)
  {
    FillOrder(gs, rep);
    EmptyEnds(Entry(rep.key, rep.val), InOrder(rep.right), After(gs));
  }

  lemma EmptyEnds<V>(x: Entry<V>, r: seq<Entry<V>>, a: seq<Entry<V>>)
    ensures [] + ([] + [x] + r) + a == [x] + r + a
  {
  }

  lemma Regroup2<V>(b: seq<Entry<V>>, l: seq<Entry<V>>, x: Entry<V>, r: seq<Entry<V>>, g: seq<Entry<V>>, a: seq<Entry<V>>)
    ensures (b + (l + [x]) + []) + r + (g + ([] + a)) == (b + l) + (([x] + r + g) + a)
  {
  }

  /** Removing a node with two children: its in-order successor `rep`, the
      leftmost node of its right subtree, gives up its slot to its own
      right child and its key and value to the removed node's frame. */
  lemma DropSuccessor<V>(fs: seq<Frame<V>>, cur: Node<V>, gs: seq<Frame<V>>, rep: Node<V>)
    requires cur.Node? && rep.Node? && rep.left.Nil?
    requires Fill(gs, rep) == cur.right && Before(gs) == []
    ensures RemovedOne(InOrder(Fill(fs, cur)),
      InOrder(Fill(fs + [Frame(Right, rep.key, rep.val, cur.left, cur.height)] + gs, rep.right)), cur.key)
  {
    var f := Frame(Right, rep.key, rep.val, cur.left, cur.height);
    var b, a, l := Before(fs), After(fs), InOrder(cur.left);
    var c, x, rr, ag := Entry(cur.key, cur.val), Entry(rep.key, rep.val), InOrder(rep.right), After(gs);
    var q := [x] + rr + ag;
    assert InOrder(Fill(fs, cur)) == (b + l) + [c] + (q + a) by {
      FillAround(fs, cur);
      SuccessorOrder(gs, rep);
    }
    assert InOrder(Fill(fs + [f] + gs, rep.right)) == (b + l) + (q + a) by {
      FramePush(fs, f);
      BeforeAfterAppend(fs + [f], gs);
      FillOrder(fs + [f] + gs, rep.right);
      Regroup2(b, l, x, rr, ag, a);
    }
    RemovedMiddle(b + l, c, q + a);
  }

  /** The path condition does not look at the keys and values held in the
      frames. */
  lemma {:induction false} PathRekey<V>(fs: seq<Frame<V>>, f: Frame<V>, gs: seq<Frame<V>>, k: int, v: V, hole: int)
    requires PathOk(fs + [f] + gs, hole)
    ensures PathOk(fs + [f.(key := k, val := v)] + gs, hole)
    decreases |gs|
  {
    var f2 := f.(key := k, val := v);
    if gs == [] {
      assert fs + [f] + gs == fs + [f];
      assert fs + [f2] + gs == fs + [f2];
      assert (fs + [f])[..|fs|] == fs && (fs + [f2])[..|fs|] == fs;
    } else {
      var g := gs[|gs| - 1];
      var init := gs[..|gs| - 1];
      assert fs + [f] + gs == (fs + [f] + init) + [g];
      assert fs + [f2] + gs == (fs + [f2] + init) + [g];
      assert ((fs + [f] + init) + [g])[..|fs + [f] + init|] == fs + [f] + init;
      assert ((fs + [f2] + init) + [g])[..|fs + [f2] + init|] == fs + [f2] + init;
      PathRekey(fs, f, init, k, v, g.height);
    }
  }

  lemma FramesAssoc<V>(fs: seq<Frame<V>>, f: Frame<V>, gs: seq<Frame<V>>, g: Frame<V>)
    ensures fs + [f] + (gs + [g]) == (fs + [f] + gs) + [g]
  {
  }

  /** The two-children case of `delete`: walk left from the right child
      to the successor, splice the successor out and move its key and value
      into the removed node, then rebalance from the successor's old slot.
      The successor itself, detached, is the last node `delete` pushes; it
      has no left child and so `_rebalance` leaves it as it is. */
  method DropTwo<V>(fs: seq<Frame<V>>, cur: Node<V>) returns (t: Node<V>)
    requires PathOk(fs, H(cur)) && AVL(cur) && cur.Node? && cur.left.Node? && cur.right.Node?
    ensures AVL(t) && RemovedOne(InOrder(Fill(fs, cur)), InOrder(t), cur.key)
  {
    var f := Frame(Right, cur.key, cur.val, cur.left, cur.height);
    PathPush(fs, cur, Right);
    var gs: seq<Frame<V>> := [];
    var rep := cur.right;
    assert fs + [f] + gs == fs + [f];
    while rep.left.Node?
      invariant rep.Node? && AVL(rep) && Fill(gs, rep) == cur.right && Before(gs) == []
      invariant PathOk(fs + [f] + gs, H(rep))
      decreases rep
    {
      var g := Frame(Left, rep.key, rep.val, rep.right, rep.height);
      PathPush(fs + [f] + gs, rep, Left);
      SuccessorStep(gs, rep);
      FramesAssoc(fs, f, gs, g);
      gs := gs + [g];
      rep := rep.left;
    }
    PathRekey(fs, f, gs, rep.key, rep.val, H(rep));
    var f2 := Frame(Right, rep.key, rep.val, cur.left, cur.height);
    assert f.(key := rep.key, val := rep.val) == f2;
    DropSuccessor(fs, cur, gs, rep);
    t := Rebalance(fs + [f2] + gs, rep.right, H(rep));
  }

  /** `delete`: find a node holding the key (going right past nodes whose
      right child holds the same key), take it out -- via its in-order
      successor when it has two children -- and rebalance the path. A
      missing key raises KeyError and leaves the tree alone. */
  method DeleteNode<V>(root: Node<V>, k: int) returns (r: Result<Node<V>>)
    requires AVL(root) && Sorted(InOrder(root))
    ensures r.Ok? <==> HasKey(InOrder(root), k)
    ensures r.Err? ==> r.error == KeyError
    ensures r.Ok? ==> AVL(r.value) && RemovedOne(InOrder(root), InOrder(r.value), k)
  {
    var stack: seq<Frame<V>> := [];
    var cur := root;
    while cur.Node? && k != cur.key
      invariant SearchWalk(root, stack, cur, k)
      decreases cur
    {
      SearchWalkStep(root, stack, cur, k);
      var side := if k < cur.key then Left else Right;
      stack := stack + [Frame(side, cur.key, cur.val, if side == Left then cur.right else cur.left, cur.height)];
      cur := if side == Left then cur.left else cur.right;
    }
    if cur.Nil? {
      SearchMiss(root, stack, k);
      return Err(KeyError);
    }
    while cur.right.Node? && cur.right.key == k
      invariant PathOk(stack, H(cur)) && AVL(cur) && Fill(stack, cur) == root
      invariant cur.Node? && cur.key == k
      decreases cur
    {
      PathPush(stack, cur, Right);
      stack := stack + [Frame(Right, cur.key, cur.val, cur.left, cur.height)];
      cur := cur.right;
    }
    var t;
    if cur.left.Node? && cur.right.Node? {
      t := DropTwo(stack, cur);
    } else {
      var rep := if cur.left.Node? then cur.left else cur.right;
      DropNode(stack, cur);
      t := Rebalance(stack, rep, H(cur));
    }
    RemovedHasKey(InOrder(root), InOrder(t), k);
    return Ok(t);
  }

  /** `__contains__`: the same walk as `delete`, without a stack, stopping
      at the first node holding the key. */
  method ContainsKey<V>(root: Node<V>, k: int) returns (b: bool)
    requires Sorted(InOrder(root))
    ensures b <==> HasKey(InOrder(root), k)
  {
    ghost var stack: seq<Frame<V>> := [];
    var cur := root;
    while cur.Node? && k != cur.key
      invariant KeyWalk(root, stack, cur, k)
      decreases cur
    {
      KeyWalkStep(root, stack, cur, k);
      var side := if k < cur.key then Left else Right;
      stack := stack + [Frame(side, cur.key, cur.val, if side == Left then cur.right else cur.left, cur.height)];
      cur := if side == Left then cur.left else cur.right;
    }
    if cur.Node? {
      FillAround(stack, cur);
      RemovedMiddle(Before(stack) + InOrder(cur.left), Entry(cur.key, cur.val), InOrder(cur.right) + After(stack));
      RemovedHasKey(InOrder(root), (Before(stack) + InOrder(cur.left)) + (InOrder(cur.right) + After(stack)), k);
      return true;
    }
    SearchMiss(root, stack, k);
    return false;
  }

  /** The entries still to come from the nodes on the `_iternodes` stack:
      each node, topmost first, followed by its right subtree. */
  function Pending<V>(stack: seq<Node<V>>): seq<Entry<V>>
    decreases |stack|
  {
    if stack == [] then []
    else
      var n := stack[|stack| - 1];
      (if n.Node? then [Entry(n.key, n.val)] + InOrder(n.right) else []) + Pending(stack[..|stack| - 1])
  }

  lemma PendingPush<V>(stack: seq<Node<V>>, n: Node<V>)
    requires n.Node?
    ensures Pending(stack + [n]) == [Entry(n.key, n.val)] + InOrder(n.right) + Pending(stack)
  {
    assert (stack + [n])[..|stack|] == stack;
  }

  lemma Regroup3<V>(o: seq<Entry<V>>, l: seq<Entry<V>>, e: Entry<V>, r: seq<Entry<V>>, p: seq<Entry<V>>)
    ensures o + (l + [e] + r) + p == o + l + ([e] + r + p)
    ensures o + [] + ([e] + r + p) == (o + [e]) + r + p
  {
  }

  /** Where `_iternodes` stands: the entries yielded so far, then the
      subtree it is about to descend, then what the stack holds, make up
      the whole traversal. */
  ghost predicate IterState<V>(root: Node<V>, out: seq<Entry<V>>, cur: Node<V>, stack: seq<Node<V>>) {
    && out + InOrder(cur) + Pending(stack) == InOrder(root)
    && (forall i :: 0 <= i < |stack| ==> stack[i].Node?)
  }

  lemma IterPush<V>(root: Node<V>, out: seq<Entry<V>>, cur: Node<V>, stack: seq<Node<V>>)
    requires IterState(root, out, cur, stack) && cur.Node?
    ensures IterState(root, out, cur.left, stack + [cur])
  {
    PendingPush(stack, cur);
    Regroup3(out, InOrder(cur.left), Entry(cur.key, cur.val), InOrder(cur.right), Pending(stack));
  }

  lemma IterPop<V>(root: Node<V>, out: seq<Entry<V>>, stack: seq<Node<V>>)
    requires IterState(root, out, Nil, stack) && stack != []
    ensures var n := stack[|stack| - 1];
      && IterState(root, out + [Entry(n.key, n.val)], n.right, stack[..|stack| - 1])
      && |out| < |InOrder(root)|
  {
    var n := stack[|stack| - 1];
    var init := stack[..|stack| - 1];
    assert stack == init + [n];
    PendingPush(init, n);
    Regroup3(out, [], Entry(n.key, n.val), InOrder(n.right), Pending(init));
  }

  /** `_iternodes`: go left as far as possible, pushing the nodes passed;
      then pop a node, yield it and continue in its right subtree. What is
      yielded is the in-order traversal. */
  method IterNodes<V>(root: Node<V>) returns (out: seq<Entry<V>>)
    ensures out == InOrder(root)
  {
    var cur := root;
    var stack: seq<Node<V>> := [];
    out := [];
    while stack != [] || cur.Node?
      invariant IterState(root, out, cur, stack)
      invariant |out| <= |InOrder(root)|
      decreases |InOrder(root)| - |out|, cur
    {
      if cur.Node? {
        IterPush(root, out, cur, stack);
        stack := stack + [cur];
        cur := cur.left;
      } else {
        IterPop(root, out, stack);
        var n := stack[|stack| - 1];
        stack := stack[..|stack| - 1];
        out := out + [Entry(n.key, n.val)];
        cur := n.right;
      }
    }
  }

  /** Insertion adds exactly the new entry. */
  lemma SortedInsertCount<V>(s: seq<Entry<V>>, x: Entry<V>)
    ensures multiset(SortedInsert(s, x)) == multiset(s) + multiset{x}
    ensures HasKey(SortedInsert(s, x), x.key)
  {
    var u := UpperBound(s, x.key);
    SortedInsertSplit(s, x);
    assert s == s[..u] + s[u..];
    assert SortedInsert(s, x)[u] == x;
  }

  lemma RemovedAt<V>(s: seq<Entry<V>>, i: nat, a: nat)
    requires i < |s| && a < |s| - 1
    ensures (s[..i] + s[i + 1..])[a] == s[if a < i then a else a + 1]
  {
  }

  /** Removing one entry from a sorted traversal leaves it sorted. */
  lemma RemovedSorted<V>(s: seq<Entry<V>>, t: seq<Entry<V>>, k: int)
    requires Sorted(s) && RemovedOne(s, t, k)
    ensures Sorted(t)
  {
    var i :| 0 <= i < |s| && s[i].key == k && t == s[..i] + s[i + 1..];
    forall a, b | 0 <= a < b < |t|
      ensures t[a].key <= t[b].key
    {
      RemovedAt(s, i, a);
      RemovedAt(s, i, b);
    }
  }

  /** `insert_many`: the items inserted one after the other. */
  function InsertAll<V>(s: seq<Entry<V>>, items: seq<Entry<V>>): (r: seq<Entry<V>>)
    ensures |r| == |s| + |items|
    decreases |items|
  {
    if items == [] then s else InsertAll(SortedInsert(s, items[0]), items[1..])
  }

  /** Inserting items into a tree sorts them: the traversal is sorted and
      holds exactly the entries inserted. */
  lemma {:induction false} InsertAllSorts<V>(s: seq<Entry<V>>, items: seq<Entry<V>>)
    requires Sorted(s)
    ensures Sorted(InsertAll(s, items))
    ensures multiset(InsertAll(s, items)) == multiset(s) + multiset(items)
    decreases |items|
  {
    if items != [] {
      var s1 := SortedInsert(s, items[0]);
      SortedInsertAt(s, items[0]);
      SortedInsertCount(s, items[0]);
      InsertAllSorts(s1, items[1..]);
      assert multiset(items) == multiset{items[0]} + multiset(items[1..]) by {
        assert items == [items[0]] + items[1..];
      }
    }
  }

  /** The `Tree` object: its root and `node_count`. */
  class Tree<V> {
    var root: Node<V>
    var nodeCount: int

    ghost predicate Valid()
      reads this
    {
      AVL(root) && Sorted(InOrder(root)) && nodeCount == |InOrder(root)|
    }

    /** The entries in traversal order. */
    function Items(): seq<Entry<V>>
      reads this
    {
      InOrder(root)
    }

    /** `Tree(iterable)`: an empty tree that then inserts the items. */
    constructor(items: seq<Entry<V>>)
      ensures Valid() && Items() == InsertAll([], items)
    {
      root, nodeCount := Nil, 0;
      new;
      InsertMany(items);
    }

    /** `insert`: one more node, placed after every entry whose key is
        not larger. */
    method Insert(k: int, v: V)
      requires Valid()
      modifies this
      ensures Valid() && Items() == SortedInsert(old(Items()), Entry(k, v))
      ensures nodeCount == old(nodeCount) + 1
    {
      var t := InsertNode(root, k, v);
      SortedInsertAt(InOrder(root), Entry(k, v));
      root := t;
      nodeCount := nodeCount + 1;
    }

    /** `insert_many` */
    method InsertMany(items: seq<Entry<V>>)
      requires Valid()
      modifies this
      ensures Valid() && Items() == InsertAll(old(Items()), items)
    {
      var i := 0;
      while i < |items|
        invariant 0 <= i <= |items|
        invariant Valid() && InsertAll(Items(), items[i..]) == InsertAll(old(Items()), items)
      {
        assert items[i..][1..] == items[i + 1..];
        Insert(items[i].key, items[i].val);
        i := i + 1;
      }
    }

    /** `delete`: KeyError when no node holds the key, the tree untouched;
        otherwise one entry with the key is gone. */
    method Delete(k: int) returns (r: Result<()>)
      requires Valid()
      modifies this
      ensures Valid()
      ensures r.Ok? <==> HasKey(old(Items()), k)
      ensures r.Err? ==> r.error == KeyError && root == old(root) && nodeCount == old(nodeCount)
      ensures r.Ok? ==> RemovedOne(old(Items()), Items(), k) && nodeCount == old(nodeCount) - 1
      ensures nodeCount == 0 <==> root.Nil?
    {
      NilIffEmpty(root);
      var res := DeleteNode(root, k);
      if res.Err? {
        return Err(res.error);
      }
      RemovedSorted(InOrder(root), InOrder(res.value), k);
      RemovedHasKey(InOrder(root), InOrder(res.value), k);
      root := res.value;
      nodeCount := nodeCount - 1;
      NilIffEmpty(root);
      return Ok(());
    }

    /** `__contains__` */
    method Contains(k: int) returns (b: bool)
      requires Valid()
      ensures b <==> HasKey(Items(), k)
    {
      b := ContainsKey(root, k);
    }

    /** Iteration: every node once, in non-decreasing key order. */
    method Iter() returns (out: seq<Entry<V>>)
      requires Valid()
      ensures out == Items() && Sorted(out) && |out| == nodeCount
    {
      out := IterNodes(root);
    }

    /** `__len__` */
    method Len() returns (n: int)
      requires Valid()
      ensures n == |Items()| && (n == 0 <==> root.Nil?)
    {
      NilIffEmpty(root);
      n := nodeCount;
    }
  }

  /** A position or a slice of positions in a node's item list. */
  datatype Index = At(i: int) | Slice(lo: int, hi: int)

  /** The positions `lo`, ..., `hi - 1`. */
  function Span(lo: int, hi: int): seq<int>
    decreases hi - lo
  {
    if hi <= lo then [] else [lo] + Span(lo + 1, hi)
  }

  /** The positions an index selects. */
  function Positions(ix: Index): seq<int> {
    match ix
    case At(i) => [i]
    case Slice(lo, hi) => Span(lo, hi)
  }

  /** `_get_indices`: where the key and the value sit in a node's item
      list, for the given key and value sizes. Sizes that are not
      integers are not modelled. */
  function GetIndices(keySize: int, valSize: int): (r: Result<(Index, Index)>)
    ensures r.Ok? <==> keySize >= 1 && valSize >= 0
    ensures r.Err? ==> r.error == ValueError
    ensures r.Ok? ==> Positions(r.value.0) == Span(0, keySize)
    ensures r.Ok? && valSize > 0 ==> Positions(r.value.1) == Span(keySize, keySize + valSize)
    ensures r.Ok? && valSize == 0 ==> r.value.1 == At(0)
  {
    if keySize < 1 then Err(ValueError)
    else if valSize < 0 then Err(ValueError)
    else
      var ki := if keySize > 1 then Slice(0, keySize) else At(0);
      var vi := if valSize > 0 then (if valSize > 1 then Slice(keySize, keySize + valSize) else At(keySize)) else At(0);
      Ok((ki, vi))
  }
}
