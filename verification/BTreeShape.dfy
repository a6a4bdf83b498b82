/** Ghost trees: the value a linked structure of nodes stands for. A tree names the node at its root, so that memory
    footprints are functions of the tree. */
module BTreeShape {
  import opened SortedSeq
  import opened BTreeNode
  import opened BTreeSiblings

  datatype Tree =
    | Leaf(id: Node, keys: seq<Elem>)
    | Inner(id: Node, keys: seq<Elem>, kids: seq<Tree>)

  /** The objects of one node. */
  ghost function Own(n: Node): set<object> {
    {n, n.elem} + if n.down == null then {} else {n.down}
  }

  /** The objects of a whole tree. */
  ghost function Foot(t: Tree): set<object> {
    match t
    case Leaf(n, _) => Own(n)
    case Inner(n, _, kids) => Own(n) + set i, o | 0 <= i < |kids| && o in Foot(kids[i]) :: o
  }

  /** No object of node `n` is in `s`. */
  ghost predicate Off(n: Node, s: set<object>) {
    n !in s && n.elem !in s && (n.down != null ==> n.down !in s)
  }

  /** No two children share memory with each other or with their parent node. */
  ghost predicate Apart(n: Node, kids: seq<Tree>) {
    && (forall i :: 0 <= i < |kids| ==> Off(n, Foot(kids[i])))
    && (forall i, j :: 0 <= i < j < |kids| ==> Foot(kids[i]) !! Foot(kids[j]))
  }

  /** No two nodes of the tree share memory. */
  ghost predicate Sep(t: Tree) {
    t.Inner? ==> Apart(t.id, t.kids) && forall i :: 0 <= i < |t.kids| ==> Sep(t.kids[i])
  }

  /** Elements in order. */
  ghost function Contents(t: Tree): seq<Elem> {
    match t
    case Leaf(_, keys) => keys
    case Inner(_, keys, kids) =>
      if |kids| == |keys| + 1 then Flat(keys, seq(|kids|, i requires 0 <= i < |kids| => Contents(kids[i]))) else []
  }

  ghost function Conts(kids: seq<Tree>): (cs: seq<seq<Elem>>)
    ensures |cs| == |kids| && forall i {:trigger cs[i]} :: 0 <= i < |kids| ==> cs[i] == Contents(kids[i])
  {
    seq(|kids|, i requires 0 <= i < |kids| => Contents(kids[i]))
  }

  lemma ContentsInner(t: Tree)
    requires t.Inner? && |t.kids| == |t.keys| + 1
    ensures Contents(t) == Flat(t.keys, Conts(t.kids))
  {
    assert seq(|t.kids|, i requires 0 <= i < |t.kids| => Contents(t.kids[i])) == Conts(t.kids);
  }

  /** The B-tree shape of a subtree of height h: lo..2m keys at the top, m..2m in every node below it, one more child
      than keys, all leaves at height 0. */
  ghost predicate Shape(t: Tree, m: nat, h: nat, lo: nat) {
    && lo <= |t.keys| <= 2 * m
    && (t.Leaf? <==> h == 0)
    && (t.Inner? ==> |t.kids| == |t.keys| + 1 && forall i :: 0 <= i < |t.kids| ==> Shape(t.kids[i], m, h - 1, m))
  }

  ghost function KidsOf(t: Tree): seq<Tree> {
    if t.Inner? then t.kids else []
  }

  ghost function Ids(kids: seq<Tree>): (ids: seq<Node>)
    ensures |ids| == |kids| && forall i {:trigger ids[i]} :: 0 <= i < |kids| ==> ids[i] == kids[i].id
  {
    seq(|kids|, i requires 0 <= i < |kids| => kids[i].id)
  }

  /** The memory of the nodes of `t` represents `t`, with room for 2m elements a node. */
  ghost predicate Rep(t: Tree, m: nat)
    reads Foot(t)
    decreases t
  {
    && t.id.elem.Length == 2 * m
    && t.id.Holds(t.keys)
    && (t.Leaf? <==> t.id.down == null)
    && (t.Inner? ==> t.id.Points(Ids(t.kids)) && forall i :: 0 <= i < |t.kids| ==> Rep(t.kids[i], m))
  }

  /** `t` is a separated B-tree of height h that memory represents. */
  ghost predicate Good(t: Tree, m: nat, h: nat, lo: nat)
    reads Foot(t)
  {
    Rep(t, m) && Sep(t) && Shape(t, m, h, lo)
  }

  /** Good, one node at a time. */
  ghost predicate NodeGood(n: Node, keys: seq<Elem>, kids: seq<Tree>, m: nat, h: nat)
    reads Own(n), set i, o | 0 <= i < |kids| && o in Foot(kids[i]) :: o
  {
    && n.elem.Length == 2 * m && n.Holds(keys) && n.down != null && n.Points(Ids(kids))
    && h > 0 && |kids| == |keys| + 1 && Apart(n, kids)
    && forall i :: 0 <= i < |kids| ==> Good(kids[i], m, h - 1, m)
  }

  /** The same with child i one element short, as a removal below may leave it. */
  ghost predicate NodeShort(n: Node, keys: seq<Elem>, kids: seq<Tree>, m: nat, h: nat, i: nat)
    reads Own(n), set i, o | 0 <= i < |kids| && o in Foot(kids[i]) :: o
  {
    && n.elem.Length == 2 * m && n.Holds(keys) && n.down != null && n.Points(Ids(kids))
    && h > 0 && m > 0 && i < |kids| == |keys| + 1 && Apart(n, kids)
    && (forall j :: 0 <= j < |kids| && j != i ==> Good(kids[j], m, h - 1, m))
    && Good(kids[i], m, h - 1, m - 1) && |kids[i].keys| == m - 1
  }

  lemma GoodInner(t: Tree, m: nat, h: nat, lo: nat)
    requires t.Inner?
    ensures Good(t, m, h, lo) <==> lo <= |t.keys| <= 2 * m && NodeGood(t.id, t.keys, t.kids, m, h)
  {
  }

  lemma GoodLeaf(t: Tree, m: nat, h: nat, lo: nat)
    requires t.Leaf?
    ensures Good(t, m, h, lo) <==>
            h == 0 && lo <= |t.keys| <= 2 * m && t.id.elem.Length == 2 * m && t.id.Holds(t.keys) && t.id.down == null
    ensures Contents(t) == t.keys && Foot(t) == Own(t.id)
  {
  }

  // ----- where a key lives

  ghost function LeftOf(t: Tree, i: nat): seq<Elem>
    requires t.Inner? && |t.kids| == |t.keys| + 1 && i <= |t.keys|
  {
    Pre(t.keys[..i], Conts(t.kids)[..i])
  }

  ghost function RightOf(t: Tree, i: nat): seq<Elem>
    requires t.Inner? && |t.kids| == |t.keys| + 1 && i <= |t.keys|
  {
    Suf(t.keys[i..], Conts(t.kids)[i + 1..])
  }

  lemma SameLeft(t: Tree, u: Tree, i: nat)
    requires t.Inner? && |t.kids| == |t.keys| + 1 && i <= |t.keys| && u.Inner? && |u.kids| == |u.keys| + 1
    requires i <= |u.keys|
    requires u.keys[..i] == t.keys[..i] && u.kids[..i] == t.kids[..i]
    ensures LeftOf(u, i) == LeftOf(t, i)
  {
    assert forall j {:trigger Conts(u.kids)[j]} :: 0 <= j < i ==>
              u.kids[j] == u.kids[..i][j] == t.kids[..i][j] == t.kids[j];
    assert Conts(u.kids)[..i] == Conts(t.kids)[..i];
  }

  lemma SameRight(t: Tree, i: nat, u: Tree, j: nat)
    requires t.Inner? && |t.kids| == |t.keys| + 1 && i <= |t.keys| && u.Inner? && |u.kids| == |u.keys| + 1
    requires j <= |u.keys|
    requires u.keys[j..] == t.keys[i..] && u.kids[j + 1..] == t.kids[i + 1..]
    ensures RightOf(u, j) == RightOf(t, i)
  {
    var a, b := Conts(u.kids)[j + 1..], Conts(t.kids)[i + 1..];
    assert |a| == |u.kids[j + 1..]| && |b| == |t.kids[i + 1..]|;
    forall x | 0 <= x < |a| ensures a[x] == b[x] {
      assert u.kids[j + 1 + x] == u.kids[j + 1..][x] == t.kids[i + 1..][x] == t.kids[i + 1 + x];
    }
    assert a == b;
  }

  /** What follows child i: separator i, the next child and what follows it. */
  lemma RightStep(t: Tree, i: nat)
    requires t.Inner? && |t.kids| == |t.keys| + 1 && i < |t.keys|
    ensures RightOf(t, i) == [t.keys[i]] + Contents(t.kids[i + 1]) + RightOf(t, i + 1)
  {
    assert t.keys[i..][1..] == t.keys[i + 1..] && Conts(t.kids)[i + 1..][1..] == Conts(t.kids)[i + 2..];
  }

  lemma Around(t: Tree, i: nat)
    requires t.Inner? && |t.kids| == |t.keys| + 1 && i <= |t.keys|
    ensures Contents(t) == LeftOf(t, i) + Contents(t.kids[i]) + RightOf(t, i)
  {
    ContentsInner(t);
    FlatAt(t.keys, Conts(t.kids), i);
  }

  /** Replacing child i replaces its part of the contents. */
  lemma Replaced(t: Tree, i: nat, c: Tree)
    requires t.Inner? && |t.kids| == |t.keys| + 1 && i <= |t.keys|
    ensures Contents(t.(kids := t.kids[i := c])) == LeftOf(t, i) + Contents(c) + RightOf(t, i)
  {
    hide Contents, Conts, LeftOf, RightOf;
    var u := t.(kids := t.kids[i := c]);
    Around(u, i);
    SameLeft(t, u, i);
    SameRight(t, i, u, i);
  }

  /** Replacing child i leaves what is left and right of it. */
  lemma Reseated(t: Tree, u: Tree, i: nat)
    requires t.Inner? && |t.kids| == |t.keys| + 1 && i <= |t.keys|
    requires u.Inner? && u.keys == t.keys && |u.kids| == |t.kids| && u.kids == t.kids[i := u.kids[i]]
    ensures LeftOf(u, i) == LeftOf(t, i) && RightOf(u, i) == RightOf(t, i)
  {
    assert Conts(u.kids)[..i] == Conts(t.kids)[..i];
    assert Conts(u.kids)[i + 1..] == Conts(t.kids)[i + 1..];
  }

  lemma SortedKeys(ks: seq<Elem>, cs: seq<seq<Elem>>)
    requires |cs| == |ks| + 1 && Sorted(Flat(ks, cs))
    ensures Sorted(ks)
  {
    forall i, j | 0 <= i < j < |ks| ensures ks[i].key < ks[j].key {
      FlatSplit(ks, cs, j);
      FlatSplit(ks[..j], cs[..j + 1], i);
      var a := Flat(ks[..j][..i], cs[..j + 1][..i + 1]);
      var f := Flat(ks, cs);
      assert f[|a|] == ks[i];
      assert f[|Flat(ks[..j], cs[..j + 1])|] == ks[j];
    }
  }

  /** The branch taken for a key that is not a separator: everything left of the child is smaller and everything right
      of it is greater. */
  lemma Route(t: Tree, k: int, i: nat)
    requires t.Inner? && |t.kids| == |t.keys| + 1 && i <= |t.keys|
    requires Sorted(Contents(t)) && Below(t.keys[..i], k) && Above(k, t.keys[i..])
    ensures Contents(t) == LeftOf(t, i) + Contents(t.kids[i]) + RightOf(t, i)
    ensures Below(LeftOf(t, i), k) && Above(k, RightOf(t, i)) && Sorted(Contents(t.kids[i]))
  {
    Around(t, i);
    var l, r := LeftOf(t, i), RightOf(t, i);
    SortedParts(l, Contents(t.kids[i]), r);
    if i > 0 {
      assert l[|l| - 1] == t.keys[..i][i - 1];
      BelowLast(l, k);
    }
    if i < |t.keys| {
      assert r[0] == t.keys[i..][0];
      AboveFirst(r, k);
    }
  }

  /** A key equal to separator i. */
  lemma RouteHit(t: Tree, i: nat) returns (l: seq<Elem>, r: seq<Elem>)
    requires t.Inner? && |t.kids| == |t.keys| + 1 && i < |t.keys| && Sorted(Contents(t))
    ensures Contents(t) == l + [t.keys[i]] + r
    ensures l == LeftOf(t, i) + Contents(t.kids[i])
    ensures r == Contents(t.kids[i + 1]) + RightOf(t, i + 1)
    ensures Below(l, t.keys[i].key) && Above(t.keys[i].key, r) && Sorted(l) && Sorted(r)
  {
    hide Contents, Conts, LeftOf, RightOf;
    Around(t, i);
    RightStep(t, i);
    l, r := LeftOf(t, i) + Contents(t.kids[i]), Contents(t.kids[i + 1]) + RightOf(t, i + 1);
    assert Contents(t) == l + [t.keys[i]] + r;
    SortedParts(l, [t.keys[i]], r);
    assert [t.keys[i]][0] == t.keys[i];
  }

  lemma SortedNodeKeys(t: Tree)
    requires Sorted(Contents(t)) && (t.Inner? ==> |t.kids| == |t.keys| + 1)
    ensures Sorted(t.keys)
  {
    if t.Inner? {
      ContentsInner(t);
      SortedKeys(t.keys, Conts(t.kids));
    }
  }

  /** Overwriting separator i with an equal key is `Put`. */
  lemma ReplacedKey(t: Tree, i: nat, e: Elem)
    requires t.Inner? && |t.kids| == |t.keys| + 1
    requires i < |t.keys| && Sorted(Contents(t)) && t.keys[i].key == e.key
    ensures Contents(t.(keys := t.keys[i := e])) == Put(Contents(t), e)
    ensures Has(Contents(t), e.key)
  {
    hide Contents, Conts, LeftOf, RightOf;
    var u := t.(keys := t.keys[i := e]);
    var l, r := RouteHit(t, i);
    PairContents(u, i);
    SameLeft(t, u, i);
    SameRight(t, i + 1, u, i + 1);
    assert Contents(u) == l + [e] + r;
    AtSeparator(l, t.keys[i], r, e);
    assert Contents(t)[|l|] == t.keys[i];
  }

  /** `Put` happens inside the branch taken. */
  lemma PutInChild(t: Tree, i: nat, e: Elem)
    requires t.Inner? && |t.kids| == |t.keys| + 1 && i <= |t.keys|
    requires Sorted(Contents(t)) && Below(t.keys[..i], e.key) && Above(e.key, t.keys[i..])
    ensures Sorted(Contents(t.kids[i]))
    ensures Put(Contents(t), e) == LeftOf(t, i) + Put(Contents(t.kids[i]), e) + RightOf(t, i)
    ensures Has(Contents(t), e.key) <==> Has(Contents(t.kids[i]), e.key)
  {
    Route(t, e.key, i);
    var l, c, r := LeftOf(t, i), Contents(t.kids[i]), RightOf(t, i);
    PutMid(l, c, r, e);
    LookupMid(l, c, r, e.key);
    LookupIsMapGet(Contents(t), e.key);
    LookupIsMapGet(c, e.key);
  }

  lemma ReplacedInLeaf(keys: seq<Elem>, i: nat, e: Elem)
    requires i < |keys| && Sorted(keys) && keys[i].key == e.key
    ensures keys[i := e] == Put(keys, e) && Has(keys, e.key)
  {
    var l, r := keys[..i], keys[i + 1..];
    AtSeparator(l, keys[i], r, e);
    assert keys == l + [keys[i]] + r;
  }

  lemma PutInLeaf(keys: seq<Elem>, i: nat, e: Elem)
    requires i <= |keys| && Below(keys[..i], e.key) && Above(e.key, keys[i..])
    ensures Put(keys, e) == Ins(keys, i, e) && !Has(keys, e.key)
  {
    var l, r := keys[..i], keys[i..];
    PutMid(l, [], r, e);
    assert l + [] + r == keys;
    assert Put([], e) == [e];
    forall j | 0 <= j < |keys| ensures keys[j].key != e.key {
      assert keys[j] == if j < i then l[j] else r[j - i];
    }
  }

  // ----- footprints

  lemma OwnFoot(t: Tree)
    ensures Own(t.id) <= Foot(t) && t.id in Own(t.id) && t.id.elem in Own(t.id)
    ensures t.id.down != null ==> t.id.down in Own(t.id)
  {
  }

  lemma FootKeys(t: Tree, keys: seq<Elem>)
    ensures Foot(t.(keys := keys)) == Foot(t)
  {
  }

  lemma FootKid(t: Tree, i: nat)
    requires t.Inner? && i < |t.kids|
    ensures Foot(t.kids[i]) <= Foot(t)
  {
  }

  lemma ApartCut(n: Node, l: Node, kids: seq<Tree>, i: nat)
    requires i <= |kids| && Apart(n, kids) && forall j {:trigger kids[j]} :: 0 <= j < |kids| ==> Off(l, Foot(kids[j]))
    ensures Apart(l, kids[..i]) && Apart(n, kids[i..])
  {
    hide Foot, Off;
  }

  /** What a subtree does not own of its parent's memory. */
  lemma ApartReplace(t: Tree, i: nat, c: Tree)
    requires t.Inner? && i < |t.kids| && Apart(t.id, t.kids)
    requires Foot(c) !! Foot(t) - Foot(t.kids[i])
    ensures Apart(t.id, t.kids[i := c])
    ensures Foot(t.(kids := t.kids[i := c])) <= Foot(t) - Foot(t.kids[i]) + Foot(c)
  {
    var kids := t.kids[i := c];
    forall j | 0 <= j < |kids| && j != i ensures Foot(t.kids[j]) <= Foot(t) - Foot(t.kids[i]) {
      FootKid(t, j);
    }
    assert Own(t.id) <= Foot(t) - Foot(t.kids[i]);
  }

  lemma ApartIns(t: Tree, i: nat, c: Tree, keys: seq<Elem>)
    requires t.Inner? && i <= |t.kids| && Apart(t.id, t.kids) && Foot(c) !! Foot(t)
    ensures Apart(t.id, Ins(t.kids, i, c))
    ensures Foot(Inner(t.id, keys, Ins(t.kids, i, c))) <= Foot(t) + Foot(c)
  {
    var kids := Ins(t.kids, i, c);
    forall j | 0 <= j < |t.kids| ensures Foot(t.kids[j]) <= Foot(t) { FootKid(t, j); }
  }

  lemma InsertedChild(t: Tree, i: nat, x: Elem, c: Tree)
    requires t.Inner? && |t.kids| == |t.keys| + 1 && i <= |t.keys|
    ensures Contents(Inner(t.id, Ins(t.keys, i, x), Ins(t.kids, i, c)))
            == LeftOf(t, i) + Contents(c) + [x] + Contents(t.kids[i]) + RightOf(t, i)
  {
    hide Contents, Conts, LeftOf, RightOf;
    var u := Inner(t.id, Ins(t.keys, i, x), Ins(t.kids, i, c));
    PairContents(u, i);
    SameLeft(t, u, i);
    SameRight(t, i, u, i + 1);
  }

  lemma CutLeaf(f: seq<Elem>, i: nat)
    requires i < |f|
    ensures f[..i] + [f[i]] + f[i + 1..] == f
  {
  }

  lemma CutConts(kids: seq<Tree>, i: nat)
    requires i <= |kids|
    ensures Conts(kids)[..i] == Conts(kids[..i]) && Conts(kids)[i..] == Conts(kids[i..])
  {
    hide Contents;
  }

  /** Cutting a node in two at separator i. */
  lemma CutContents(t: Tree, i: nat, l: Tree, r: Tree)
    requires t.Inner? && |t.kids| == |t.keys| + 1 && i < |t.keys|
    requires l.Inner? && l.keys == t.keys[..i] && l.kids == t.kids[..i + 1]
    requires r.Inner? && r.keys == t.keys[i + 1..] && r.kids == t.kids[i + 1..]
    ensures Contents(t) == Contents(l) + [t.keys[i]] + Contents(r)
  {
    ContentsInner(t);
    ContentsInner(l);
    ContentsInner(r);
    CutConts(t.kids, i + 1);
    hide Contents, Flat, Conts;
    FlatSplit(t.keys, Conts(t.kids), i);
    assert Conts(t.kids)[..i + 1] == Conts(l.kids) && Conts(t.kids)[i + 1..] == Conts(r.kids);
  }

  lemma FootWithin(t: Tree, s: set<object>)
    requires t.Inner? && Own(t.id) <= s && forall i :: 0 <= i < |t.kids| ==> Foot(t.kids[i]) <= s
    ensures Foot(t) <= s
  {
  }

  lemma FootApart(t: Tree, s: set<object>)
    requires t.Inner? && Off(t.id, s) && forall i :: 0 <= i < |t.kids| ==> Foot(t.kids[i]) !! s
    ensures Foot(t) !! s
  {
  }

  lemma CutFoot(t: Tree, i: nat, l: Tree, r: Tree)
    requires t.Inner? && i <= |t.kids| && Apart(t.id, t.kids)
    requires l.Inner? && l.kids == t.kids[..i] && r.Inner? && r.kids == t.kids[i..] && r.id == t.id
    requires Own(l.id) !! Foot(t)
    ensures Apart(l.id, l.kids) && Apart(r.id, r.kids)
    ensures Foot(l) <= Foot(t) + Own(l.id) && Foot(r) <= Foot(t) && Foot(l) !! Foot(r)
  {
    hide Foot;
    OwnFoot(l);
    OwnFoot(r);
    OwnFoot(t);
    forall j | 0 <= j < |t.kids| ensures Foot(t.kids[j]) <= Foot(t) { FootKid(t, j); }
    FootWithin(l, Foot(t) + Own(l.id));
    FootWithin(r, Foot(t));
    forall j | 0 <= j < |l.kids| ensures Foot(l.kids[j]) !! Foot(r) {
      assert l.kids[j] == t.kids[j];
      FootApart(r, Foot(l.kids[j]));
    }
    FootApart(l, Foot(r));
  }

  // ----- a tree cut at a separator, and two siblings seen as one uncut tree

  ghost function Spliced(l: Tree, k: Elem, r: Tree): Tree {
    if l.Inner? && r.Inner? then Inner(l.id, l.keys + [k] + r.keys, l.kids + r.kids)
    else Leaf(l.id, l.keys + [k] + r.keys)
  }

  ghost function Lo(u: Tree, i: nat, id: Node): Tree
    requires i < |u.keys| && (u.Inner? ==> |u.kids| == |u.keys| + 1)
  {
    if u.Inner? then Inner(id, u.keys[..i], u.kids[..i + 1]) else Leaf(id, u.keys[..i])
  }

  ghost function Hi(u: Tree, i: nat, id: Node): Tree
    requires i < |u.keys| && (u.Inner? ==> |u.kids| == |u.keys| + 1)
  {
    if u.Inner? then Inner(id, u.keys[i + 1..], u.kids[i + 1..]) else Leaf(id, u.keys[i + 1..])
  }

  /** Two siblings of one kind, each with one more child than keys. */
  ghost predicate Siblings(l: Tree, r: Tree) {
    (l.Inner? && r.Inner? && |l.kids| == |l.keys| + 1 && |r.kids| == |r.keys| + 1) || (l.Leaf? && r.Leaf?)
  }

  lemma CutOneRight(l: Tree, k: Elem, r: Tree)
    requires Siblings(l, r) && r.keys != []
    ensures var u, j := Spliced(l, k, r), |l.keys| + 1; var l', r' := Lo(u, j, l.id), Hi(u, j, r.id);
            && u.keys[j] == r.keys[0] && l'.keys == l.keys + [k] && r'.keys == r.keys[1..] && l'.id == l.id
            && r'.id == r.id
            && (u.Inner? <==> l.Inner?) && (l'.Inner? <==> l.Inner?) && (r'.Inner? <==> l.Inner?)
            && (l.Inner? ==>
              |l'.kids| == |l'.keys| + 1 && |r'.kids| == |r'.keys| + 1 && l'.kids + r'.kids == l.kids + r.kids)
            && (l.Inner? ==> Ids(l'.kids) == Ids(l.kids) + [Ids(r.kids)[0]] && Ids(r'.kids) == Ids(r.kids)[1..])
  {
    var u, j := Spliced(l, k, r), |l.keys| + 1;
    assert Hi(u, j, r.id).keys == r.keys[1..];
    if l.Inner? {
      assert Lo(u, j, l.id).kids == l.kids + [r.kids[0]] && Hi(u, j, r.id).kids == r.kids[1..];
    }
  }

  lemma CutOneLeft(l: Tree, k: Elem, r: Tree)
    requires Siblings(l, r) && l.keys != []
    ensures var u, j := Spliced(l, k, r), |l.keys| - 1; var l', r' := Lo(u, j, l.id), Hi(u, j, r.id);
            && u.keys[j] == l.keys[j] && l'.keys == l.keys[..j] && r'.keys == [k] + r.keys && l'.id == l.id
            && r'.id == r.id
            && (u.Inner? <==> l.Inner?) && (l'.Inner? <==> l.Inner?) && (r'.Inner? <==> l.Inner?)
            && (l.Inner? ==>
              |l'.kids| == |l'.keys| + 1 && |r'.kids| == |r'.keys| + 1 && l'.kids + r'.kids == l.kids + r.kids)
            && (l.Inner? ==> Ids(l'.kids) == Ids(l.kids)[..j + 1] && Ids(r'.kids) == [Ids(l.kids)[j + 1]] + Ids(r.kids))
  {
    var u, j := Spliced(l, k, r), |l.keys| - 1;
    assert Hi(u, j, r.id).keys == [k] + r.keys;
    if l.Inner? {
      assert Lo(u, j, l.id).kids == l.kids[..j + 1] && Hi(u, j, r.id).kids == [l.kids[j + 1]] + r.kids;
    }
  }

  /** However the elements of two siblings and their separator are dealt, the contents stay. */
  lemma DealtContents(l: Tree, k: Elem, r: Tree, i: nat)
    requires Siblings(l, r) && i < |l.keys| + 1 + |r.keys|
    ensures var u := Spliced(l, k, r);
            Contents(Lo(u, i, l.id)) + [u.keys[i]] + Contents(Hi(u, i, r.id))
            == Contents(l) + [k] + Contents(r) == Contents(u)
  {
    hide Contents;
    var u := Spliced(l, k, r);
    var n := |l.keys|;
    assert u.keys[..n] == l.keys && u.keys[n] == k && u.keys[n + 1..] == r.keys;
    if u.Inner? {
      assert u.kids[..n + 1] == l.kids && u.kids[n + 1..] == r.kids;
      CutContents(u, n, l, r);
      CutContents(u, i, Lo(u, i, l.id), Hi(u, i, r.id));
    } else {
      CutLeaf(u.keys, n);
      CutLeaf(u.keys, i);
      LeafContents(l);
      LeafContents(r);
      LeafContents(u);
      LeafContents(Lo(u, i, l.id));
      LeafContents(Hi(u, i, r.id));
    }
  }

  lemma LeafContents(t: Tree)
    requires t.Leaf?
    ensures Contents(t) == t.keys
  {
  }

  /** ... and no memory is shared. */
  lemma DealtFoot(l: Tree, k: Elem, r: Tree, i: nat)
    requires Siblings(l, r) && i < |l.keys| + 1 + |r.keys| && Foot(l) !! Foot(r)
    requires l.Inner? ==> Apart(l.id, l.kids) && Apart(r.id, r.kids)
    ensures var u := Spliced(l, k, r); var l', r' := Lo(u, i, l.id), Hi(u, i, r.id);
            && Foot(l') !! Foot(r') && Foot(l') <= Foot(l) + Foot(r) && Foot(r') <= Foot(l) + Foot(r)
            && Foot(u) <= Foot(l) + Foot(r)
            && (l.Inner? ==> Apart(l.id, l'.kids) && Apart(r.id, r'.kids) && Apart(l.id, u.kids))
  {
    if l.Inner? { DealtInnerFoot(l, k, r, i); }
  }

  /** The children of two siblings together: apart from each other and within both. */
  lemma SplicedKids(l: Tree, r: Tree)
    requires l.Inner? && r.Inner? && Foot(l) !! Foot(r) && Apart(l.id, l.kids) && Apart(r.id, r.kids)
    ensures var kids := l.kids + r.kids;
            && (forall j :: 0 <= j < |kids| ==>
              Off(l.id, Foot(kids[j])) && Off(r.id, Foot(kids[j])) && Foot(kids[j]) <= Foot(l) + Foot(r))
            && forall j, j' :: 0 <= j < j' < |kids| ==> Foot(kids[j]) !! Foot(kids[j'])
  {
    hide Foot;
    var kids, n := l.kids + r.kids, |l.kids|;
    OwnFoot(l);
    OwnFoot(r);
    forall j | 0 <= j < |l.kids| ensures Foot(l.kids[j]) <= Foot(l) { FootKid(l, j); }
    forall j | 0 <= j < |r.kids| ensures Foot(r.kids[j]) <= Foot(r) { FootKid(r, j); }
    forall j | 0 <= j < |kids|
      ensures Off(l.id, Foot(kids[j])) && Off(r.id, Foot(kids[j])) && Foot(kids[j]) <= Foot(l) + Foot(r)
    {
      assert kids[j] == if j < n then l.kids[j] else r.kids[j - n];
    }
    forall j, j' | 0 <= j < j' < |kids| ensures Foot(kids[j]) !! Foot(kids[j']) {
      assert kids[j] == if j < n then l.kids[j] else r.kids[j - n];
      assert kids[j'] == if j' < n then l.kids[j'] else r.kids[j' - n];
    }
  }

  lemma DealtInnerFoot(l: Tree, k: Elem, r: Tree, i: nat)
    requires Siblings(l, r) && i < |l.keys| + 1 + |r.keys| && Foot(l) !! Foot(r)
    requires l.Inner? && Apart(l.id, l.kids) && Apart(r.id, r.kids)
    ensures var u := Spliced(l, k, r); var l', r' := Lo(u, i, l.id), Hi(u, i, r.id);
            && Foot(l') !! Foot(r') && Foot(l') <= Foot(l) + Foot(r) && Foot(r') <= Foot(l) + Foot(r)
            && Foot(u) <= Foot(l) + Foot(r)
            && Apart(l.id, l'.kids) && Apart(r.id, r'.kids) && Apart(l.id, u.kids)
  {
    hide Foot;
    var u := Spliced(l, k, r);
    SplicedKids(l, r);
    assert u.kids == l.kids + r.kids;
    OwnFoot(l);
    OwnFoot(r);
    FootWithin(u, Foot(l) + Foot(r));
    var v := u.(id := r.id);
    OwnFoot(v);
    FootWithin(v, Foot(l) + Foot(r));
    FootApart(v, Own(l.id));
    CutFoot(v, i + 1, Lo(u, i, l.id), Hi(u, i, r.id));
  }

  /** Putting two re-dealt children and their separator back. */
  lemma ReplacedPair(t: Tree, i: nat, l: Tree, k: Elem, r: Tree)
    requires t.Inner? && |t.kids| == |t.keys| + 1 && i < |t.keys|
    requires Contents(l) + [k] + Contents(r) == Contents(t.kids[i]) + [t.keys[i]] + Contents(t.kids[i + 1])
    ensures Contents(Inner(t.id, t.keys[i := k], t.kids[i := l][i + 1 := r])) == Contents(t)
  {
    hide Contents, Conts, LeftOf, RightOf;
    var u := Inner(t.id, t.keys[i := k], t.kids[i := l][i + 1 := r]);
    PairContents(t, i);
    PairContents(u, i);
    SameLeft(t, u, i);
    SameRight(t, i + 1, u, i + 1);
  }

  lemma PairContents(t: Tree, i: nat)
    requires t.Inner? && |t.kids| == |t.keys| + 1 && i < |t.keys|
    ensures Contents(t) ==
            LeftOf(t, i) + (Contents(t.kids[i]) + [t.keys[i]] + Contents(t.kids[i + 1])) + RightOf(t, i + 1)
  {
    hide Contents, Conts, LeftOf, RightOf;
    Around(t, i);
    RightStep(t, i);
  }

  /** Replacing two children and their separator by one merged child. */
  lemma MergedPair(t: Tree, i: nat, c: Tree)
    requires t.Inner? && |t.kids| == |t.keys| + 1 && i < |t.keys|
    requires Contents(c) == Contents(t.kids[i]) + [t.keys[i]] + Contents(t.kids[i + 1])
    ensures Contents(Inner(t.id, Del(t.keys, i), Del(t.kids, i + 1)[i := c])) == Contents(t)
  {
    hide Contents, Conts, LeftOf, RightOf;
    var u := Inner(t.id, Del(t.keys, i), Del(t.kids, i + 1)[i := c]);
    PairContents(t, i);
    Around(u, i);
    SameLeft(t, u, i);
    SameRight(t, i + 1, u, i);
  }

  lemma ApartPair(t: Tree, i: nat, l: Tree, k: Elem, r: Tree)
    requires t.Inner? && |t.kids| == |t.keys| + 1 && i < |t.keys| && Apart(t.id, t.kids)
    requires Foot(l) !! Foot(r) && Foot(l) <= Foot(t.kids[i]) + Foot(t.kids[i + 1])
    requires Foot(r) <= Foot(t.kids[i]) + Foot(t.kids[i + 1])
    ensures Apart(t.id, t.kids[i := l][i + 1 := r])
    ensures Foot(Inner(t.id, t.keys[i := k], t.kids[i := l][i + 1 := r])) <= Foot(t)
  {
    hide Foot;
    var u := Inner(t.id, t.keys[i := k], t.kids[i := l][i + 1 := r]);
    forall j | 0 <= j < |t.kids| ensures Foot(t.kids[j]) <= Foot(t) { FootKid(t, j); }
    OwnFoot(t);
    FootWithin(u, Foot(t));
  }

  lemma ApartMerged(t: Tree, i: nat, c: Tree)
    requires t.Inner? && |t.kids| == |t.keys| + 1 && i < |t.keys| && Apart(t.id, t.kids)
    requires Foot(c) <= Foot(t.kids[i]) + Foot(t.kids[i + 1])
    ensures Apart(t.id, Del(t.kids, i + 1)[i := c])
    ensures Foot(Inner(t.id, Del(t.keys, i), Del(t.kids, i + 1)[i := c])) <= Foot(t)
  {
    hide Foot;
    var u := Inner(t.id, Del(t.keys, i), Del(t.kids, i + 1)[i := c]);
    forall j | 0 <= j < |t.kids| ensures Foot(t.kids[j]) <= Foot(t) { FootKid(t, j); }
    OwnFoot(t);
    FootWithin(u, Foot(t));
  }

  // ----- two neighbouring children in memory

  ghost predicate KidsGood(t: Tree, m: nat, h: nat)
    reads Foot(t)
  {
    t.Inner? ==> h > 0 && forall j {:trigger t.kids[j]} :: 0 <= j < |t.kids| ==> Good(t.kids[j], m, h - 1, m)
  }

  /** The node of `t` itself is in order; its children are KidsGood. */
  ghost predicate TopGood(t: Tree, m: nat, h: nat)
    reads t.id, t.id.elem, t.id.down
  {
    && t.id.elem.Length == 2 * m && t.id.Holds(t.keys) && |t.keys| <= 2 * m && (t.Leaf? <==> h == 0)
    && (t.Leaf? ==> t.id.down == null)
    && (t.Inner? ==> t.id.down != null && t.id.Points(Ids(t.kids)) && |t.kids| == |t.keys| + 1 && Apart(t.id, t.kids))
  }

  lemma GoodTop(t: Tree, m: nat, h: nat, lo: nat)
    ensures Good(t, m, h, lo) <==> lo <= |t.keys| && TopGood(t, m, h) && KidsGood(t, m, h)
    ensures t.Leaf? ==> Foot(t) == Own(t.id) && Contents(t) == t.keys
  {
    if t.Inner? { GoodInner(t, m, h, lo); } else { GoodLeaf(t, m, h, lo); }
  }

  /** A node that is full enough below the root is full enough as a root. */
  lemma LowerFill(t: Tree, m: nat, h: nat)
    requires m >= 1 && Good(t, m, h, m)
    ensures Good(t, m, h, 1)
  {
    hide Good;
    GoodTop(t, m, h, m);
    GoodTop(t, m, h, 1);
  }

  // ----- removal, seen on contents

  /** Child i lost its first element. */
  lemma FirstGone(t: Tree, c: Tree)
    requires t.Inner? && |t.kids| == |t.keys| + 1
    requires Contents(t.kids[0]) != [] && Contents(c) == Contents(t.kids[0])[1..]
    ensures Contents(t) != [] && Contents(t)[0] == Contents(t.kids[0])[0]
    ensures Contents(t.(kids := t.kids[0 := c])) == Contents(t)[1..]
  {
    Around(t, 0);
    Replaced(t, 0, c);
  }

  lemma LastGone(t: Tree, c: Tree)
    requires t.Inner? && |t.kids| == |t.keys| + 1
    requires var d := Contents(t.kids[|t.keys|]); d != [] && Contents(c) == d[..|d| - 1]
    ensures var d := Contents(t.kids[|t.keys|]); var f := Contents(t);
            f != [] && f[|f| - 1] == d[|d| - 1] && Contents(t.(kids := t.kids[|t.keys| := c])) == f[..|f| - 1]
  {
    var n := |t.keys|;
    Around(t, n);
    Replaced(t, n, c);
    assert RightOf(t, n) == [];
  }

  /** `Drop` happens inside the branch taken. */
  lemma DropInChild(t: Tree, i: nat, k: int, c: Tree)
    requires t.Inner? && |t.kids| == |t.keys| + 1 && i <= |t.keys|
    requires Sorted(Contents(t)) && Below(t.keys[..i], k) && Above(k, t.keys[i..])
    requires Contents(c) == Drop(Contents(t.kids[i]), k)
    ensures Contents(t.(kids := t.kids[i := c])) == Drop(Contents(t), k)
    ensures Lookup(Contents(t), k) == Lookup(Contents(t.kids[i]), k)
  {
    Route(t, k, i);
    DropMid(LeftOf(t, i), Contents(t.kids[i]), RightOf(t, i), k);
    LookupMid(LeftOf(t, i), Contents(t.kids[i]), RightOf(t, i), k);
    Replaced(t, i, c);
  }

  /** Separator i is overwritten with the first element of the child right of it. */
  lemma DropSeparator(t: Tree, i: nat, c: Tree)
    requires t.Inner? && |t.kids| == |t.keys| + 1 && i < |t.keys| && Sorted(Contents(t))
    requires var d := Contents(t.kids[i + 1]); d != [] && Contents(c) == d[1..]
    ensures Contents(Inner(t.id, t.keys[i := Contents(t.kids[i + 1])[0]], t.kids[i + 1 := c])) ==
            Drop(Contents(t), t.keys[i].key)
    ensures Lookup(Contents(t), t.keys[i].key) == Some(t.keys[i])
  {
    hide Contents, Conts, LeftOf, RightOf;
    var d := Contents(t.kids[i + 1]);
    var u := Inner(t.id, t.keys[i := d[0]], t.kids[i + 1 := c]);
    var l, r := RouteHit(t, i);
    AtSeparator(l, t.keys[i], r, t.keys[i]);
    PairContents(u, i);
    SameLeft(t, u, i);
    SameRight(t, i + 1, u, i + 1);
    assert [d[0]] + Contents(c) == d;
    assert Contents(u) == l + r;
  }

  lemma DropInLeaf(keys: seq<Elem>, i: nat)
    requires i < |keys| && Sorted(keys)
    ensures Drop(keys, keys[i].key) == Del(keys, i) && Lookup(keys, keys[i].key) == Some(keys[i])
  {
    AtSeparator(keys[..i], keys[i], keys[i + 1..], keys[i]);
    CutLeaf(keys, i);
  }

  lemma MissingInLeaf(keys: seq<Elem>, i: nat, k: int)
    requires i <= |keys| && Below(keys[..i], k) && Above(k, keys[i..])
    ensures Drop(keys, k) == keys && Lookup(keys, k) == None
  {
    DropMid(keys[..i], [], keys[i..], k);
    LookupMid(keys[..i], [], keys[i..], k);
    assert keys[..i] + [] + keys[i..] == keys;
  }

  // ----- neighbours of a key

  /** The greatest element below k. */
  ghost predicate IsPred(s: seq<Elem>, k: int, p: Option<Elem>) {
    match p
    case None => forall x :: x in s ==> k <= x.key
    case Some(y) => y in s && y.key < k && forall x :: x in s && x.key < k ==> x.key <= y.key
  }

  /** The least element above k. */
  ghost predicate IsSucc(s: seq<Elem>, k: int, n: Option<Elem>) {
    match n
    case None => forall x :: x in s ==> x.key <= k
    case Some(y) => y in s && k < y.key && forall x :: x in s && k < x.key ==> y.key <= x.key
  }

  ghost function Last(s: seq<Elem>): Option<Elem> {
    if s == [] then None else Some(s[|s| - 1])
  }

  ghost function First(s: seq<Elem>): Option<Elem> {
    if s == [] then None else Some(s[0])
  }

  ghost function Either(a: Option<Elem>, b: Option<Elem>): Option<Elem> {
    if a.Some? then a else b
  }

  /** The neighbours are found in the branch taken, or else next to it. */
  lemma PredMid(l: seq<Elem>, c: seq<Elem>, r: seq<Elem>, k: int, p: Option<Elem>)
    requires Sorted(l + c + r) && Below(l, k) && Above(k, r) && IsPred(c, k, p)
    ensures IsPred(l + c + r, k, Either(p, Last(l)))
  {
    SortedParts(l, c, r);
    var q, s := Either(p, Last(l)), l + c + r;
    if q.Some? { assert p.Some? || l[|l| - 1] in l; }
    forall x | x in s && x.key < k ensures q.Some? && x.key <= q.value.key {
      if x in l {
        assert l[|l| - 1] in l;
      } else {
        assert x in c;
      }
    }
  }

  lemma SuccMid(l: seq<Elem>, c: seq<Elem>, r: seq<Elem>, k: int, n: Option<Elem>)
    requires Sorted(l + c + r) && Below(l, k) && Above(k, r) && IsSucc(c, k, n)
    ensures IsSucc(l + c + r, k, Either(n, First(r)))
  {
    SortedParts(l, c, r);
    var q, s := Either(n, First(r)), l + c + r;
    if q.Some? { assert n.Some? || r[0] in r; }
    forall x | x in s && k < x.key ensures q.Some? && q.value.key <= x.key {
      if x in r {
        assert r[0] in r;
      } else {
        assert x in c;
      }
    }
  }

  lemma NeighboursLeaf(keys: seq<Elem>, i: nat, j: nat, k: int)
    requires i <= j <= |keys| && Sorted(keys) && Below(keys[..i], k) && Above(k, keys[j..])
    requires i == j || (j == i + 1 && keys[i].key == k)
    ensures IsPred(keys, k, Last(keys[..i])) && IsSucc(keys, k, First(keys[j..]))
  {
    var l, c, r := keys[..i], keys[i..j], keys[j..];
    assert keys == l + c + r;
    PredMid(l, c, r, k, None);
    SuccMid(l, c, r, k, None);
  }

  lemma LeftmostEmpty(t: Tree)
    requires t.Inner? && |t.kids| == |t.keys| + 1
    ensures LeftOf(t, 0) == []
  {
  }

  lemma RightmostEmpty(t: Tree)
    requires t.Inner? && |t.kids| == |t.keys| + 1
    ensures RightOf(t, |t.keys|) == []
  {
  }

  /** The elements next to child i in its own node. */
  lemma SideEnds(t: Tree, i: nat)
    requires t.Inner? && |t.kids| == |t.keys| + 1 && i <= |t.keys|
    ensures Last(LeftOf(t, i)) == if i == 0 then None else Some(t.keys[i - 1])
    ensures First(RightOf(t, i)) == if i == |t.keys| then None else Some(t.keys[i])
  {
    if i > 0 { assert t.keys[..i][i - 1] == t.keys[i - 1]; }
    if i < |t.keys| { assert t.keys[i..][0] == t.keys[i]; }
  }

  lemma SortedAround(keys: seq<Elem>, i: nat)
    requires Sorted(keys) && i < |keys|
    ensures Below(keys[..i], keys[i].key) && Above(keys[i].key, keys[i + 1..])
  {
  }

  lemma Alone(x: Elem)
    ensures IsPred([x], x.key, None) && IsSucc([x], x.key, None)
  {
  }

  lemma NeighboursOfSeparator(t: Tree, i: nat)
    requires t.Inner? && |t.kids| == |t.keys| + 1 && i < |t.keys| && Sorted(Contents(t))
    requires Contents(t.kids[i]) != [] && Contents(t.kids[i + 1]) != []
    ensures Lookup(Contents(t), t.keys[i].key) == Some(t.keys[i])
    ensures IsPred(Contents(t), t.keys[i].key, Last(Contents(t.kids[i])))
    ensures IsSucc(Contents(t), t.keys[i].key, First(Contents(t.kids[i + 1])))
  {
    hide Contents, LeftOf, RightOf, IsPred, IsSucc, Sorted, Below, Above, Lookup;
    var l, r := RouteHit(t, i);
    var x := t.keys[i];
    AtSeparator(l, x, r, x);
    Alone(x);
    PredMid(l, [x], r, x.key, None);
    SuccMid(l, [x], r, x.key, None);
    assert l[|l| - 1] == Contents(t.kids[i])[|Contents(t.kids[i])| - 1];
    assert r[0] == Contents(t.kids[i + 1])[0];
  }

  // ----- sizes

  ghost function Nodes(t: Tree): nat {
    match t
    case Leaf(_, _) => 1
    case Inner(_, _, kids) => 1 + NodesAll(kids)
  }

  ghost function NodesAll(kids: seq<Tree>): nat {
    if kids == [] then 0 else NodesAll(kids[..|kids| - 1]) + Nodes(kids[|kids| - 1])
  }

  ghost function SizeAll(kids: seq<Tree>): nat {
    if kids == [] then 0 else SizeAll(kids[..|kids| - 1]) + |Contents(kids[|kids| - 1])|
  }

  lemma {:induction false} PreSize(ks: seq<Elem>, kids: seq<Tree>)
    requires |ks| == |kids|
    ensures |Pre(ks, Conts(kids))| == |ks| + SizeAll(kids)
  {
    if ks == [] {
    } else {
      var n := |ks| - 1;
      PreSize(ks[..n], kids[..n]);
      assert Conts(kids)[..n] == Conts(kids[..n]);
    }
  }

  lemma SizeOf(t: Tree)
    requires t.Inner? && |t.kids| == |t.keys| + 1
    ensures |Contents(t)| == |t.keys| + SizeAll(t.kids)
  {
    ContentsInner(t);
    var n := |t.keys|;
    PreSize(t.keys, t.kids[..n]);
    assert Conts(t.kids)[..n] == Conts(t.kids[..n]);
  }

  /** Memory: every node but the top holds m..2m elements. */
  lemma {:induction false} NodeBounds(t: Tree, m: nat, h: nat, lo: nat)
    requires Shape(t, m, h, lo) && m >= 1
    ensures Nodes(t) >= 1 && lo + (Nodes(t) - 1) * m <= |Contents(t)| <= Nodes(t) * (2 * m)
    decreases t, 0
  {
    if t.Leaf? {
    } else {
      SizeOf(t);
      NodeBoundsAll(t.kids, m, h - 1);
      MulSucc(NodesAll(t.kids), 2 * m);
    }
  }

  lemma {:induction false} NodeBoundsAll(kids: seq<Tree>, m: nat, h: nat)
    requires m >= 1 && forall i :: 0 <= i < |kids| ==> Shape(kids[i], m, h, m)
    ensures NodesAll(kids) * m <= SizeAll(kids) <= NodesAll(kids) * (2 * m)
    decreases kids, 0
  {
    if kids == [] {
    } else {
      hide Shape, Contents, Nodes;
      var k, r := kids[|kids| - 1], kids[..|kids| - 1];
      NodeBounds(k, m, h, m);
      NodeBoundsAll(r, m, h);
      MulAdd(NodesAll(r), Nodes(k), m);
      MulSucc(Nodes(k) - 1, m);
    }
  }

  ghost function Pow(b: nat, e: nat): nat {
    if e == 0 then 1 else b * Pow(b, e - 1)
  }

  /** Depth: a tree of height h has at least (lo+1)*(m+1)^h - 1 elements. */
  lemma {:induction false} HeightBound(t: Tree, m: nat, h: nat, lo: nat)
    requires Shape(t, m, h, lo)
    ensures |Contents(t)| + 1 >= (lo + 1) * Pow(m + 1, h)
    decreases t, 0
  {
    if t.Leaf? {
    } else {
      SizeOf(t);
      HeightBoundAll(t.kids, m, h - 1);
      hide Pow, Contents;
      MulMono(|t.kids|, lo + 1, Pow(m + 1, h));
    }
  }

  lemma {:induction false} HeightBoundAll(kids: seq<Tree>, m: nat, h: nat)
    requires forall i :: 0 <= i < |kids| ==> Shape(kids[i], m, h, m)
    ensures SizeAll(kids) + |kids| >= |kids| * Pow(m + 1, h + 1)
    decreases kids, 0
  {
    if kids == [] {
    } else {
      hide Shape, Contents, Pow;
      var r := kids[..|kids| - 1];
      HeightBound(kids[|kids| - 1], m, h, m);
      HeightBoundAll(r, m, h);
      MulSucc(|r|, Pow(m + 1, h + 1));
      NextPow(m + 1, h);
    }
  }

  lemma NextPow(b: nat, h: nat)
    ensures Pow(b, h + 1) == b * Pow(b, h)
  {
  }

  lemma MulSucc(a: int, q: int)
    ensures (a + 1) * q == a * q + q
  {
  }

  lemma MulAdd(a: int, b: int, q: int)
    ensures (a + b) * q == a * q + b * q && (a + b) * (2 * q) == a * (2 * q) + b * (2 * q)
  {
  }

  lemma MulMono(a: nat, b: nat, q: nat)
    requires a >= b
    ensures a * q >= b * q
  {
  }

  /** The neighbours of a key that is not a separator, from those in the branch taken. */
  lemma NeighboursMid(t: Tree, i: nat, k: int, p: Option<Elem>, n: Option<Elem>)
    requires t.Inner? && |t.kids| == |t.keys| + 1 && i <= |t.keys|
    requires Sorted(Contents(t)) && Below(t.keys[..i], k) && Above(k, t.keys[i..])
    requires IsPred(Contents(t.kids[i]), k, p) && IsSucc(Contents(t.kids[i]), k, n)
    ensures IsPred(Contents(t), k, Either(p, if i == 0 then None else Some(t.keys[i - 1])))
    ensures IsSucc(Contents(t), k, Either(n, if i == |t.keys| then None else Some(t.keys[i])))
    ensures Lookup(Contents(t), k) == Lookup(Contents(t.kids[i]), k)
  {
    hide Contents, LeftOf, RightOf, IsPred, IsSucc, Sorted, Below, Above, Lookup;
    var l, c, r := LeftOf(t, i), Contents(t.kids[i]), RightOf(t, i);
    Route(t, k, i);
    LookupMid(l, c, r, k);
    PredMid(l, c, r, k, p);
    SuccMid(l, c, r, k, n);
    SideEnds(t, i);
  }

  /** What is known of two neighbouring children. */
  lemma Neighbours(t: Tree, m: nat, h: nat, i: nat, lol: nat, lor: nat)
    requires t.Inner? && i + 1 < |t.kids| && h > 0 && Apart(t.id, t.kids)
    requires Good(t.kids[i], m, h - 1, lol) && Good(t.kids[i + 1], m, h - 1, lor)
    ensures var l, r := t.kids[i], t.kids[i + 1];
            && Siblings(l, r) && Foot(l) !! Foot(r) && Distinct(t.id, l.id, r.id) && Off(t.id, Foot(l))
            && Off(t.id, Foot(r))
            && TopGood(l, m, h - 1) && KidsGood(l, m, h - 1) && TopGood(r, m, h - 1) && KidsGood(r, m, h - 1)
            && lol <= |l.keys| && lor <= |r.keys|
            && Own(l.id) <= Foot(l) && Own(r.id) <= Foot(r) && Foot(l) + Foot(r) <= Foot(t)
  {
    hide Good, Foot, Contents, KidsGood;
    var l, r := t.kids[i], t.kids[i + 1];
    GoodTop(l, m, h - 1, lol);
    GoodTop(r, m, h - 1, lor);
    OwnFoot(l);
    OwnFoot(r);
    assert Distinct(t.id, l.id, r.id) by { NodesApart(t.id, l.id, r.id, Foot(l), Foot(r)); }
    FootKid(t, i);
    FootKid(t, i + 1);
  }

  /** The nodes of a parent and two neighbouring children touch no other subtree. */
  lemma PairApart(t: Tree, i: nat)
    requires t.Inner? && i + 1 < |t.kids| && Apart(t.id, t.kids)
    requires forall c :: c in [t.kids[i], t.kids[i + 1]] && c.Inner? ==> Apart(c.id, c.kids)
    ensures var l, r := t.kids[i], t.kids[i + 1]; var w := Own(t.id) + Own(l.id) + Own(r.id);
            && w <= Foot(t)
            && (forall j {:trigger t.kids[j]} :: 0 <= j < |t.kids| && j != i && j != i + 1 ==>
              Foot(t.kids[j]) !! w && Foot(t.kids[j]) <= Foot(t))
            && (forall j {:trigger KidsOf(l)[j]} :: 0 <= j < |KidsOf(l)| ==>
              Foot(KidsOf(l)[j]) !! w && Foot(KidsOf(l)[j]) <= Foot(t))
            && (forall j {:trigger KidsOf(r)[j]} :: 0 <= j < |KidsOf(r)| ==>
              Foot(KidsOf(r)[j]) !! w && Foot(KidsOf(r)[j]) <= Foot(t))
  {
    hide Foot;
    var l, r := t.kids[i], t.kids[i + 1];
    OwnFoot(t);
    OwnFoot(l);
    OwnFoot(r);
    forall j | 0 <= j < |t.kids| ensures Foot(t.kids[j]) <= Foot(t) { FootKid(t, j); }
    forall j | 0 <= j < |KidsOf(l)| ensures Foot(KidsOf(l)[j]) <= Foot(l) { FootKid(l, j); }
    forall j | 0 <= j < |KidsOf(r)| ensures Foot(KidsOf(r)[j]) <= Foot(r) { FootKid(r, j); }
  }

  lemma NodesApart(n: Node, l: Node, r: Node, fl: set<object>, fr: set<object>)
    requires Off(n, fl) && Off(n, fr) && fl !! fr && Own(l) <= fl && Own(r) <= fr
    ensures Distinct(n, l, r)
  {
    assert l in Own(l) && l.elem in Own(l) && (l.down != null ==> l.down in Own(l));
    assert r in Own(r) && r.elem in Own(r) && (r.down != null ==> r.down in Own(r));
  }

  lemma SingleElement(e: Elem)
    ensures Sorted([e]) && ToMap([e]) == map[e.key := e] && ToMap([]) == map[]
  {
    assert [e][1..] == [];
  }

  /** A node with one key and two children. */
  lemma TwoKids(t: Tree)
    requires t.Inner? && |t.keys| == 1 && |t.kids| == 2
    ensures Contents(t) == Contents(t.kids[0]) + t.keys + Contents(t.kids[1])
    ensures Foot(t) == Own(t.id) + Foot(t.kids[0]) + Foot(t.kids[1])
  {
    hide Contents, LeftOf, RightOf;
    PairContents(t, 0);
    LeftmostEmpty(t);
    RightmostEmpty(t);
    assert t.keys == [t.keys[0]];
    FootOfTwo(t);
  }

  lemma FootOfTwo(t: Tree)
    requires t.Inner? && |t.kids| == 2
    ensures Foot(t) == Own(t.id) + Foot(t.kids[0]) + Foot(t.kids[1])
  {
  }

  /** A node with no key and one child. */
  lemma OneKid(t: Tree)
    requires t.Inner? && t.keys == [] && |t.kids| == 1
    ensures Contents(t) == Contents(t.kids[0])
  {
    hide Contents, LeftOf, RightOf;
    Around(t, 0);
    LeftmostEmpty(t);
    RightmostEmpty(t);
  }

  /** Dropping the first or last element of a sorted sequence. */
  lemma DropEnds(s: seq<Elem>)
    requires Sorted(s) && s != []
    ensures Drop(s, s[0].key) == s[1..] && Drop(s, s[|s| - 1].key) == s[..|s| - 1]
  {
    var n := |s| - 1;
    SortedAround(s, n);
    AtSeparator(s[..n], s[n], s[n + 1..], s[n]);
    CutLeaf(s, n);
    assert s[..n] + s[n + 1..] == s[..n];
  }

  lemma EndsOfMap(s: seq<Elem>)
    requires Sorted(s) && s != []
    ensures ToMap(s) != map[] && s[0].key in ToMap(s) && s[|s| - 1].key in ToMap(s)
    ensures ToMap(s)[s[0].key] == s[0] && ToMap(s)[s[|s| - 1].key] == s[|s| - 1]
    ensures forall k :: k in ToMap(s) ==> s[0].key <= k <= s[|s| - 1].key
  {
    ToMapKeys(s);
    forall k | k in ToMap(s) ensures s[0].key <= k <= s[|s| - 1].key {
      assert Has(s, k);
    }
  }

  lemma NeighboursInMap(s: seq<Elem>, k: int, p: Option<Elem>, n: Option<Elem>)
    requires Sorted(s) && IsPred(s, k, p) && IsSucc(s, k, n)
    ensures match p
            case None => forall j :: j in ToMap(s) ==> k <= j
            case Some(y) =>
              && y.key in ToMap(s) && ToMap(s)[y.key] == y && y.key < k
              && forall j :: j in ToMap(s) && j < k ==> j <= y.key
    ensures match n
            case None => forall j :: j in ToMap(s) ==> j <= k
            case Some(y) =>
              && y.key in ToMap(s) && ToMap(s)[y.key] == y && k < y.key
              && forall j :: j in ToMap(s) && k < j ==> y.key <= j
  {
    ToMapKeys(s);
    forall j | j in ToMap(s) ensures exists x :: x in s && x.key == j {
      var i :| 0 <= i < |s| && s[i].key == j;
      assert s[i] in s;
    }
  }
}
