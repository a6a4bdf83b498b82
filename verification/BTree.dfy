/** The B-tree itself: lookup, insertion with node splits, removal with borrowing and merging, all in place over
    linked nodes. */
module BTree {
  import opened SortedSeq
  import opened BTreeNode
  import opened BTreeShape
  import opened BTreeSiblings

  class HLBTree {
    const m: nat
    const op: Plugin
    const tmp: array<Slot>
    var root: Node?
    ghost var tree: Option<Tree>
    ghost var height: nat

    constructor (minFill: nat)
      ensures Valid() && Model() == map[] && m == (if minFill < 2 then 2 else minFill) && root == null
      ensures fresh(op) && fresh(tmp) && op.Balance() == 0 && tmp.Length == 1 && tmp[0].Raw?
    {
      m := if minFill < 2 then 2 else minFill;
      op := new Plugin();
      tmp := new Slot[1](_ => Raw);
      root := null;
      tree, height := None, 0;
    }

    /** The nodes of `t` are not the tree object, its plugin or its temporary. */
    ghost predicate Outside(t: Tree) {
      this !in Foot(t) && op !in Foot(t) && tmp !in Foot(t)
    }

    ghost predicate Config() {
      m >= 2 && tmp.Length == 1
    }

    // ----- splitting a full node
    //
    // The 2m+1 elements F = Ins(keys, at, e) are dealt in order: m to a new left node,
    // one to the temporary, m to the old node. `idx` is the position where `e` is still
    // to be taken, or -1 once it has been taken.

    /** Copy F[..m] to the new node. */
    method DealLeft(l: Node, tn: Node, at: nat, e: Elem, ghost keys: seq<Elem>) returns (idx: int, s: nat)
      requires at <= |keys| == 2 * m == tn.elem.Length == l.elem.Length && tn.Holds(keys)
      requires l.elem != tn.elem && forall j :: 0 <= j < 2 * m ==> l.elem[j] == Raw
      modifies l.elem, op
      ensures idx == (if at < m then -1 else at) && s == (if at < m then m - 1 else m)
      ensures forall j {:trigger l.elem[j]} :: 0 <= j < m ==> l.elem[j] == Live(Ins(keys, at, e)[j])
      ensures forall j {:trigger l.elem[j]} :: m <= j < 2 * m ==> l.elem[j] == Raw
      ensures op.Balance() == old(op.Balance()) + m
    {
      ghost var F := Ins(keys, at, e);
      var d: nat := 0;
      idx, s := at, 0;
      while d < m
        invariant d <= m && idx == (if at < d then -1 else at) && s == (if at < d then d - 1 else d)
        invariant forall j {:trigger l.elem[j]} :: 0 <= j < d ==> l.elem[j] == Live(F[j])
        invariant forall j {:trigger l.elem[j]} :: d <= j < 2 * m ==> l.elem[j] == Raw
        invariant op.Balance() == old(op.Balance()) + d
      {
        if s == idx {
          idx := -1;
          op.Ini(l.elem, d, e);
        } else {
          op.Ini(l.elem, d, tn.elem[s].e);
          s := s + 1;
        }
        d := d + 1;
      }
    }

    /** Put F[m] into the temporary. */
    method DealMiddle(tn: Node, at: nat, idx0: int, s0: nat, e: Elem, ghost keys: seq<Elem>) returns (idx: int, s: nat)
      requires Config() && at <= |keys| == 2 * m == tn.elem.Length && tn.Holds(keys)
      requires idx0 == (if at < m then -1 else at) && s0 == (if at < m then m - 1 else m)
      requires tn.elem != tmp && tmp[0].Raw?
      modifies tn.elem, tmp, op
      ensures idx == (if at <= m then -1 else at) && s == (if at <= m then m else m + 1)
      ensures tmp[0] == Live(Ins(keys, at, e)[m])
      ensures forall j {:trigger tn.elem[j]} :: 0 <= j < 2 * m ==>
                tn.elem[j] == if m <= j < s then Raw else Live(keys[j])
      ensures op.Balance() == old(op.Balance()) + 1 - (s - m)
    {
      idx, s := idx0, s0;
      if s == idx {
        idx := -1;
        op.Ini(tmp, 0, e);
      } else {
        op.Ini(tmp, 0, tn.elem[s].e);
        if s >= m { op.Clr(tn.elem, s); }
        s := s + 1;
      }
    }

    /** Move F[m+1..] down in the old node. */
    method DealRight(tn: Node, at: nat, idx0: int, s0: nat, e: Elem, ghost keys: seq<Elem>)
      requires at <= |keys| == 2 * m == tn.elem.Length
      requires idx0 == (if at <= m then -1 else at) && s0 == (if at <= m then m else m + 1)
      requires forall j {:trigger tn.elem[j]} :: 0 <= j < 2 * m ==>
                tn.elem[j] == if m <= j < s0 then Raw else Live(keys[j])
      modifies tn.elem, op
      ensures forall j {:trigger tn.elem[j]} :: 0 <= j < m ==> tn.elem[j] == Live(Ins(keys, at, e)[m + 1 + j])
      ensures forall j {:trigger tn.elem[j]} :: m <= j < 2 * m ==> tn.elem[j] == Raw
      ensures op.Balance() == old(op.Balance()) - (2 * m - s0)
    {
      hide Ins;
      ghost var F := Ins(keys, at, e);
      var d: nat, s, idx := 0, s0, idx0;
      while d < m
        invariant d <= m && idx == (if at <= m + d then -1 else at) && s == (if at <= m + d then m + d else m + 1 + d)
        invariant forall j {:trigger tn.elem[j]} :: 0 <= j < 2 * m ==>
                    if j < d then tn.elem[j] == Live(F[m + 1 + j]) else if j < m then tn.elem[j].Live?
                    else tn.elem[j] == if j < s then Raw else Live(keys[j])
        invariant op.Balance() == old(op.Balance()) - (s - s0)
      {
        if s == idx {
          idx := -1;
          op.Ass(tn.elem, d, e);
        } else {
          MoveElem(tn, d, s);
          s := s + 1;
        }
        d := d + 1;
      }
    }

    /** Move an element from slot s down to slot d. */
    method MoveElem(tn: Node, d: nat, s: nat)
      requires d < s < tn.elem.Length && tn.elem[d].Live? && tn.elem[s].Live?
      modifies tn.elem, op
      ensures tn.elem[d] == old(tn.elem[s]) && tn.elem[s] == Raw
      ensures forall j {:trigger tn.elem[j]} :: 0 <= j < tn.elem.Length && j != d && j != s ==>
                tn.elem[j] == old(tn.elem[j])
      ensures op.Balance() == old(op.Balance()) - 1
    {
      op.Ass(tn.elem, d, tn.elem[s].e);
      op.Clr(tn.elem, s);
    }

    /** Insert into a full leaf. */
    method SplitLeaf(tn: Node, idx0: nat, e: Elem, ghost keys: seq<Elem>) returns (l: Node)
      requires Config() && tn.elem.Length == 2 * m && tn.Holds(keys) && |keys| == 2 * m && idx0 <= 2 * m
      requires tn.elem != tmp && tmp[0].Raw?
      modifies tn, tn.elem, tmp, op
      ensures fresh(l) && fresh(l.elem) && l.elem.Length == 2 * m && l.down == null
      ensures l.Holds(Ins(keys, idx0, e)[..m])
      ensures tmp[0] == Live(Ins(keys, idx0, e)[m])
      ensures tn.Holds(Ins(keys, idx0, e)[m + 1..])
      ensures op.Balance() == old(op.Balance()) + 1
    {
      l := new Node.Leaf(m);
      var idx, s := DealLeft(l, tn, idx0, e, keys);
      idx, s := DealMiddle(tn, idx0, idx, s, e, keys);
      DealRight(tn, idx0, idx, s, e, keys);
      tn.nelem := m;
      l.nelem := m;
    }

    // The same three phases for an inner node: C = Ins(kids, at, isplit) are the 2m+2
    // children, m+1 for each side.

    method DealLeftInner(l: Node, tn: Node, at: nat, e: Elem, isplit: Node, ghost keys: seq<Elem>,
            ghost kids: seq<Node>)
      returns (idx: int, s: nat)
      requires at <= |keys| == 2 * m == tn.elem.Length == l.elem.Length && tn.Holds(keys) && tn.Points(kids)
      requires l.elem != tn.elem && forall j :: 0 <= j < 2 * m ==> l.elem[j] == Raw
      requires l.down != null && l.down != tn.down && l.down.Length == 2 * m + 1
      requires forall j :: 0 <= j <= 2 * m ==> l.down[j] == null
      modifies l.elem, l.down, op
      ensures idx == (if at < m then -1 else at) && s == (if at < m then m - 1 else m)
      ensures forall j {:trigger l.elem[j]} :: 0 <= j < m ==> l.elem[j] == Live(Ins(keys, at, e)[j])
      ensures forall j {:trigger l.elem[j]} :: m <= j < 2 * m ==> l.elem[j] == Raw
      ensures forall j {:trigger l.down[j]} :: 0 <= j < m ==> l.down[j] == Ins(kids, at, isplit)[j]
      ensures forall j {:trigger l.down[j]} :: m <= j <= 2 * m ==> l.down[j] == null
      ensures op.Balance() == old(op.Balance()) + m
    {
      ghost var F, C := Ins(keys, at, e), Ins(kids, at, isplit);
      var d: nat := 0;
      idx, s := at, 0;
      while d < m
        invariant d <= m && idx == (if at < d then -1 else at) && s == (if at < d then d - 1 else d)
        invariant forall j {:trigger l.elem[j]} :: 0 <= j < d ==> l.elem[j] == Live(F[j])
        invariant forall j {:trigger l.elem[j]} :: d <= j < 2 * m ==> l.elem[j] == Raw
        invariant forall j {:trigger l.down[j]} :: 0 <= j < d ==> l.down[j] == C[j]
        invariant forall j {:trigger l.down[j]} :: d <= j <= 2 * m ==> l.down[j] == null
        invariant op.Balance() == old(op.Balance()) + d
      {
        if s == idx {
          idx := -1;
          op.Ini(l.elem, d, e);
          l.down[d] := isplit;
        } else {
          op.Ini(l.elem, d, tn.elem[s].e);
          l.down[d] := tn.down[s];
          s := s + 1;
        }
        d := d + 1;
      }
    }

    /** Move element and left child from slot s down to slot d of an inner node. */
    method MoveSlot(tn: Node, d: nat, s: nat)
      requires d < s < tn.elem.Length && tn.down != null && tn.down.Length == tn.elem.Length + 1
      requires tn.elem[d].Live? && tn.elem[s].Live?
      modifies tn.elem, tn.down, op
      ensures tn.elem[d] == old(tn.elem[s]) && tn.elem[s] == Raw
      ensures tn.down[d] == old(tn.down[s]) && tn.down[s] == null
      ensures forall j {:trigger tn.elem[j]} :: 0 <= j < tn.elem.Length && j != d && j != s ==>
                tn.elem[j] == old(tn.elem[j])
      ensures forall j {:trigger tn.down[j]} :: 0 <= j < tn.down.Length && j != d && j != s ==>
                tn.down[j] == old(tn.down[j])
      ensures op.Balance() == old(op.Balance()) - 1
    {
      MoveElem(tn, d, s);
      tn.down[d] := tn.down[s];
      tn.down[s] := null;
    }

    method DealRightInner(tn: Node, at: nat, idx0: int, s0: nat, e: Elem, isplit: Node, ghost keys: seq<Elem>,
            ghost kids: seq<Node>)
      requires Config() && at <= |keys| == 2 * m == tn.elem.Length && |kids| == 2 * m + 1 && tn.down != null
      requires tn.down.Length == 2 * m + 1
      requires idx0 == (if at <= m then -1 else at) && s0 == (if at <= m then m else m + 1)
      requires forall j {:trigger tn.elem[j]} :: 0 <= j < 2 * m ==>
                tn.elem[j] == if m <= j < s0 then Raw else Live(keys[j])
      requires forall j {:trigger tn.down[j]} :: 0 <= j <= 2 * m ==> tn.down[j] == kids[j]
      modifies tn.elem, tn.down, op
      ensures forall j {:trigger tn.elem[j]} :: 0 <= j < m ==> tn.elem[j] == Live(Ins(keys, at, e)[m + 1 + j])
      ensures forall j {:trigger tn.elem[j]} :: m <= j < 2 * m ==> tn.elem[j] == Raw
      ensures forall j {:trigger tn.down[j]} :: 0 <= j <= m ==> tn.down[j] == Ins(kids, at, isplit)[m + 1 + j]
      ensures forall j {:trigger tn.down[j]} :: m < j <= 2 * m ==> tn.down[j] == null
      ensures op.Balance() == old(op.Balance()) - (2 * m - s0)
    {
      hide Ins;
      ghost var F, C := Ins(keys, at, e), Ins(kids, at, isplit);
      var d: nat, s, idx := 0, s0, idx0;
      while d < m
        invariant d <= m && idx == (if at <= m + d then -1 else at) && s == (if at <= m + d then m + d else m + 1 + d)
        invariant forall j {:trigger tn.elem[j]} :: 0 <= j < 2 * m ==>
                    if j < d then tn.elem[j] == Live(F[m + 1 + j]) else if j < m then tn.elem[j].Live?
                    else tn.elem[j] == if j < s then Raw else Live(keys[j])
        invariant forall j {:trigger tn.down[j]} :: 0 <= j <= 2 * m ==>
                    if j < d then tn.down[j] == C[m + 1 + j] else j > m || j >= s ==>
                      tn.down[j] == if j < s then null else kids[j]
        invariant op.Balance() == old(op.Balance()) - (s - s0)
      {
        if s == idx {
          idx := -1;
          op.Ass(tn.elem, d, e);
          tn.down[d] := isplit;
          d := d + 1;
        } else {
          MoveSlot(tn, d, s);
          d := d + 1;
          s := s + 1;
        }
      }
      tn.down[d] := tn.down[s];
      tn.down[s] := null;
    }

    /** The three phases, and the child between the first two. */
    method DealInner(l: Node, tn: Node, at: nat, e: Elem, isplit: Node, ghost keys: seq<Elem>, ghost kids: seq<Node>)
      requires Config() && at <= |keys| == 2 * m == tn.elem.Length == l.elem.Length && tn.Holds(keys) && tn.Points(kids)
      requires l.elem != tn.elem && l.elem != tmp && tn.elem != tmp && tmp[0].Raw?
      requires forall j :: 0 <= j < 2 * m ==> l.elem[j] == Raw
      requires l.down != null && l.down != tn.down && l.down.Length == 2 * m + 1
      requires forall j :: 0 <= j <= 2 * m ==> l.down[j] == null
      modifies l.elem, l.down, tn.elem, tn.down, tmp, op
      ensures tmp[0] == Live(Ins(keys, at, e)[m])
      ensures forall j {:trigger l.elem[j]} :: 0 <= j < 2 * m ==>
                l.elem[j] == if j < m then Live(Ins(keys, at, e)[j]) else Raw
      ensures forall j {:trigger l.down[j]} :: 0 <= j <= 2 * m ==>
                l.down[j] == if j <= m then Ins(kids, at, isplit)[j] else null
      ensures forall j {:trigger tn.elem[j]} :: 0 <= j < 2 * m ==>
                tn.elem[j] == if j < m then Live(Ins(keys, at, e)[m + 1 + j]) else Raw
      ensures forall j {:trigger tn.down[j]} :: 0 <= j <= 2 * m ==>
                tn.down[j] == if j <= m then Ins(kids, at, isplit)[m + 1 + j] else null
      ensures op.Balance() == old(op.Balance()) + 1
    {
      hide Ins;
      var idx, s := DealLeftInner(l, tn, at, e, isplit, keys, kids);
      l.down[m] := if s == idx then isplit else tn.down[s];
      idx, s := DealMiddle(tn, at, idx, s, e, keys);
      DealRightInner(tn, at, idx, s, e, isplit, keys, kids);
    }

    /** Insert into a full inner node. */
    method SplitInner(tn: Node, idx0: nat, e: Elem, isplit: Node, ghost keys: seq<Elem>, ghost kids: seq<Node>)
        returns (l: Node)
      requires Config() && tn.elem.Length == 2 * m && tn.Holds(keys) && tn.Points(kids) && |keys| == 2 * m
      requires idx0 <= 2 * m
      requires tn.elem != tmp && tmp[0].Raw?
      modifies tn, tn.elem, tn.down, tmp, op
      ensures fresh(l) && fresh(l.elem) && l.elem.Length == 2 * m && l.down != null && fresh(l.down)
      ensures l.Holds(Ins(keys, idx0, e)[..m]) && l.Points(Ins(kids, idx0, isplit)[..m + 1])
      ensures tmp[0] == Live(Ins(keys, idx0, e)[m])
      ensures tn.Holds(Ins(keys, idx0, e)[m + 1..]) && tn.Points(Ins(kids, idx0, isplit)[m + 1..])
      ensures op.Balance() == old(op.Balance()) + 1
    {
      hide Ins;
      l := new Node.NonLeaf(m);
      DealInner(l, tn, idx0, e, isplit, keys, kids);
      tn.nelem := m;
      l.nelem := m;
    }

    // ----- taking up a split child

    /** Put the separator in `tmp` and the tree `c` left of child i of a node that has room. */
    method AddChildHeap(tn: Node, i: nat, split: Node, ghost keys: seq<Elem>, ghost kids: seq<Tree>, ghost c: Tree,
            ghost h: nat)
      requires Config() && NodeGood(tn, keys, kids, m, h) && |keys| < 2 * m && i <= |keys| && tmp[0].Live?
      requires c.id == split && Good(c, m, h - 1, m) && Apart(tn, Ins(kids, i, c)) && Off(tn, {tmp, op})
      requires Outside(c) && forall j :: 0 <= j < |kids| ==> Outside(kids[j])
      modifies Own(tn), tmp, op
      ensures NodeGood(tn, Ins(keys, i, old(tmp[0].e)), Ins(kids, i, c), m, h) && tmp[0] == Raw
      ensures op.Balance() == old(op.Balance())
    {
      hide Good, Foot;
      ghost var C := Ins(kids, i, c);
      assert C[i] == c && Ids(C) == Ins(Ids(kids), i, split);
      assert allocated(Foot(c)) && forall j :: 0 <= j < |kids| ==> allocated(Foot(kids[j]));
      tn.INSNS(i, tmp[0].e, split, op, keys, Ids(kids));
      op.Clr(tmp, 0);
    }

    method AddChild(tn: Node, i: nat, split: Node, ghost t: Tree, ghost c: Tree, ghost h: nat, ghost lo: nat)
        returns (ghost t': Tree)
      requires Config() && t.Inner? && t.id == tn && Good(t, m, h, lo) && Outside(t) && |t.keys| < 2 * m
      requires i <= |t.keys|
      requires c.id == split && Good(c, m, h - 1, m) && Outside(c) && Foot(c) !! Foot(t)
      requires tmp[0].Live?
      modifies Own(tn), tmp, op
      ensures t'.id == tn && Foot(t') <= Foot(t) + Foot(c) && Good(t', m, h, lo) && tmp[0] == Raw
      ensures Contents(t') == LeftOf(t, i) + Contents(c) + [old(tmp[0].e)] + Contents(t.kids[i]) + RightOf(t, i)
      ensures op.Balance() == old(op.Balance())
    {
      hide Good, Foot, Contents, LeftOf, RightOf, Sorted, Below, Above;
      GoodInner(t, m, h, lo);
      t' := Inner(tn, Ins(t.keys, i, tmp[0].e), Ins(t.kids, i, c));
      InsertedChild(t, i, tmp[0].e, c);
      ApartIns(t, i, c, t'.keys);
      OwnFoot(t);
      forall j | 0 <= j < |t.kids| ensures Outside(t.kids[j]) { FootKid(t, j); }
      AddChildHeap(tn, i, split, t.keys, t.kids, c, h);
      GoodInner(t', m, h, lo);
    }

    /** The children of a node and a new one at place i. */
    lemma TakenKids(tn: Node, kids: seq<Tree>, i: nat, c: Tree, h: nat)
      requires h > 0 && i <= |kids| && Good(c, m, h - 1, m) && Outside(c) && Apart(tn, Ins(kids, i, c))
      requires m + 1 <= |kids| && forall j :: 0 <= j < |kids| ==> Good(kids[j], m, h - 1, m) && Outside(kids[j])
      ensures var C := Ins(kids, i, c);
              && Ids(C) == Ins(Ids(kids), i, c.id)
              && Ids(C[..m + 1]) == Ids(C)[..m + 1] && Ids(C[m + 1..]) == Ids(C)[m + 1..]
              && forall j {:trigger C[j]} :: 0 <= j < |C| ==>
                   Good(C[j], m, h - 1, m) && op !in Foot(C[j]) && tmp !in Foot(C[j]) && Off(tn, Foot(C[j]))
    {
      hide Good, Foot, Ins;
      var C := Ins(kids, i, c);
      assert C[i] == c && Ids(C) == Ins(Ids(kids), i, c.id);
    }

    /** Put the separator `x` and the tree `c` left of child i of a full node, and split it. */
    method SplitHeap(tn: Node, i: nat, x: Elem, split: Node, ghost keys: seq<Elem>, ghost kids: seq<Tree>,
            ghost c: Tree, ghost h: nat) returns (l: Node)
      requires Config() && NodeGood(tn, keys, kids, m, h) && |keys| == 2 * m && i <= 2 * m && tmp[0] == Raw
      requires c.id == split && Good(c, m, h - 1, m) && Apart(tn, Ins(kids, i, c)) && Off(tn, {tmp, op})
      requires Outside(c) && forall j :: 0 <= j < |kids| ==> Outside(kids[j])
      modifies Own(tn), tmp, op
      ensures fresh(Own(l)) && l.down != null && tmp[0] == Live(Ins(keys, i, x)[m])
      ensures NodeGood(l, Ins(keys, i, x)[..m], Ins(kids, i, c)[..m + 1], m, h)
      ensures NodeGood(tn, Ins(keys, i, x)[m + 1..], Ins(kids, i, c)[m + 1..], m, h)
      ensures op.Balance() == old(op.Balance()) + 1
    {
      hide Good, Foot, Ins, Apart, Outside, Node.Holds, Node.Points;
      ghost var C := Ins(kids, i, c);
      TakenKids(tn, kids, i, c, h);
      assert allocated(Foot(c)) && forall j :: 0 <= j < |kids| ==> allocated(Foot(kids[j]));
      assert forall j {:trigger C[j]} :: 0 <= j < |C| ==> allocated(Foot(C[j]));
      l := SplitInner(tn, i, x, split, keys, Ids(kids));
      assert forall j {:trigger C[j]} :: 0 <= j < |C| ==> Good(C[j], m, h - 1, m) && Off(l, Foot(C[j]));
      ApartCut(tn, l, C, m + 1);
    }

    /** Put separator `x` and the tree `c` left of child i of the full node `t`, and cut it into `s`, the element in
        `tmp`, and `t'`. */
    method SplitNode(tn: Node, i: nat, x: Elem, split: Node, ghost t: Tree, ghost c: Tree, ghost h: nat, ghost lo: nat)
      returns (l: Node, ghost t': Tree, ghost s: Tree)
      requires Config() && t.Inner? && t.id == tn && Good(t, m, h, lo) && Outside(t) && |t.keys| == 2 * m && i <= 2 * m
      requires c.id == split && Good(c, m, h - 1, m) && Outside(c) && Foot(c) !! Foot(t)
      requires tmp[0] == Raw
      modifies Own(tn), tmp, op
      ensures t'.id == tn && s.id == l && fresh(Own(l)) && Good(t', m, h, m) && Good(s, m, h, m)
      ensures Foot(t') <= Foot(t) + Foot(c) && Foot(s) <= Foot(t) + Foot(c) + Own(l) && Foot(s) !! Foot(t')
      ensures tmp[0].Live?
      ensures Contents(s) + [tmp[0].e] + Contents(t') == LeftOf(t, i) + Contents(c) + [x]
                  + Contents(t.kids[i]) + RightOf(t, i)
      ensures op.Balance() == old(op.Balance()) + 1
    {
      hide Good, Foot, Contents, LeftOf, RightOf, Sorted, Below, Above;
      GoodInner(t, m, h, lo);
      ghost var F, C := Ins(t.keys, i, x), Ins(t.kids, i, c);
      ghost var u := Inner(tn, F, C);
      InsertedChild(t, i, x, c);
      ApartIns(t, i, c, F);
      OwnFoot(t);
      forall j | 0 <= j < |t.kids| ensures Outside(t.kids[j]) { FootKid(t, j); }
      assert allocated(Foot(u)) by { assert allocated(Foot(t)) && allocated(Foot(c)); }
      l := SplitHeap(tn, i, x, split, t.keys, t.kids, c, h);
      s, t' := Inner(l, F[..m], C[..m + 1]), Inner(tn, F[m + 1..], C[m + 1..]);
      CutContents(u, m, s, t');
      CutFoot(u, m + 1, s, t');
      GoodInner(s, m, h, m);
      GoodInner(t', m, h, m);
    }

    // ----- insertion

    /** Store below `tn`. 1: replaced; 0: stored; 2: stored, but the node was split into `s`, the element in `tmp`,
        and `t'`. */
    method StoreAt(tn: Node, e: Elem, ghost t: Tree, ghost h: nat, ghost lo: nat)
      returns (rv: int, split: Node?, ghost t': Tree, ghost s: Tree)
      requires Config() && t.id == tn && Good(t, m, h, lo) && 1 <= lo <= m && Outside(t)
      requires Sorted(Contents(t)) && tmp[0] == Raw
      modifies Foot(t), tmp, op
      ensures t'.id == tn && fresh(Foot(t') - Foot(t)) && Outside(t')
      ensures rv == 0 || rv == 1 || rv == 2
      ensures rv == 1 <==> Has(Contents(t), e.key)
      ensures op.Balance() == old(op.Balance()) + if rv == 1 then 0 else 1
      ensures rv != 2 ==> Good(t', m, h, lo) && Contents(t') == Put(Contents(t), e) && tmp[0] == Raw
      ensures rv == 2 ==>
                && split == s.id && Good(t', m, h, m) && Good(s, m, h, m)
                && fresh(Foot(s) - Foot(t)) && Outside(s) && Foot(s) !! Foot(t')
                && tmp[0].Live? && Contents(s) + [tmp[0].e] + Contents(t') == Put(Contents(t), e)
      decreases h, 1
    {
      hide Good, Foot, Contents, LeftOf, RightOf, Sorted, Below, Above;
      if t.Inner? { GoodInner(t, m, h, lo); } else { GoodLeaf(t, m, h, lo); }
      SortedNodeKeys(t);
      OwnFoot(t);
      assert allocated(Foot(t));
      var found, idx := tn.LBI(e.key, t.keys);
      if tn.down == null {
        rv, split, t', s := StoreLeaf(tn, found, idx, e, t, lo);
      } else if found {
        t' := StoreHit(tn, idx, e, t, h, lo);
        rv, split, s := 1, null, t';
      } else {
        label L:
        rv, split, t', s := StoreBranch(tn, idx, e, t, h, lo);
        forall o | o in Foot(t') && o !in Foot(t) ensures !old(allocated(o)) {
          assert old(allocated(o)) ==> old@L(allocated(o));
        }
        forall o | rv == 2 && o in Foot(s) && o !in Foot(t) ensures !old(allocated(o)) {
          assert old(allocated(o)) ==> old@L(allocated(o));
        }
      }
    }

    method ReplaceElem(tn: Node, idx: nat, e: Elem, ghost keys: seq<Elem>)
      requires tn.Holds(keys) && idx < |keys|
      modifies tn.elem, op
      ensures tn.Holds(keys[idx := e]) && op.Balance() == old(op.Balance())
    {
      op.Ass(tn.elem, idx, e);
    }

    lemma NodeFill(tn: Node, keys: seq<Elem>)
      requires tn.Holds(keys)
      ensures tn.nelem == |keys| <= tn.elem.Length
    {
    }

    method StoreLeaf(tn: Node, found: bool, idx: nat, e: Elem, ghost t: Tree, ghost lo: nat)
      returns (rv: int, split: Node?, ghost t': Tree, ghost s: Tree)
      requires Config() && t.Leaf? && t.id == tn && Good(t, m, 0, lo) && 1 <= lo <= m && Outside(t)
      requires Sorted(t.keys) && tmp[0] == Raw
      requires idx <= |t.keys| && (found ==> idx < |t.keys| && t.keys[idx].key == e.key)
      requires !found ==> Below(t.keys[..idx], e.key) && Above(e.key, t.keys[idx..])
      modifies Foot(t), tmp, op
      ensures t'.id == tn && Foot(t') <= Foot(t)
      ensures rv == 0 || rv == 1 || rv == 2
      ensures rv == 1 <==> Has(t.keys, e.key)
      ensures op.Balance() == old(op.Balance()) + if rv == 1 then 0 else 1
      ensures rv != 2 ==> Good(t', m, 0, lo) && Contents(t') == Put(t.keys, e) && tmp[0] == Raw
      ensures rv == 2 ==>
                && split == s.id && Good(t', m, 0, m) && Good(s, m, 0, m) && fresh(Foot(s))
                && tmp[0].Live? && Contents(s) + [tmp[0].e] + Contents(t') == Put(t.keys, e)
    {
      hide Good, Foot, Contents, Sorted, Below, Above, Put, Has, Node.Holds, Ins;
      GoodLeaf(t, m, 0, lo);
      NodeFill(tn, t.keys);
      if found {
        ReplaceElem(tn, idx, e, t.keys);
        ReplacedInLeaf(t.keys, idx, e);
        t' := Leaf(tn, t.keys[idx := e]);
        GoodLeaf(t', m, 0, lo);
        return 1, null, t', t';
      }
      PutInLeaf(t.keys, idx, e);
      ghost var F := Ins(t.keys, idx, e);
      if tn.nelem < m + m {
        tn.INSLeafNS(idx, e, op, t.keys);
        t' := Leaf(tn, F);
        GoodLeaf(t', m, 0, lo);
        return 0, null, t', t';
      }
      split := SplitLeaf(tn, idx, e, t.keys);
      t', s := Leaf(tn, F[m + 1..]), Leaf(split, F[..m]);
      rv := 2;
      CutLeaf(F, m);
      GoodLeaf(t', m, 0, m);
      GoodLeaf(s, m, 0, m);
    }

    method StoreHit(tn: Node, idx: nat, e: Elem, ghost t: Tree, ghost h: nat, ghost lo: nat) returns (ghost t': Tree)
      requires Config() && t.Inner? && t.id == tn && Good(t, m, h, lo) && Outside(t) && Sorted(Contents(t))
      requires idx < |t.keys| && t.keys[idx].key == e.key
      modifies Own(tn)
      ensures t'.id == tn && Foot(t') == Foot(t) && Good(t', m, h, lo)
      ensures Contents(t') == Put(Contents(t), e) && Has(Contents(t), e.key)
    {
      hide Good, Foot, Contents, LeftOf, RightOf, Sorted, Below, Above;
      GoodInner(t, m, h, lo);
      assert forall j :: 0 <= j < |t.kids| ==> allocated(Foot(t.kids[j]));
      t' := t.(keys := t.keys[idx := e]);
      ReplacedKey(t, idx, e);
      FootKeys(t, t'.keys);
      op.Ass(tn.elem, idx, e);
      GoodInner(t', m, h, lo);
    }

    method StoreBranch(tn: Node, idx: nat, e: Elem, ghost t: Tree, ghost h: nat, ghost lo: nat)
      returns (rv: int, split: Node?, ghost t': Tree, ghost s: Tree)
      requires Config() && t.Inner? && t.id == tn && Good(t, m, h, lo) && h > 0 && 1 <= lo <= m && Outside(t)
      requires Sorted(Contents(t)) && tmp[0] == Raw
      requires idx <= |t.keys| && Below(t.keys[..idx], e.key) && Above(e.key, t.keys[idx..])
      modifies Foot(t), tmp, op
      ensures t'.id == tn && fresh(Foot(t') - Foot(t)) && Outside(t')
      ensures rv == 0 || rv == 1 || rv == 2
      ensures rv == 1 <==> Has(Contents(t), e.key)
      ensures op.Balance() == old(op.Balance()) + if rv == 1 then 0 else 1
      ensures rv != 2 ==> Good(t', m, h, lo) && Contents(t') == Put(Contents(t), e) && tmp[0] == Raw
      ensures rv == 2 ==>
                && split == s.id && Good(t', m, h, m) && Good(s, m, h, m)
                && fresh(Foot(s) - Foot(t)) && Outside(s) && Foot(s) !! Foot(t')
                && tmp[0].Live? && Contents(s) + [tmp[0].e] + Contents(t') == Put(Contents(t), e)
      decreases h, 0
    {
      hide Good, Foot, Contents, LeftOf, RightOf, Sorted, Below, Above, Put, Has;
      GoodInner(t, m, h, lo);
      PutInChild(t, idx, e);
      FootKid(t, idx);
      OwnFoot(t);
      forall j | 0 <= j < |t.kids| ensures Outside(t.kids[j]) { FootKid(t, j); }
      assert allocated(Foot(t)) && forall j :: 0 <= j < |t.kids| ==> allocated(Foot(t.kids[j]));
      ghost var c: Tree;
      rv, split, c, s := StoreAt(tn.down[idx], e, t.kids[idx], h - 1, m);
      ghost var u := t.(kids := t.kids[idx := c]);
      assert Ids(u.kids) == Ids(t.kids);
      ApartReplace(t, idx, c);
      GoodInner(u, m, h, lo);
      Replaced(t, idx, c);
      if rv != 2 { t' := u; return; }
      Reseated(t, u, idx);
      assert Foot(s) !! Foot(t) - Foot(t.kids[idx]);
      rv, split, t', s := TakeUp(tn, idx, split, u, s, h, lo);
    }

    /** Take up the separator in `tmp` and the tree `c`, left of child i: there is room, or the node is split. */
    method TakeUp(tn: Node, i: nat, child: Node, ghost t: Tree, ghost c: Tree, ghost h: nat, ghost lo: nat)
        returns (rv: int, split: Node?, ghost t': Tree, ghost s: Tree)
      requires Config() && t.Inner? && t.id == tn && Good(t, m, h, lo) && lo <= m && Outside(t) && i <= |t.keys|
      requires c.id == child && Good(c, m, h - 1, m) && Outside(c) && Foot(c) !! Foot(t) && tmp[0].Live?
      modifies Own(tn), tmp, op
      ensures t'.id == tn && Foot(t') <= Foot(t) + Foot(c)
      ensures rv == 0 || rv == 2
      ensures op.Balance() == old(op.Balance())
      ensures rv == 0 ==> Good(t', m, h, lo) && tmp[0] == Raw
      ensures rv == 0 ==>
                Contents(t') == LeftOf(t, i) + Contents(c) + [old(tmp[0].e)] + Contents(t.kids[i]) + RightOf(t, i)
      ensures rv == 2 ==>
                && split == s.id && Good(t', m, h, m) && Good(s, m, h, m) && tmp[0].Live?
                && fresh(Own(s.id)) && Foot(s) <= Foot(t) + Foot(c) + Own(s.id) && Foot(s) !! Foot(t')
                && Contents(s) + [tmp[0].e] + Contents(t') ==
                   LeftOf(t, i) + Contents(c) + [old(tmp[0].e)] + Contents(t.kids[i]) + RightOf(t, i)
    {
      hide Good, Foot, Contents, LeftOf, RightOf;
      GoodInner(t, m, h, lo);
      if tn.nelem < m + m {
        t' := AddChild(tn, i, child, t, c, h, lo);
        rv, split, s := 0, null, t';
        return;
      }
      var itmp := tmp[0].e;
      assert allocated(Foot(c)) && allocated(Foot(t));
      op.Clr(tmp, 0);
      rv := 2;
      split, t', s := SplitNode(tn, i, itmp, child, t, c, h, lo);
    }

    // ----- repairing a child that has one element too few

    /** After a transfer, with the joined elements of children i and i+1 cut at j. */
    lemma Regrouped(t: Tree, h: nat, i: nat, j: nat) returns (t': Tree)
      requires m > 0 && h > 0 && t.Inner? && i < |t.keys| && |t.kids| == |t.keys| + 1 && Apart(t.id, t.kids)
      requires Siblings(t.kids[i], t.kids[i + 1]) && m <= j && j + m <= |t.kids[i].keys| + |t.kids[i + 1].keys| 
      requires t.kids[i].Inner? ==> Apart(t.kids[i].id, t.kids[i].kids) && Apart(t.kids[i + 1].id, t.kids[i + 1].kids)
      requires var u := Spliced(t.kids[i], t.keys[i], t.kids[i + 1]);
              var l, r := Lo(u, j, t.kids[i].id), Hi(u, j, t.kids[i + 1].id);
               && t.id.elem.Length == 2 * m && t.id.Holds(t.keys[i := u.keys[j]]) && t.id.down != null
               && t.id.Points(Ids(t.kids))
               && (l.Inner? ==> Apart(l.id, l.kids) && Apart(r.id, r.kids)) 
               && TopGood(l, m, h - 1) && TopGood(r, m, h - 1) && KidsGood(l, m, h - 1) && KidsGood(r, m, h - 1)
               && Foot(l) !! Foot(r) && Foot(l) + Foot(r) <= Foot(t.kids[i]) + Foot(t.kids[i + 1])
      requires forall j :: 0 <= j < |t.kids| && j != i && j != i + 1 ==> Good(t.kids[j], m, h - 1, m)
      ensures t'.Inner? && t'.id == t.id && |t'.keys| == |t.keys| && NodeGood(t'.id, t'.keys, t'.kids, m, h)
      ensures Contents(t') == Contents(t) && Foot(t') <= Foot(t)
    {
      hide Good, Foot, Contents, KidsGood, TopGood;
      var u := Spliced(t.kids[i], t.keys[i], t.kids[i + 1]);
      var l, r := Lo(u, j, t.kids[i].id), Hi(u, j, t.kids[i + 1].id);
      t' := Inner(t.id, t.keys[i := u.keys[j]], t.kids[i := l][i + 1 := r]);
      assert Ids(t'.kids) == Ids(t.kids);
      DealtContents(t.kids[i], t.keys[i], t.kids[i + 1], j);
      ReplacedPair(t, i, l, u.keys[j], r);
      ApartPair(t, i, l, u.keys[j], r);
      GoodTop(l, m, h - 1, m);
      GoodTop(r, m, h - 1, m);
    }

    method TransferRight(tn: Node, i: nat, ghost t: Tree, ghost h: nat) returns (ghost t': Tree)
      requires Config() && t.Inner? && t.id == tn && Outside(t) && NodeShort(tn, t.keys, t.kids, m, h, i)
      requires i < |t.keys| && |t.kids[i + 1].keys| > m
      modifies Foot(t), op
      ensures t'.Inner? && t'.id == tn && |t'.keys| == |t.keys| && NodeGood(tn, t'.keys, t'.kids, m, h)
      ensures Contents(t') == Contents(t) && Foot(t') <= Foot(t)
      ensures op.Balance() == old(op.Balance())
    {
      hide Good, Foot, Contents, Sorted, Node.Holds, Apart;
      ghost var l, r, k := t.kids[i], t.kids[i + 1], t.keys[i];
      Neighbours(t, m, h, i, m - 1, m);
      PairApart(t, i);
      DealtFoot(l, k, r, |l.keys| + 1);
      CutOneRight(l, k, r);
      assert tn.down[i] == l.id && tn.down[i + 1] == r.id;
      hide Node.Points, Distinct, Off;
      assert allocated(Foot(t));
      TransferFromRight(tn, i, tn.down[i], tn.down[i + 1], op, t.keys, l.keys, r.keys, Ids(KidsOf(l)), Ids(KidsOf(r)));
      t' := Regrouped(t, h, i, |l.keys| + 1);
    }

    method TransferLeft(tn: Node, i: nat, ghost t: Tree, ghost h: nat) returns (ghost t': Tree)
      requires Config() && t.Inner? && t.id == tn && Outside(t) && NodeShort(tn, t.keys, t.kids, m, h, i + 1)
      requires i < |t.keys| && |t.kids[i].keys| > m
      modifies Foot(t), op
      ensures t'.Inner? && t'.id == tn && |t'.keys| == |t.keys| && NodeGood(tn, t'.keys, t'.kids, m, h)
      ensures Contents(t') == Contents(t) && Foot(t') <= Foot(t)
      ensures op.Balance() == old(op.Balance())
    {
      hide Good, Foot, Contents, Sorted, Node.Holds, Apart;
      ghost var l, r, k := t.kids[i], t.kids[i + 1], t.keys[i];
      Neighbours(t, m, h, i, m, m - 1);
      PairApart(t, i);
      DealtFoot(l, k, r, |l.keys| - 1);
      CutOneLeft(l, k, r);
      assert tn.down[i] == l.id && tn.down[i + 1] == r.id;
      hide Node.Points, Distinct, Off;
      assert allocated(Foot(t));
      TransferFromLeft(tn, i, tn.down[i], tn.down[i + 1], op, t.keys, l.keys, r.keys, Ids(KidsOf(l)), Ids(KidsOf(r)));
      t' := Regrouped(t, h, i, |l.keys| - 1);
    }

    lemma Fused(t: Tree, h: nat, i: nat) returns (t': Tree)
      requires m > 0 && h > 0 && t.Inner? && i < |t.keys| && |t.kids| == |t.keys| + 1 && Apart(t.id, t.kids)
      requires Siblings(t.kids[i], t.kids[i + 1]) && m <= |t.kids[i].keys| + 1 + |t.kids[i + 1].keys|
      requires var u := Spliced(t.kids[i], t.keys[i], t.kids[i + 1]);
               && t.id.elem.Length == 2 * m && t.id.Holds(Del(t.keys, i)) && t.id.down != null
               && t.id.Points(Del(Ids(t.kids), i + 1))
               && TopGood(u, m, h - 1) && KidsGood(u, m, h - 1) && Foot(u) <= Foot(t.kids[i]) + Foot(t.kids[i + 1])
      requires forall j :: 0 <= j < |t.kids| && j != i && j != i + 1 ==> Good(t.kids[j], m, h - 1, m)
      ensures t'.Inner? && t'.id == t.id && |t'.keys| == |t.keys| - 1 == t.id.nelem
      ensures NodeGood(t'.id, t'.keys, t'.kids, m, h)
      ensures Contents(t') == Contents(t) && Foot(t') <= Foot(t)
    {
      hide Good, Foot, Contents, KidsGood, TopGood;
      var u := Spliced(t.kids[i], t.keys[i], t.kids[i + 1]);
      t' := Inner(t.id, Del(t.keys, i), Del(t.kids, i + 1)[i := u]);
      assert Ids(t'.kids) == Del(Ids(t.kids), i + 1);
      DealtContents(t.kids[i], t.keys[i], t.kids[i + 1], |t.kids[i].keys|);
      MergedPair(t, i, u);
      ApartMerged(t, i, u);
      GoodTop(u, m, h - 1, m);
    }

    /** What a merge needs to know of a node and two neighbouring children, and of the subtrees it leaves alone. */
    ghost predicate Mergeable(t: Tree, h: nat, i: nat)
      reads t.id, Own(t.id), set j, o | t.Inner? && 0 <= j < |t.kids| && o in Foot(t.kids[j]) :: o
    {
      && h > 0 && t.Inner? && i < |t.keys| && |t.kids| == |t.keys| + 1 && Apart(t.id, t.kids) && Outside(t)
      && t.id.elem.Length == 2 * m && t.id.Holds(t.keys) && t.id.down != null && t.id.Points(Ids(t.kids))
      && Siblings(t.kids[i], t.kids[i + 1]) && m <= |t.kids[i].keys| + 1 + |t.kids[i + 1].keys| <= 2 * m
      && TopGood(t.kids[i], m, h - 1) && KidsGood(t.kids[i], m, h - 1)
      && TopGood(t.kids[i + 1], m, h - 1) && KidsGood(t.kids[i + 1], m, h - 1)
      && forall j :: 0 <= j < |t.kids| && j != i && j != i + 1 ==> Good(t.kids[j], m, h - 1, m)
    }

    method MergeChildren(tn: Node, i: nat, short: nat, ghost t: Tree, ghost h: nat) returns (ghost t': Tree)
      requires Config() && t.Inner? && t.id == tn && Outside(t) && NodeShort(tn, t.keys, t.kids, m, h, short)
      requires i < |t.keys| && (short == i || short == i + 1) && |t.kids[i].keys| <= m && |t.kids[i + 1].keys| <= m
      modifies Foot(t), op
      ensures t'.Inner? && t'.id == tn && |t'.keys| == |t.keys| - 1 && NodeGood(tn, t'.keys, t'.kids, m, h)
      ensures Contents(t') == Contents(t) && Foot(t') <= Foot(t)
      ensures op.Balance() == old(op.Balance()) && tn.nelem == |t'.keys|
    {
      hide Good, Foot, Contents, Sorted, Node.Holds, TopGood, KidsGood;
      Neighbours(t, m, h, i, if short == i then m - 1 else m, if short == i then m else m - 1);
      MergePair(tn, i, t, h);
      t' := Fused(t, h, i);
    }

    /** Merge two neighbouring nodes; the subtrees below and beside them stay as they are. */
    method MergePair(tn: Node, i: nat, ghost t: Tree, ghost h: nat)
      requires Config() && t.id == tn && Mergeable(t, h, i)
      modifies Foot(t), op
      ensures var l, k, r := t.kids[i], t.keys[i], t.kids[i + 1]; var u := Spliced(l, k, r);
              TopGood(u, m, h - 1) && KidsGood(u, m, h - 1) && Foot(u) <= Foot(l) + Foot(r)
      ensures tn.Holds(Del(t.keys, i)) && tn.Points(Del(Ids(t.kids), i + 1))
      ensures forall j :: 0 <= j < |t.kids| && j != i && j != i + 1 ==> Good(t.kids[j], m, h - 1, m)
      ensures op.Balance() == old(op.Balance())
    {
      hide Good, Foot, Contents, Sorted, Node.Holds, Apart;
      ghost var l, k, r := t.kids[i], t.keys[i], t.kids[i + 1];
      GoodTop(l, m, h - 1, |l.keys|);
      GoodTop(r, m, h - 1, |r.keys|);
      Neighbours(t, m, h, i, |l.keys|, |r.keys|);
      PairApart(t, i);
      DealtFoot(l, k, r, |l.keys|);
      assert allocated(Foot(t));
      Merge(tn, i, tn.down[i], tn.down[i + 1], op, t.keys, Ids(t.kids), l.keys, r.keys, Ids(KidsOf(l)), Ids(KidsOf(r)));
    }

    /** Repair child idx of `tn`, which has m-1 elements. Result: does `tn` now have too few? */
    method HandleUnderflow(tn: Node, idx: nat, ghost t: Tree, ghost h: nat) returns (rv: bool, ghost t': Tree)
      requires Config() && t.Inner? && t.id == tn && Outside(t) && NodeShort(tn, t.keys, t.kids, m, h, idx)
      requires 1 <= |t.keys|
      modifies Foot(t), op
      ensures t'.Inner? && t'.id == tn && NodeGood(tn, t'.keys, t'.kids, m, h)
      ensures |t'.keys| == |t.keys| || |t'.keys| == |t.keys| - 1
      ensures rv <==> |t'.keys| < |t.keys| && |t'.keys| < m
      ensures Contents(t') == Contents(t) && Foot(t') <= Foot(t)
      ensures op.Balance() == old(op.Balance())
    {
      hide Good, Foot, Contents;
      var i: nat := idx;
      if idx < tn.nelem {
        Neighbours(t, m, h, idx, m - 1, m);
        if tn.down[idx + 1].nelem > m {
          t' := TransferRight(tn, idx, t, h);
          return false, t';
        }
      } else {
        Neighbours(t, m, h, idx - 1, m, m - 1);
        if tn.down[idx - 1].nelem > m {
          t' := TransferLeft(tn, idx - 1, t, h);
          return false, t';
        }
        i := idx - 1;
      }
      t' := MergeChildren(tn, i, idx, t, h);
      rv := tn.nelem < m;
    }

    // ----- removal

    /** What a removal below leaves: at most one key fewer, and too few only when reported. */
    ghost predicate Shrunk(t: Tree, t': Tree, under: bool) {
      && (|t'.keys| == |t.keys| || |t'.keys| == |t.keys| - 1)
      && (if under then |t'.keys| < m else |t'.keys| == |t.keys| || |t'.keys| >= m)
    }

    /** Child idx of `u` is good or, if `under`, one element short. */
    ghost predicate Pending(u: Tree, h: nat, idx: nat, under: bool)
      reads Foot(u)
    {
      && u.Inner? && idx < |u.kids| && 1 <= |u.keys|
      && if under then NodeShort(u.id, u.keys, u.kids, m, h, idx) else NodeGood(u.id, u.keys, u.kids, m, h)
    }

    /** On the way up: repair child idx if the removal below reported an underflow. */
    method Ascend(tn: Node, idx: nat, under: bool, ghost u: Tree, ghost h: nat) returns (rv: bool, ghost t': Tree)
      requires Config() && u.id == tn && Outside(u) && Pending(u, h, idx, under)
      modifies Foot(u), op
      ensures t'.id == tn && Good(t', m, h, |t'.keys|) && Shrunk(u, t', rv)
      ensures Contents(t') == Contents(u) && Foot(t') <= Foot(u)
      ensures op.Balance() == old(op.Balance())
    {
      hide Good, Foot, Contents;
      rv, t' := false, u;
      if under { rv, t' := HandleUnderflow(tn, idx, u, h); }
      GoodInner(t', m, h, |t'.keys|);
    }

    /** The parent after its child idx became `c`. */
    lemma Resumed(t: Tree, h: nat, idx: nat, c: Tree, under: bool) returns (u: Tree)
      requires m > 0 && h > 0 && t.Inner? && idx < |t.kids| == |t.keys| + 1 && 1 <= |t.keys| && Apart(t.id, t.kids)
      requires Outside(t)
      requires t.id.elem.Length == 2 * m && t.id.Holds(t.keys) && t.id.down != null && t.id.Points(Ids(t.kids))
      requires forall j :: 0 <= j < |t.kids| && j != idx ==> Good(t.kids[j], m, h - 1, m)
      requires c.id == t.kids[idx].id && Foot(c) <= Foot(t.kids[idx]) && Good(c, m, h - 1, |c.keys|)
      requires m <= |t.kids[idx].keys| && Shrunk(t.kids[idx], c, under)
      ensures u == t.(kids := t.kids[idx := c])
      ensures Pending(u, h, idx, under) && Foot(u) <= Foot(t) && Outside(u)
    {
      hide Good, Foot, Contents;
      u := t.(kids := t.kids[idx := c]);
      assert Ids(u.kids) == Ids(t.kids);
      forall j | 0 <= j < |t.kids| ensures Foot(t.kids[j]) <= Foot(t) { FootKid(t, j); }
      ApartReplace(t, idx, c);
      GoodTop(c, m, h - 1, |c.keys|);
      GoodTop(c, m, h - 1, m - 1);
      if !under { GoodTop(c, m, h - 1, m); }
    }

    /** Move the smallest element below `tn` to the slot ent[ei] of an ancestor. */
    method MoveSmallest(tn: Node, ent: array<Slot>, ei: nat, ghost t: Tree, ghost h: nat)
        returns (rv: bool, ghost t': Tree)
      requires Config() && t.id == tn && Good(t, m, h, m) && Outside(t)
      requires ent !in Foot(t) && ei < ent.Length && ent[ei].Live?
      modifies Foot(t), ent, op
      ensures Contents(t) != [] && ent[ei] == Live(Contents(t)[0])
      ensures forall j {:trigger ent[j]} :: 0 <= j < ent.Length && j != ei ==> ent[j] == old(ent[j])
      ensures t'.id == tn && Foot(t') <= Foot(t) && Good(t', m, h, |t'.keys|) && Shrunk(t, t', rv)
      ensures Contents(t') == Contents(t)[1..]
      ensures op.Balance() == old(op.Balance()) - 1
      decreases h
    {
      hide Good, Foot, Contents;
      GoodTop(t, m, h, m);
      OwnFoot(t);
      if tn.down == null {
        op.Ass(ent, ei, tn.elem[0].e);
        tn.DELLeaf(0, op, t.keys);
        t' := Leaf(tn, Del(t.keys, 0));
        GoodTop(t', m, h, |t'.keys|);
        return tn.nelem < m, t';
      }
      GoodInner(t, m, h, m);
      forall j | 0 <= j < |t.kids| ensures Foot(t.kids[j]) <= Foot(t) { FootKid(t, j); }
      assert allocated(Foot(t));
      GoodTop(t.kids[0], m, h - 1, m);
      ghost var c: Tree;
      var under: bool;
      under, c := MoveSmallest(tn.down[0], ent, ei, t.kids[0], h - 1);
      ghost var u := Resumed(t, h, 0, c, under);
      FirstGone(t, c);
      rv, t' := Ascend(tn, 0, under, u, h);
    }

    /** Remove the element with the given key below `tn`. 1: not found; 0: removed; 2: removed, and the node has too
        few elements. `e` is a copy of the element. */
    method RemoveAt(tn: Node, key: int, ghost t: Tree, ghost h: nat, ghost lo: nat)
      returns (rv: int, e: Option<Elem>, ghost t': Tree)
      requires Config() && t.id == tn && Good(t, m, h, lo) && 1 <= lo <= m && Outside(t) && Sorted(Contents(t))
      modifies Foot(t), op
      ensures rv == 0 || rv == 1 || rv == 2
      ensures e == Lookup(Contents(t), key) && (rv == 1 <==> e == None)
      ensures t'.id == tn && Foot(t') <= Foot(t) && Good(t', m, h, |t'.keys|) && Shrunk(t, t', rv == 2)
      ensures rv == 1 ==> |t'.keys| == |t.keys|
      ensures Contents(t') == Drop(Contents(t), key)
      ensures op.Balance() == old(op.Balance()) - if rv == 1 then 0 else 1
      decreases h, 1
    {
      hide Good, Foot, Contents, LeftOf, RightOf, Sorted, Below, Above;
      GoodTop(t, m, h, lo);
      GoodTop(t, m, h, |t.keys|);
      SortedNodeKeys(t);
      OwnFoot(t);
      assert allocated(Foot(t));
      var found, idx := tn.LBI(key, t.keys);
      if found {
        e := Some(tn.elem[idx].e);
        if tn.down == null {
          tn.DELLeaf(idx, op, t.keys);
          DropInLeaf(t.keys, idx);
          t' := Leaf(tn, Del(t.keys, idx));
          GoodTop(t', m, h, |t'.keys|);
          return if tn.nelem < m then 2 else 0, e, t';
        }
        var under;
        under, t' := RemoveSeparator(tn, idx, t, h, lo);
        return if under then 2 else 0, e, t';
      }
      if tn.down == null {
        MissingInLeaf(t.keys, idx, key);
        return 1, None, t;
      }
      rv, e, t' := RemoveBelow(tn, idx, key, t, h, lo);
    }

    method RemoveSeparator(tn: Node, idx: nat, ghost t: Tree, ghost h: nat, ghost lo: nat)
        returns (rv: bool, ghost t': Tree)
      requires Config() && t.Inner? && t.id == tn && Good(t, m, h, lo) && 1 <= lo <= m && Outside(t)
      requires Sorted(Contents(t))
      requires idx < |t.keys|
      modifies Foot(t), op
      ensures t'.id == tn && Foot(t') <= Foot(t) && Good(t', m, h, |t'.keys|) && Shrunk(t, t', rv)
      ensures Contents(t') == Drop(Contents(t), t.keys[idx].key)
      ensures Lookup(Contents(t), t.keys[idx].key) == Some(t.keys[idx])
      ensures op.Balance() == old(op.Balance()) - 1
    {
      hide Good, Foot, Contents, LeftOf, RightOf, Sorted, Below, Above;
      GoodInner(t, m, h, lo);
      OwnFoot(t);
      forall j | 0 <= j < |t.kids| ensures Foot(t.kids[j]) <= Foot(t) { FootKid(t, j); }
      assert allocated(Foot(t));
      GoodTop(t.kids[idx + 1], m, h - 1, m);
      ghost var c: Tree;
      var under: bool;
      under, c := MoveSmallest(tn.down[idx + 1], tn.elem, idx, t.kids[idx + 1], h - 1);
      ghost var s := t.(keys := t.keys[idx := Contents(t.kids[idx + 1])[0]]);
      FootKeys(t, s.keys);
      ghost var u := Resumed(s, h, idx + 1, c, under);
      DropSeparator(t, idx, c);
      rv, t' := Ascend(tn, idx + 1, under, u, h);
    }

    method RemoveBelow(tn: Node, idx: nat, key: int, ghost t: Tree, ghost h: nat, ghost lo: nat)
      returns (rv: int, e: Option<Elem>, ghost t': Tree)
      requires Config() && t.Inner? && t.id == tn && Good(t, m, h, lo) && 1 <= lo <= m && Outside(t)
      requires Sorted(Contents(t))
      requires h > 0 && idx <= |t.keys| && Below(t.keys[..idx], key) && Above(key, t.keys[idx..])
      modifies Foot(t), op
      ensures rv == 0 || rv == 1 || rv == 2
      ensures e == Lookup(Contents(t), key) && (rv == 1 <==> e == None)
      ensures t'.id == tn && Foot(t') <= Foot(t) && Good(t', m, h, |t'.keys|) && Shrunk(t, t', rv == 2)
      ensures rv == 1 ==> |t'.keys| == |t.keys|
      ensures Contents(t') == Drop(Contents(t), key)
      ensures op.Balance() == old(op.Balance()) - if rv == 1 then 0 else 1
      decreases h, 0
    {
      hide Good, Foot, Contents, LeftOf, RightOf, Sorted, Below, Above;
      GoodInner(t, m, h, lo);
      Route(t, key, idx);
      OwnFoot(t);
      forall j | 0 <= j < |t.kids| ensures Foot(t.kids[j]) <= Foot(t) { FootKid(t, j); }
      assert allocated(Foot(t));
      GoodTop(t.kids[idx], m, h - 1, m);
      ghost var c: Tree;
      rv, e, c := RemoveAt(tn.down[idx], key, t.kids[idx], h - 1, m);
      ghost var u := Resumed(t, h, idx, c, rv == 2);
      DropInChild(t, idx, key, c);
      GoodInner(u, m, h, |u.keys|);
      t' := u;
      if rv != 2 { return; }
      var under: bool;
      under, t' := Ascend(tn, idx, true, u, h);
      rv := if under then 2 else 0;
    }

    /** Remove the smallest (sl < 0) or largest element below `tn`. */
    method RemoveSL(tn: Node, sl: int, ghost t: Tree, ghost h: nat, ghost lo: nat)
        returns (rv: int, e: Elem, ghost t': Tree)
      requires Config() && t.id == tn && Good(t, m, h, lo) && 1 <= lo <= m && Outside(t)
      modifies Foot(t), op
      ensures rv == 0 || rv == 2
      ensures t'.id == tn && Foot(t') <= Foot(t) && Good(t', m, h, |t'.keys|) && Shrunk(t, t', rv == 2)
      ensures Contents(t) != []
      ensures sl < 0 ==> e == Contents(t)[0] && Contents(t') == Contents(t)[1..]
      ensures sl >= 0 ==> e == Contents(t)[|Contents(t)| - 1] && Contents(t') == Contents(t)[..|Contents(t)| - 1]
      ensures op.Balance() == old(op.Balance()) - 1
      decreases h
    {
      hide Good, Foot, Contents;
      GoodTop(t, m, h, lo);
      OwnFoot(t);
      if tn.down != null {
        GoodInner(t, m, h, lo);
        forall j | 0 <= j < |t.kids| ensures Foot(t.kids[j]) <= Foot(t) { FootKid(t, j); }
        assert allocated(Foot(t));
        var idx := if sl < 0 then 0 else tn.nelem;
        GoodTop(t.kids[idx], m, h - 1, m);
        ghost var c: Tree;
        rv, e, c := RemoveSL(tn.down[idx], sl, t.kids[idx], h - 1, m);
        ghost var u := Resumed(t, h, idx, c, rv == 2);
        if sl < 0 { FirstGone(t, c); } else { LastGone(t, c); }
        GoodInner(u, m, h, |u.keys|);
        t' := u;
        if rv != 2 { return; }
        var under: bool;
        under, t' := Ascend(tn, idx, true, u, h);
        return if under then 2 else 0, e, t';
      }
      var idx := if sl < 0 then 0 else tn.nelem - 1;
      e := tn.elem[idx].e;
      tn.DELLeaf(idx, op, t.keys);
      t' := Leaf(tn, Del(t.keys, idx));
      GoodTop(t', m, h, |t'.keys|);
      rv := if tn.nelem < m then 2 else 0;
    }

    // ----- lookup

    method FindBelow(tn0: Node, key: int, ghost t0: Tree, ghost h0: nat) returns (r: Option<Elem>)
      requires t0.id == tn0 && Good(t0, m, h0, 1) && m >= 1 && Sorted(Contents(t0))
      ensures r == Lookup(Contents(t0), key)
    {
      hide Good, Foot, Contents, LeftOf, RightOf, Sorted, Below, Above;
      var tn := tn0;
      ghost var t, h := t0, h0;
      while true
        invariant t.id == tn && Good(t, m, h, 1) && Sorted(Contents(t))
        invariant Lookup(Contents(t0), key) == Lookup(Contents(t), key)
        decreases h
      {
        GoodTop(t, m, h, 1);
        SortedNodeKeys(t);
        assert allocated(Foot(t));
        var found, idx := tn.LBI(key, t.keys);
        GoodTop(t, m, h, 1);
        if found {
          if t.Inner? {
            var l, r := RouteHit(t, idx);
            AtSeparator(l, t.keys[idx], r, t.keys[idx]);
          } else {
            DropInLeaf(t.keys, idx);
          }
          return Some(tn.elem[idx].e);
        }
        if tn.down == null {
          MissingInLeaf(t.keys, idx, key);
          return None;
        }
        Route(t, key, idx);
        LookupMid(LeftOf(t, idx), Contents(t.kids[idx]), RightOf(t, idx), key);
        GoodTop(t.kids[idx], m, h - 1, m);
        GoodTop(t.kids[idx], m, h - 1, 1);
        tn := tn.down[idx];
        t, h := t.kids[idx], h - 1;
      }
    }

    method FindSmallest(n0: Node, ghost t0: Tree, ghost h0: nat) returns (e: Elem)
      requires t0.id == n0 && Good(t0, m, h0, 1) && m >= 1
      ensures Contents(t0) != [] && e == Contents(t0)[0]
    {
      hide Good, Foot, Contents, LeftOf, RightOf, Sorted, Below, Above;
      var n := n0;
      ghost var t, h := t0, h0;
      GoodTop(t, m, h, 1);
      while n.down != null
        invariant t.id == n && Good(t, m, h, 1) && TopGood(t, m, h) && KidsGood(t, m, h)
        invariant Contents(t) != [] ==> Contents(t0) != [] && Contents(t0)[0] == Contents(t)[0]
        decreases h
      {
        Around(t, 0);
        LeftmostEmpty(t);
        GoodTop(t.kids[0], m, h - 1, m);
        GoodTop(t.kids[0], m, h - 1, 1);
        n := n.down[0];
        t, h := t.kids[0], h - 1;
      }
      GoodTop(t, m, h, 1);
      e := n.elem[0].e;
    }

    method FindLargest(n0: Node, ghost t0: Tree, ghost h0: nat) returns (e: Elem)
      requires t0.id == n0 && Good(t0, m, h0, 1) && m >= 1
      ensures Contents(t0) != [] && e == Contents(t0)[|Contents(t0)| - 1]
    {
      hide Good, Foot, Contents, LeftOf, RightOf, Sorted, Below, Above;
      var n := n0;
      ghost var t, h := t0, h0;
      GoodTop(t, m, h, 1);
      while n.down != null
        invariant t.id == n && Good(t, m, h, 1) && TopGood(t, m, h) && KidsGood(t, m, h)
        invariant Contents(t) != [] ==> Contents(t0) != [] && Last(Contents(t0)) == Last(Contents(t))
        decreases h
      {
        Around(t, n.nelem);
        RightmostEmpty(t);
        GoodTop(t.kids[n.nelem], m, h - 1, m);
        GoodTop(t.kids[n.nelem], m, h - 1, 1);
        t, h := t.kids[n.nelem], h - 1;
        n := n.down[n.nelem];
      }
      GoodTop(t, m, h, 1);
      e := n.elem[n.nelem - 1].e;
    }

    /** The elements next to a separator: the last one left of it and the first one right of it. */
    method AroundSeparator(idx: nat, tn: Node, ghost t: Tree, ghost h: nat) returns (x: Elem, y: Elem)
      requires t.id == tn && t.Inner? && Good(t, m, h, 1) && m >= 1 && Sorted(Contents(t)) && idx < |t.keys|
      ensures Lookup(Contents(t), t.keys[idx].key) == Some(t.keys[idx])
      ensures IsPred(Contents(t), t.keys[idx].key, Some(x)) && IsSucc(Contents(t), t.keys[idx].key, Some(y))
    {
      hide Good, Foot, Contents, LeftOf, RightOf, IsPred, IsSucc, Sorted, Below, Above, Lookup;
      GoodInner(t, m, h, 1);
      ghost var l, r := t.kids[idx], t.kids[idx + 1];
      LowerFill(l, m, h - 1);
      LowerFill(r, m, h - 1);
      hide Apart;
      assert allocated(Foot(l)) && allocated(Foot(r));
      x := FindLargest(tn.down[idx], l, h - 1);
      y := FindSmallest(tn.down[idx + 1], r, h - 1);
      NeighboursOfSeparator(t, idx);
    }

    /** The neighbours of an element found at position idx of its node. */
    method NeighboursHit(idx: nat, tn: Node, ghost t: Tree, ghost h: nat) returns (p: Option<Elem>, n: Option<Elem>)
      requires t.id == tn && Good(t, m, h, 1) && m >= 1 && Sorted(Contents(t)) && idx < |t.keys|
      ensures Lookup(Contents(t), t.keys[idx].key) == Some(t.keys[idx])
      ensures IsPred(Contents(t), t.keys[idx].key, p) && IsSucc(Contents(t), t.keys[idx].key, n)
    {
      hide Good, Foot, Contents, LeftOf, RightOf, IsPred, IsSucc, Sorted, Below, Above, Lookup;
      GoodTop(t, m, h, 1);
      p, n := None, None;
      if tn.down != null {
        var x, y := AroundSeparator(idx, tn, t, h);
        p, n := Some(x), Some(y);
      } else {
        if idx > 0 { p := Some(tn.elem[idx - 1].e); }
        if idx + 1 < tn.nelem { n := Some(tn.elem[idx + 1].e); }
        DropInLeaf(t.keys, idx);
        SortedAround(t.keys, idx);
        NeighboursLeaf(t.keys, idx, idx + 1, t.keys[idx].key);
      }
    }

    /** The element with the key, the greatest below it and the least above it. */
    method NeighboursBelow(key: int, tn: Node, ghost t: Tree, ghost h: nat)
      returns (rv: Option<Elem>, p: Option<Elem>, n: Option<Elem>)
      requires t.id == tn && Good(t, m, h, 1) && m >= 1 && Sorted(Contents(t))
      ensures rv == Lookup(Contents(t), key) && IsPred(Contents(t), key, p) && IsSucc(Contents(t), key, n)
      decreases h
    {
      hide Good, Foot, Contents, LeftOf, RightOf, IsPred, IsSucc, Sorted, Below, Above, Lookup;
      GoodTop(t, m, h, 1);
      SortedNodeKeys(t);
      assert allocated(Foot(t));
      var found, idx := tn.LBI(key, t.keys);
      GoodTop(t, m, h, 1);
      if found {
        rv := Some(tn.elem[idx].e);
        p, n := NeighboursHit(idx, tn, t, h);
        return;
      }
      rv, p, n := None, None, None;
      if tn.down != null {
        Route(t, key, idx);
        LowerFill(t.kids[idx], m, h - 1);
        rv, p, n := NeighboursBelow(key, tn.down[idx], t.kids[idx], h - 1);
        NeighboursMid(t, idx, key, p, n);
      } else {
        MissingInLeaf(t.keys, idx, key);
        NeighboursLeaf(t.keys, idx, idx, key);
      }
      if p == None && idx > 0 { p := Some(tn.elem[idx - 1].e); }
      if n == None && idx < tn.nelem { n := Some(tn.elem[idx].e); }
    }

    // ----- counting

    method CountElementsBelow(tn: Node, ghost t: Tree, ghost h: nat, ghost lo: nat) returns (c: nat)
      requires t.id == tn && Good(t, m, h, lo)
      ensures c == |Contents(t)|
      decreases h
    {
      hide Good, Foot, Contents;
      GoodTop(t, m, h, lo);
      c := tn.nelem;
      if tn.down != null {
        assert allocated(Foot(t));
        var i := 0;
        while i <= tn.nelem
          invariant i <= |t.kids| && c == |t.keys| + SizeAll(t.kids[..i])
          invariant Good(t, m, h, lo) && TopGood(t, m, h) && KidsGood(t, m, h)
        {
          var d := CountElementsBelow(tn.down[i], t.kids[i], h - 1, m);
          GoodTop(t, m, h, lo);
          assert t.kids[..i + 1][..i] == t.kids[..i];
          c, i := c + d, i + 1;
        }
        assert t.kids[..i] == t.kids;
        SizeOf(t);
      }
    }

    method CountNodesBelow(tn: Node, ghost t: Tree, ghost h: nat, ghost lo: nat) returns (c: nat)
      requires t.id == tn && Good(t, m, h, lo)
      ensures c == Nodes(t)
      decreases h
    {
      hide Good, Foot, Contents;
      GoodTop(t, m, h, lo);
      c := 1;
      if tn.down != null {
        assert allocated(Foot(t));
        var i := 0;
        while i <= tn.nelem
          invariant i <= |t.kids| && c == 1 + NodesAll(t.kids[..i])
          invariant Good(t, m, h, lo) && TopGood(t, m, h) && KidsGood(t, m, h)
        {
          var d := CountNodesBelow(tn.down[i], t.kids[i], h - 1, m);
          GoodTop(t, m, h, lo);
          assert t.kids[..i + 1][..i] == t.kids[..i];
          c, i := c + d, i + 1;
        }
        assert t.kids[..i] == t.kids;
      }
    }

    // ----- the tree as a whole

    ghost function Repr(): set<object>
      reads this
    {
      {op, tmp} + match tree case None => {} case Some(t) => Foot(t)
    }

    ghost predicate Valid()
      reads this, Repr()
    {
      && Config() && tmp[0] == Raw
      && (root == null <==> tree == None)
      && match tree
         case None => op.Balance() == 0
         case Some(t) =>
           root == t.id && Good(t, m, height, 1) && Outside(t) && Sorted(Contents(t)) && op.Balance() == |Contents(t)|
    }

    ghost function Elements(): seq<Elem>
      reads this
    {
      match tree case None => [] case Some(t) => Contents(t)
    }

    /** The finite map the tree stands for. */
    ghost function Model(): map<int, Elem>
      reads this
    {
      ToMap(Elements())
    }

    /** Every constructed element is in the tree, once; the temporary is raw. */
    lemma LifetimesExact()
      requires Valid()
      ensures op.iniCalls - op.clrCalls == |Elements()| == |Model()| && tmp[0] == Raw
    {
      ToMapKeys(Elements());
    }

    method Store(e: Elem) returns (rv: int)
      requires Valid()
      modifies this`root, this`tree, this`height, Repr()
      ensures Valid() && fresh(Repr() - old(Repr()))
      ensures Model() == old(Model())[e.key := e]
      ensures rv == if e.key in old(Model()) then 1 else 0
    {
      hide Good, Foot, Contents, Sorted, ToMap, Put, Has;
      ghost var before := Elements();
      if root == null {
        var n := new Node.Leaf(m);
        op.Ini(n.elem, 0, e);
        n.nelem := 1;
        root, height := n, 0;
        tree := Some(Leaf(n, [e]));
        GoodTop(tree.value, m, 0, 1);
        SingleElement(e);
        return 0;
      }
      ghost var t, h := tree.value, height;
      PutModel(before, e);
      var split: Node?;
      ghost var t', s;
      rv, split, t', s := StoreAt(root, e, t, h, 1);
      tree := Some(t');
      if rv != 2 { return; }
      var oroot := root;
      ghost var x := tmp[0].e;
      var nroot := NewRoot(oroot, split, t', s, h);
      root, height, rv := nroot, h + 1, 0;
      tree := Some(Inner(nroot, [x], [s, t']));
    }

    /** Split the root: a new root over the two halves. */
    method NewRoot(r: Node, split: Node, ghost t: Tree, ghost s: Tree, ghost h: nat) returns (n: Node)
      requires Config() && t.id == r && s.id == split && Good(t, m, h, m) && Good(s, m, h, m) && Foot(s) !! Foot(t)
      requires Outside(t) && Outside(s) && tmp[0].Live?
      modifies op, tmp
      ensures fresh(Own(n)) && tmp[0] == Raw && op.Balance() == old(op.Balance())
      ensures var u := Inner(n, [old(tmp[0].e)], [s, t]);
              Good(u, m, h + 1, 1) && Outside(u) && Foot(u) == Own(n) + Foot(s) + Foot(t)
              && Contents(u) == Contents(s) + [old(tmp[0].e)] + Contents(t)
    {
      hide Good, Foot, Contents;
      assert allocated(Foot(s)) && allocated(Foot(t));
      n := new Node.NonLeaf(m);
      n.down[0] := split;
      n.down[1] := r;
      ghost var u := Inner(n, [tmp[0].e], [s, t]);
      op.Ini(n.elem, 0, tmp[0].e);
      op.Clr(tmp, 0);
      n.nelem := 1;
      assert Ids(u.kids) == [split, r];
      TwoKids(u);
      GoodTop(u, m, h + 1, 1);
    }

    /** After a removal below the root: an empty root is dropped. */
    method HandleRootUnderflow(ghost t: Tree)
      requires Config() && tmp[0] == Raw && root == t.id && Good(t, m, height, |t.keys|) && Outside(t)
      requires Sorted(Contents(t)) && op.Balance() == |Contents(t)|
      modifies this`root, this`tree, this`height
      ensures Valid() && Elements() == Contents(t) && Repr() <= {op, tmp} + Foot(t)
    {
      hide Good, Foot, Contents, Sorted;
      GoodTop(t, m, height, |t.keys|);
      tree := Some(t);
      if root.nelem != 0 {
        GoodTop(t, m, height, 1);
        return;
      }
      if root.down == null {
        root, tree := null, None;
        return;
      }
      FootKid(t, 0);
      OneKid(t);
      GoodTop(t.kids[0], m, height - 1, m);
      GoodTop(t.kids[0], m, height - 1, 1);
      root, tree, height := root.down[0], Some(t.kids[0]), height - 1;
    }

    method Remove(key: int) returns (rv: int, e: Option<Elem>)
      requires Valid()
      modifies this`root, this`tree, this`height, Repr()
      ensures Valid() && Repr() <= old(Repr())
      ensures Model() == old(Model()) - {key}
      ensures if key in old(Model()) then rv == 0 && e == Some(old(Model())[key]) else rv == 1 && e == None
    {
      hide Good, Foot, Contents, Sorted, ToMap;
      ghost var before := Elements();
      SingleElement(Elem(key, 0));
      if root == null { return 1, None; }
      ghost var t, h := tree.value, height;
      DropSorted(before, key);
      DropIsMapRemove(before, key);
      LookupIsMapGet(before, key);
      GoodTop(t, m, h, 1);
      ghost var t';
      rv, e, t' := RemoveAt(root, key, t, h, 1);
      if rv == 2 {
        HandleRootUnderflow(t');
        rv := 0;
        return;
      }
      tree := Some(t');
      GoodTop(t', m, h, |t'.keys|);
      GoodTop(t', m, h, 1);
    }

    /** Remove the smallest (sl < 0) or largest element. 1: the tree is empty. */
    method DoRemoveSL(sl: int) returns (rv: int, e: Option<Elem>)
      requires Valid()
      modifies this`root, this`tree, this`height, Repr()
      ensures Valid() && Repr() <= old(Repr())
      ensures EndRemoved(old(Model()), rv, e, Model(), sl < 0)
    {
      hide Good, Foot, Contents, Sorted, ToMap, Drop;
      ghost var before := Elements();
      SingleElement(Elem(0, 0));
      ToMapKeys(before);
      if root == null { return 1, None; }
      ghost var t, h := tree.value, height;
      GoodTop(t, m, h, 1);
      ghost var t';
      var x: Elem;
      rv, x, t' := RemoveSL(root, sl, t, h, 1);
      e := Some(x);
      DropEnds(before);
      DropSorted(before, x.key);
      DropIsMapRemove(before, x.key);
      EndsOfMap(before);
      if rv == 2 {
        HandleRootUnderflow(t');
        rv := 0;
        return;
      }
      tree := Some(t');
      GoodTop(t', m, h, |t'.keys|);
      GoodTop(t', m, h, 1);
    }

    method RemoveSmallest() returns (rv: int, e: Option<Elem>)
      requires Valid()
      modifies this`root, this`tree, this`height, Repr()
      ensures Valid() && Repr() <= old(Repr())
      ensures EndRemoved(old(Model()), rv, e, Model(), true)
    {
      rv, e := DoRemoveSL(-1);
    }

    method RemoveLargest() returns (rv: int, e: Option<Elem>)
      requires Valid()
      modifies this`root, this`tree, this`height, Repr()
      ensures Valid() && Repr() <= old(Repr())
      ensures EndRemoved(old(Model()), rv, e, Model(), false)
    {
      rv, e := DoRemoveSL(1);
    }

    method Find(key: int) returns (r: Option<Elem>)
      requires Valid()
      ensures r == if key in Model() then Some(Model()[key]) else None
    {
      hide Good, Foot, Contents, Sorted, ToMap;
      LookupIsMapGet(Elements(), key);
      SingleElement(Elem(key, 0));
      if root == null { return None; }
      r := FindBelow(root, key, tree.value, height);
    }

    /** The match, the element before and the element after a key. */
    method FindNeighbours(key: int) returns (rv: Option<Elem>, prev: Option<Elem>, next: Option<Elem>)
      requires Valid()
      ensures rv == if key in Model() then Some(Model()[key]) else None
      ensures match prev
              case None => forall k :: k in Model() ==> key <= k
              case Some(y) =>
                && y.key in Model() && Model()[y.key] == y && y.key < key
                && forall k :: k in Model() && k < key ==> k <= y.key
      ensures match next
              case None => forall k :: k in Model() ==> k <= key
              case Some(y) =>
                && y.key in Model() && Model()[y.key] == y && key < y.key
                && forall k :: k in Model() && key < k ==> y.key <= k
    {
      hide Good, Foot, Contents, Sorted, ToMap, IsPred, IsSucc;
      SingleElement(Elem(key, 0));
      if root == null { return None, None, None; }
      rv, prev, next := NeighboursBelow(key, root, tree.value, height);
      LookupIsMapGet(Elements(), key);
      NeighboursInMap(Elements(), key, prev, next);
    }

    method CountElements() returns (c: nat)
      requires Valid()
      ensures c == |Model()|
    {
      hide Good, Foot, Contents, Sorted, ToMap;
      ToMapKeys(Elements());
      c := 0;
      if root != null { c := CountElementsBelow(root, tree.value, height, 1); }
    }

    ghost function NodeCount(): nat
      reads this
    {
      match tree case None => 0 case Some(t) => Nodes(t)
    }

    method CountNodes() returns (c: nat)
      requires Valid()
      ensures c == NodeCount()
    {
      c := 0;
      if root != null { c := CountNodesBelow(root, tree.value, height, 1); }
    }

    /** Memory and depth: a tree of L = height + 1 levels holds at least 2*(m+1)^(L-1) - 1 elements, and N nodes hold
        between (N-1)*m + 1 and N*2*m elements. */
    lemma SizeBounds()
      requires Valid() && root != null
      ensures |Model()| >= 2 * Pow(m + 1, height) - 1
      ensures (NodeCount() - 1) * m + 1 <= |Model()| <= NodeCount() * (2 * m)
    {
      ToMapKeys(Elements());
      HeightBound(tree.value, m, height, 1);
      NodeBounds(tree.value, m, height, 1);
    }

    // ----- deletion of everything

    method DeleteTree(tn: Node, ghost t: Tree, ghost h: nat, ghost lo: nat)
      requires t.id == tn && Good(t, m, h, lo) && op !in Foot(t)
      modifies Foot(t), op
      ensures op.Balance() == old(op.Balance()) - |Contents(t)|
      ensures forall j :: 0 <= j < tn.elem.Length ==> tn.elem[j] == Raw
      decreases h, 1
    {
      hide Good, Foot, Contents;
      GoodTop(t, m, h, lo);
      OwnFoot(t);
      assert allocated(Foot(t));
      if tn.down != null {
        SizeOf(t);
        DeleteKids(tn, t, h);
      }
      DestroyAll(tn, t.keys);
    }

    method DeleteKids(tn: Node, ghost t: Tree, ghost h: nat)
      requires t.Inner? && t.id == tn && h > 0 && TopGood(t, m, h) && op !in Foot(t)
      requires forall j {:trigger t.kids[j]} :: 0 <= j < |t.kids| ==> Good(t.kids[j], m, h - 1, m)
      modifies Foot(t), op
      ensures TopGood(t, m, h) && op.Balance() == old(op.Balance()) - SizeAll(t.kids)
      decreases h, 0
    {
      hide Good, Foot, Contents;
      assert allocated(Foot(t));
      OwnFoot(t);
      forall j | 0 <= j < |t.kids| ensures Foot(t.kids[j]) <= Foot(t) { FootKid(t, j); }
      var i := 0;
      while i <= tn.nelem
        invariant i <= |t.kids| && TopGood(t, m, h) && op.Balance() == old(op.Balance()) - SizeAll(t.kids[..i])
        invariant forall j {:trigger t.kids[j]} :: i <= j < |t.kids| ==> Good(t.kids[j], m, h - 1, m)
      {
        assert t.kids[..i + 1][..i] == t.kids[..i];
        DeleteTree(tn.down[i], t.kids[i], h - 1, m);
        i := i + 1;
      }
      assert t.kids[..i] == t.kids;
    }

    /** Destroy the elements of a node. */
    method DestroyAll(tn: Node, ghost keys: seq<Elem>)
      requires tn.Holds(keys)
      modifies tn.elem, op
      ensures op.Balance() == old(op.Balance()) - |keys|
      ensures forall j :: 0 <= j < tn.elem.Length ==> tn.elem[j] == Raw
    {
      var i := 0;
      while i < tn.nelem
        invariant i <= tn.nelem == |keys| && op.Balance() == old(op.Balance()) - i
        invariant forall j {:trigger tn.elem[j]} :: 0 <= j < tn.elem.Length ==>
                  tn.elem[j] == if i <= j < |keys| then Live(keys[j]) else Raw
      {
        op.Clr(tn.elem, i);
        i := i + 1;
      }
    }

    /** Clear the tree: every constructed element has been destroyed. */
    method Clear()
      requires Valid()
      modifies this`root, this`tree, this`height, Repr()
      ensures Valid() && Model() == map[] && op.iniCalls == op.clrCalls
    {
      if root != null {
        var r := root;
        DeleteTree(r, tree.value, height, 1);
      }
      root, tree := null, None;
    }
  }

  /** Removing the smallest or largest element of a map. */
  ghost predicate EndRemoved(M: map<int, Elem>, rv: int, e: Option<Elem>, M': map<int, Elem>, smallest: bool) {
    if M == map[] then rv == 1 && e == None && M' == map[] else
      && rv == 0 && e.Some? && e.value.key in M && M[e.value.key] == e.value
      && (forall k :: k in M ==> if smallest then e.value.key <= k else k <= e.value.key)
      && M' == M - {e.value.key}
  }

  // ----- runs

  datatype Command = DoStore(e: Elem) | DoRemove(key: int) | DoRemoveSmallest | DoRemoveLargest

  /** The return code and the element copied out, if any. */
  datatype Reply = Reply(rv: int, copy: Option<Elem>)

  /** One command on a finite map. */
  ghost predicate Step(M: map<int, Elem>, c: Command, r: Reply, M': map<int, Elem>) {
    match c
    case DoStore(e) => r == Reply(if e.key in M then 1 else 0, None) && M' == M[e.key := e]
    case DoRemove(k) => r == (if k in M then Reply(0, Some(M[k])) else Reply(1, None)) && M' == M - {k}
    case DoRemoveSmallest => EndRemoved(M, r.rv, r.copy, M', true)
    case DoRemoveLargest => EndRemoved(M, r.rv, r.copy, M', false)
  }

  ghost predicate RunOf(M: map<int, Elem>, cs: seq<Command>, rs: seq<Reply>, M': map<int, Elem>)
    decreases |cs|
  {
    |rs| == |cs| &&
    if cs == [] then M' == M
    else exists N :: Step(M, cs[0], rs[0], N) && RunOf(N, cs[1..], rs[1..], M')
  }

  lemma {:induction false} RunThen(M: map<int, Elem>, cs: seq<Command>, rs: seq<Reply>, N: map<int, Elem>, c: Command,
          r: Reply, M': map<int, Elem>)
    requires RunOf(M, cs, rs, N) && Step(N, c, r, M')
    ensures RunOf(M, cs + [c], rs + [r], M')
    decreases |cs|
  {
    hide Step;
    if cs == [] {
      assert ([c] + [])[1..] == [] && cs + [c] == [c] && rs + [r] == [r];
      assert RunOf(M', [], [], M');
    } else {
      var K :| Step(M, cs[0], rs[0], K) && RunOf(K, cs[1..], rs[1..], N);
      RunThen(K, cs[1..], rs[1..], N, c, r, M');
      assert (cs + [c])[1..] == cs[1..] + [c] && (rs + [r])[1..] == rs[1..] + [r];
      assert Step(M, (cs + [c])[0], (rs + [r])[0], K);
    }
  }

  method Execute(t: HLBTree, c: Command) returns (r: Reply)
    requires t.Valid()
    modifies t`root, t`tree, t`height, t.Repr()
    ensures t.Valid() && fresh(t.Repr() - old(t.Repr()))
    ensures Step(old(t.Model()), c, r, t.Model())
  {
    hide HLBTree.Valid, HLBTree.Model, EndRemoved;
    var rv, e: Option<Elem> := 0, None;
    match c {
      case DoStore(x) => rv := t.Store(x);
      case DoRemove(k) => rv, e := t.Remove(k);
      case DoRemoveSmallest => rv, e := t.RemoveSmallest();
      case DoRemoveLargest => rv, e := t.RemoveLargest();
    }
    r := Reply(rv, e);
  }

  /** Over any run, the tree behaves as a finite map. */
  method Run(t: HLBTree, cs: seq<Command>) returns (rs: seq<Reply>)
    requires t.Valid()
    modifies t`root, t`tree, t`height, t.Repr()
    ensures t.Valid() && RunOf(old(t.Model()), cs, rs, t.Model())
  {
    hide HLBTree.Valid, HLBTree.Model, HLBTree.Repr, Step;
    rs := [];
    var i := 0;
    while i < |cs|
      invariant i <= |cs| && t.Valid() && fresh(t.Repr() - old(t.Repr()))
      invariant RunOf(old(t.Model()), cs[..i], rs, t.Model())
    {
      ghost var N, R := t.Model(), t.Repr();
      label L:
      var r := Execute(t, cs[i]);
      forall o | o in t.Repr() && o !in R ensures !old(allocated(o)) {
        assert old(allocated(o)) ==> old@L(allocated(o));
      }
      RunThen(old(t.Model()), cs[..i], rs, N, cs[i], r, t.Model());
      assert cs[..i + 1] == cs[..i] + [cs[i]];
      rs := rs + [r];
      i := i + 1;
    }
    assert cs[..i] == cs;
  }

  lemma StepAgree(M: map<int, Elem>, c: Command, r1: Reply, M1: map<int, Elem>, r2: Reply, M2: map<int, Elem>)
    requires Step(M, c, r1, M1) && Step(M, c, r2, M2)
    ensures r1 == r2 && M1 == M2
  {
  }

  /** The map specification leaves nothing open: trees of any node size reply alike. */
  lemma {:induction false} RunsAgree(M: map<int, Elem>, cs: seq<Command>, rs1: seq<Reply>, M1: map<int, Elem>,
          rs2: seq<Reply>, M2: map<int, Elem>)
    requires RunOf(M, cs, rs1, M1) && RunOf(M, cs, rs2, M2)
    ensures rs1 == rs2 && M1 == M2
    decreases |cs|
  {
    hide Step;
    if cs == [] {
    } else {
      var N1 :| Step(M, cs[0], rs1[0], N1) && RunOf(N1, cs[1..], rs1[1..], M1);
      var N2 :| Step(M, cs[0], rs2[0], N2) && RunOf(N2, cs[1..], rs2[1..], M2);
      StepAgree(M, cs[0], rs1[0], N1, rs2[0], N2);
      RunsAgree(N1, cs[1..], rs1[1..], M1, rs2[1..], M2);
      assert rs1 == [rs1[0]] + rs1[1..] && rs2 == [rs2[0]] + rs2[1..];
    }
  }
}
