/** Two neighbouring nodes and the separator between them: moving one element over, and merging them. */
module BTreeSiblings {
  import opened SortedSeq
  import opened BTreeNode

  /** Three nodes that share no memory. */
  ghost predicate Distinct(t: Node, l: Node, r: Node) {
    && t != l && t != r && l != r
    && t.elem != l.elem && t.elem != r.elem && l.elem != r.elem
    && (t.down != null ==> t.down != l.down && t.down != r.down)
    && (l.down != null ==> l.down != r.down)
  }

  ghost predicate Level(l: Node, lids: seq<Node>, r: Node, rids: seq<Node>)
    reads l, l.down, r, r.down
  {
    (l.down == null <==> r.down == null) && (l.down != null ==> l.Points(lids) && r.Points(rids))
  }

  /** The separator goes to the end of `l`, the first element of `r` becomes the separator. */
  method TransferFromRight(tn: Node, i: nat, l: Node, r: Node, op: Plugin,
          ghost tk: seq<Elem>, ghost lk: seq<Elem>, ghost rk: seq<Elem>, ghost lids: seq<Node>, ghost rids: seq<Node>)
    requires Distinct(tn, l, r) && tn.Holds(tk) && l.Holds(lk) && r.Holds(rk) && Level(l, lids, r, rids)
    requires i < |tk| && |lk| < l.elem.Length && 0 < |rk|
    modifies tn.elem, l, l.elem, l.down, r, r.elem, r.down, op
    ensures tn.Holds(tk[i := rk[0]]) && l.Holds(lk + [tk[i]]) && r.Holds(rk[1..])
    ensures l.down != null ==> Level(l, lids + [rids[0]], r, rids[1..])
    ensures op.Balance() == old(op.Balance())
  {
    op.Ini(l.elem, l.nelem, tn.elem[i].e);
    l.nelem := l.nelem + 1;
    op.Ass(tn.elem, i, r.elem[0].e);
    assert Del(rk, 0) == rk[1..];
    if l.down != null {
      l.down[l.nelem] := r.down[0];
      assert Del(rids, 0) == rids[1..];
      r.DELL(0, op, rk, rids);
    } else {
      r.DELLeaf(0, op, rk);
    }
  }

  /** The separator goes to the front of `r`, the last element of `l` becomes the separator. */
  method TransferFromLeft(tn: Node, i: nat, l: Node, r: Node, op: Plugin,
          ghost tk: seq<Elem>, ghost lk: seq<Elem>, ghost rk: seq<Elem>, ghost lids: seq<Node>, ghost rids: seq<Node>)
    requires Distinct(tn, l, r) && tn.Holds(tk) && l.Holds(lk) && r.Holds(rk) && Level(l, lids, r, rids)
    requires i < |tk| && 0 < |lk| && |rk| < r.elem.Length
    modifies tn.elem, l, l.elem, l.down, r, r.elem, r.down, op
    ensures tn.Holds(tk[i := lk[|lk| - 1]]) && l.Holds(lk[..|lk| - 1]) && r.Holds([tk[i]] + rk)
    ensures l.down != null ==> Level(l, lids[..|lids| - 1], r, [lids[|lids| - 1]] + rids)
    ensures op.Balance() == old(op.Balance())
  {
    assert Ins(rk, 0, tk[i]) == [tk[i]] + rk;
    if r.down == null {
      r.INSLeafNS(0, tn.elem[i].e, op, rk);
    } else {
      assert Ins(rids, 0, lids[|lids| - 1]) == [lids[|lids| - 1]] + rids;
      r.INSNS(0, tn.elem[i].e, l.down[l.nelem], op, rk, rids);
    }
    op.Ass(tn.elem, i, l.elem[l.nelem - 1].e);
    assert Del(lk, |lk| - 1) == lk[..|lk| - 1];
    if l.down != null {
      assert Del(lids, |lids| - 1) == lids[..|lids| - 1];
      l.DELR(l.nelem - 1, op, lk, lids);
    } else {
      l.DELLeaf(l.nelem - 1, op, lk);
    }
  }

  /** Move everything in `r` behind slot d of `l`, children included. */
  method Absorb(l: Node, r: Node, op: Plugin, d0: nat,
          ghost lk: seq<Elem>, ghost rk: seq<Elem>, ghost lids: seq<Node>, ghost rids: seq<Node>) returns (d: nat)
    requires l != r && l.elem != r.elem && (l.down != null ==> l.down != r.down)
    requires d0 == |lk| && |lk| + |rk| <= l.elem.Length && r.Holds(rk)
    requires forall j {:trigger l.elem[j]} :: 0 <= j < l.elem.Length ==>
              l.elem[j] == if j < |lk| then Live(lk[j]) else Raw
    requires l.down == null <==> r.down == null
    requires l.down != null ==> r.Points(rids) && |lids| == |lk| && l.down.Length == l.elem.Length + 1
    requires l.down != null ==> forall j {:trigger l.down[j]} :: 0 <= j < l.down.Length ==>
              l.down[j] == if j < |lk| then lids[j] else null
    modifies l.elem, l.down, r.elem, op
    ensures d == |lk + rk| && forall j {:trigger r.elem[j]} :: 0 <= j < r.elem.Length ==> r.elem[j] == Raw
    ensures forall j {:trigger l.elem[j]} :: 0 <= j < l.elem.Length ==>
              l.elem[j] == if j < d then Live((lk + rk)[j]) else Raw
    ensures l.down != null ==> forall j {:trigger l.down[j]} :: 0 <= j < l.down.Length ==>
              l.down[j] == if j <= d then (lids + rids)[j] else null
    ensures op.Balance() == old(op.Balance())
  {
    ghost var K, C := lk + rk, lids + rids;
    d := d0;
    var s: nat := 0;
    while true
      invariant s <= |rk| && d == |lk| + s
      invariant forall j {:trigger l.elem[j]} :: 0 <= j < l.elem.Length ==>
                l.elem[j] == if j < d then Live(K[j]) else Raw
      invariant forall j {:trigger r.elem[j]} :: 0 <= j < r.elem.Length ==>
                r.elem[j] == if s <= j < |rk| then Live(rk[j]) else Raw
      invariant l.down != null ==> forall j {:trigger l.down[j]} :: 0 <= j < l.down.Length ==>
                l.down[j] == if j < d then C[j] else null
      invariant op.Balance() == old(op.Balance())
      decreases |rk| - s
    {
      if r.down != null { l.down[d] := r.down[s]; }
      if s >= r.nelem { break; }
      op.Ini(l.elem, d, r.elem[s].e);
      d := d + 1;
      op.Clr(r.elem, s);
      s := s + 1;
    }
  }

  /** Move the separator and everything in `r` behind everything in `l`, and drop the separator and the pointer to `r`
      from the parent. All slots of `r` end up raw. */
  method Merge(tn: Node, i: nat, l: Node, r: Node, op: Plugin, ghost tk: seq<Elem>, ghost tids: seq<Node>,
               ghost lk: seq<Elem>, ghost rk: seq<Elem>, ghost lids: seq<Node>, ghost rids: seq<Node>)
    requires Distinct(tn, l, r) && tn.Holds(tk) && tn.Points(tids) && l.Holds(lk) && r.Holds(rk)
    requires Level(l, lids, r, rids)
    requires i < |tk| && |lk| + 1 + |rk| <= l.elem.Length
    modifies tn, tn.elem, tn.down, l, l.elem, l.down, r.elem, op
    ensures tn.Holds(Del(tk, i)) && tn.Points(Del(tids, i + 1))
    ensures l.Holds(lk + [tk[i]] + rk) && (l.down != null ==> l.Points(lids + rids))
    ensures forall j :: 0 <= j < r.elem.Length ==> r.elem[j] == Raw
    ensures op.Balance() == old(op.Balance())
  {
    var d: nat := l.nelem;
    op.Ini(l.elem, d, tn.elem[i].e);
    d := d + 1;
    tn.DELR(i, op, tk, tids);
    d := Absorb(l, r, op, d, lk + [tk[i]], rk, lids, rids);
    l.nelem := d;
  }
}
