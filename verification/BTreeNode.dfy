/** One B-tree node: its element slots, its child pointers, and the routines that shift them. Slots are raw memory
    until constructed and after destruction. */
module BTreeNode {
  import opened SortedSeq

  datatype Slot = Raw | Live(e: Elem)

  /** The operator plugin: constructs, assigns and destroys elements in place, and counts constructor and destructor
      calls. */
  class Plugin {
    var iniCalls: nat
    var clrCalls: nat

    constructor ()
      ensures iniCalls == clrCalls == 0
    {
      iniCalls, clrCalls := 0, 0;
    }

    /** Elements alive now, as the calls count them. */
    ghost function Balance(): int
      reads this
    {
      iniCalls - clrCalls
    }

    method Ini(p: array<Slot>, i: nat, e: Elem)
      requires i < p.Length && p[i].Raw?
      modifies this, p
      ensures p[i] == Live(e) && forall j {:trigger p[j]} :: 0 <= j < p.Length && j != i ==> p[j] == old(p[j])
      ensures iniCalls == old(iniCalls) + 1 && clrCalls == old(clrCalls)
    {
      p[i] := Live(e);
      iniCalls := iniCalls + 1;
    }

    method Ass(p: array<Slot>, i: nat, e: Elem)
      requires i < p.Length && p[i].Live?
      modifies p
      ensures p[i] == Live(e) && forall j {:trigger p[j]} :: 0 <= j < p.Length && j != i ==> p[j] == old(p[j])
    {
      p[i] := Live(e);
    }

    method Clr(p: array<Slot>, i: nat)
      requires i < p.Length && p[i].Live?
      modifies this, p
      ensures p[i] == Raw && forall j {:trigger p[j]} :: 0 <= j < p.Length && j != i ==> p[j] == old(p[j])
      ensures iniCalls == old(iniCalls) && clrCalls == old(clrCalls) + 1
    {
      p[i] := Raw;
      clrCalls := clrCalls + 1;
    }
  }

  class Node {
    var nelem: nat
    const elem: array<Slot>
    const down: array?<Node?>

    /** Allocate a leaf with room for 2*m elements. */
    constructor Leaf(m: nat)
      ensures fresh(this) && fresh(elem) && elem.Length == 2 * m && down == null
      ensures Holds([])
    {
      nelem := 0;
      elem := new Slot[2 * m](_ => Raw);
      down := null;
    }

    /** Allocate an inner node with room for 2*m elements and 2*m+1 children. */
    constructor NonLeaf(m: nat)
      ensures fresh(this) && fresh(elem) && elem.Length == 2 * m
      ensures down != null && fresh(down) && down.Length == 2 * m + 1
      ensures Holds([])
      ensures forall i :: 0 <= i < down.Length ==> down[i] == null
    {
      nelem := 0;
      elem := new Slot[2 * m](_ => Raw);
      down := new Node?[2 * m + 1](_ => null);
    }

    /** Exactly the slots below nelem are live, and they hold `keys` in order. */
    ghost predicate Holds(keys: seq<Elem>)
      reads this, elem
    {
      && nelem == |keys| <= elem.Length
      && (forall i {:trigger elem[i]} :: 0 <= i < nelem ==> elem[i] == Live(keys[i]))
      && (forall i :: nelem <= i < elem.Length ==> elem[i] == Raw)
    }

    /** The child pointers are `kids`, and the unused ones are null. */
    ghost predicate Points(kids: seq<Node>)
      reads this, down
    {
      && down != null && down.Length == elem.Length + 1
      && |kids| == nelem + 1 <= down.Length
      && (forall i {:trigger down[i]} :: 0 <= i < |kids| ==> down[i] == kids[i])
      && (forall i :: |kids| <= i < down.Length ==> down[i] == null)
    }

    /** Branch index by binary search: the match, or the child that can hold the key. */
    method LBI(key: int, ghost keys: seq<Elem>) returns (found: bool, idx: nat)
      requires Holds(keys) && keys != [] && Sorted(keys)
      ensures idx <= |keys|
      ensures found ==> idx < |keys| && keys[idx].key == key
      ensures Below(keys[..idx], key)
      ensures !found ==> Above(key, keys[idx..])
    {
      hide Sorted, Below, Above;
      var a: nat, b: nat := 0, nelem - 1;
      while b - a > 1
        invariant a <= b < nelem
        invariant a == 0 || keys[a].key < key
        invariant b == nelem - 1 || key <= keys[b].key
        decreases b - a
      {
        var mid := (a + b) / 2;
        if elem[mid].e.key < key { a := mid; } else { b := mid; }
      }
      Bracket(keys, a, key);
      Bracket(keys, b, key);
      Bracket(keys, nelem, key);
      if a == 0 && key < elem[0].e.key { return false, 0; }
      if b == nelem - 1 && elem[b].e.key < key { return false, nelem; }
      if elem[a].e.key == key { return true, a; }
      return b != 0 && elem[b].e.key == key, b;
    }

    /** A key between two adjacent elements separates those before from those behind. */
    lemma Bracket(keys: seq<Elem>, idx: nat, key: int)
      requires Sorted(keys) && idx <= |keys|
      ensures idx == 0 || keys[idx - 1].key < key ==> Below(keys[..idx], key)
      ensures idx == |keys| || key < keys[idx].key ==> Above(key, keys[idx..])
      ensures 0 < idx < |keys| && keys[idx].key == key ==> keys[idx - 1].key < key
    {
    }

    /** Insert into a leaf that has room. */
    method INSLeafNS(idx: nat, e: Elem, op: Plugin, ghost keys: seq<Elem>)
      requires Holds(keys) && idx <= |keys| < elem.Length
      modifies this, elem, op
      ensures Holds(Ins(keys, idx, e))
      ensures op.Balance() == old(op.Balance()) + 1
    {
      ghost var K := Ins(keys, idx, e);
      if idx == nelem {
        op.Ini(elem, nelem, e);
        nelem := nelem + 1;
        return;
      }
      var i: nat := nelem - 1;
      op.Ini(elem, nelem, elem[i].e);
      while i > idx
        invariant idx <= i < nelem == |keys| < elem.Length
        invariant forall j {:trigger elem[j]} :: 0 <= j <= i ==> elem[j] == Live(keys[j])
        invariant forall j {:trigger elem[j]} :: i < j <= nelem ==> elem[j] == Live(K[j])
        invariant forall j :: nelem < j < elem.Length ==> elem[j] == Raw
        invariant op.Balance() == old(op.Balance()) + 1
      {
        op.Ass(elem, i, elem[i - 1].e);
        i := i - 1;
      }
      op.Ass(elem, idx, e);
      nelem := nelem + 1;
    }

    /** Copy element and left child from slot i-1 to slot i of an inner node. */
    method CopyUp(i: nat, op: Plugin)
      requires 1 <= i < elem.Length && down != null && i < down.Length && elem[i].Live? && elem[i - 1].Live?
      modifies elem, down
      ensures elem[i] == elem[i - 1] && down[i] == down[i - 1]
      ensures forall j {:trigger elem[j]} :: 0 <= j < elem.Length && j != i ==> elem[j] == old(elem[j])
      ensures forall j {:trigger down[j]} :: 0 <= j < down.Length && j != i ==> down[j] == old(down[j])
    {
      op.Ass(elem, i, elem[i - 1].e);
      down[i] := down[i - 1];
    }

    /** Move everything from idx on up by one, with the child left of each element. */
    method OpenGap(idx: nat, op: Plugin, ghost keys: seq<Elem>, ghost kids: seq<Node>)
      requires Holds(keys) && Points(kids) && idx < |keys| < elem.Length
      modifies elem, down, op
      ensures forall j {:trigger elem[j]} :: 0 <= j < elem.Length ==>
                elem[j] == if j <= idx then Live(keys[j]) else if j <= nelem then Live(keys[j - 1]) else Raw
      ensures forall j {:trigger down[j]} :: 0 <= j < down.Length ==>
                down[j] == if j <= idx then kids[j] else if j <= nelem + 1 then kids[j - 1] else null
      ensures op.Balance() == old(op.Balance()) + 1
    {
      down[nelem + 1] := down[nelem];
      var i: nat := nelem - 1;
      op.Ini(elem, nelem, elem[i].e);
      down[nelem] := down[i];
      while i > idx
        invariant idx <= i < nelem
        invariant forall j {:trigger elem[j]} :: 0 <= j < elem.Length ==>
                    elem[j] == if j <= i then Live(keys[j]) else if j <= nelem then Live(keys[j - 1]) else Raw
        invariant forall j {:trigger down[j]} :: 0 <= j < down.Length ==>
                    down[j] == if j <= i then kids[j] else if j <= nelem + 1 then kids[j - 1] else null
        invariant op.Balance() == old(op.Balance()) + 1
      {
        CopyUp(i, op);
        i := i - 1;
      }
    }

    /** Insert an element and the child left of it into an inner node that has room. */
    method INSNS(idx: nat, e: Elem, chld: Node, op: Plugin, ghost keys: seq<Elem>, ghost kids: seq<Node>)
      requires Holds(keys) && Points(kids) && idx <= |keys| < elem.Length
      modifies this, elem, down, op
      ensures Holds(Ins(keys, idx, e)) && Points(Ins(kids, idx, chld))
      ensures op.Balance() == old(op.Balance()) + 1
    {
      hide Ins;
      if idx == nelem {
        down[nelem + 1] := down[nelem];
        op.Ini(elem, nelem, e);
      } else {
        OpenGap(idx, op, keys, kids);
        op.Ass(elem, idx, e);
      }
      down[idx] := chld;
      nelem := nelem + 1;
    }

    /** Remove an element from a leaf. */
    method DELLeaf(idx: nat, op: Plugin, ghost keys: seq<Elem>)
      requires Holds(keys) && idx < |keys|
      modifies this, elem, op
      ensures Holds(Del(keys, idx))
      ensures op.Balance() == old(op.Balance()) - 1
    {
      ghost var K := Del(keys, idx);
      nelem := nelem - 1;
      var i := idx;
      while i < nelem
        invariant idx <= i <= nelem == |keys| - 1
        invariant forall j {:trigger elem[j]} :: 0 <= j < i ==> elem[j] == Live(K[j])
        invariant forall j {:trigger elem[j]} :: i <= j <= nelem ==> elem[j] == Live(keys[j])
        invariant forall j :: nelem < j < elem.Length ==> elem[j] == Raw
        invariant op.Balance() == old(op.Balance())
      {
        op.Ass(elem, i, elem[i + 1].e);
        i := i + 1;
      }
      op.Clr(elem, nelem);
    }

    /** Remove an element and the child left of it. */
    method DELL(idx: nat, op: Plugin, ghost keys: seq<Elem>, ghost kids: seq<Node>)
      requires Holds(keys) && Points(kids) && idx < |keys|
      modifies this, elem, down, op
      ensures Holds(Del(keys, idx)) && Points(Del(kids, idx))
      ensures op.Balance() == old(op.Balance()) - 1
    {
      hide Del;
      ghost var K, C := Del(keys, idx), Del(kids, idx);
      nelem := nelem - 1;
      var i := idx;
      while true
        invariant idx <= i <= nelem == |keys| - 1
        invariant forall j {:trigger elem[j]} :: 0 <= j < elem.Length ==>
                  elem[j] == if j < i then Live(K[j]) else if j <= nelem then Live(keys[j]) else Raw
        invariant forall j {:trigger down[j]} :: 0 <= j < down.Length ==>
                  down[j] == if j < i then C[j] else if j <= nelem + 1 then kids[j] else null
        invariant op.Balance() == old(op.Balance())
        decreases nelem - i
      {
        down[i] := down[i + 1];
        if i >= nelem { break; }
        op.Ass(elem, i, elem[i + 1].e);
        i := i + 1;
      }
      op.Clr(elem, nelem);
      down[nelem + 1] := null;
    }

    /** Remove an element and the child right of it. */
    method DELR(idx: nat, op: Plugin, ghost keys: seq<Elem>, ghost kids: seq<Node>)
      requires Holds(keys) && Points(kids) && idx < |keys|
      modifies this, elem, down, op
      ensures Holds(Del(keys, idx)) && Points(Del(kids, idx + 1))
      ensures op.Balance() == old(op.Balance()) - 1
    {
      hide Del;
      ghost var K, C := Del(keys, idx), Del(kids, idx + 1);
      nelem := nelem - 1;
      var i := idx;
      while i < nelem
        invariant idx <= i <= nelem == |keys| - 1
        invariant forall j {:trigger elem[j]} :: 0 <= j < elem.Length ==>
                  elem[j] == if j < i then Live(K[j]) else if j <= nelem then Live(keys[j]) else Raw
        invariant forall j {:trigger down[j]} :: 0 <= j < down.Length ==>
                  down[j] == if j <= i then C[j] else if j <= nelem + 1 then kids[j] else null
        invariant op.Balance() == old(op.Balance())
      {
        op.Ass(elem, i, elem[i + 1].e);
        i := i + 1;
        down[i] := down[i + 1];
      }
      op.Clr(elem, nelem);
      down[nelem + 1] := null;
    }
  }
}
