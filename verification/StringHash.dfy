/** The chained string hash. */
module StringHash {
  import opened Bytes

  type Key = seq<Byte>

  // ----- the hash function

  /** One character more, in 32 bits. */
  function Mix(hv: bv32, c: Byte): bv32 {
    var s := (hv << 4) + (c as bv32);
    var g := s & 0xf000_0000;
    (if g != 0 then s ^ (g >> 24) else s) & !g
  }

  function Acc(x: Key): bv32 {
    if x == [] then 0 else Mix(Acc(x[..|x| - 1]), x[|x| - 1])
  }

  /** The accumulator keeps to 28 bits, whatever carry the addition loses. */
  lemma {:induction false} AccBound(x: Key)
    ensures Acc(x) < 0x1000_0000
  {
    hide Mix;
    if x == [] {
    } else {
      MixBound(Acc(x[..|x| - 1]), x[|x| - 1]);
    }
  }

  lemma MixBound(hv: bv32, c: Byte)
    ensures Mix(hv, c) < 0x1000_0000
  {
    MaskBound((hv << 4) + (c as bv32));
  }

  lemma MaskBound(s: bv32)
    ensures var g := s & 0xf000_0000; (if g != 0 then s ^ (g >> 24) else s) & !g < 0x1000_0000
  {
  }

  function Bucket(x: Key, size: nat): (b: nat)
    requires size > 0
    ensures b < size
  {
    (Acc(x) as nat) % size
  }

  // ----- chains

  datatype Entry = Entry(key: Key, value: int)

  /** The chain has no key twice, and only keys of this bucket. */
  ghost predicate ChainOk(chain: seq<Entry>, b: nat, size: nat)
    requires size > 0
  {
    && (forall i :: 0 <= i < |chain| ==> Bucket(chain[i].key, size) == b && chain[i].key != [])
    && forall i, j :: 0 <= i < j < |chain| ==> chain[i].key != chain[j].key
  }

  ghost predicate TableOk(table: seq<seq<Entry>>) {
    |table| > 0 && forall b :: 0 <= b < |table| ==> ChainOk(table[b], b, |table|)
  }

  ghost predicate InChain(chain: seq<Entry>, k: Key, v: int) {
    Entry(k, v) in chain
  }

  /** The map the table stands for. */
  ghost predicate Is(table: seq<seq<Entry>>, m: map<Key, int>) {
    |table| > 0 && forall k, v {:trigger InChain(table[Bucket(k, |table|)], k, v)} ::
      (k in m && m[k] == v) <==> InChain(table[Bucket(k, |table|)], k, v)
  }

  /** One chain changed, and the map with it: keys of other buckets are as before. */
  lemma ChainChanged(table: seq<seq<Entry>>, b: nat, chain: seq<Entry>, m: map<Key, int>, n: map<Key, int>)
    requires TableOk(table) && Is(table, m) && b < |table| && ChainOk(chain, b, |table|)
    requires forall k {:trigger k in n} {:trigger k in m} :: Bucket(k, |table|) != b ==>
              (k in n <==> k in m) && (k in m ==> n[k] == m[k])
    requires forall k, v {:trigger InChain(chain, k, v)} :: Bucket(k, |table|) == b ==>
              ((k in n && n[k] == v) <==> InChain(chain, k, v))
    ensures TableOk(table[b := chain]) && Is(table[b := chain], n)
  {
    hide ChainOk, InChain, Bucket;
    var t := table[b := chain];
    forall k, v ensures (k in n && n[k] == v) <==> InChain(t[Bucket(k, |t|)], k, v) {
      if Bucket(k, |t|) == b {
        assert (k in n && n[k] == v) <==> InChain(chain, k, v);
      } else {
        assert (k in m && m[k] == v) <==> InChain(table[Bucket(k, |table|)], k, v);
      }
    }
  }

  lemma OfBucket(table: seq<seq<Entry>>, b: nat, m: map<Key, int>)
    requires TableOk(table) && Is(table, m) && b < |table|
    ensures forall k, v {:trigger InChain(table[b], k, v)} :: Bucket(k, |table|) == b ==>
              ((k in m && m[k] == v) <==> InChain(table[b], k, v))
    ensures ChainOk(table[b], b, |table|)
  {
  }

  /** A chain without the key in front of which it is put. */
  lemma Prepended(chain: seq<Entry>, b: nat, size: nat, e: Entry)
    requires size > 0 && ChainOk(chain, b, size) && Bucket(e.key, size) == b && e.key != []
    requires forall i :: 0 <= i < |chain| ==> chain[i].key != e.key
    ensures ChainOk([e] + chain, b, size)
    ensures forall k, v {:trigger InChain([e] + chain, k, v)} :: InChain([e] + chain, k, v) <==>
              if k == e.key then v == e.value else InChain(chain, k, v)
  {
    hide Bucket;
    var c := [e] + chain;
    assert forall k, v :: InChain(c, k, v) <==> Entry(k, v) == e || Entry(k, v) in chain;
  }

  function Cut(chain: seq<Entry>, p: nat): seq<Entry>
    requires p < |chain|
  {
    chain[..p] + chain[p + 1..]
  }

  lemma CutKeeps(chain: seq<Entry>, b: nat, size: nat, p: nat)
    requires size > 0 && ChainOk(chain, b, size) && p < |chain|
    ensures ChainOk(Cut(chain, p), b, size)
    ensures forall i :: 0 <= i < |Cut(chain, p)| ==> Cut(chain, p)[i].key != chain[p].key
    ensures forall k, v {:trigger InChain(Cut(chain, p), k, v)} :: InChain(Cut(chain, p), k, v) <==>
              k != chain[p].key && InChain(chain, k, v)
  {
    hide Bucket;
    var c := Cut(chain, p);
    assert forall i {:trigger c[i]} :: 0 <= i < |c| ==> c[i] == chain[if i < p then i else i + 1];
    forall k, v ensures InChain(c, k, v) <==> k != chain[p].key && InChain(chain, k, v) {
      if k != chain[p].key && InChain(chain, k, v) {
        var i :| 0 <= i < |chain| && chain[i] == Entry(k, v);
        assert c[if i < p then i else i - 1] == Entry(k, v);
      }
    }
  }

  lemma Updated(chain: seq<Entry>, b: nat, size: nat, p: nat, value: int)
    requires size > 0 && ChainOk(chain, b, size) && p < |chain|
    ensures var c := chain[p := Entry(chain[p].key, value)];
            ChainOk(c, b, size)
            && forall k, v {:trigger InChain(c, k, v)} :: InChain(c, k, v) <==>
              if k == chain[p].key then v == value else InChain(chain, k, v)
  {
    hide Bucket;
    var c := chain[p := Entry(chain[p].key, value)];
    forall k, v ensures InChain(c, k, v) <==> if k == chain[p].key then v == value else InChain(chain, k, v) {
      if k == chain[p].key && v == value { assert c[p] == Entry(k, v); }
      if k != chain[p].key && InChain(chain, k, v) {
        var i :| 0 <= i < |chain| && chain[i] == Entry(k, v);
        assert c[i] == Entry(k, v);
      }
    }
  }

  lemma NotThere(table: seq<seq<Entry>>, m: map<Key, int>, key: Key)
    requires TableOk(table) && Is(table, m)
    requires forall i :: 0 <= i < |table[Bucket(key, |table|)]| ==> table[Bucket(key, |table|)][i].key != key
    ensures key !in m
  {
    var chain := table[Bucket(key, |table|)];
    assert !InChain(chain, key, if key in m then m[key] else 0);
  }

  lemma There(table: seq<seq<Entry>>, m: map<Key, int>, b: nat, i: nat)
    requires TableOk(table) && Is(table, m) && b < |table| && i < |table[b]|
    ensures table[b][i].key in m && m[table[b][i].key] == table[b][i].value && Bucket(table[b][i].key, |table|) == b
  {
    var e := table[b][i];
    assert ChainOk(table[b], b, |table|);
    assert InChain(table[b], e.key, e.value);
  }

  /** A variable of the caller. */
  class Cell {
    var value: int

    constructor (value: int)
      ensures this.value == value
    {
      this.value := value;
    }
  }

  class RefStringHash {
    const hash: array<seq<Entry>>
    /** The finite map the hash stands for. */
    ghost var contents: map<Key, int>

    ghost predicate Valid()
      reads this, hash
    {
      TableOk(hash[..]) && Is(hash[..], contents)
    }

    constructor (size: int)
      ensures Valid() && contents == map[] && fresh(hash) && hash.Length == if size < 1 then 1 else size
    {
      var n := if size < 1 then 1 else size;
      hash := new seq<Entry>[n](_ => []);
      contents := map[];
      new;
      NoEntries(hash[..]);
    }

    method DoHash(x: Key) returns (h: nat)
      requires hash.Length > 0
      ensures h == Bucket(x, hash.Length) && h < hash.Length
    {
      var hv: bv32 := 0;
      var i := 0;
      while i < |x|
        invariant i <= |x| && hv == Acc(x[..i])
      {
        assert x[..i + 1][..i] == x[..i];
        hv := Mix(hv, x[i]);
        i := i + 1;
      }
      assert x[..i] == x;
      h := (hv as nat) % hash.Length;
    }

    /** Find a key in its chain; if wanted, move its entry to the front. The other entries keep their order. */
    method Search(key: Key, h: nat, requeue: bool) returns (pos: int)
      requires Valid() && h == Bucket(key, hash.Length) && key != []
      modifies hash
      ensures Valid() && -1 <= pos < |hash[h]|
      ensures if pos < 0 then key !in contents else key in contents && hash[h][pos] == Entry(key, contents[key])
      ensures forall b :: 0 <= b < hash.Length && b != h ==> hash[b] == old(hash[b])
      ensures hash[h] == old(hash[h]) || (pos == 0 && requeue && exists p {:trigger Cut(old(hash[h]), p)} ::
                0 < p < |old(hash[h])| && hash[h] == [old(hash[h])[p]] + Cut(old(hash[h]), p))
      ensures pos < 0 ==> hash[h] == old(hash[h]) && forall i :: 0 <= i < |hash[h]| ==> hash[h][i].key != key
      ensures pos >= 0 && requeue ==> pos == 0
    {
      hide Bucket, ChainOk, TableOk, Is, InChain;
      ghost var table := hash[..];
      Sizes();
      var p := 0;
      while p < |hash[h]|
        invariant p <= |hash[h]| && forall i :: 0 <= i < p ==> hash[h][i].key != key
        modifies {}
      {
        if hash[h][p].key == key { break; }
        p := p + 1;
      }
      if p == |hash[h]| {
        NotThere(table, contents, key);
        return -1;
      }
      There(table, contents, h, p);
      if !requeue || p == 0 { return p; }
      var e, chain := hash[h][p], hash[h];
      hash[h] := [e] + Cut(chain, p);
      OfBucket(table, h, contents);
      CutKeeps(chain, h, |table|, p);
      Fits(table, h, p);
      Prepended(Cut(chain, p), h, |table|, e);
      forall k, v ensures InChain(hash[h], k, v) <==> InChain(chain, k, v) {
        if k == e.key { assert (k in contents && contents[k] == v) <==> InChain(chain, k, v); }
      }
      ChainChanged(table, h, hash[h], contents, contents);
      assert hash[..] == table[h := hash[h]];
      return 0;
    }

    /** Store a value under a key: 0 for a new entry, 1 for one that was there, -2 for an empty key. Searching may be
        left out for a key that is known not to be there. */
    method Store(key: Key, value: int, requeue: bool, dontSearch: bool) returns (rv: int)
      requires Valid() && (dontSearch ==> key !in contents)
      modifies this, hash
      ensures Valid() && rv == if key == [] then -2 else if key in old(contents) then 1 else 0
      ensures contents == if key == [] then old(contents) else old(contents)[key := value]
      ensures rv == 0 ==> forall b {:trigger hash[b]} :: 0 <= b < hash.Length ==>
                hash[b] == if b == Bucket(key, hash.Length) then [Entry(key, value)] + old(hash[b]) else old(hash[b])
    {
      hide Bucket, ChainOk, TableOk, Is, InChain;
      if key == [] { return -2; }
      Sizes();
      var h := DoHash(key);
      var pos := -1;
      if dontSearch { NotInChain(key, h); } else { pos := Search(key, h, requeue); }
      ghost var table, chain := hash[..], hash[h];
      OfBucket(table, h, contents);
      if pos >= 0 {
        Updated(chain, h, |table|, pos, value);
        hash[h] := hash[h][pos := Entry(key, value)];
        rv := 1;
      } else {
        Prepended(chain, h, |table|, Entry(key, value));
        hash[h] := [Entry(key, value)] + hash[h];
        rv := 0;
      }
      ghost var n := contents[key := value];
      forall k, v | Bucket(k, |table|) == h ensures (k in n && n[k] == v) <==> InChain(hash[h], k, v) {
        if k != key { assert (k in contents && contents[k] == v) <==> InChain(chain, k, v); }
      }
      ChainChanged(table, h, hash[h], contents, n);
      assert hash[..] == table[h := hash[h]];
      contents := n;
    }

    lemma NotInChain(key: Key, h: nat)
      requires Valid() && h < hash.Length && key !in contents
      ensures forall i :: 0 <= i < |hash[h]| ==> hash[h][i].key != key
    {
      forall i | 0 <= i < |hash[h]| ensures hash[h][i].key != key { There(hash[..], contents, h, i); }
    }

    /** Look a key up: 0 and its value, 1 if it is not there, -2 for an empty key. */
    method Lookup(key: Key, requeue: bool) returns (rv: int, value: int)
      requires Valid()
      modifies hash
      ensures Valid()
      ensures rv == if key == [] then -2 else if key in contents then 0 else 1
      ensures rv == 0 ==> value == contents[key]
    {
      hide Bucket, TableOk, Is;
      if key == [] { return -2, 0; }
      Sizes();
      var h := DoHash(key);
      var pos := Search(key, h, requeue);
      if pos < 0 { return 1, 0; }
      return 0, hash[h][pos].value;
    }

    /** Remove a key: 0, or 1 if it is not there, or -2 for an empty key. A value the caller passes is assigned to the
        entry that is being removed; the caller's variable keeps its value. */
    method Remove(key: Key, value: Cell?) returns (rv: int)
      requires Valid()
      modifies this, hash
      ensures value != null ==> value.value == old(value.value)
      ensures Valid() && rv == if key == [] then -2 else if key in old(contents) then 0 else 1
      ensures contents == old(contents) - {key}
    {
      hide Bucket, ChainOk, TableOk, Is, InChain;
      Sizes();
      if key == [] {
        NoEmptyKey();
        return -2;
      }
      var h := DoHash(key);
      ghost var table, chain := hash[..], hash[h];
      var p := 0;
      while p < |hash[h]|
        invariant p <= |hash[h]| && forall i :: 0 <= i < p ==> hash[h][i].key != key
        modifies {}
      {
        if hash[h][p].key == key { break; }
        p := p + 1;
      }
      if p == |hash[h]| {
        NotThere(table, contents, key);
        return 1;
      }
      There(table, contents, h, p);
      OfBucket(table, h, contents);
      CutKeeps(chain, h, |table|, p);
      var ent := hash[h][p];
      hash[h] := Cut(hash[h], p);
      if value != null { ent := Entry(ent.key, value.value); }
      ghost var n := contents - {key};
      forall k, v | Bucket(k, |table|) == h ensures (k in n && n[k] == v) <==> InChain(hash[h], k, v) {
        if k != key { assert (k in contents && contents[k] == v) <==> InChain(chain, k, v); }
      }
      ChainChanged(table, h, hash[h], contents, n);
      assert hash[..] == table[h := hash[h]];
      contents := n;
      return 0;
    }

    method Clear()
      requires Valid()
      modifies this, hash
      ensures Valid() && contents == map[]
    {
      hide Is, ChainOk, InChain;
      var i := 0;
      while i < hash.Length
        invariant i <= hash.Length && forall b :: 0 <= b < i ==> hash[b] == []
      {
        hash[i] := [];
        i := i + 1;
      }
      NoEntries(hash[..]);
      contents := map[];
    }

    /** The number of entries is the number of keys. */
    method Count() returns (cnt: nat)
      requires Valid()
      ensures cnt == |contents|
    {
      hide Bucket, TableOk, Is, InChain, ChainOk;
      Sizes();
      ghost var table := hash[..];
      ghost var seen: set<Key> := {};
      cnt := 0;
      var i := 0;
      while i < hash.Length
        invariant i <= hash.Length && cnt == |seen| && seen <= contents.Keys
        invariant forall k :: k in seen ==> Bucket(k, hash.Length) < i
        invariant forall k :: k in contents && Bucket(k, hash.Length) < i ==> k in seen
      {
        ghost var before := seen;
        var e := 0;
        while e < |hash[i]|
          invariant e <= |hash[i]| && cnt == |seen| && seen <= contents.Keys && before <= seen
          invariant forall k :: k in seen <==> k in before || exists j :: 0 <= j < e && hash[i][j].key == k
        {
          There(table, contents, i, e);
          OneChain(table, i);
          assert hash[i][e].key !in seen;
          seen := seen + {hash[i][e].key};
          cnt := cnt + 1;
          e := e + 1;
        }
        forall k | k in seen ensures Bucket(k, hash.Length) < i + 1 {
          if k !in before {
            var j :| 0 <= j < e && hash[i][j].key == k;
            There(table, contents, i, j);
          }
        }
        forall k | k in contents && Bucket(k, hash.Length) == i ensures k in seen { Somewhere(table, contents, k); }
        i := i + 1;
      }
      assert seen == contents.Keys;
    }

    lemma NoEmptyKey()
      requires Valid()
      ensures [] !in contents
    {
      hide Bucket;
      var table := hash[..];
      forall k | k in contents ensures k != [] {
        Somewhere(table, contents, k);
        var b := Bucket(k, |table|);
        var j :| 0 <= j < |table[b]| && table[b][j].key == k;
        Fits(table, b, j);
      }
    }

    lemma Sizes()
      requires Valid()
      ensures hash.Length > 0 && forall k :: Bucket(k, hash.Length) < hash.Length
    {
    }
  }

  lemma NoEntries(table: seq<seq<Entry>>)
    requires |table| > 0 && forall b :: 0 <= b < |table| ==> table[b] == []
    ensures TableOk(table) && Is(table, map[])
  {
    forall k, v ensures !InChain(table[Bucket(k, |table|)], k, v) {
      assert table[Bucket(k, |table|)] == [];
    }
  }

  lemma OneChain(table: seq<seq<Entry>>, b: nat)
    requires TableOk(table) && b < |table|
    ensures forall i, j :: 0 <= i < j < |table[b]| ==> table[b][i].key != table[b][j].key
  {
    assert ChainOk(table[b], b, |table|);
  }

  lemma Somewhere(table: seq<seq<Entry>>, m: map<Key, int>, k: Key)
    requires TableOk(table) && Is(table, m) && k in m
    ensures var chain := table[Bucket(k, |table|)]; exists j :: 0 <= j < |chain| && chain[j].key == k
  {
    var chain := table[Bucket(k, |table|)];
    assert InChain(chain, k, m[k]);
    var j :| 0 <= j < |chain| && chain[j] == Entry(k, m[k]);
  }

  lemma Fits(table: seq<seq<Entry>>, b: nat, i: nat)
    requires TableOk(table) && b < |table| && i < |table[b]|
    ensures Bucket(table[b][i].key, |table|) == b && table[b][i].key != []
  {
    assert ChainOk(table[b], b, |table|);
  }
}
