/** The leaves of the hash tree: chains of data blocks holding packed items, seen as a
    finite map from keys to entries. */
module HTreeLeaf {
  import opened Bytes
  import opened KeyCodec
  import Fnv1a

  const DATA_HEAD_SIZE := 20
  const ITEM_HEAD := 11
  const FIRST_BLOCK := 64

  type Key = seq<byte>

  datatype Entry = Entry(pos: int, ver: int, hash: int)

  /** What fits the fields of a packed entry. */
  predicate InRange(e: Entry) {
    0 <= e.pos < TWO_32 && -TWO_31 <= e.ver < TWO_31 && 0 <= e.hash < TWO_16
  }

  /** An item stores its key in encoded form. */
  datatype Item = Item(key: seq<byte>, e: Entry)

  datatype Block = Block(size: int, used: int, items: seq<Item>)

  function ItemLength(it: Item): int {
    |it.key| + ITEM_HEAD
  }

  function K(dict: Dict, it: Item): Key {
    Decode(dict, it.key)
  }

  /** The item holds the settled encoding of a proper key. */
  ghost predicate ItemOk(dict: Dict, it: Item) {
    && |dict| <= MAX_DICT_SIZE
    && KeyOk(K(dict, it)) && Settled(dict, K(dict, it)) && it.key == Enc(dict, K(dict, it))
  }

  function KeyHash(dict: Dict, it: Item): (h: int)
    ensures 0 <= h < TWO_32
  {
    Fnv1a.Hash(K(dict, it))
  }

  // ---- Items as a map -----------------------------------------------------------------------

  ghost predicate ItemsOk(dict: Dict, items: seq<Item>) {
    && (forall i :: 0 <= i < |items| ==> ItemOk(dict, items[i]))
    && (forall i, j :: 0 <= i < j < |items| ==> items[i].key != items[j].key)
  }

  function MapOf(dict: Dict, items: seq<Item>): (m: map<Key, Entry>) {
    if items == [] then map[]
    else MapOf(dict, items[1..])[K(dict, items[0]) := items[0].e]
  }

  lemma {:induction false} MapOfAt(dict: Dict, items: seq<Item>, i: nat)
    requires ItemsOk(dict, items) && i < |items|
    ensures K(dict, items[i]) in MapOf(dict, items)
    ensures MapOf(dict, items)[K(dict, items[i])] == items[i].e
  {
    if i > 0 {
      MapOfAt(dict, items[1..], i - 1);
      assert items[i].key != items[0].key;
    }
  }

  lemma {:induction false} MapOfHas(dict: Dict, items: seq<Item>, k: Key) returns (i: nat)
    requires k in MapOf(dict, items)
    ensures i < |items| && K(dict, items[i]) == k
  {
    if K(dict, items[0]) == k {
      i := 0;
    } else {
      i := MapOfHas(dict, items[1..], k);
      i := i + 1;
    }
  }

  lemma MapOfUpdate(dict: Dict, items: seq<Item>, i: nat, e: Entry)
    requires ItemsOk(dict, items) && i < |items|
    ensures ItemsOk(dict, items[i := items[i].(e := e)])
    ensures MapOf(dict, items[i := items[i].(e := e)]) == MapOf(dict, items)[K(dict, items[i]) := e]
  {
    var items', k := items[i := items[i].(e := e)], K(dict, items[i]);
    var m, m' := MapOf(dict, items)[k := e], MapOf(dict, items');
    assert ItemsOk(dict, items');
    forall x | x in m ensures x in m' && m'[x] == m[x] {
      if x == k {
        MapOfAt(dict, items', i);
      } else {
        var j := MapOfHas(dict, items, x);
        MapOfAt(dict, items, j);
        MapOfAt(dict, items', j);
      }
    }
    forall x | x in m' ensures x in m {
      var j := MapOfHas(dict, items', x);
      if j != i { MapOfAt(dict, items, j); }
    }
  }

  function Without(items: seq<Item>, i: nat): (r: seq<Item>)
    requires i < |items|
    ensures |r| == |items| - 1
    ensures forall j :: 0 <= j < i ==> r[j] == items[j]
    ensures forall j :: i <= j < |r| ==> r[j] == items[j + 1]
  {
    items[..i] + items[i + 1..]
  }

  lemma WithoutOk(dict: Dict, items: seq<Item>, i: nat)
    requires ItemsOk(dict, items) && i < |items|
    ensures ItemsOk(dict, Without(items, i))
  {
    hide ItemOk, Without;
  }

  lemma WithOk(dict: Dict, items: seq<Item>, i: nat)
    requires i < |items| && ItemOk(dict, items[i]) && ItemsOk(dict, Without(items, i))
    requires forall j :: 0 <= j < |items| && j != i ==> items[j].key != items[i].key
    ensures ItemsOk(dict, items)
  {
    hide ItemOk, Without;
    var r := Without(items, i);
    forall j | 0 <= j < |items| ensures ItemOk(dict, items[j]) {
      if j != i { assert items[j] == if j < i then r[j] else r[j - 1]; }
    }
    forall j, k | 0 <= j < k < |items| ensures items[j].key != items[k].key {
      if j != i && k != i {
        assert items[j] == if j < i then r[j] else r[j - 1];
        assert items[k] == if k < i then r[k] else r[k - 1];
      }
    }
  }

  /** Dropping one item drops exactly its key. */
  lemma MapOfWithout(dict: Dict, items: seq<Item>, i: nat)
    requires ItemsOk(dict, items) && i < |items|
    ensures ItemsOk(dict, Without(items, i))
    ensures K(dict, items[i]) !in MapOf(dict, Without(items, i))
    ensures MapOf(dict, items) == MapOf(dict, Without(items, i))[K(dict, items[i]) := items[i].e]
    ensures MapOf(dict, Without(items, i)) == MapOf(dict, items) - {K(dict, items[i])}
  {
    hide MapOf, K, Without;
    WithoutOk(dict, items, i);
    var r, k := Without(items, i), K(dict, items[i]);
    var m, m' := MapOf(dict, items), MapOf(dict, r);
    MapOfAt(dict, items, i);
    forall x | x in m' ensures x != k && x in m && m[x] == m'[x] {
      var j := MapOfHas(dict, r, x);
      MapOfAt(dict, r, j);
      MapOfAt(dict, items, if j < i then j else j + 1);
      KeysDiffer(dict, items[i], r[j]);
    }
    forall x | x in m && x != k ensures x in m' {
      var j := MapOfHas(dict, items, x);
      MapOfAt(dict, r, if j < i then j else j - 1);
    }
    assert m == m'[k := items[i].e];
    assert m' == m - {k};
  }

  lemma KeysDiffer(dict: Dict, a: Item, b: Item)
    requires ItemOk(dict, a) && ItemOk(dict, b)
    ensures a.key == b.key <==> K(dict, a) == K(dict, b)
  {
  }

  // ---- Live count and hash of a map --------------------------------------------------------

  predicate LiveEntry(e: Entry) {
    e.ver > 0
  }

  ghost function LiveKeys(m: map<Key, Entry>): set<Key> {
    set k | k in m && LiveEntry(m[k])
  }

  ghost function LiveCount(m: map<Key, Entry>): nat {
    |LiveKeys(m)|
  }

  function LiveBit(e: Entry): int {
    if LiveEntry(e) then 1 else 0
  }

  /** HASH(it) * keyhash. */
  function Weight(h: int, e: Entry): int {
    if LiveEntry(e) then h * e.hash else 0
  }

  /** The plain sum behind a leaf's hash, before it is cut to 16 bits. */
  ghost function HashSum(m: map<Key, Entry>): int {
    if m == map[] then 0
    else
      var k :| k in m;
      Weight(Fnv1a.Hash(k), m[k]) + HashSum(m - {k})
  }

  lemma {:induction false} HashSumAt(m: map<Key, Entry>, k: Key)
    requires k in m
    ensures HashSum(m) == Weight(Fnv1a.Hash(k), m[k]) + HashSum(m - {k})
    decreases |m|
  {
    hide Weight, Fnv1a.Hash;
    var x :| x in m && HashSum(m) == Weight(Fnv1a.Hash(x), m[x]) + HashSum(m - {x});
    if x != k {
      HashSumAt(m - {x}, k);
      HashSumAt(m - {k}, x);
      assert m - {x} - {k} == m - {k} - {x};
    }
  }

  lemma HashSumSet(m: map<Key, Entry>, k: Key, e: Entry)
    ensures HashSum(m[k := e]) == HashSum(m) + Weight(Fnv1a.Hash(k), e)
                                  - (if k in m then Weight(Fnv1a.Hash(k), m[k]) else 0)
  {
    hide HashSum, Weight, Fnv1a.Hash;
    HashSumAt(m[k := e], k);
    assert m[k := e] - {k} == m - {k};
    if k in m {
      HashSumAt(m, k);
    } else {
      assert m - {k} == m;
    }
  }

  lemma LiveCountSet(m: map<Key, Entry>, k: Key, e: Entry)
    ensures LiveCount(m[k := e]) == LiveCount(m) + LiveBit(e) - (if k in m then LiveBit(m[k]) else 0)
  {
    hide LiveEntry;
    var s, s' := LiveKeys(m), LiveKeys(m[k := e]);
    assert s' - {k} == s - {k};
    assert s' == (if LiveEntry(e) then (s - {k}) + {k} else s - {k});
    assert k in m && LiveEntry(m[k]) ==> s == (s - {k}) + {k};
    assert !(k in m && LiveEntry(m[k])) ==> s == s - {k};
  }

  /** Arithmetic of a uint16 field. */
  function U16(x: int): (r: int)
    ensures 0 <= r < TWO_16
  {
    x % TWO_16
  }

  lemma U16Add(x: int, y: int)
    ensures U16(U16(x) + y) == U16(x + y)
  {
    var q := x / TWO_16;
    var z := x % TWO_16 + y;
    DivMod(z + TWO_16 * q, TWO_16, z / TWO_16 + q, z % TWO_16);
  }
}
