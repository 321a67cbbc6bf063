/** Chains of data blocks: search, in-place update, append with growth or chaining, and
    removal with unlinking, each proved against the map the chain stands for. */
module HTreeBlocks {
  import opened Bytes
  import opened KeyCodec
  import opened HTreeLeaf

  datatype Option<T> = None | Some(value: T)

  type Chain = seq<Block>

  function Flat(blocks: Chain): (items: seq<Item>) {
    if blocks == [] then [] else blocks[0].items + Flat(blocks[1..])
  }

  function TotalLength(items: seq<Item>): (n: nat) {
    if items == [] then 0 else TotalLength(items[..|items| - 1]) + ItemLength(items[|items| - 1])
  }

  predicate BlockOk(b: Block) {
    b.used == DATA_HEAD_SIZE + TotalLength(b.items) && b.used <= b.size
  }

  predicate ChainOk(blocks: Chain) {
    forall b :: 0 <= b < |blocks| ==> BlockOk(blocks[b])
  }

  ghost predicate LeafOk(dict: Dict, blocks: Chain) {
    blocks != [] && ChainOk(blocks) && ItemsOk(dict, Flat(blocks))
  }

  ghost function Contents(dict: Dict, blocks: Chain): map<Key, Entry> {
    MapOf(dict, Flat(blocks))
  }

  // ---- Places in a chain --------------------------------------------------------------------

  function Offset(blocks: Chain, b: nat): nat
    requires b <= |blocks|
  {
    |Flat(blocks[..b])|
  }

  lemma {:induction false} FlatConcat(a: Chain, b: Chain)
    ensures Flat(a + b) == Flat(a) + Flat(b)
  {
    if a == [] {
      assert a + b == b;
    } else {
      assert (a + b)[1..] == a[1..] + b;
      FlatConcat(a[1..], b);
    }
  }

  lemma FlatSplit(blocks: Chain, b: nat)
    requires b < |blocks|
    ensures Flat(blocks) == Flat(blocks[..b]) + blocks[b].items + Flat(blocks[b + 1..])
  {
    assert blocks == blocks[..b] + blocks[b..];
    FlatConcat(blocks[..b], blocks[b..]);
    assert blocks[b..][1..] == blocks[b + 1..];
  }

  lemma FlatReplace(blocks: Chain, b: nat, blk: Block)
    requires b < |blocks|
    ensures Flat(blocks[b := blk]) == Flat(blocks[..b]) + blk.items + Flat(blocks[b + 1..])
  {
    var blocks' := blocks[b := blk];
    FlatSplit(blocks', b);
    assert blocks'[..b] == blocks[..b] && blocks'[b + 1..] == blocks[b + 1..];
  }

  lemma FlatAt(blocks: Chain, b: nat, j: nat)
    requires b < |blocks| && j < |blocks[b].items|
    ensures Offset(blocks, b) + j < |Flat(blocks)|
    ensures Flat(blocks)[Offset(blocks, b) + j] == blocks[b].items[j]
  {
    FlatSplit(blocks, b);
  }

  /** The block and index of the item with this key, if there is one. */
  method FindItem(blocks: Chain, key: seq<byte>) returns (found: bool, b: nat, j: nat)
    ensures found ==> b < |blocks| && j < |blocks[b].items| && blocks[b].items[j].key == key
    ensures !found ==> forall i :: 0 <= i < |Flat(blocks)| ==> Flat(blocks)[i].key != key
  {
    b := 0;
    assert blocks[..0] == [];
    while b < |blocks|
      invariant 0 <= b <= |blocks|
      invariant forall i :: 0 <= i < |Flat(blocks[..b])| ==> Flat(blocks[..b])[i].key != key
    {
      j := 0;
      while j < |blocks[b].items|
        invariant 0 <= j <= |blocks[b].items|
        invariant forall i :: 0 <= i < j ==> blocks[b].items[i].key != key
      {
        if blocks[b].items[j].key == key {
          return true, b, j;
        }
        j := j + 1;
      }
      assert blocks[..b + 1] == blocks[..b] + [blocks[b]];
      FlatConcat(blocks[..b], [blocks[b]]);
      assert Flat([blocks[b]]) == blocks[b].items;
      b := b + 1;
    }
    assert blocks[..b] == blocks;
    return false, 0, 0;
  }

  // ---- Updates ---------------------------------------------------------------------------------

  lemma {:induction false} TotalLengthUpdate(items: seq<Item>, j: nat, e: Entry)
    requires j < |items|
    ensures TotalLength(items[j := items[j].(e := e)]) == TotalLength(items)
  {
    var items', n := items[j := items[j].(e := e)], |items| - 1;
    if j < n {
      TotalLengthUpdate(items[..n], j, e);
      assert items'[..n] == items[..n][j := items[..n][j].(e := e)];
    } else {
      assert items'[..n] == items[..n];
    }
  }

  lemma {:induction false} TotalLengthWithout(items: seq<Item>, j: nat)
    requires j < |items|
    ensures TotalLength(Without(items, j)) == TotalLength(items) - ItemLength(items[j])
  {
    var r, n := Without(items, j), |items| - 1;
    if j < n {
      TotalLengthWithout(items[..n], j);
      assert r[..|r| - 1] == Without(items[..n], j);
    } else {
      assert r == items[..n];
    }
  }

  lemma SeqUpdate(a: seq<Item>, x: seq<Item>, b: seq<Item>, j: nat, v: Item)
    requires j < |x|
    ensures (a + x + b)[|a| + j := v] == a + x[j := v] + b
  {
  }

  lemma SeqWithout(a: seq<Item>, x: seq<Item>, b: seq<Item>, j: nat)
    requires j < |x|
    ensures Without(a + x + b, |a| + j) == a + Without(x, j) + b
  {
    hide Without;
    var whole, r := a + x + b, a + Without(x, j) + b;
    assert forall i :: 0 <= i < |a| + j ==> r[i] == whole[i];
    assert forall i :: |a| + j <= i < |r| ==> r[i] == whole[i + 1];
  }

  lemma SetEntryFlat(blocks: Chain, b: nat, j: nat, e: Entry)
    requires b < |blocks| && j < |blocks[b].items| && ChainOk(blocks)
    ensures var items := blocks[b].items;
            var blocks' := blocks[b := blocks[b].(items := items[j := items[j].(e := e)])];
            var p := Offset(blocks, b) + j;
            && p < |Flat(blocks)| && Flat(blocks)[p] == items[j]
            && Flat(blocks') == Flat(blocks)[p := items[j].(e := e)]
            && ChainOk(blocks')
  {
    hide Flat, TotalLength;
    var items := blocks[b].items;
    var blk := blocks[b].(items := items[j := items[j].(e := e)]);
    FlatAt(blocks, b, j);
    FlatSplit(blocks, b);
    FlatReplace(blocks, b, blk);
    SeqUpdate(Flat(blocks[..b]), items, Flat(blocks[b + 1..]), j, items[j].(e := e));
    TotalLengthUpdate(items, j, e);
  }

  lemma AppendFlat(blocks: Chain, b: nat, size: int, it: Item)
    requires b < |blocks| && ChainOk(blocks) && blocks[b].used + ItemLength(it) <= size
    ensures var blk := Block(size, blocks[b].used + ItemLength(it), blocks[b].items + [it]);
            var blocks' := blocks[b := blk];
            var p := Offset(blocks, b) + |blocks[b].items|;
            && p < |Flat(blocks')| && Flat(blocks')[p] == it
            && Without(Flat(blocks'), p) == Flat(blocks)
            && ChainOk(blocks')
  {
    hide Flat;
    var items := blocks[b].items;
    var blk := Block(size, blocks[b].used + ItemLength(it), items + [it]);
    FlatSplit(blocks, b);
    FlatReplace(blocks, b, blk);
    assert (items + [it])[..|items|] == items;
    var p := Offset(blocks, b) + |items|;
    assert Without(Flat(blocks[b := blk]), p) == Flat(blocks);
  }

  /** The item appended in some block stands for one more key. */
  lemma PutContents(dict: Dict, was: Chain, now: Chain, p: nat, it: Item)
    requires LeafOk(dict, was) && ItemOk(dict, it) && now != [] && ChainOk(now)
    requires p < |Flat(now)| && Flat(now)[p] == it && Without(Flat(now), p) == Flat(was)
    requires forall i :: 0 <= i < |Flat(was)| ==> Flat(was)[i].key != it.key
    ensures LeafOk(dict, now) && K(dict, it) !in Contents(dict, was)
    ensures Contents(dict, now) == Contents(dict, was)[K(dict, it) := it.e]
  {
    hide Flat, MapOf, K, ItemOk;
    var items, r := Flat(now), Flat(was);
    forall j | 0 <= j < |items| && j != p ensures items[j].key != it.key {
      assert items[j] == if j < p then r[j] else r[j - 1];
    }
    WithOk(dict, items, p);
    MapOfWithout(dict, items, p);
  }

  /** The part of add_item that touches the chain: updates the entry in place, or appends
      to the first block with room, grows the last block, or chains a new one. */
  method LeafAdd(ghost dict: Dict, blocks: Chain, it: Item, blockSize: int) returns (r: Chain, was: Option<Entry>)
    requires LeafOk(dict, blocks) && ItemOk(dict, it)
    ensures LeafOk(dict, r)
    ensures Contents(dict, r) == Contents(dict, blocks)[K(dict, it) := it.e]
    ensures was == if K(dict, it) in Contents(dict, blocks) then Some(Contents(dict, blocks)[K(dict, it)]) else None
  {
    hide Flat, MapOf, K, ItemOk;
    var found, b, j := FindItem(blocks, it.key);
    if found {
      var items := blocks[b].items;
      ghost var p := Offset(blocks, b) + j;
      SetEntryFlat(blocks, b, j, it.e);
      KeysDiffer(dict, items[j], it);
      MapOfAt(dict, Flat(blocks), p);
      MapOfUpdate(dict, Flat(blocks), p, it.e);
      return blocks[b := blocks[b].(items := items[j := items[j].(e := it.e)])], Some(items[j].e);
    }
    var len := ItemLength(it);
    b := 0;
    while b < |blocks| && blocks[b].size < blocks[b].used + len
      invariant 0 <= b <= |blocks|
      invariant forall c :: 0 <= c < b ==> blocks[c].size < blocks[c].used + len
    {
      b := b + 1;
    }
    var last := blocks[|blocks| - 1];
    if b < |blocks| {
      AppendFlat(blocks, b, blocks[b].size, it);
      r := blocks[b := Block(blocks[b].size, blocks[b].used + len, blocks[b].items + [it])];
      PutContents(dict, blocks, r, Offset(blocks, b) + |blocks[b].items|, it);
    } else if last.used + len > blockSize {
      var empty := Block(DATA_HEAD_SIZE + len, DATA_HEAD_SIZE, []);
      ChainEmpty(blocks, empty);
      var longer := blocks + [empty];
      AppendFlat(longer, |blocks|, empty.size, it);
      r := longer[|blocks| := Block(empty.size, DATA_HEAD_SIZE + len, [] + [it])];
      PutContents(dict, longer, r, Offset(longer, |blocks|), it);
    } else {
      var size := if last.used + len > last.size then last.used + len else last.size;
      size := if size < blockSize then size else blockSize;
      AppendFlat(blocks, |blocks| - 1, size, it);
      r := blocks[|blocks| - 1 := Block(size, last.used + len, last.items + [it])];
      PutContents(dict, blocks, r, Offset(blocks, |blocks| - 1) + |last.items|, it);
    }
    was := None;
  }

  lemma ChainEmpty(blocks: Chain, empty: Block)
    requires ChainOk(blocks) && empty.items == [] && empty.used == DATA_HEAD_SIZE <= empty.size
    ensures ChainOk(blocks + [empty]) && Flat(blocks + [empty]) == Flat(blocks)
  {
    FlatConcat(blocks, [empty]);
    assert Flat([empty]) == [];
  }

  lemma RemoveFlat(blocks: Chain, b: nat, j: nat)
    requires b < |blocks| && j < |blocks[b].items| && ChainOk(blocks)
    ensures var items := blocks[b].items;
            var blk := Block(blocks[b].size, blocks[b].used - ItemLength(items[j]), Without(items, j));
            var p := Offset(blocks, b) + j;
            && p < |Flat(blocks)| && Flat(blocks)[p] == items[j]
            && Flat(blocks[b := blk]) == Without(Flat(blocks), p)
            && ChainOk(blocks[b := blk])
  {
    hide Flat, TotalLength, Without;
    var items := blocks[b].items;
    var blk := Block(blocks[b].size, blocks[b].used - ItemLength(items[j]), Without(items, j));
    FlatAt(blocks, b, j);
    FlatSplit(blocks, b);
    FlatReplace(blocks, b, blk);
    SeqWithout(Flat(blocks[..b]), items, Flat(blocks[b + 1..]), j);
    TotalLengthWithout(items, j);
  }

  lemma UnlinkEmpty(blocks: Chain, b: nat)
    requires b < |blocks| && blocks[b].items == [] && ChainOk(blocks)
    ensures ChainOk(blocks[..b] + blocks[b + 1..]) && Flat(blocks[..b] + blocks[b + 1..]) == Flat(blocks)
  {
    hide Flat;
    FlatSplit(blocks, b);
    FlatConcat(blocks[..b], blocks[b + 1..]);
    assert Flat(blocks[..b]) + [] == Flat(blocks[..b]);
  }

  /** The part of remove_item that touches the chain; an emptied block that is neither
      first nor last is unlinked. */
  method LeafRemove(ghost dict: Dict, blocks: Chain, ghost k: Key, key: seq<byte>)
    returns (r: Chain, was: Option<Entry>)
    requires LeafOk(dict, blocks) && ItemOk(dict, Item(key, Entry(0, 0, 0))) && k == Decode(dict, key)
    ensures LeafOk(dict, r)
    ensures Contents(dict, r) == Contents(dict, blocks) - {k}
    ensures was == if k in Contents(dict, blocks) then Some(Contents(dict, blocks)[k]) else None
  {
    hide Flat, MapOf, ItemOk, Decode;
    var found, b, j := FindItem(blocks, key);
    ghost var probe := Item(key, Entry(0, 0, 0));
    if !found {
      if k in Contents(dict, blocks) {
        var i := MapOfHas(dict, Flat(blocks), k);
        KeysDiffer(dict, Flat(blocks)[i], probe);
        assert false;
      }
      assert Contents(dict, blocks) - {k} == Contents(dict, blocks);
      return blocks, None;
    }
    var items := blocks[b].items;
    ghost var p := Offset(blocks, b) + j;
    RemoveFlat(blocks, b, j);
    KeysDiffer(dict, items[j], probe);
    MapOfAt(dict, Flat(blocks), p);
    MapOfWithout(dict, Flat(blocks), p);
    r := blocks[b := Block(blocks[b].size, blocks[b].used - ItemLength(items[j]), Without(items, j))];
    if |r[b].items| == 0 && b != 0 && b + 1 < |r| {
      UnlinkEmpty(r, b);
      r := r[..b] + r[b + 1..];
    }
    was := Some(items[j].e);
  }

  /** The entry stored under this key. */
  method LeafGet(ghost dict: Dict, blocks: Chain, ghost k: Key, key: seq<byte>) returns (r: Option<Entry>)
    requires LeafOk(dict, blocks) && ItemOk(dict, Item(key, Entry(0, 0, 0))) && k == Decode(dict, key)
    ensures r == if k in Contents(dict, blocks) then Some(Contents(dict, blocks)[k]) else None
  {
    hide Flat, MapOf, ItemOk, Decode;
    var found, b, j := FindItem(blocks, key);
    ghost var probe := Item(key, Entry(0, 0, 0));
    if found {
      FlatAt(blocks, b, j);
      KeysDiffer(dict, blocks[b].items[j], probe);
      MapOfAt(dict, Flat(blocks), Offset(blocks, b) + j);
      return Some(blocks[b].items[j].e);
    }
    if k in Contents(dict, blocks) {
      var i := MapOfHas(dict, Flat(blocks), k);
      KeysDiffer(dict, Flat(blocks)[i], probe);
      assert false;
    }
    r := None;
  }
}
