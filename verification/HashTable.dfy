/** The chained hash table of drm_hashtab.c, against the finite map it stands for. */
module HashTable {
  import opened Arithmetic
  import opened Lists

  class Item {
    var key: nat

    constructor (key: nat)
      ensures this.key == key
    {
      this.key := key;
    }
  }

  /** An item with the key it is linked under. */
  datatype Cell = Cell(key: nat, item: Item)

  type Chain = seq<Cell>

  // ---------------------------------------------------------------- chains and the map

  ghost predicate Ascending(chain: Chain) {
    forall i, j :: 0 <= i < j < |chain| ==> chain[i].key < chain[j].key
  }

  /** Keys below come first; keys from `at` on are not smaller. */
  ghost predicate SplitsAt(chain: Chain, key: nat, at: nat) {
    && at <= |chain|
    && (forall i :: 0 <= i < at ==> chain[i].key < key)
    && (forall i :: at <= i < |chain| ==> chain[i].key >= key)
  }

  /** A hash function stays below its number of buckets. */
  ghost predicate Hashes(hash: (nat, nat) -> nat, bits: nat) {
    forall key :: hash(key, bits) < Pow2(bits)
  }

  datatype Shape = Shape(hash: (nat, nat) -> nat, order: nat) {
    function Bucket(key: nat): nat {
      hash(key, order)
    }
  }

  /** Bucket b: ascending, each item in its own bucket and known to the map. */
  ghost predicate ChainFits(s: Shape, chain: Chain, b: nat, contents: map<nat, Item>) {
    && Ascending(chain)
    && forall i :: 0 <= i < |chain| ==>
         s.Bucket(chain[i].key) == b && chain[i].key in contents && contents[chain[i].key] == chain[i].item
  }

  ghost predicate Filed(chain: Chain, key: nat, item: Item) {
    exists i :: 0 <= i < |chain| && chain[i] == Cell(key, item)
  }

  /** The chains hold exactly the map. */
  ghost predicate Represents(s: Shape, chains: seq<Chain>, contents: map<nat, Item>) {
    && Hashes(s.hash, s.order) && |chains| == Pow2(s.order)
    && (forall b :: 0 <= b < |chains| ==> ChainFits(s, chains[b], b, contents))
    && (forall k :: k in contents ==> s.Bucket(k) < |chains| && Filed(chains[s.Bucket(k)], k, contents[k]))
  }

  lemma BucketOf(s: Shape, chains: seq<Chain>, contents: map<nat, Item>, key: nat)
    requires Represents(s, chains, contents)
    ensures s.Bucket(key) < |chains| && ChainFits(s, chains[s.Bucket(key)], s.Bucket(key), contents)
    ensures key in contents ==> Filed(chains[s.Bucket(key)], key, contents[key])
  {
  }

  /** The search stops at the first key that is not smaller: there the key is, if anywhere. */
  lemma EarlyExitIsExact(s: Shape, chains: seq<Chain>, contents: map<nat, Item>, key: nat, at: nat)
    requires Represents(s, chains, contents)
    requires s.Bucket(key) < |chains| && SplitsAt(chains[s.Bucket(key)], key, at)
    ensures var chain := chains[s.Bucket(key)];
            if at < |chain| && chain[at].key == key then key in contents && contents[key] == chain[at].item
            else key !in contents
  {
    hide Represents, Hashes;
    BucketOf(s, chains, contents, key);
    var chain := chains[s.Bucket(key)];
    if key in contents {
      var i :| 0 <= i < |chain| && chain[i] == Cell(key, contents[key]);
      assert at <= i;
    }
  }

  function Spliced(chain: Chain, at: nat, c: Cell): Chain
    requires at <= |chain|
  {
    chain[..at] + [c] + chain[at..]
  }

  function Cut(chain: Chain, at: nat): Chain
    requires at < |chain|
  {
    chain[..at] + chain[at + 1..]
  }

  lemma SplicedFits(s: Shape, chain: Chain, b: nat, contents: map<nat, Item>, at: nat, c: Cell)
    requires ChainFits(s, chain, b, contents) && SplitsAt(chain, c.key, at)
    requires c.key !in contents && s.Bucket(c.key) == b
    ensures ChainFits(s, Spliced(chain, at, c), b, contents[c.key := c.item])
  {
    var r := Spliced(chain, at, c);
    forall i | 0 <= i < |r|
      ensures r[i] == if i < at then chain[i] else if i == at then c else chain[i - 1]
    {
    }
    forall i | 0 <= i < |chain|
      ensures chain[i].key != c.key
    {
    }
  }

  lemma SplicedFiles(chain: Chain, at: nat, c: Cell, key: nat, item: Item)
    requires at <= |chain|
    ensures Filed(Spliced(chain, at, c), c.key, c.item)
    ensures Filed(chain, key, item) ==> Filed(Spliced(chain, at, c), key, item)
  {
    var r := Spliced(chain, at, c);
    assert r[at] == c;
    if Filed(chain, key, item) {
      var i :| 0 <= i < |chain| && chain[i] == Cell(key, item);
      assert r[if i < at then i else i + 1] == chain[i];
    }
  }

  lemma OtherChainFits(s: Shape, chain: Chain, b: nat, contents: map<nat, Item>, c: Cell)
    requires ChainFits(s, chain, b, contents) && s.Bucket(c.key) != b
    ensures ChainFits(s, chain, b, contents[c.key := c.item])
    ensures ChainFits(s, chain, b, contents - {c.key})
  {
  }

  lemma InsertRepresents(s: Shape, chains: seq<Chain>, contents: map<nat, Item>, at: nat, c: Cell)
    requires Represents(s, chains, contents) && c.key !in contents
    requires s.Bucket(c.key) < |chains| && SplitsAt(chains[s.Bucket(c.key)], c.key, at)
    ensures Represents(s, chains[s.Bucket(c.key) := Spliced(chains[s.Bucket(c.key)], at, c)], contents[c.key := c.item])
  {
    hide ChainFits, Filed, Spliced, SplitsAt;
    var b := s.Bucket(c.key);
    SizeOfSplit(chains[b], c.key, at);
    var chains', contents' := chains[b := Spliced(chains[b], at, c)], contents[c.key := c.item];
    forall d | 0 <= d < |chains'|
      ensures ChainFits(s, chains'[d], d, contents')
    {
      if d == b {
        SplicedFits(s, chains[b], b, contents, at, c);
      } else {
        OtherChainFits(s, chains[d], d, contents, c);
      }
    }
    forall k | k in contents'
      ensures s.Bucket(k) < |chains'| && Filed(chains'[s.Bucket(k)], k, contents'[k])
    {
      if s.Bucket(k) == b {
        SplicedFiles(chains[b], at, c, k, contents'[k]);
      }
    }
  }

  lemma SizeOfSplit(chain: Chain, key: nat, at: nat)
    requires SplitsAt(chain, key, at)
    ensures at <= |chain|
  {
  }

  lemma CutFits(s: Shape, chain: Chain, b: nat, contents: map<nat, Item>, at: nat)
    requires ChainFits(s, chain, b, contents) && at < |chain|
    ensures ChainFits(s, Cut(chain, at), b, contents - {chain[at].key})
  {
    var r := Cut(chain, at);
    forall i | 0 <= i < |r|
      ensures r[i] == (if i < at then chain[i] else chain[i + 1]) && r[i].key != chain[at].key
    {
    }
  }

  lemma CutFiles(chain: Chain, at: nat, key: nat, item: Item)
    requires at < |chain| && Filed(chain, key, item) && key != chain[at].key
    ensures Filed(Cut(chain, at), key, item)
  {
    var i :| 0 <= i < |chain| && chain[i] == Cell(key, item);
    assert Cut(chain, at)[if i < at then i else i - 1] == chain[i];
  }

  lemma RemoveRepresents(s: Shape, chains: seq<Chain>, contents: map<nat, Item>, b: nat, at: nat)
    requires Represents(s, chains, contents) && b < |chains| && at < |chains[b]|
    ensures Represents(s, chains[b := Cut(chains[b], at)], contents - {chains[b][at].key})
  {
    hide ChainFits, Filed, Cut;
    var c := chains[b][at];
    CellBucket(s, chains[b], b, contents, at);
    var chains', contents' := chains[b := Cut(chains[b], at)], contents - {c.key};
    forall d | 0 <= d < |chains'|
      ensures ChainFits(s, chains'[d], d, contents')
    {
      if d == b {
        CutFits(s, chains[b], b, contents, at);
      } else {
        OtherChainFits(s, chains[d], d, contents, c);
      }
    }
    forall k | k in contents'
      ensures s.Bucket(k) < |chains'| && Filed(chains'[s.Bucket(k)], k, contents'[k])
    {
      if s.Bucket(k) == b {
        CutFiles(chains[b], at, k, contents[k]);
      }
    }
  }

  lemma CellBucket(s: Shape, chain: Chain, b: nat, contents: map<nat, Item>, at: nat)
    requires ChainFits(s, chain, b, contents) && at < |chain|
    ensures s.Bucket(chain[at].key) == b && chain[at].key in contents && contents[chain[at].key] == chain[at].item
  {
  }

  // ---------------------------------------------------------------- the next free key

  /** unsigned long */
  const WORD := 0x1_0000_0000_0000_0000

  /** The i-th key tried from `first` on, among 2^bits. */
  function Candidate(first: nat, i: nat, bits: nat, shift: nat, add: nat): nat {
    (((first + i) % Pow2(bits)) * Pow2(shift) + add) % WORD
  }

  lemma IsCandidate(first: nat, i: nat, bits: nat, shift: nat, add: nat)
    ensures Candidate(first, i, bits, shift, add) == (((first + i) % Pow2(bits)) * Pow2(shift) + add) % WORD
  {
  }

  lemma FirstOnCircle(first: nat, size: nat)
    requires first < size
    ensures (first + 0) % size == first
  {
  }

  ghost predicate AllUsed(keys: set<nat>, first: nat, n: nat, bits: nat, shift: nat, add: nat) {
    forall i :: 0 <= i < n ==> Candidate(first, i, bits, shift, add) in keys
  }

  // ---------------------------------------------------------------- the table

  function CellsOf(items: seq<Item>): (r: Chain)
    reads items
    ensures |r| == |items| && forall i :: 0 <= i < |items| ==> r[i] == Cell(items[i].key, items[i])
  {
    seq(|items|, i requires 0 <= i < |items| reads items => Cell(items[i].key, items[i]))
  }

  class Table {
    const shape: Shape
    const table: array<seq<Item>>
    ghost var contents: map<nat, Item>
    ghost var items: set<Item>

    /** Everything linked is among the items. */
    ghost predicate Known()
      reads this`items, table
    {
      forall b :: 0 <= b < table.Length ==> forall i :: 0 <= i < |table[b]| ==> table[b][i] in items
    }

    ghost function Chains(): (r: seq<Chain>)
      requires Known()
      reads this, table, items
      ensures |r| == table.Length && forall b :: 0 <= b < table.Length ==> r[b] == CellsOf(table[b])
    {
      seq(table.Length, b requires 0 <= b < table.Length && Known() reads this, table, items => CellsOf(table[b]))
    }

    ghost predicate Valid()
      reads this, table, items
    {
      Known() && Represents(shape, Chains(), contents)
    }

    /** drm_ht_create */
    constructor (shape: Shape)
      requires Hashes(shape.hash, shape.order)
      ensures Valid() && contents == map[] && items == {} && fresh(table) && this.shape == shape
    {
      this.shape := shape;
      table := new seq<Item>[Pow2(shape.order)](_ => []);
      contents, items := map[], {};
    }

    /** The search the entry points share: how far the keys stay below `key`. */
    method Seek(b: nat, key: nat) returns (at: nat)
      requires b < table.Length && Ascending(CellsOf(table[b]))
      ensures SplitsAt(CellsOf(table[b]), key, at)
    {
      at := 0;
      ghost var chain := CellsOf(table[b]);
      while at < |table[b]| && table[b][at].key < key
        invariant at <= |table[b]| && forall i :: 0 <= i < at ==> chain[i].key < key
      {
        at := at + 1;
      }
    }

    /** drm_ht_find_key, drm_ht_find_item */
    method Find(key: nat) returns (item: Option<Item>)
      requires Valid()
      ensures item == if key in contents then Some(contents[key]) else None
    {
      hide Represents, SplitsAt;
      var b := shape.Bucket(key);
      BucketOf(shape, Chains(), contents, key);
      var at := Seek(b, key);
      EarlyExitIsExact(shape, Chains(), contents, key, at);
      if at < |table[b]| && table[b][at].key == key {
        return Some(table[b][at]);
      }
      return None;
    }

    /** hlist_add_after, or hlist_add_head when `at` is 0. */
    method Link(b: nat, at: nat, item: Item)
      requires Known() && b < table.Length && at <= |table[b]|
      modifies this`items, table
      ensures Known() && items == old(items) + {item}
      ensures Chains() == old(Chains())[b := Spliced(old(Chains()[b]), at, Cell(item.key, item))]
    {
      items := items + {item};
      table[b] := table[b][..at] + [item] + table[b][at..];
      assert CellsOf(table[b]) == Spliced(old(CellsOf(table[b])), at, Cell(item.key, item));
      assert forall d :: 0 <= d < table.Length && d != b ==> CellsOf(table[d]) == old(CellsOf(table[d]));
    }

    /** An item is linked at one place only. */
    ghost predicate OnlyHere(b: nat, at: nat)
      requires b < table.Length && at < |table[b]|
      reads table
    {
      forall d, i :: 0 <= d < table.Length && 0 <= i < |table[d]| && table[d][i] == table[b][at] ==> d == b && i == at
    }

    lemma LinkedOnce(b: nat, at: nat)
      requires Valid() && b < table.Length && at < |table[b]|
      ensures OnlyHere(b, at)
    {
      hide Represents;
      forall d, i | 0 <= d < table.Length && 0 <= i < |table[d]| && table[d][i] == table[b][at]
        ensures d == b && i == at
      {
        SameCell(shape, Chains(), contents, d, i, b, at);
      }
    }

    /** hlist_del_init */
    method Unlink(b: nat, at: nat)
      requires Known() && b < table.Length && at < |table[b]| && OnlyHere(b, at)
      modifies this`items, table
      ensures items == old(items) - {old(table[b][at])}
      ensures Known() && Chains() == old(Chains())[b := Cut(old(Chains()[b]), at)]
    {
      items := items - {table[b][at]};
      table[b] := table[b][..at] + table[b][at + 1..];
      assert forall d :: 0 <= d < table.Length && d != b ==> table[d] == old(table[d]);
      assert CellsOf(table[b]) == Cut(old(CellsOf(table[b])), at);
      assert forall d :: 0 <= d < table.Length && d != b ==> CellsOf(table[d]) == old(CellsOf(table[d]));
    }

    /** drm_ht_insert_item: refused exactly when the key is there. */
    method Insert(item: Item) returns (ok: bool)
      requires Valid()
      modifies this, table
      ensures Valid() && items == if ok then old(items) + {item} else old(items)
      ensures ok <==> item.key !in old(contents)
      ensures contents == if ok then old(contents)[item.key := item] else old(contents)
    {
      hide Represents, SplitsAt, Spliced;
      var b := shape.Bucket(item.key);
      BucketOf(shape, Chains(), contents, item.key);
      var at := Seek(b, item.key);
      EarlyExitIsExact(shape, Chains(), contents, item.key, at);
      if at < |table[b]| && table[b][at].key == item.key {
        return false;
      }
      SizeOfSplit(Chains()[b], item.key, at);
      InsertRepresents(shape, Chains(), contents, at, Cell(item.key, item));
      Link(b, at, item);
      ghost var chains := Chains();
      contents := contents[item.key := item];
      assert Chains() == chains;
      return true;
    }

    /** An item that is not linked may change its key. */
    method SetKey(item: Item, key: nat)
      requires Valid() && item !in items
      modifies item
      ensures Valid() && item.key == key
    {
      hide Represents;
      ghost var chains := Chains();
      item.key := key;
      assert forall d :: 0 <= d < table.Length ==> CellsOf(table[d]) == old(CellsOf(table[d]));
      assert Chains() == chains;
    }

    /** drm_ht_just_insert_please: the first candidate in cyclic order from the seed's hash that is not
        in use; refused exactly when all of them are. */
    method JustInsert(item: Item, seed: nat, bits: nat, shift: nat, add: nat) returns (ok: bool, ghost tried: nat)
      requires Valid() && item !in items && Hashes(shape.hash, bits)
      modifies this, table, item
      ensures Valid() && tried <= Pow2(bits)
      ensures var first := shape.hash(seed, bits); AllUsed(old(contents.Keys), first, tried, bits, shift, add)
      ensures ok <==> tried < Pow2(bits)
      ensures ok ==>
                item.key == Candidate(shape.hash(seed, bits), tried, bits, shift, add) && item.key !in old(contents)
      ensures contents == if ok then old(contents)[item.key := item] else old(contents)
    {
      hide Valid, Candidate, Pow2;
      var first := shape.hash(seed, bits);
      var unshifted := first;
      FirstOnCircle(first, Pow2(bits));
      tried := 0;
      ok := false;
      var again := true;
      while again
        invariant Valid() && item !in items && contents == old(contents)
        invariant tried <= Pow2(bits) && unshifted == (first + tried) % Pow2(bits)
        invariant AllUsed(contents.Keys, first, tried, bits, shift, add)
        invariant again <==> tried < Pow2(bits)
        invariant !ok
        decreases Pow2(bits) - tried
      {
        SetKey(item, (unshifted * Pow2(shift) + add) % WORD);
        IsCandidate(first, tried, bits, shift, add);
        ok := Insert(item);
        if ok {
          return;
        }
        NextOnCircle(first, tried, Pow2(bits));
        unshifted := (unshifted + 1) % Pow2(bits);
        tried := tried + 1;
        again := unshifted != first;
      }
    }

    /** drm_ht_remove_key */
    method RemoveKey(key: nat) returns (ok: bool)
      requires Valid()
      modifies this`contents, this`items, table
      ensures Valid()
      ensures ok <==> key in old(contents)
      ensures contents == old(contents) - {key}
      ensures items == if ok then old(items) - {old(contents)[key]} else old(items)
    {
      hide Represents, SplitsAt, Cut;
      var b := shape.Bucket(key);
      BucketOf(shape, Chains(), contents, key);
      var at := Seek(b, key);
      EarlyExitIsExact(shape, Chains(), contents, key, at);
      if at < |table[b]| && table[b][at].key == key {
        RemoveRepresents(shape, Chains(), contents, b, at);
        LinkedOnce(b, at);
        Unlink(b, at);
        ghost var chains := Chains();
        contents := contents - {key};
        assert Chains() == chains;
        return true;
      }
      assert contents == contents - {key};
      return false;
    }

    /** drm_ht_remove_item, for an item that is in the table; its place is known from its links. */
    method RemoveItem(item: Item, b: nat, at: nat)
      requires Valid() && b < table.Length && at < |table[b]| && table[b][at] == item
      modifies this`contents, this`items, table
      ensures items == old(items) - {item}
      ensures Valid() && item.key in old(contents) && old(contents)[item.key] == item
      ensures contents == old(contents) - {item.key}
    {
      hide Represents, Cut, ChainFits;
      ItemIsKnown(shape, Chains(), contents, b, at);
      RemoveRepresents(shape, Chains(), contents, b, at);
      LinkedOnce(b, at);
      Unlink(b, at);
      ghost var chains := Chains();
      contents := contents - {item.key};
      assert Chains() == chains;
    }
  }

  /** Cells with the same key are the same cell. */
  lemma SameCell(s: Shape, chains: seq<Chain>, contents: map<nat, Item>, d: nat, i: nat, b: nat, at: nat)
    requires Represents(s, chains, contents) && d < |chains| && i < |chains[d]| && b < |chains| && at < |chains[b]|
    requires chains[d][i].key == chains[b][at].key
    ensures d == b && i == at
  {
    assert ChainFits(s, chains[d], d, contents) && ChainFits(s, chains[b], b, contents);
  }

  lemma ItemIsKnown(s: Shape, chains: seq<Chain>, contents: map<nat, Item>, b: nat, at: nat)
    requires Represents(s, chains, contents) && b < |chains| && at < |chains[b]|
    ensures chains[b][at].key in contents && contents[chains[b][at].key] == chains[b][at].item
  {
    assert ChainFits(s, chains[b], b, contents);
  }

  // ---------------------------------------------------------------- hash_long

  /** hash_64 and hash_32 of linux/hash.h, of a 32-bit hash `h` of the key: the top bits of a 64-bit
      and of a 32-bit word. */
  function Hash64(h: nat, bits: nat): nat
    requires bits <= 64
  {
    Quotient(h, Pow2(64 - bits))
  }

  function Hash32(h: nat, bits: nat): nat
    requires bits <= 32
  {
    Quotient(h, Pow2(32 - bits))
  }

  lemma Hash32Fits(h: nat, bits: nat)
    requires h < Pow2(32) && bits <= 32
    ensures Hash32(h, bits) < Pow2(bits)
  {
    hide Pow2;
    Pow2Adds(32 - bits, bits);
    QuotientBelow(h, Pow2(32 - bits), Pow2(bits));
  }

  lemma QuotientBelow(x: nat, a: nat, b: nat)
    requires a > 0 && x < a * b
    ensures x / a < b
  {
    var q := x / a;
    if b < q {
      TimesGrows(a, b, q);
    }
  }

  /** On 64-bit machines the 32-bit hash has no top bits: every key of a table of at most 2^32 buckets
      hashes to bucket 0, and a search for a free key starts at candidate 0. */
  lemma Hash64IsZero(h: nat, bits: nat)
    requires h < Pow2(32) && bits <= 64
    ensures bits <= 32 ==> Hash64(h, bits) == 0
    ensures bits > 32 ==> (Hash64(h, bits) == 0 <==> h < Pow2(64 - bits))
  {
    hide Pow2;
    if bits <= 32 {
      Pow2Grows(32, 64 - bits);
      RemainderIs(h, Pow2(64 - bits), 0, h);
    } else if h < Pow2(64 - bits) {
      RemainderIs(h, Pow2(64 - bits), 0, h);
    }
  }
}
