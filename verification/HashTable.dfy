/** The chained hash table, whose insert and rebuild call each other; it refines a finite map. */
module HashTableModule {
  import opened Machine

  type Bytes = seq<byte>

  const PRIMES: seq<int> := [0, 2, 5, 11, 37, 67, 131, 257, 521, 1031, 2053, 4099, 8209,
    16411, 32771, 65537, 131101, 262147, 524309, 1048583, 2097169, 4194319, 8388617,
    16777259, 33554467, 67108879, 134217757, 268435459, 536870923, 1073741827, 2147483659, 0]

  const LAST := 30

  /** Bucket counts for table sizes 1 to 30. */
  function Buckets(index: nat): (n: nat)
    requires 1 <= index <= LAST
    ensures n >= 2
  {
    PRIMES[index]
  }

  /** Number of elements at which a table grows. */
  function Limit(index: nat): (n: nat)
    requires 1 <= index <= LAST
    ensures n >= 1 && 2 * n <= Buckets(index) <= 2 * n + 1
  {
    Buckets(index) / 2
  }

  lemma {:induction false} LimitsGrow(index: nat)
    requires 1 <= index <= LAST
    ensures Limit(index) <= Limit(LAST) && (index < LAST ==> Limit(index) < Limit(index + 1))
    decreases LAST - index
  {
    if index < LAST {
      LimitsGrow(index + 1);
    }
  }

  // ---- hashing ----

  const BASE: nat := 1073741827

  function BaseToThe(k: nat): nat {
    if k == 0 then 1 else BASE * BaseToThe(k - 1)
  }

  /** The key read as a number in base 1073741827, its first byte the most significant digit. */
  function Number(key: Bytes): nat {
    if key == [] then 0 else key[0] * BaseToThe(|key| - 1) + Number(key[1..])
  }

  lemma {:induction false} NumberLast(key: Bytes)
    requires key != []
    ensures Number(key) == Number(key[..|key| - 1]) * BASE + key[|key| - 1]
  {
    var init := key[..|key| - 1];
    if |key| == 1 {
      assert BaseToThe(0) == 1;
    } else {
      NumberLast(key[1..]);
      assert key[1..][..|key| - 2] == init[1..];
      OneDigitUp(key[0], BaseToThe(|key| - 2), Number(init[1..]));
    }
  }

  lemma OneDigitUp(digit: nat, p: nat, rest: nat)
    ensures (digit * p + rest) * BASE == digit * (BASE * p) + rest * BASE
  {
  }

  /** The hash is the key's number modulo 2^32. */
  lemma {:induction false} HashIsRemainder(key: Bytes)
    ensures Hash(key) == Number(key) % TWO_32
  {
    if key != [] {
      var init := key[..|key| - 1];
      HashIsRemainder(init);
      NumberLast(key);
      RemainderTimes(Number(init), key[|key| - 1]);
    }
  }

  lemma RemainderTimes(x: nat, c: nat)
    ensures (x % TWO_32 * BASE + c) % TWO_32 == (x * BASE + c) % TWO_32
  {
    var y, q := x % TWO_32 * BASE + c, x / TWO_32 * BASE;
    assert x * BASE + c == q * TWO_32 + y;
    assert x * BASE + c == (q + y / TWO_32) * TWO_32 + y % TWO_32;
    RemainderUnique(x * BASE + c, TWO_32, q + y / TWO_32, y % TWO_32);
  }

  function Hash(key: Bytes): (h: uint32) {
    if key == [] then 0 else (Hash(key[..|key| - 1]) * BASE + key[|key| - 1]) % TWO_32
  }

  function Place(key: Bytes, n: nat): (h: nat)
    requires n > 0
    ensures h < n
  {
    Hash(key) % n
  }

  /** get_hash. */
  method GetHash(key: Bytes, n: nat) returns (h: nat)
    requires n > 0
    ensures h == Place(key, n)
  {
    var hash: uint32 := 0;
    for i := 0 to |key|
      invariant hash == Hash(key[..i])
    {
      assert key[..i + 1][..i] == key[..i];
      hash := (hash * BASE + key[i]) % TWO_32;
    }
    assert key[..|key|] == key;
    return hash % n;
  }

  // ---- chains and the map they hold ----

  type Chains = seq<seq<Bytes>>

  ghost predicate Entry(keys: Chains, vals: Chains, m: map<Bytes, Bytes>, b: nat, j: nat)
    requires |keys| == |vals| && b < |keys| && j < |keys[b]| == |vals[b]|
  {
    keys[b][j] in m && m[keys[b][j]] == vals[b][j] && Place(keys[b][j], |keys|) == b
  }

  ghost predicate NoRepeats(chain: seq<Bytes>) {
    forall i, j :: 0 <= i < j < |chain| ==> chain[i] != chain[j]
  }

  /** Key and value chains are aligned and hold exactly the map, each key once, in its own bucket. */
  ghost predicate Holds(keys: Chains, vals: Chains, m: map<Bytes, Bytes>) {
    && 0 < |keys| == |vals|
    && (forall b: nat :: b < |keys| ==> |keys[b]| == |vals[b]| && NoRepeats(keys[b]))
    && (forall b: nat, j: nat :: b < |keys| && j < |keys[b]| ==> Entry(keys, vals, m, b, j))
    && (forall k :: k in m ==> k in keys[Place(k, |keys|)])
  }

  lemma EmptyHolds(n: nat)
    requires n > 0
    ensures Holds(seq(n, _ => []), seq(n, _ => []), map[])
  {
  }

  lemma AddHolds(keys: Chains, vals: Chains, m: map<Bytes, Bytes>, k: Bytes, v: Bytes)
    requires Holds(keys, vals, m) && k !in m
    ensures var h := Place(k, |keys|); Holds(keys[h := [k] + keys[h]], vals[h := [v] + vals[h]], m[k := v])
  {
    hide Place;
    var h := Place(k, |keys|);
    var keys', vals', m' := keys[h := [k] + keys[h]], vals[h := [v] + vals[h]], m[k := v];
    forall b: nat, j: nat | b < |keys'| && j < |keys'[b]| ensures Entry(keys', vals', m', b, j) {
      if b != h {
        assert Entry(keys, vals, m, b, j);
      } else if j > 0 {
        assert Entry(keys, vals, m, b, j - 1);
      }
    }
    forall i, j | 0 <= i < j < |keys'[h]| ensures keys'[h][i] != keys'[h][j] {
      assert Entry(keys, vals, m, h, j - 1);
    }
    forall x | x in m' ensures x in keys'[Place(x, |keys'|)] {
    }
  }

  function Cut(chain: seq<Bytes>, j: nat): seq<Bytes>
    requires j < |chain|
  {
    chain[..j] + chain[j + 1..]
  }

  lemma CutHolds(keys: Chains, vals: Chains, m: map<Bytes, Bytes>, h: nat, j: nat)
    requires Holds(keys, vals, m) && h < |keys| && j < |keys[h]|
    ensures keys[h][j] in m && |vals[h]| == |keys[h]|
    ensures Holds(keys[h := Cut(keys[h], j)], vals[h := Cut(vals[h], j)], m - {keys[h][j]})
  {
    hide Place;
    var keys', vals', m' := keys[h := Cut(keys[h], j)], vals[h := Cut(vals[h], j)], m - {keys[h][j]};
    assert Entry(keys, vals, m, h, j);
    forall b: nat, i: nat | b < |keys'| && i < |keys'[b]| ensures Entry(keys', vals', m', b, i) {
      assert Entry(keys, vals, m, b, if b == h && i >= j then i + 1 else i);
    }
    forall x | x in m' ensures x in keys'[Place(x, |keys'|)] {
      var i: nat :| i < |keys[Place(x, |keys|)]| && keys[Place(x, |keys|)][i] == x;
      assert Place(x, |keys|) == h ==> Cut(keys[h], j)[if i < j then i else i - 1] == x;
    }
  }

  /** A key that is not in its chain is not in the map; one that is has the value at the same place. */
  lemma Looked(keys: Chains, vals: Chains, m: map<Bytes, Bytes>, k: Bytes, j: nat)
    requires Holds(keys, vals, m) && j <= |keys[Place(k, |keys|)]|
    requires forall i :: 0 <= i < j ==> keys[Place(k, |keys|)][i] != k
    requires j < |keys[Place(k, |keys|)]| ==> keys[Place(k, |keys|)][j] == k
    ensures |vals[Place(k, |keys|)]| == |keys[Place(k, |keys|)]|
    ensures if j < |keys[Place(k, |keys|)]| then k in m && m[k] == vals[Place(k, |keys|)][j] else k !in m
  {
    hide Place;
    if j < |keys[Place(k, |keys|)]| {
      assert Entry(keys, vals, m, Place(k, |keys|), j);
    }
  }

  // ---- moving elements to new buckets ----

  /** Bucket by bucket, the elements before place j of bucket i have been moved. */
  ghost predicate Moved(keys: Chains, m: map<Bytes, Bytes>, m': map<Bytes, Bytes>, i: nat, j: nat)
    requires 0 < |keys|
  {
    && (forall k :: k in m' ==> k in m && m'[k] == m[k])
    && (forall k :: k in m ==> (k in m' <==>
      Place(k, |keys|) < i || (Place(k, |keys|) == i < |keys| && j <= |keys[i]| && k in keys[i][..j])))
  }

  lemma NothingMoved(keys: Chains, m: map<Bytes, Bytes>)
    requires 0 < |keys|
    ensures Moved(keys, m, map[], 0, 0)
  {
  }

  lemma ElementMoved(keys: Chains, vals: Chains, m: map<Bytes, Bytes>, m': map<Bytes, Bytes>, i: nat, j: nat)
    requires Holds(keys, vals, m) && Moved(keys, m, m', i, j) && i < |keys| && j < |keys[i]|
    ensures |vals| == |keys| && |vals[i]| == |keys[i]| && keys[i][j] !in m' && |m'| < |m|
    ensures Moved(keys, m, m'[keys[i][j] := vals[i][j]], i, j + 1)
  {
    hide Place;
    var k := keys[i][j];
    assert Entry(keys, vals, m, i, j);
    assert k !in keys[i][..j];
    assert keys[i][..j + 1] == keys[i][..j] + [k];
    assert m'.Keys <= m.Keys - {k};
    SubsetSize(m'.Keys, m.Keys - {k});
  }

  lemma BucketMoved(keys: Chains, vals: Chains, m: map<Bytes, Bytes>, m': map<Bytes, Bytes>, i: nat)
    requires Holds(keys, vals, m) && i < |keys| && Moved(keys, m, m', i, |keys[i]|)
    ensures Moved(keys, m, m', i + 1, 0)
  {
    hide Place;
    assert keys[i][..|keys[i]|] == keys[i];
  }

  lemma AllMoved(keys: Chains, m: map<Bytes, Bytes>, m': map<Bytes, Bytes>)
    requires 0 < |keys| && Moved(keys, m, m', |keys|, 0)
    ensures m' == m
  {
    forall k | k in m ensures k in m' {
      assert Place(k, |keys|) < |keys|;
    }
  }

  lemma SubsetSize(a: set<Bytes>, b: set<Bytes>)
    requires a <= b
    ensures |a| <= |b|
  {
    if a != {} {
      var x :| x in a;
      SubsetSize(a - {x}, b - {x});
    }
  }

  lemma MapSizes(m: map<Bytes, Bytes>, k: Bytes, v: Bytes)
    ensures k !in m ==> |m[k := v]| == |m| + 1
    ensures |m - {k}| == if k in m then |m| - 1 else |m|
  {
    assert m[k := v].Keys == m.Keys + {k};
    assert (m - {k}).Keys == m.Keys - {k};
  }

  // ---- the table ----

  /** The table size that n elements settle at from a given size on: the first that has room for them. */
  ghost predicate SettledAt(n: nat, from: nat, index: nat) {
    1 <= from <= index <= LAST && n < Limit(index) && (index == from || n >= Limit(index - 1))
  }

  /** The size is determined: the first, from the given one on, that has room. */
  lemma SettledFirst(n: nat, from: nat, index: nat, i: nat)
    requires SettledAt(n, from, index) && from <= i <= LAST
    ensures n < Limit(i) <==> index <= i
  {
    hide Limit;
    if i < index {
      LimitsAscend(i, index - 1);
    } else {
      LimitsAscend(index, i);
    }
  }

  /** A shrink by two sizes is undone at once exactly when the next smaller size is already too small. */
  lemma ShrinkUndone(n: nat, index: nat, index': nat)
    requires 2 < index <= LAST && n < Limit(index) && SettledAt(n, index - 2, index')
    ensures index' == index <==> n >= Limit(index - 1)
  {
    SettledFirst(n, index - 2, index', index - 1);
    SettledFirst(n, index - 2, index', index);
  }

  lemma {:induction false} LimitsAscend(i: nat, j: nat)
    requires 1 <= i <= j <= LAST
    ensures Limit(i) <= Limit(j)
    decreases j - i
  {
    hide Limit;
    if i < j {
      LimitsGrow(i);
      LimitsAscend(i + 1, j);
    }
  }

  lemma SettledHere(n: nat, index: nat)
    requires 1 <= index <= LAST && n < Limit(index)
    ensures SettledAt(n, index, index)
  {
  }

  lemma SettleOver(n: nat, from: nat, index: nat)
    requires 1 <= from < LAST && n >= Limit(from) && SettledAt(n, from + 1, index)
    ensures SettledAt(n, from, index)
  {
  }

  lemma SettleMore(n: nat, from: nat, index: nat, index': nat)
    requires SettledAt(n, from, index) && SettledAt(n + 1, index, index')
    ensures SettledAt(n + 1, from, index') && from <= index'
  {
  }

  /** Below the largest limit there is a next size. */
  lemma RoomToGrow(n: nat, index: nat)
    requires 1 <= index <= LAST && Limit(index) <= n < Limit(LAST)
    ensures index < LAST
  {
  }

  class HashTable {
    var keys: Chains
    var vals: Chains
    var index: nat
    var count: nat
    ghost var Contents: map<Bytes, Bytes>

    ghost predicate Linked()
      reads this
    {
      && 1 <= index <= LAST && |keys| == |vals| == Buckets(index)
      && Holds(keys, vals, Contents)
      && count == |Contents|
    }

    ghost predicate Valid()
      reads this
    {
      Linked() && count < Limit(index)
    }

    /** hash_table_create. */
    constructor ()
      ensures Valid() && Contents == map[]
    {
      keys, vals := seq(Buckets(1), _ => []), seq(Buckets(1), _ => []);
      index, count, Contents := 1, 0, map[];
      EmptyHolds(Buckets(1));
    }

    /** hash_table_get. */
    method Get(key: Bytes) returns (r: Option<Bytes>)
      requires Valid()
      ensures r == if key in Contents then Some(Contents[key]) else None
    {
      var hash := GetHash(key, Buckets(index));
      var j := 0;
      while j < |keys[hash]|
        invariant j <= |keys[hash]| && forall i :: 0 <= i < j ==> keys[hash][i] != key
      {
        if keys[hash][j] == key {
          Looked(keys, vals, Contents, key, j);
          return Some(vals[hash][j]);
        }
        j := j + 1;
      }
      Looked(keys, vals, Contents, key, j);
      return None;
    }

    /** The two additions at the front of the chains, for a key that is not there. */
    method AddBegin(key: Bytes, value: Bytes)
      requires Valid() && key !in Contents
      modifies this
      ensures Linked() && Contents == old(Contents)[key := value] && index == old(index) && count == old(count) + 1
    {
      hide Holds, Buckets, Limit, Hash;
      var hash := GetHash(key, Buckets(index));
      AddHolds(keys, vals, Contents, key, value);
      MapSizes(Contents, key, value);
      keys := keys[hash := [key] + keys[hash]];
      vals := vals[hash := [value] + vals[hash]];
      Contents := Contents[key := value];
      count := count + 1;
    }

    /** hash_table_insert. */
    method Insert(key: Bytes, value: Bytes)
      requires Valid() && |Contents| + 1 < Limit(LAST)
      modifies this
      ensures Valid() && Contents == old(Contents)[key := value]
      ensures key !in old(Contents) ==> SettledAt(count, old(index), index)
      decreases if key in Contents then 1 else 0, LAST - index, 1
    {
      hide Holds, SettledAt, Buckets, Limit;
      MapSizes(Contents, key, value);
      assert (Contents - {key})[key := value] == Contents[key := value];
      var found := Erase(key);
      ghost var from := index;
      AddBegin(key, value);
      if count >= Limit(index) {
        RoomToGrow(count, index);
        Rebuild(index + 1);
        SettleOver(count, from, index);
      } else {
        SettledHere(count, index);
      }
    }

    /** The two linked_list_erase calls for the element at place j of a bucket. */
    method Unlink(hash: nat, j: nat)
      requires Valid() && hash < |keys| && j < |keys[hash]|
      modifies this
      ensures Valid() && Contents == old(Contents) - {old(keys[hash][j])}
      ensures index == old(index) && count == old(count) - 1
    {
      hide Holds, Buckets, Limit, Place;
      ghost var key := keys[hash][j];
      CutHolds(keys, vals, Contents, hash, j);
      MapSizes(Contents, key, []);
      keys := keys[hash := Cut(keys[hash], j)];
      vals := vals[hash := Cut(vals[hash], j)];
      Contents := Contents - {key};
      count := count - 1;
    }

    /** hash_table_erase: a table that has become small shrinks by two sizes, and may grow again at once. */
    method Erase(key: Bytes) returns (found: bool)
      requires Valid()
      modifies this
      ensures Valid() && Contents == old(Contents) - {key} && found == (key in old(Contents))
      ensures !found ==> index == old(index)
      ensures found ==>
        var shrinks := old(index) > 2 && count <= Buckets(old(index) - 2);
        if shrinks then SettledAt(count, old(index) - 2, index) else index == old(index)
      decreases if key in Contents then 1 else 0, LAST - index, 0
    {
      hide Holds, SettledAt, Buckets, Limit, Hash, Place;
      var hash := GetHash(key, Buckets(index));
      var j := 0;
      while j < |keys[hash]|
        invariant j <= |keys[hash]| && forall i :: 0 <= i < j ==> keys[hash][i] != key
      {
        if keys[hash][j] == key {
          LimitsGrow(index);
          Unlink(hash, j);
          if index > 2 && count <= Buckets(index - 2) {
            Rebuild(index - 2);
          }
          return true;
        }
        j := j + 1;
      }
      Looked(keys, vals, Contents, key, j);
      assert Contents - {key} == Contents;
      return false;
    }

    /** One insertion of hash_table_rebuild. */
    method MoveElement(oldKeys: Chains, oldVals: Chains, i: nat, j: nat, ghost m: map<Bytes, Bytes>,
      ghost newIndex: nat)
      requires Holds(oldKeys, oldVals, m) && |m| < Limit(LAST) && i < |oldKeys| && j < |oldKeys[i]|
      requires Valid() && newIndex <= index && SettledAt(count, newIndex, index)
      requires Moved(oldKeys, m, Contents, i, j)
      modifies this
      ensures Valid() && newIndex <= index && SettledAt(count, newIndex, index)
      ensures Moved(oldKeys, m, Contents, i, j + 1)
      decreases 0, LAST - newIndex, 2
    {
      hide Holds, Moved, SettledAt, Buckets, Limit, Place;
      ElementMoved(oldKeys, oldVals, m, Contents, i, j);
      MapSizes(Contents, oldKeys[i][j], oldVals[i][j]);
      ghost var n, at := count, index;
      Insert(oldKeys[i][j], oldVals[i][j]);
      SettleMore(n, newIndex, at, index);
    }

    /** The inner loop of hash_table_rebuild. */
    method MoveBucket(oldKeys: Chains, oldVals: Chains, i: nat, ghost m: map<Bytes, Bytes>, ghost newIndex: nat)
      requires Holds(oldKeys, oldVals, m) && |m| < Limit(LAST) && i < |oldKeys|
      requires Valid() && newIndex <= index && SettledAt(count, newIndex, index)
      requires Moved(oldKeys, m, Contents, i, 0)
      modifies this
      ensures Valid() && newIndex <= index && SettledAt(count, newIndex, index)
      ensures Moved(oldKeys, m, Contents, i + 1, 0)
      decreases 0, LAST - newIndex, 3
    {
      hide Holds, Moved, SettledAt, Buckets, Limit, Place;
      var j := 0;
      while j < |oldKeys[i]|
        invariant j <= |oldKeys[i]| && newIndex <= index && Valid() && SettledAt(count, newIndex, index)
        invariant Moved(oldKeys, m, Contents, i, j)
      {
        MoveElement(oldKeys, oldVals, i, j, m, newIndex);
        j := j + 1;
      }
      BucketMoved(oldKeys, oldVals, m, Contents, i);
    }

    /** New buckets without elements. */
    method StartOver(newIndex: nat)
      requires 1 <= newIndex <= LAST
      modifies this
      ensures Valid() && Contents == map[] && index == newIndex && count == 0
    {
      hide Holds, Buckets;
      keys, vals := seq(Buckets(newIndex), _ => []), seq(Buckets(newIndex), _ => []);
      index, count, Contents := newIndex, 0, map[];
      EmptyHolds(Buckets(newIndex));
    }

    /** hash_table_rebuild: every element is inserted into new buckets. */
    method Rebuild(newIndex: nat)
      requires Linked() && 1 <= newIndex <= LAST && |Contents| < Limit(LAST)
      modifies this
      ensures Valid() && Contents == old(Contents) && SettledAt(count, newIndex, index)
      decreases 0, LAST - newIndex, 4
    {
      hide Holds, Moved, SettledAt, Buckets, Limit, Place;
      ghost var m := Contents;
      var oldKeys, oldVals := keys, vals;
      StartOver(newIndex);
      NothingMoved(oldKeys, m);
      SettledHere(0, newIndex);
      for i := 0 to |oldKeys|
        invariant newIndex <= index && Valid() && SettledAt(count, newIndex, index)
        invariant Moved(oldKeys, m, Contents, i, 0)
      {
        MoveBucket(oldKeys, oldVals, i, m, newIndex);
      }
      AllMoved(oldKeys, m, Contents);
    }
  }
}
