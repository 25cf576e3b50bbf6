/**
 * The hash table of src/hashtable.h: a fixed array of `size` buckets, each
 * a list of (key, data) items, created on first use; an item lives in the
 * bucket its key hashes to, and a key occurs at most once.  The item
 * counter of src/collection.h is the field `cnt`.
 *
 * The table is used with two kinds of keys: `unsigned long` numbers, which
 * hash to themselves modulo the size, and XmlChar strings, which hash with
 * hashXmlString and compare by content (xmlchar_strcmp).  A string key is
 * its content (the characters before the terminator).  A bucket is the
 * sequence of its items from the first to the last.
 */
module HashTables {

  import opened Wrappers
  import XmlChar

  /** 2^64: `unsigned long` arithmetic is modulo this. */
  const ULongModulus: nat := 0x1_0000_0000_0000_0000

  type ULong = x: int | 0 <= x < ULongModulus

  /** The table sizes the program instantiates (xmlmodelbase.h, kydefs.h). */
  const ElementTableSize: nat := 3079
  const VariableDigramTableSize: nat := 98317

  // ---------------------------------------------------------------------
  // hashXmlString
  // ---------------------------------------------------------------------

  /** One step of hashXmlString: h = 5 * h + c in unsigned long arithmetic. */
  function HashStep(h: ULong, c: int): ULong
  {
    (5 * h + c) % ULongModulus
  }

  /** The hash of a string content: HashStep folded over it from the left. */
  function Hash(s: seq<int>): ULong
    decreases |s|
  {
    if s == [] then 0 else HashStep(Hash(s[..|s| - 1]), s[|s| - 1])
  }

  function Pow5(n: nat): nat
  {
    if n == 0 then 1 else 5 * Pow5(n - 1)
  }

  /** The hash polynomial without wrap-around: the sum of s[i] * 5^(|s|-1-i). */
  function Poly(s: seq<int>): int
    decreases |s|
  {
    if s == [] then 0 else s[0] * Pow5(|s| - 1) + Poly(s[1..])
  }

  lemma {:induction false} PolySnoc(s: seq<int>, c: int)
    ensures Poly(s + [c]) == 5 * Poly(s) + c
    decreases |s|
  {
    if s == [] {
      assert s + [c] == [c];
    } else {
      assert (s + [c])[1..] == s[1..] + [c];
      PolySnoc(s[1..], c);
      calc {
        Poly(s + [c]);
        s[0] * Pow5(|s|) + Poly(s[1..] + [c]);
        s[0] * (5 * Pow5(|s| - 1)) + 5 * Poly(s[1..]) + c;
        { assert s[0] * (5 * Pow5(|s| - 1)) == 5 * (s[0] * Pow5(|s| - 1)); }
        5 * Poly(s) + c;
      }
    }
  }

  lemma ModStep(x: int, c: int)
    ensures (5 * (x % ULongModulus) + c) % ULongModulus == (5 * x + c) % ULongModulus
  {
    var q := x / ULongModulus;
    assert x == q * ULongModulus + x % ULongModulus;
    assert 5 * x + c == (5 * (x % ULongModulus) + c) + (5 * q) * ULongModulus;
  }

  /** The wrap-around may be applied once at the end: Hash is Poly modulo 2^64. */
  lemma {:induction false} HashIsPoly(s: seq<int>)
    ensures Hash(s) == Poly(s) % ULongModulus
    decreases |s|
  {
    if s != [] {
      var p := s[..|s| - 1];
      var c := s[|s| - 1];
      assert s == p + [c];
      HashIsPoly(p);
      PolySnoc(p, c);
      ModStep(Poly(p), c);
    }
  }

  /** hashXmlString(s) for a non-null, terminated `s`. */
  method HashXmlString(s: array<int>) returns (h: ULong)
    requires XmlChar.Terminated(s[..])
    ensures h == Hash(XmlChar.Content(s[..]))
  {
    var n := XmlChar.Length(s[..]);
    h := 0;
    var i := 0;
    while s[i] != 0
      invariant 0 <= i <= n && h == Hash(s[..i])
      decreases n - i
    {
      assert s[..i + 1][..i] == s[..i];
      h := HashStep(h, s[i]);
      i := i + 1;
    }
    assert s[..n] == XmlChar.Content(s[..]);
  }

  // ---------------------------------------------------------------------
  // Keys: HashTableHash and HashTableComparator
  // ---------------------------------------------------------------------

  datatype Key = Num(n: ULong) | Str(s: seq<int>)

  /** HashTableHash: the bucket a key belongs to. */
  function Slot(k: Key, size: nat): (i: nat)
    requires size > 0
    ensures i < size
  {
    match k
    case Num(n) => n % size
    case Str(s) => Hash(s) % size
  }

  /** HashTableComparator::compare: numbers by value, strings by xmlchar_strcmp. */
  function Same(a: Key, b: Key): bool
  {
    match (a, b)
    case (Num(x), Num(y)) => x == y
    case (Str(x), Str(y)) => XmlChar.Compare(x, y) == 0
    case _ => false
  }

  /** Two keys compare equal exactly when they are the same key. */
  lemma SameIsEqual(a: Key, b: Key)
    ensures Same(a, b) <==> a == b
  {
    if a.Str? && b.Str? {
      XmlChar.CompareZeroIff(a.s, b.s);
    }
  }

  // ---------------------------------------------------------------------
  // HashTableBucket
  // ---------------------------------------------------------------------

  /** HashTableItem */
  datatype Item<T> = Item(key: Key, data: T)

  /** The data of the first item with key `k`, or None. */
  function Lookup<T>(b: seq<Item<T>>, k: Key): Option<T>
    decreases |b|
  {
    if b == [] then None
    else if b[0].key == k then Some(b[0].data)
    else Lookup(b[1..], k)
  }

  /** `b` without its first item with key `k`. */
  function Delete<T>(b: seq<Item<T>>, k: Key): seq<Item<T>>
    decreases |b|
  {
    if b == [] then []
    else if b[0].key == k then b[1..]
    else [b[0]] + Delete(b[1..], k)
  }

  predicate DistinctKeys<T>(b: seq<Item<T>>)
  {
    forall i, j :: 0 <= i < j < |b| ==> b[i].key != b[j].key
  }

  /** Lookup finds an item exactly when some item has the key. */
  lemma {:induction false} LookupSome<T>(b: seq<Item<T>>, k: Key)
    ensures Lookup(b, k).Some? <==> exists i :: 0 <= i < |b| && b[i].key == k
    decreases |b|
  {
    if b != [] && b[0].key != k {
      LookupSome(b[1..], k);
      if exists i :: 0 <= i < |b| && b[i].key == k {
        var i :| 0 <= i < |b| && b[i].key == k;
        assert b[1..][i - 1].key == k;
      }
    }
  }

  /** Delete removes one item when the key is present and keeps the others in order. */
  lemma {:induction false} DeleteItems<T>(b: seq<Item<T>>, k: Key)
    ensures Lookup(b, k).Some? ==> |Delete(b, k)| == |b| - 1
    ensures Lookup(b, k).None? ==> Delete(b, k) == b
    ensures forall x :: x in Delete(b, k) ==> x in b
    decreases |b|
  {
    if b != [] && b[0].key != k {
      DeleteItems(b[1..], k);
    }
  }

  /** A bucket's tail has no repeated keys when the bucket has none. */
  lemma DistinctTail<T>(b: seq<Item<T>>)
    requires b != [] && DistinctKeys(b)
    ensures DistinctKeys(b[1..])
  {
    forall i, j | 0 <= i < j < |b[1..]|
      ensures b[1..][i].key != b[1..][j].key
    {
      assert b[1..][i] == b[i + 1] && b[1..][j] == b[j + 1];
    }
  }

  /** In a bucket without repeated keys, deleting `k` removes it and leaves the other keys' data. */
  lemma {:induction false} DeleteLookup<T>(b: seq<Item<T>>, k: Key, k': Key)
    requires DistinctKeys(b)
    ensures Lookup(Delete(b, k), k') == if k' == k then None else Lookup(b, k')
    decreases |b|
  {
    if b != [] {
      DistinctTail(b);
      if b[0].key == k {
        if k' == k {
          LookupSome(b[1..], k);
        }
      } else {
        DeleteLookup(b[1..], k, k');
      }
    }
  }

  /** Deleting from a bucket without repeated keys leaves none. */
  lemma {:induction false} DeleteDistinct<T>(b: seq<Item<T>>, k: Key)
    requires DistinctKeys(b)
    ensures DistinctKeys(Delete(b, k))
    decreases |b|
  {
    if b != [] {
      DistinctTail(b);
      if b[0].key != k {
        DeleteDistinct(b[1..], k);
        DeleteItems(b[1..], k);
        var d := Delete(b, k);
        forall i, j | 0 <= i < j < |d|
          ensures d[i].key != d[j].key
        {
          if i == 0 {
            assert d[j] in Delete(b[1..], k);
            var m :| 0 <= m < |b[1..]| && b[1..][m] == d[j];
            assert b[m + 1] == d[j];
          } else {
            assert d[i] == Delete(b[1..], k)[i - 1] && d[j] == Delete(b[1..], k)[j - 1];
          }
        }
      }
    }
  }

  /** One step of a walk through the bucket from index `i`. */
  lemma BucketStep<T>(b: seq<Item<T>>, k: Key, i: nat)
    requires i < |b|
    ensures Lookup(b[i..], k) == if b[i].key == k then Some(b[i].data) else Lookup(b[i + 1..], k)
    ensures Delete(b[i..], k) == if b[i].key == k then b[i + 1..] else [b[i]] + Delete(b[i + 1..], k)
  {
    assert b[i..][1..] == b[i + 1..];
  }

  /** Past a prefix without the key, lookup and deletion act on the rest of the bucket. */
  lemma {:induction false} DeleteSplit<T>(b: seq<Item<T>>, k: Key, i: nat)
    requires i <= |b| && forall j :: 0 <= j < i ==> b[j].key != k
    ensures Delete(b, k) == b[..i] + Delete(b[i..], k)
    ensures Lookup(b, k) == Lookup(b[i..], k)
    decreases i
  {
    if i > 0 {
      var j := i - 1;
      assert b[j].key != k;
      DeleteSplit(b, k, j);
      BucketStep(b, k, j);
      calc {
        Delete(b, k);
        b[..j] + Delete(b[j..], k);
        b[..j] + ([b[j]] + Delete(b[i..], k));
        (b[..j] + [b[j]]) + Delete(b[i..], k);
        { assert b[..j] + [b[j]] == b[..i]; }
        b[..i] + Delete(b[i..], k);
      }
    }
  }

  /** HashTableBucket::find: walks the bucket from the first item. */
  method BucketFind<T>(b: seq<Item<T>>, k: Key) returns (r: Option<T>)
    ensures r == Lookup(b, k)
  {
    var i := 0;
    while i < |b|
      invariant 0 <= i <= |b| && forall j :: 0 <= j < i ==> b[j].key != k
    {
      SameIsEqual(b[i].key, k);
      if Same(b[i].key, k) {
        DeleteSplit(b, k, i);
        BucketStep(b, k, i);
        return Some(b[i].data);
      }
      i := i + 1;
    }
    DeleteSplit(b, k, i);
    return None;
  }

  /** HashTableBucket::removeItem: removes the first item with the key, if any. */
  method BucketRemove<T>(b: seq<Item<T>>, k: Key) returns (nb: seq<Item<T>>, removed: bool)
    ensures removed <==> Lookup(b, k).Some?
    ensures nb == Delete(b, k)
  {
    var i := 0;
    while i < |b|
      invariant 0 <= i <= |b| && forall j :: 0 <= j < i ==> b[j].key != k
    {
      SameIsEqual(b[i].key, k);
      if Same(b[i].key, k) {
        DeleteSplit(b, k, i);
        BucketStep(b, k, i);
        return b[..i] + b[i + 1..], true;
      }
      i := i + 1;
    }
    DeleteSplit(b, k, i);
    assert b[..i] == b;
    return b, false;
  }

  // ---------------------------------------------------------------------
  // HashTable
  // ---------------------------------------------------------------------

  /** The number of items held by the buckets of `t`. */
  function Total<T>(t: seq<Option<seq<Item<T>>>>): nat
    decreases |t|
  {
    if t == [] then 0 else Total(t[..|t| - 1]) + BucketSize(t[|t| - 1])
  }

  function BucketSize<T>(b: Option<seq<Item<T>>>): nat
  {
    if b.None? then 0 else |b.value|
  }

  /** Replacing one bucket changes the total by the change in that bucket's size. */
  lemma {:induction false} TotalUpdate<T>(t: seq<Option<seq<Item<T>>>>, i: nat, b: Option<seq<Item<T>>>)
    requires i < |t|
    ensures Total(t[i := b]) == Total(t) - BucketSize(t[i]) + BucketSize(b)
    decreases |t|
  {
    var u := t[i := b];
    assert u[..|u| - 1] == if i == |t| - 1 then t[..|t| - 1] else t[..|t| - 1][i := b];
    if i < |t| - 1 {
      TotalUpdate(t[..|t| - 1], i, b);
    }
  }

  /** A table of empty buckets holds no items. */
  lemma {:induction false} TotalNone<T>(t: seq<Option<seq<Item<T>>>>)
    requires forall i :: 0 <= i < |t| ==> t[i] == None
    ensures Total(t) == 0
    decreases |t|
  {
    if t != [] {
      TotalNone(t[..|t| - 1]);
    }
  }

  /**
   * The table invariant on the bucket sequence `t`: every item is in the
   * bucket of its key, no bucket repeats a key, and `cnt` is the number of
   * items.
   */
  ghost predicate TableInv<T>(t: seq<Option<seq<Item<T>>>>, size: nat, cnt: int)
  {
    size > 0 && |t| == size &&
    (forall i, j :: 0 <= i < size && t[i].Some? && 0 <= j < |t[i].value| ==> Slot(t[i].value[j].key, size) == i) &&
    (forall i :: 0 <= i < size && t[i].Some? ==> DistinctKeys(t[i].value)) &&
    cnt == Total(t)
  }

  /** The data `t` holds for key `k`: the lookup in the key's bucket. */
  ghost function GetIn<T>(t: seq<Option<seq<Item<T>>>>, size: nat, k: Key): Option<T>
    requires size > 0 && |t| == size
  {
    var b := t[Slot(k, size)];
    if b.None? then None else Lookup(b.value, k)
  }

  /** Creating an empty bucket keeps the invariant and every key's data. */
  lemma CreateBucket<T>(t: seq<Option<seq<Item<T>>>>, size: nat, cnt: nat, pos: nat)
    requires TableInv(t, size, cnt) && pos < size && t[pos] == None
    ensures TableInv(t[pos := Some([])], size, cnt)
    ensures forall k :: GetIn(t[pos := Some([])], size, k) == GetIn(t, size, k)
  {
    TotalUpdate(t, pos, Some([]));
  }

  /**
   * Prepending an item for an absent key to its (existing) bucket keeps
   * the invariant with one more item, gives the key its data and leaves
   * every other key's data.
   */
  lemma InsertItem<T>(t: seq<Option<seq<Item<T>>>>, size: nat, cnt: nat, k: Key, item: T)
    requires TableInv(t, size, cnt) && t[Slot(k, size)].Some? && GetIn(t, size, k) == None
    ensures var pos := Slot(k, size);
            var t' := t[pos := Some([Item(k, item)] + t[pos].value)];
            TableInv(t', size, cnt + 1) && GetIn(t', size, k) == Some(item) &&
            forall k' :: k' != k ==> GetIn(t', size, k') == GetIn(t, size, k')
  {
    var pos := Slot(k, size);
    var b := t[pos].value;
    var nb := [Item(k, item)] + b;
    var t' := t[pos := Some(nb)];
    TotalUpdate(t, pos, Some(nb));
    LookupSome(b, k);
    assert nb[1..] == b;
    assert DistinctKeys(nb) by {
      forall i, j | 0 <= i < j < |nb|
        ensures nb[i].key != nb[j].key
      {
        assert nb[j] == b[j - 1];
      }
    }
    forall i, j | 0 <= i < size && t'[i].Some? && 0 <= j < |t'[i].value|
      ensures Slot(t'[i].value[j].key, size) == i
    {
      if i == pos && j > 0 {
        assert t'[i].value[j] == b[j - 1];
      }
    }
  }

  /**
   * Deleting a present key from its bucket keeps the invariant with one
   * item less, leaves the key without data and every other key's data.
   */
  lemma DeleteItem<T>(t: seq<Option<seq<Item<T>>>>, size: nat, cnt: nat, k: Key)
    requires TableInv(t, size, cnt) && t[Slot(k, size)].Some? && GetIn(t, size, k).Some?
    ensures var pos := Slot(k, size);
            var t' := t[pos := Some(Delete(t[pos].value, k))];
            TableInv(t', size, cnt - 1) && GetIn(t', size, k) == None &&
            forall k' :: k' != k ==> GetIn(t', size, k') == GetIn(t, size, k')
  {
    var pos := Slot(k, size);
    var b := t[pos].value;
    var nb := Delete(b, k);
    var t' := t[pos := Some(nb)];
    DeleteItems(b, k);
    TotalUpdate(t, pos, Some(nb));
    DeleteLookup(b, k, k);
    DeleteDistinct(b, k);
    forall j | 0 <= j < |nb|
      ensures Slot(nb[j].key, size) == pos
    {
      assert nb[j] in b;
    }
    forall k' | k' != k
      ensures GetIn(t', size, k') == GetIn(t, size, k')
    {
      DeleteLookup(b, k, k');
    }
  }

  class HashTable<T> {
    /** size_ */
    const size: nat
    /** table_: null for a bucket that was never used. */
    const table: array<Option<seq<Item<T>>>>
    /** Collection::cnt_ */
    var cnt: nat
    /** Collection::autoDelete_ */
    var autoDelete: bool

    ghost predicate Valid()
      reads this, table
    {
      table.Length == size && TableInv(table[..], size, cnt)
    }

    /** The data held for key `k`, or None: what find returns. */
    ghost function Get(k: Key): Option<T>
      reads this, table
      requires Valid()
    {
      GetIn(table[..], size, k)
    }

    /** HashTable(): `size` null buckets and no items. */
    constructor (size: nat)
      requires size > 0
      ensures Valid() && cnt == 0 && !autoDelete && this.size == size
      ensures forall k :: Get(k) == None
    {
      this.size := size;
      var t := new Option<seq<Item<T>>>[size];
      var i := 0;
      while i < size
        invariant 0 <= i <= size
        invariant forall j :: 0 <= j < i ==> t[j] == None
      {
        t[i] := None;
        i := i + 1;
      }
      table := t;
      cnt := 0;
      autoDelete := false;
      new;
      TotalNone(table[..]);
    }

    /** find(key): the data of the key's item, or null. */
    method Find(k: Key) returns (r: Option<T>)
      requires Valid()
      ensures r == Get(k)
    {
      var pos := Slot(k, size);
      if table[pos] == None {
        return None;
      }
      r := BucketFind(table[pos].value, k);
    }

    /** contains(key): whether find(key) finds the key. */
    method Contains(k: Key) returns (b: bool)
      requires Valid()
      ensures b <==> Get(k).Some?
    {
      var pos := Slot(k, size);
      if table[pos] == None {
        return false;
      }
      var r := BucketFind(table[pos].value, k);
      return r != None;
    }

    /**
     * insert(key, item): a key not yet present gets `item` and the count
     * grows by one; a key already present keeps its data and nothing else
     * changes.  A null bucket is created first.
     */
    method Insert(k: Key, item: T)
      requires Valid()
      modifies table, this`cnt
      ensures Valid()
      ensures old(Get(k)).None? ==> Get(k) == Some(item) && cnt == old(cnt) + 1
      ensures old(Get(k)).Some? ==> Get(k) == old(Get(k)) && cnt == old(cnt)
      ensures forall k' :: k' != k ==> Get(k') == old(Get(k'))
    {
      var pos := Slot(k, size);
      if table[pos] == None {
        CreateBucket(table[..], size, cnt, pos);
        table[pos] := Some([]);
        assert table[..] == old(table[..])[pos := Some([])];
      }
      var present := Contains(k);
      if !present {
        ghost var t0 := table[..];
        InsertItem(t0, size, cnt, k, item);
        var b := table[pos].value;
        table[pos] := Some([Item(k, item)] + b);
        assert table[..] == t0[pos := Some([Item(k, item)] + b)];
        cnt := cnt + 1;
      }
    }

    /**
     * remove(key): deletes the key's item and returns true, with the count
     * one less; returns false and changes nothing when the key is absent.
     */
    method Remove(k: Key) returns (removed: bool)
      requires Valid()
      modifies table, this`cnt
      ensures Valid()
      ensures removed <==> old(Get(k)).Some?
      ensures removed ==> cnt == old(cnt) - 1
      ensures !removed ==> cnt == old(cnt) && table[..] == old(table[..])
      ensures Get(k) == None
      ensures forall k' :: k' != k ==> Get(k') == old(Get(k'))
    {
      var pos := Slot(k, size);
      if table[pos] == None {
        return false;
      }
      var b := table[pos].value;
      var nb;
      nb, removed := BucketRemove(b, k);
      if removed {
        ghost var t0 := table[..];
        DeleteItem(t0, size, cnt, k);
        table[pos] := Some(nb);
        assert table[..] == t0[pos := Some(nb)];
        cnt := cnt - 1;
      }
    }

    /** setAutoDelete(ad) */
    method SetAutoDelete(ad: bool)
      modifies this`autoDelete
      ensures autoDelete == ad
    {
      autoDelete := ad;
    }
  }
}
