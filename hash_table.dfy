/**
 * The table object of hash_table.c: a fixed array of buckets and a count,
 * updated in place by ht_insert and ht_delete and read by ht_search.
 * Each method runs the source's probe loop and is proved to leave the
 * array as the matching function of module Buckets says.
 */
module HashTables {
  import opened Hashing
  import opened Buckets

  class HashTable {
    var size: int
    var count: int
    var items: array<Slot>
    /** The two hash bases HT_PRIME_1 and HT_PRIME_2. */
    const a1: nat
    const a2: nat

    ghost predicate Valid()
      reads this
    {
      size == items.Length && size > 0
    }

    /** ht_new: MaxSize buckets, all empty, and a count of zero. */
    constructor (prime1: nat, prime2: nat)
      ensures Valid() && fresh(items)
      ensures size == MaxSize && count == 0 && a1 == prime1 && a2 == prime2
      ensures forall b :: 0 <= b < items.Length ==> items[b] == Empty
    {
      size := MaxSize;
      count := 0;
      items := new Slot[MaxSize](_ => Empty);
      a1, a2 := prime1, prime2;
    }

    /** ht_insert: walks key's probe sequence to the first bucket that is
        empty, a tombstone, or holds key, and writes (key, value) there;
        count grows unless a live entry for key was replaced. */
    method Insert(key: string, value: string)
      requires Valid() && Ends(InsertWalk, items[..], key, a1, a2)
      modifies this`count, items
      ensures Valid()
      ensures items[..] == Buckets.Insert(old(items[..]), key, value, a1, a2)
      ensures count == old(count) +
                (if old(items[..])[InsertTarget(old(items[..]), key, a1, a2)].Occupied? then 0 else 1)
    {
      ghost var s := items[..];
      ghost var f := Last(InsertWalk, s, key, a1, a2);
      var index := GetHash(key, size, 0, a1, a2);
      var cur := items[index];
      var i := 1;
      while !cur.Empty?
        invariant 1 <= i <= f + 1
        invariant items[..] == s && count == old(count)
        invariant index == GetHash(key, size, i - 1, a1, a2) && cur == items[index]
        invariant Passes(InsertWalk, s, key, i - 1, a1, a2)
        decreases f + 1 - i
      {
        if !cur.Tombstone? {
          if cur.key == key {
            LastIs(InsertWalk, s, key, i - 1, a1, a2);
            items[index] := Occupied(key, value);
            return;
          }
          index := GetHash(key, size, i, a1, a2);
          cur := items[index];
          i := i + 1;
        } else {
          break;
        }
      }
      LastIs(InsertWalk, s, key, i - 1, a1, a2);
      items[index] := Occupied(key, value);
      count := count + 1;
    }

    /** ht_search: skips tombstones and entries for other keys, returns
        the value of the first entry for key, and gives up at an empty
        bucket. */
    method Search(key: string) returns (r: Option<string>)
      requires Valid() && Ends(SearchWalk, items[..], key, a1, a2)
      ensures r == Lookup(items[..], key, a1, a2)
    {
      ghost var s := items[..];
      ghost var f := Last(SearchWalk, s, key, a1, a2);
      var index := GetHash(key, size, 0, a1, a2);
      var item := items[index];
      var i := 1;
      while !item.Empty?
        invariant 1 <= i <= f + 1
        invariant index == GetHash(key, size, i - 1, a1, a2) && item == items[index]
        invariant Passes(SearchWalk, s, key, i - 1, a1, a2)
        decreases f + 1 - i
      {
        if !item.Tombstone? {
          if item.key == key {
            LastIs(SearchWalk, s, key, i - 1, a1, a2);
            return Some(item.value);
          }
        }
        index := GetHash(key, size, i, a1, a2);
        item := items[index];
        i := i + 1;
      }
      LastIs(SearchWalk, s, key, i - 1, a1, a2);
      return None;
    }

    /** ht_delete: walks key's probe sequence up to the first empty bucket,
        turning every entry for key into a tombstone, then decrements count
        once whatever was found. */
    method Delete(key: string)
      requires Valid() && Ends(DeleteWalk, items[..], key, a1, a2)
      modifies this`count, items
      ensures Valid()
      ensures items[..] == Buckets.Delete(old(items[..]), key, a1, a2).slots
      ensures count == old(count) - 1
    {
      ghost var s := items[..];
      ghost var e := Last(DeleteWalk, s, key, a1, a2);
      var index := GetHash(key, size, 0, a1, a2);
      var item := items[index];
      var i := 1;
      while !item.Empty?
        invariant 1 <= i <= e + 1
        invariant DeleteFrom(items[..], key, a1, a2, i - 1, e).slots == DeleteFrom(s, key, a1, a2, 0, e).slots
        invariant SameEmpties(items[..], s)
        invariant count == old(count)
        invariant Passes(DeleteWalk, s, key, i - 1, a1, a2)
        invariant index == GetHash(key, size, i - 1, a1, a2) && item == items[index]
        decreases e + 1 - i
      {
        ghost var before := items[..];
        if !item.Tombstone? {
          if item.key == key {
            items[index] := Tombstone;
          }
        }
        assert DeleteFrom(items[..], key, a1, a2, i, e).slots == DeleteFrom(before, key, a1, a2, i - 1, e).slots;
        index := GetHash(key, size, i, a1, a2);
        item := items[index];
        i := i + 1;
      }
      LastIs(DeleteWalk, s, key, i - 1, a1, a2);
      count := count - 1;
    }
  }

  /** A client of the table on a new table: ht_insert(key, v1) then
      ht_insert(key, v2) leave one entry, ht_search(key) returns v2, and
      after ht_delete(key) ht_search(key) finds nothing. The key's probe
      step must not be a multiple of the size (see StepOfFourIsSize). */
  method OverwriteThenDelete(a1: nat, a2: nat, key: string, v1: string, v2: string)
    returns (found: Option<string>, entries: int, gone: Option<string>)
    requires Hash(key, a2, MaxSize) != MaxSize - 1
    ensures found == Some(v2) && entries == 1 && gone == None
  {
    var t := new HashTable(a1, a2);
    ghost var s0 := t.items[..];
    AllEmptyEnds(s0, InsertWalk, key, a1, a2);
    t.Insert(key, v1);
    InsertTwiceOverwrites(s0, key, v1, v2, a1, a2);
    t.Insert(key, v2);
    entries := t.count;
    ghost var s2 := t.items[..];
    InsertThenLookup(s0, key, v2, a1, a2);
    found := t.Search(key);

    ghost var b := InsertTarget(s0, key, a1, a2);
    ghost var c := if b == 0 then 1 else 0;
    assert s2[c] == Empty;
    MaxSizeIsPrime();
    FullCycleWalkEnds(DeleteWalk, s2, key, c, a1, a2);
    t.Delete(key);
    DeleteThenLookup(s2, key, a1, a2);
    gone := t.Search(key);
  }
}
