/**
 * The bucket array of hash_table.c as a value, and what each of the three
 * probe walks (ht_insert, ht_search, ht_delete) does to it. The class in
 * hash_table.dfy is proved against these functions; the lemmas here state
 * what the walks promise.
 */
module Buckets {
  import opened Hashing

  /** One entry of the items array: NULL, the shared HT_DELETED_ITEM
      sentinel, or an owned key/value item. */
  datatype Slot = Empty | Tombstone | Occupied(key: string, value: string)

  datatype Option<T> = None | Some(value: T)

  /** The three walks follow the same probe sequence and differ only in
      which bucket ends them. */
  datatype Walk = SearchWalk | InsertWalk | DeleteWalk

  /** Does this bucket end the given walk for key? A tombstone ends only
      the insert walk. */
  predicate Stops(w: Walk, slot: Slot, key: string)
  {
    match w
    case SearchWalk => slot.Empty? || (slot.Occupied? && slot.key == key)
    case InsertWalk => !slot.Occupied? || slot.key == key
    case DeleteWalk => slot.Empty?
  }

  /** Some attempt of the first cycle ends the walk for key (by
      WalkEndsWithinOneCycle, the walk ends at all exactly when this holds). */
  predicate Ends(w: Walk, s: seq<Slot>, key: string, a1: nat, a2: nat)
  {
    |s| > 0 && exists j :: 0 <= j < |s| && Stops(w, s[GetHash(key, |s|, j, a1, a2)], key)
  }

  /** The walk for key goes on past every attempt before f. */
  predicate Passes(w: Walk, s: seq<Slot>, key: string, f: nat, a1: nat, a2: nat)
    requires |s| > 0
  {
    forall j :: 0 <= j < f ==> !Stops(w, s[GetHash(key, |s|, j, a1, a2)], key)
  }

  /** The first attempt at or after `from` that ends the walk. */
  function FirstStop(w: Walk, s: seq<Slot>, key: string, a1: nat, a2: nat, from: nat): (f: nat)
    requires |s| > 0 && from <= |s|
    requires exists j :: from <= j < |s| && Stops(w, s[GetHash(key, |s|, j, a1, a2)], key)
    ensures from <= f < |s| && Stops(w, s[GetHash(key, |s|, f, a1, a2)], key)
    ensures forall j :: from <= j < f ==> !Stops(w, s[GetHash(key, |s|, j, a1, a2)], key)
    decreases |s| - from
  {
    if Stops(w, s[GetHash(key, |s|, from, a1, a2)], key) then from
    else FirstStop(w, s, key, a1, a2, from + 1)
  }

  /** The attempt at which the walk for key ends. */
  function Last(w: Walk, s: seq<Slot>, key: string, a1: nat, a2: nat): (f: nat)
    requires Ends(w, s, key, a1, a2)
    ensures f < |s| && Stops(w, s[GetHash(key, |s|, f, a1, a2)], key) && Passes(w, s, key, f, a1, a2)
  {
    FirstStop(w, s, key, a1, a2, 0)
  }

  /** An attempt that ends the walk and that the walk reaches is the one
      where it ends. */
  lemma LastIs(w: Walk, s: seq<Slot>, key: string, f: nat, a1: nat, a2: nat)
    requires |s| > 0 && f < |s|
    requires Stops(w, s[GetHash(key, |s|, f, a1, a2)], key) && Passes(w, s, key, f, a1, a2)
    ensures Ends(w, s, key, a1, a2) && Last(w, s, key, a1, a2) == f
  {
    var g := Last(w, s, key, a1, a2);
    assert !(g < f);
  }

  /** If some attempt, however late, ends a walk, then one in the first
      cycle does: the source's unbounded loops terminate exactly when
      Ends holds. */
  lemma WalkEndsWithinOneCycle(w: Walk, s: seq<Slot>, key: string, j: nat, a1: nat, a2: nat)
    requires |s| > 0 && Stops(w, s[GetHash(key, |s|, j, a1, a2)], key)
    ensures Ends(w, s, key, a1, a2)
  {
    ProbeIsPeriodic(key, |s|, j, a1, a2);
    assert Stops(w, s[GetHash(key, |s|, j % |s|, a1, a2)], key);
  }

  /** With a prime number of buckets and a usable step, the walk for key
      ends as soon as some bucket of the whole array would end it: the
      walk reaches every bucket. */
  lemma FullCycleWalkEnds(w: Walk, s: seq<Slot>, key: string, b: nat, a1: nat, a2: nat)
    requires IsPrime(|s|) && Hash(key, a2, |s|) != |s| - 1
    requires b < |s| && Stops(w, s[b], key)
    ensures Ends(w, s, key, a1, a2)
  {
    ProbeCoversAllBuckets(key, |s|, b, a1, a2);
  }

  // ---------------------------------------------------------------------
  // ht_search

  /** What ht_search returns for key. */
  function Lookup(s: seq<Slot>, key: string, a1: nat, a2: nat): (r: Option<string>)
    requires Ends(SearchWalk, s, key, a1, a2)
    ensures r.Some? ==> exists f :: 0 <= f < |s| && Passes(SearchWalk, s, key, f, a1, a2) &&
                                    s[GetHash(key, |s|, f, a1, a2)] == Occupied(key, r.value)
    ensures r.None? ==> exists f :: 0 <= f < |s| && Passes(SearchWalk, s, key, f, a1, a2) &&
                                    s[GetHash(key, |s|, f, a1, a2)].Empty?
  {
    var f := Last(SearchWalk, s, key, a1, a2);
    match s[GetHash(key, |s|, f, a1, a2)]
    case Occupied(_, v) => Some(v)
    case _ => None
  }

  /** ht_search reads only which buckets end its walk and what those hold:
      buckets that it passes may be exchanged for any others that it also
      passes. */
  lemma LookupDependsOnlyOnStops(s: seq<Slot>, t: seq<Slot>, key: string, a1: nat, a2: nat)
    requires Ends(SearchWalk, s, key, a1, a2) && |t| == |s|
    requires forall b :: 0 <= b < |s| ==> (Stops(SearchWalk, s[b], key) <==> Stops(SearchWalk, t[b], key))
    requires forall b :: 0 <= b < |s| && Stops(SearchWalk, s[b], key) ==> t[b] == s[b]
    ensures Ends(SearchWalk, t, key, a1, a2) && Lookup(t, key, a1, a2) == Lookup(s, key, a1, a2)
  {
    var f := Last(SearchWalk, s, key, a1, a2);
    assert Passes(SearchWalk, t, key, f, a1, a2) by {
      forall j | 0 <= j < f
        ensures !Stops(SearchWalk, t[GetHash(key, |t|, j, a1, a2)], key)
      {
        assert !Stops(SearchWalk, s[GetHash(key, |s|, j, a1, a2)], key);
      }
    }
    LastIs(SearchWalk, t, key, f, a1, a2);
  }

  // ---------------------------------------------------------------------
  // ht_insert

  /** The bucket ht_insert writes: the first on key's walk that is empty,
      a tombstone, or holds key. */
  function InsertTarget(s: seq<Slot>, key: string, a1: nat, a2: nat): (b: nat)
    requires Ends(InsertWalk, s, key, a1, a2)
    ensures b < |s|
    ensures s[b].Empty? || s[b].Tombstone? || s[b].key == key
    ensures exists f :: 0 <= f < |s| && GetHash(key, |s|, f, a1, a2) == b &&
                        forall j :: 0 <= j < f ==> s[GetHash(key, |s|, j, a1, a2)].Occupied? &&
                                                    s[GetHash(key, |s|, j, a1, a2)].key != key
  {
    var f := Last(InsertWalk, s, key, a1, a2);
    assert forall j :: 0 <= j < f ==> !Stops(InsertWalk, s[GetHash(key, |s|, j, a1, a2)], key);
    GetHash(key, |s|, f, a1, a2)
  }

  /** The bucket array after ht_insert(key, value). */
  function Insert(s: seq<Slot>, key: string, value: string, a1: nat, a2: nat): seq<Slot>
    requires Ends(InsertWalk, s, key, a1, a2)
  {
    s[InsertTarget(s, key, a1, a2) := Occupied(key, value)]
  }

  /** Round trip: after ht_insert(key, value) the search walk for key ends
      and ht_search(key) returns value. */
  lemma InsertThenLookup(s: seq<Slot>, key: string, value: string, a1: nat, a2: nat)
    requires Ends(InsertWalk, s, key, a1, a2)
    ensures Ends(SearchWalk, Insert(s, key, value, a1, a2), key, a1, a2)
    ensures Lookup(Insert(s, key, value, a1, a2), key, a1, a2) == Some(value)
  {
    var t := Insert(s, key, value, a1, a2);
    var f := Last(InsertWalk, s, key, a1, a2);
    var b := InsertTarget(s, key, a1, a2);
    assert Passes(SearchWalk, t, key, f, a1, a2) by {
      forall j | 0 <= j < f
        ensures !Stops(SearchWalk, t[GetHash(key, |t|, j, a1, a2)], key)
      {
        assert !Stops(InsertWalk, s[GetHash(key, |s|, j, a1, a2)], key);
      }
    }
    LastIs(SearchWalk, t, key, f, a1, a2);
  }

  /** A second insert of the same key writes the same bucket, now a live
      entry (so ht_insert leaves count alone), and the last value wins. */
  lemma InsertTwiceOverwrites(s: seq<Slot>, key: string, v1: string, v2: string, a1: nat, a2: nat)
    requires Ends(InsertWalk, s, key, a1, a2)
    ensures Ends(InsertWalk, Insert(s, key, v1, a1, a2), key, a1, a2)
    ensures InsertTarget(Insert(s, key, v1, a1, a2), key, a1, a2) == InsertTarget(s, key, a1, a2)
    ensures Insert(s, key, v1, a1, a2)[InsertTarget(s, key, a1, a2)].Occupied?
    ensures Insert(Insert(s, key, v1, a1, a2), key, v2, a1, a2) == Insert(s, key, v2, a1, a2)
  {
    var t := Insert(s, key, v1, a1, a2);
    var f := Last(InsertWalk, s, key, a1, a2);
    assert Passes(InsertWalk, t, key, f, a1, a2) by {
      forall j | 0 <= j < f
        ensures !Stops(InsertWalk, t[GetHash(key, |t|, j, a1, a2)], key)
      {
        assert !Stops(InsertWalk, s[GetHash(key, |s|, j, a1, a2)], key);
      }
    }
    LastIs(InsertWalk, t, key, f, a1, a2);
  }

  /** Inserting key leaves every entry that ht_search finds for another
      key where it was. */
  lemma InsertKeepsOtherLookups(s: seq<Slot>, key: string, value: string, other: string, a1: nat, a2: nat)
    requires Ends(InsertWalk, s, key, a1, a2) && other != key
    requires Ends(SearchWalk, s, other, a1, a2) && Lookup(s, other, a1, a2).Some?
    ensures Ends(SearchWalk, Insert(s, key, value, a1, a2), other, a1, a2)
    ensures Lookup(Insert(s, key, value, a1, a2), other, a1, a2) == Lookup(s, other, a1, a2)
  {
    var t := Insert(s, key, value, a1, a2);
    var b := InsertTarget(s, key, a1, a2);
    var g := Last(SearchWalk, s, other, a1, a2);
    assert Passes(SearchWalk, t, other, g, a1, a2) by {
      forall j | 0 <= j < g
        ensures !Stops(SearchWalk, t[GetHash(other, |t|, j, a1, a2)], other)
      {
        assert !Stops(SearchWalk, s[GetHash(other, |s|, j, a1, a2)], other);
      }
    }
    LastIs(SearchWalk, t, other, g, a1, a2);
  }

  /** ht_insert stops at the first tombstone without looking further: if
      key still has a live entry later on its walk, the insert leaves two
      live entries for key, and ht_search sees only the new one. */
  lemma InsertAtTombstoneDuplicates(s: seq<Slot>, key: string, value: string, c: nat, a1: nat, a2: nat)
    requires Ends(InsertWalk, s, key, a1, a2)
    requires s[InsertTarget(s, key, a1, a2)].Tombstone?
    requires c < |s| && s[c].Occupied? && s[c].key == key
    ensures var t := Insert(s, key, value, a1, a2);
            c != InsertTarget(s, key, a1, a2) &&
            t[c] == s[c] && t[InsertTarget(s, key, a1, a2)] == Occupied(key, value)
    ensures Lookup(Insert(s, key, value, a1, a2), key, a1, a2) == Some(value)
  {
    InsertThenLookup(s, key, value, a1, a2);
  }

  // ---------------------------------------------------------------------
  // ht_delete

  /** The bucket array after attempts from .. until-1 of ht_delete's walk,
      and how many live entries it turned into tombstones. */
  datatype Removal = Removal(slots: seq<Slot>, removed: nat)

  /** Number of live entries in the array. */
  function Live(s: seq<Slot>): (n: nat)
    ensures n <= |s|
  {
    if |s| == 0 then 0 else (if s[0].Occupied? then 1 else 0) + Live(s[1..])
  }

  lemma {:induction false} LiveUpdate(s: seq<Slot>, b: nat, x: Slot)
    requires b < |s|
    ensures Live(s[b := x]) == Live(s) - (if s[b].Occupied? then 1 else 0) + (if x.Occupied? then 1 else 0)
  {
    if b > 0 {
      assert s[b := x][1..] == s[1..][b - 1 := x];
      LiveUpdate(s[1..], b - 1, x);
    } else {
      assert s[b := x][1..] == s[1..];
    }
  }

  /** Attempts from .. until-1 of ht_delete's walk: every live entry for
      key met is replaced by a tombstone and counted. */
  function DeleteFrom(s: seq<Slot>, key: string, a1: nat, a2: nat, from: nat, until: nat): (r: Removal)
    requires |s| > 0 && from <= until
    ensures |r.slots| == |s|
    decreases until - from
  {
    if from == until then Removal(s, 0)
    else
      var b := GetHash(key, |s|, from, a1, a2);
      if s[b].Occupied? && s[b].key == key then
        var r := DeleteFrom(s[b := Tombstone], key, a1, a2, from + 1, until);
        Removal(r.slots, r.removed + 1)
      else
        DeleteFrom(s, key, a1, a2, from + 1, until)
  }

  /** What the delete walk does: every bucket is either unchanged or was a
      live entry for key and is now a tombstone; buckets off the walk are
      unchanged; no bucket the walk visits still holds key; and removed is
      the number of live entries that disappeared. */
  lemma {:induction false} DeleteFromEffect(s: seq<Slot>, key: string, a1: nat, a2: nat, from: nat, until: nat)
    requires |s| > 0 && from <= until
    ensures var r := DeleteFrom(s, key, a1, a2, from, until);
      && (forall b :: 0 <= b < |s| ==>
            r.slots[b] == s[b] || (r.slots[b].Tombstone? && s[b].Occupied? && s[b].key == key))
      && (forall b :: 0 <= b < |s| && (forall j :: from <= j < until ==> GetHash(key, |s|, j, a1, a2) != b) ==>
            r.slots[b] == s[b])
      && (forall j :: from <= j < until ==>
            !(r.slots[GetHash(key, |s|, j, a1, a2)].Occupied? && r.slots[GetHash(key, |s|, j, a1, a2)].key == key))
      && Live(r.slots) + r.removed == Live(s)
    decreases until - from
  {
    if from < until {
      var b := GetHash(key, |s|, from, a1, a2);
      if s[b].Occupied? && s[b].key == key {
        LiveUpdate(s, b, Tombstone);
        DeleteFromEffect(s[b := Tombstone], key, a1, a2, from + 1, until);
      } else {
        DeleteFromEffect(s, key, a1, a2, from + 1, until);
      }
    }
  }

  /** Both arrays have their empty buckets in the same places. */
  predicate SameEmpties(s: seq<Slot>, t: seq<Slot>)
  {
    |s| == |t| && forall b :: 0 <= b < |s| ==> (s[b].Empty? <==> t[b].Empty?)
  }

  /** ht_delete(key) on the bucket array: its walk runs to the first empty
      bucket of key's probe sequence. */
  function Delete(s: seq<Slot>, key: string, a1: nat, a2: nat): (r: Removal)
    requires Ends(DeleteWalk, s, key, a1, a2)
  {
    DeleteFrom(s, key, a1, a2, 0, Last(DeleteWalk, s, key, a1, a2))
  }

  /** After ht_delete(key), ht_search(key) ends and finds nothing. */
  lemma DeleteThenLookup(s: seq<Slot>, key: string, a1: nat, a2: nat)
    requires Ends(DeleteWalk, s, key, a1, a2)
    ensures Ends(SearchWalk, Delete(s, key, a1, a2).slots, key, a1, a2)
    ensures Lookup(Delete(s, key, a1, a2).slots, key, a1, a2) == None
  {
    var t := Delete(s, key, a1, a2).slots;
    var e := Last(DeleteWalk, s, key, a1, a2);
    DeleteFromEffect(s, key, a1, a2, 0, e);
    assert Passes(SearchWalk, t, key, e, a1, a2) by {
      forall j | 0 <= j < e
        ensures !Stops(SearchWalk, t[GetHash(key, |t|, j, a1, a2)], key)
      {
        assert !Stops(DeleteWalk, s[GetHash(key, |s|, j, a1, a2)], key);
      }
    }
    assert t[GetHash(key, |t|, e, a1, a2)].Empty?;
    LastIs(SearchWalk, t, key, e, a1, a2);
  }

  /** Deleting a key that ht_search does not find changes no bucket. */
  lemma DeleteAbsentKeepsSlots(s: seq<Slot>, key: string, a1: nat, a2: nat)
    requires Ends(SearchWalk, s, key, a1, a2) && Lookup(s, key, a1, a2) == None
    ensures Ends(DeleteWalk, s, key, a1, a2)
    ensures Delete(s, key, a1, a2) == Removal(s, 0)
  {
    var f := Last(SearchWalk, s, key, a1, a2);
    assert Passes(DeleteWalk, s, key, f, a1, a2) by {
      forall j | 0 <= j < f
        ensures !Stops(DeleteWalk, s[GetHash(key, |s|, j, a1, a2)], key)
      {
        assert !Stops(SearchWalk, s[GetHash(key, |s|, j, a1, a2)], key);
      }
    }
    LastIs(DeleteWalk, s, key, f, a1, a2);
    NothingToDelete(s, key, a1, a2, 0, f);
  }

  lemma {:induction false} NothingToDelete(s: seq<Slot>, key: string, a1: nat, a2: nat, from: nat, until: nat)
    requires |s| > 0 && from <= until
    requires forall j :: from <= j < until ==> !Stops(SearchWalk, s[GetHash(key, |s|, j, a1, a2)], key)
    ensures DeleteFrom(s, key, a1, a2, from, until) == Removal(s, 0)
    decreases until - from
  {
    if from < until {
      assert !Stops(SearchWalk, s[GetHash(key, |s|, from, a1, a2)], key);
      NothingToDelete(s, key, a1, a2, from + 1, until);
    }
  }

  /** Deleting key leaves what ht_search finds for every other key
      unchanged: tombstones keep later entries reachable. */
  lemma DeleteKeepsOtherLookups(s: seq<Slot>, key: string, other: string, a1: nat, a2: nat)
    requires Ends(DeleteWalk, s, key, a1, a2) && other != key
    requires Ends(SearchWalk, s, other, a1, a2)
    ensures Ends(SearchWalk, Delete(s, key, a1, a2).slots, other, a1, a2)
    ensures Lookup(Delete(s, key, a1, a2).slots, other, a1, a2) == Lookup(s, other, a1, a2)
  {
    DeleteFromEffect(s, key, a1, a2, 0, Last(DeleteWalk, s, key, a1, a2));
    LookupDependsOnlyOnStops(s, Delete(s, key, a1, a2).slots, other, a1, a2);
  }

  // ---------------------------------------------------------------------
  // The count field

  /** ht_insert's count update keeps count equal to the number of live
      entries: one more exactly when the target bucket held none. */
  lemma InsertLive(s: seq<Slot>, key: string, value: string, a1: nat, a2: nat)
    requires Ends(InsertWalk, s, key, a1, a2)
    ensures Live(Insert(s, key, value, a1, a2)) ==
            Live(s) + (if s[InsertTarget(s, key, a1, a2)].Occupied? then 0 else 1)
  {
    LiveUpdate(s, InsertTarget(s, key, a1, a2), Occupied(key, value));
  }

  /** As written, ht_delete subtracts one from count whatever its walk
      removed, which keeps count equal to the number of live entries
      exactly when the walk removed one entry. */
  lemma DeleteCountRightOnlyForOneRemoval(s: seq<Slot>, key: string, count: int, a1: nat, a2: nat)
    requires Ends(DeleteWalk, s, key, a1, a2) && count == Live(s)
    ensures count - 1 == Live(Delete(s, key, a1, a2).slots) <==> Delete(s, key, a1, a2).removed == 1
  {
    DeleteFromEffect(s, key, a1, a2, 0, Last(DeleteWalk, s, key, a1, a2));
  }

  /** Deleting an absent key, for example from a new table, leaves the
      buckets alone but still decrements count. */
  lemma DeleteAbsentMiscounts(s: seq<Slot>, key: string, count: int, a1: nat, a2: nat)
    requires Ends(SearchWalk, s, key, a1, a2) && Lookup(s, key, a1, a2) == None
    requires count == Live(s)
    ensures Ends(DeleteWalk, s, key, a1, a2)
    ensures Delete(s, key, a1, a2).slots == s && count - 1 != Live(s)
  {
    DeleteAbsentKeepsSlots(s, key, a1, a2);
  }

  /** The count a delete that decrements once per removed entry leaves:
      it stays equal to the number of live entries. */
  function CorrectedDeleteCount(s: seq<Slot>, key: string, count: int, a1: nat, a2: nat): (c: int)
    requires Ends(DeleteWalk, s, key, a1, a2)
    ensures count == Live(s) ==> c == Live(Delete(s, key, a1, a2).slots)
    ensures Lookup(s, key, a1, a2) == None ==> c == count
  {
    DeleteFromEffect(s, key, a1, a2, 0, Last(DeleteWalk, s, key, a1, a2));
    assert Lookup(s, key, a1, a2) == None ==> Delete(s, key, a1, a2).removed == 0 by {
      if Lookup(s, key, a1, a2) == None {
        DeleteAbsentKeepsSlots(s, key, a1, a2);
      }
    }
    count - Delete(s, key, a1, a2).removed
  }

  // ---------------------------------------------------------------------
  // New tables and the trapped walk

  /** In an array of empty buckets every walk ends at its first attempt
      and ht_search finds nothing. */
  lemma AllEmptyEnds(s: seq<Slot>, w: Walk, key: string, a1: nat, a2: nat)
    requires |s| > 0 && forall b :: 0 <= b < |s| ==> s[b] == Empty
    ensures Ends(w, s, key, a1, a2) && Last(w, s, key, a1, a2) == 0
    ensures w == SearchWalk ==> Lookup(s, key, a1, a2) == None
  {
    LastIs(w, s, key, 0, a1, a2);
  }

  /** As written, once bucket 52 of a new table holds the key "4", the
      delete walk for "4" revisits that bucket forever: no attempt, however
      late, reaches an empty bucket, so ht_delete("4") never returns. */
  lemma DeleteOfFourNeverEnds(value: string, a1: nat, a2: nat)
    ensures Ends(InsertWalk, seq(MaxSize, _ => Empty), "4", a1, a2)
    ensures forall j: nat :: !Stops(DeleteWalk, Insert(seq(MaxSize, _ => Empty), "4", value, a1, a2)[GetHash("4", MaxSize, j, a1, a2)], "4")
  {
    var s: seq<Slot> := seq(MaxSize, _ => Empty);
    AllEmptyEnds(s, InsertWalk, "4", a1, a2);
    StepOfFourIsSize(0, a1, a2);
    var t := Insert(s, "4", value, a1, a2);
    assert t[MaxSize - 1] == Occupied("4", value);
    forall j: nat
      ensures !Stops(DeleteWalk, t[GetHash("4", MaxSize, j, a1, a2)], "4")
    {
      StepOfFourIsSize(j, a1, a2);
    }
  }
}
