/**
 * The generic open-addressing hash table of kernel/hash.c.
 * The first part gives meaning to a slot array; the class below updates one in place.
 */
module HashTable {
  import opened Wrappers
  import opened Arithmetic
  import opened ProbeSequence

  const HASH_MINSIZE: nat := 8

  /** EMPTY and DELETED slots hold no pair: the source clears their key and value. */
  datatype Slot<+K, +V> = Empty | Active(key: K, value: V, hash: nat) | Deleted

  /** The two callbacks; hash codes are the 32-bit words the probing loop computes with. */
  datatype Hasher<!K> = Hasher(hfunc: K -> nat, cmp: (K, K) -> bool)

  /** What callers owe: `cmp` is an equivalence and equivalent keys have equal hash codes. */
  ghost predicate Consistent<K(!new)>(h: Hasher<K>) {
    && (forall k :: h.hfunc(k) < TWO_32)
    && (forall k :: h.cmp(k, k))
    && (forall a, b :: h.cmp(a, b) ==> h.cmp(b, a) && h.hfunc(a) == h.hfunc(b))
    && (forall a, b, c :: h.cmp(a, b) && h.cmp(b, c) ==> h.cmp(a, c))
  }

  /** The test made on an ACTIVE slot: same pointer, or same hash code and equal keys. */
  predicate Matches<K(==), V>(h: Hasher<K>, slot: Slot<K, V>, key: K) {
    slot.Active? && (slot.key == key || (slot.hash == h.hfunc(key) && h.cmp(slot.key, key)))
  }

  // ---------------------------------------------------------------- meaning of a slot array

  predicate HasKey<K, V>(h: Hasher<K>, s: seq<Slot<K, V>>, key: K) {
    exists i :: 0 <= i < |s| && s[i].Active? && h.cmp(s[i].key, key)
  }

  /** The value bound to a key, up to `cmp`. */
  ghost function View<K, V>(h: Hasher<K>, s: seq<Slot<K, V>>, key: K): Option<V> {
    if HasKey(h, s, key) then
      var i :| 0 <= i < |s| && s[i].Active? && h.cmp(s[i].key, key);
      Some(s[i].value)
    else None
  }

  /** No EMPTY slot among the first n probes of a hash code. */
  ghost predicate Unbroken<K, V>(s: seq<Slot<K, V>>, hash: nat, n: nat)
    requires |s| > 0
  {
    forall m: nat :: m < n ==> !s[SlotAt(|s|, hash, m)].Empty?
  }

  ghost predicate OnPath<K, V>(s: seq<Slot<K, V>>, hash: nat, n: nat, i: nat)
    requires |s| > 0
  {
    SlotAt(|s|, hash, n) == i && Unbroken(s, hash, n)
  }

  ghost predicate Reachable<K, V>(s: seq<Slot<K, V>>, hash: nat, i: nat)
    requires |s| > 0
  {
    exists n: nat :: OnPath(s, hash, n, i)
  }

  ghost predicate NoDuplicates<K, V>(h: Hasher<K>, s: seq<Slot<K, V>>) {
    forall i, j :: 0 <= i < j < |s| && s[i].Active? && s[j].Active? ==> !h.cmp(s[i].key, s[j].key)
  }

  /** Stored hash codes are current and every pair can be found from its hash code. */
  ghost predicate Searchable<K, V>(h: Hasher<K>, s: seq<Slot<K, V>>)
    requires |s| > 0
  {
    forall i :: 0 <= i < |s| && s[i].Active? ==>
      s[i].hash == h.hfunc(s[i].key) && Reachable(s, s[i].hash, i)
  }

  ghost predicate Invariant<K(!new), V>(h: Hasher<K>, s: seq<Slot<K, V>>) {
    |s| > 0 && Consistent(h) && NoDuplicates(h, s) && Searchable(h, s)
  }

  /** Number of ACTIVE slots. */
  function Live<K, V>(s: seq<Slot<K, V>>): nat {
    if s == [] then 0 else (if s[|s| - 1].Active? then 1 else 0) + Live(s[..|s| - 1])
  }

  /** Number of slots that are ACTIVE or DELETED. */
  function Used<K, V>(s: seq<Slot<K, V>>): nat {
    if s == [] then 0 else (if s[|s| - 1].Empty? then 0 else 1) + Used(s[..|s| - 1])
  }

  lemma {:induction false} CountsAfterUpdate<K, V>(s: seq<Slot<K, V>>, i: nat, x: Slot<K, V>)
    requires i < |s|
    ensures Live(s[i := x]) + (if s[i].Active? then 1 else 0) == Live(s) + (if x.Active? then 1 else 0)
    ensures Used(s[i := x]) + (if s[i].Empty? then 0 else 1) == Used(s) + (if x.Empty? then 0 else 1)
  {
    var n := |s| - 1;
    var t := s[i := x];
    if i == n {
      assert t[..n] == s[..n];
    } else {
      CountsAfterUpdate(s[..n], i, x);
      assert t[..n] == s[..n][i := x];
    }
  }

  lemma {:induction false} CountsBounded<K, V>(s: seq<Slot<K, V>>)
    ensures Live(s) <= Used(s) <= |s|
    ensures Used(s) < |s| <==> exists i :: 0 <= i < |s| && s[i].Empty?
  {
    if s != [] {
      var n := |s| - 1;
      CountsBounded(s[..n]);
      if Used(s[..n]) < n {
        var i :| 0 <= i < |s[..n]| && s[..n][i].Empty?;
        assert s[i].Empty?;
      }
      if exists i :: 0 <= i < |s| && s[i].Empty? {
        var i :| 0 <= i < |s| && s[i].Empty?;
        assert i < n ==> s[..n][i].Empty?;
      }
    }
  }

  lemma {:induction false} LivePrefix<K, V>(s: seq<Slot<K, V>>, n: nat)
    requires n <= |s|
    ensures Live(s[..n]) <= Live(s)
  {
    if n < |s| {
      LivePrefix(s[..|s| - 1], n);
      assert s[..|s| - 1][..n] == s[..n];
    } else {
      assert s[..n] == s;
    }
  }

  lemma ViewIs<K(!new), V>(h: Hasher<K>, s: seq<Slot<K, V>>, key: K, i: nat)
    requires Consistent(h) && NoDuplicates(h, s)
    requires i < |s| && s[i].Active? && h.cmp(s[i].key, key)
    ensures View(h, s, key) == Some(s[i].value)
  {
    forall j | 0 <= j < |s| && s[j].Active? && h.cmp(s[j].key, key)
      ensures j == i
    {
      assert h.cmp(key, s[j].key) && h.cmp(key, s[i].key);
      assert h.cmp(s[i].key, s[j].key) && h.cmp(s[j].key, s[i].key);
    }
  }

  /** The pointer-or-hash test of the loop decides key equality. */
  lemma MatchesIsCmp<K(!new), V>(h: Hasher<K>, s: seq<Slot<K, V>>, i: nat, key: K)
    requires Invariant(h, s) && i < |s|
    ensures Matches(h, s[i], key) <==> s[i].Active? && h.cmp(s[i].key, key)
  {
  }

  /** An EMPTY slot on the unbroken path of a key's hash code shows the key is absent. */
  lemma AbsentAtEmpty<K(!new), V>(h: Hasher<K>, s: seq<Slot<K, V>>, key: K, n: nat)
    requires Invariant(h, s)
    requires s[SlotAt(|s|, h.hfunc(key), n)].Empty?
    requires forall m: nat :: m < n ==>
      var slot := s[SlotAt(|s|, h.hfunc(key), m)]; !(slot.Active? && h.cmp(slot.key, key))
    ensures !HasKey(h, s, key)
  {
    forall i | 0 <= i < |s| && s[i].Active? && s[i].hash == h.hfunc(key)
      ensures !h.cmp(s[i].key, key)
    {
      assert Reachable(s, s[i].hash, i);
      var p: nat :| OnPath(s, s[i].hash, p, i);
      assert p < n;
    }
  }

  /** Filling a reachable slot that holds no pair keeps the invariant and binds the key. */
  lemma Insert<K(!new), V>(h: Hasher<K>, s: seq<Slot<K, V>>, i: nat, key: K, value: V)
    requires Invariant(h, s) && i < |s| && !s[i].Active? && !HasKey(h, s, key)
    requires Reachable(s, h.hfunc(key), i)
    ensures var t := s[i := Active(key, value, h.hfunc(key))];
      Invariant(h, t)
      && forall k :: View(h, t, k) == if h.cmp(key, k) then Some(value) else View(h, s, k)
  {
    var t := s[i := Active(key, value, h.hfunc(key))];
    StillReachable(h, s, t);
    assert Reachable(t, h.hfunc(key), i) by {
      var n: nat :| OnPath(s, h.hfunc(key), n, i);
      assert OnPath(t, h.hfunc(key), n, i);
    }
    forall j | 0 <= j < |s| && j != i && t[j].Active?
      ensures !h.cmp(t[j].key, key) && !h.cmp(key, t[j].key)
    {
      assert s[j].Active?;
    }
    assert NoDuplicates(h, t);
    forall k
      ensures View(h, t, k) == if h.cmp(key, k) then Some(value) else View(h, s, k)
    {
      if h.cmp(key, k) {
        ViewIs(h, t, k, i);
      } else {
        SameView(h, s, t, i, k);
      }
    }
  }

  lemma StillReachable<K(!new), V>(h: Hasher<K>, s: seq<Slot<K, V>>, t: seq<Slot<K, V>>)
    requires Invariant(h, s) && |t| == |s|
    requires forall i :: 0 <= i < |s| && t[i].Empty? ==> s[i].Empty?
    ensures forall i :: 0 <= i < |s| && s[i].Active? ==> Reachable(t, s[i].hash, i)
  {
    forall i | 0 <= i < |s| && s[i].Active?
      ensures Reachable(t, s[i].hash, i)
    {
      var n: nat :| OnPath(s, s[i].hash, n, i);
      assert OnPath(t, s[i].hash, n, i);
    }
  }

  /** Changing one slot that does not concern key k leaves its view alone. */
  lemma SameView<K(!new), V>(h: Hasher<K>, s: seq<Slot<K, V>>, t: seq<Slot<K, V>>, i: nat, k: K)
    requires Consistent(h) && NoDuplicates(h, s) && NoDuplicates(h, t)
    requires i < |s| == |t| && t == s[i := t[i]]
    requires s[i].Active? ==> !h.cmp(s[i].key, k)
    requires t[i].Active? ==> !h.cmp(t[i].key, k)
    ensures View(h, t, k) == View(h, s, k)
  {
    if HasKey(h, s, k) {
      var j :| 0 <= j < |s| && s[j].Active? && h.cmp(s[j].key, k);
      ViewIs(h, s, k, j);
      ViewIs(h, t, k, j);
    } else {
      forall j | 0 <= j < |t| && t[j].Active?
        ensures !h.cmp(t[j].key, k)
      {
        assert j != i ==> s[j] == t[j];
      }
    }
  }

  /** Overwriting the value of an ACTIVE slot. */
  lemma Overwrite<K(!new), V>(h: Hasher<K>, s: seq<Slot<K, V>>, i: nat, key: K, value: V)
    requires Invariant(h, s) && i < |s| && s[i].Active? && h.cmp(s[i].key, key)
    ensures var t := s[i := s[i].(value := value)];
      Invariant(h, t)
      && forall k :: View(h, t, k) == if h.cmp(key, k) then Some(value) else View(h, s, k)
  {
    var t := s[i := s[i].(value := value)];
    StillReachable(h, s, t);
    assert NoDuplicates(h, t);
    forall k
      ensures View(h, t, k) == if h.cmp(key, k) then Some(value) else View(h, s, k)
    {
      if h.cmp(key, k) {
        ViewIs(h, t, k, i);
      } else {
        assert h.cmp(key, s[i].key);
        assert !h.cmp(s[i].key, k);
        SameView(h, s, t, i, k);
      }
    }
  }

  /** Turning an ACTIVE slot into a tombstone unbinds its key only. */
  lemma Erase<K(!new), V>(h: Hasher<K>, s: seq<Slot<K, V>>, i: nat, key: K)
    requires Invariant(h, s) && i < |s| && s[i].Active? && h.cmp(s[i].key, key)
    ensures var t := s[i := Deleted];
      Invariant(h, t)
      && forall k :: View(h, t, k) == if h.cmp(key, k) then None else View(h, s, k)
  {
    var t := s[i := Deleted];
    StillReachable(h, s, t);
    assert NoDuplicates(h, t);
    forall k
      ensures View(h, t, k) == if h.cmp(key, k) then None else View(h, s, k)
    {
      if h.cmp(key, k) {
        forall j | 0 <= j < |t| && t[j].Active?
          ensures !h.cmp(t[j].key, k)
        {
          assert s[j] == t[j];
          assert !h.cmp(t[j].key, s[i].key);
          assert h.cmp(k, s[i].key);
        }
      } else {
        assert h.cmp(key, s[i].key);
        assert !h.cmp(s[i].key, k);
        SameView(h, s, t, i, k);
      }
    }
  }

  // ---------------------------------------------------------------- termination of the search

  /** The n-th turn of the loop of `hash_lookup` returns. */
  ghost predicate StopsAt<K, V>(h: Hasher<K>, s: seq<Slot<K, V>>, key: K, n: nat)
    requires |s| > 0
  {
    var slot := s[SlotAt(|s|, h.hfunc(key), n)];
    slot.Empty? || Matches(h, slot, key)
  }

  predicate HasEmpty<K, V>(s: seq<Slot<K, V>>) {
    exists i :: 0 <= i < |s| && s[i].Empty?
  }

  ghost predicate IsTableSize(size: int) {
    exists k: nat :: 3 <= k <= 30 && size == Pow2(k)
  }

  /** A table that still has an EMPTY slot stops every search, present key or not. */
  lemma EmptySlotStops<K(!new), V>(h: Hasher<K>, s: seq<Slot<K, V>>, key: K) returns (n: nat)
    requires IsTableSize(|s|) && Consistent(h) && HasEmpty(s)
    ensures StopsAt(h, s, key, n) && n < 7 + |s|
  {
    var i :| 0 <= i < |s| && s[i].Empty?;
    var k: nat :| 3 <= k <= 30 && |s| == Pow2(k);
    n := VisitsEverySlot(k, h.hfunc(key), i);
  }

  /** The unbounded loop of `hash_lookup` returns exactly when an EMPTY slot is left or the key is bound. */
  lemma LookupTerminatesIff<K(!new), V>(h: Hasher<K>, s: seq<Slot<K, V>>, key: K)
    requires IsTableSize(|s|) && Invariant(h, s)
    ensures (exists n: nat :: StopsAt(h, s, key, n)) <==> HasEmpty(s) || HasKey(h, s, key)
  {
    if HasEmpty(s) {
      var n := EmptySlotStops(h, s, key);
    } else if HasKey(h, s, key) {
      var i :| 0 <= i < |s| && s[i].Active? && h.cmp(s[i].key, key);
      assert Reachable(s, s[i].hash, i);
      var n: nat :| OnPath(s, s[i].hash, n, i);
      assert StopsAt(h, s, key, n);
    } else {
      forall n: nat
        ensures !StopsAt(h, s, key, n)
      {
        MatchesIsCmp(h, s, SlotAt(|s|, h.hfunc(key), n), key);
      }
    }
  }

  ghost predicate AllActive<K, V>(s: seq<Slot<K, V>>, hash: nat, n: nat)
    requires |s| > 0
  {
    forall m: nat :: m < n ==> s[SlotAt(|s|, hash, m)].Active?
  }

  /** The first slot on a key's path that holds no pair: where an insertion goes. */
  ghost predicate FirstVacant<K, V>(s: seq<Slot<K, V>>, hash: nat, n: nat, i: nat)
    requires |s| > 0
  {
    SlotAt(|s|, hash, n) == i < |s| && !s[i].Active? && AllActive(s, hash, n)
  }

  /** After n turns without a return: nothing stopped the loop and `free` is the first tombstone met, or -1. */
  ghost predicate Searching<K, V>(h: Hasher<K>, s: seq<Slot<K, V>>, key: K, n: nat, free: int)
    requires |s| > 0
  {
    && (forall m: nat :: m < n ==> !StopsAt(h, s, key, m))
    && if free == -1 then AllActive(s, h.hfunc(key), n)
       else free >= 0 && exists m: nat :: FirstVacant(s, h.hfunc(key), m, free)
  }

  lemma SearchContinues<K(!new), V>(h: Hasher<K>, s: seq<Slot<K, V>>, key: K, n: nat, free: int)
    requires |s| > 0 && Searching(h, s, key, n, free) && !StopsAt(h, s, key, n)
    ensures var slot := SlotAt(|s|, h.hfunc(key), n);
      Searching(h, s, key, n + 1, if s[slot].Deleted? && free == -1 then slot else free)
  {
    var slot := SlotAt(|s|, h.hfunc(key), n);
    if s[slot].Deleted? && free == -1 {
      assert FirstVacant(s, h.hfunc(key), n, slot);
    }
  }

  lemma SearchFails<K(!new), V>(h: Hasher<K>, s: seq<Slot<K, V>>, key: K, n: nat, free: int)
    requires Invariant(h, s) && Searching(h, s, key, n, free)
    requires s[SlotAt(|s|, h.hfunc(key), n)].Empty?
    ensures View(h, s, key).None?
    ensures var i := if free == -1 then SlotAt(|s|, h.hfunc(key), n) else free;
      exists m: nat :: FirstVacant(s, h.hfunc(key), m, i)
  {
    forall m: nat | m < n
      ensures var slot := s[SlotAt(|s|, h.hfunc(key), m)]; !(slot.Active? && h.cmp(slot.key, key))
    {
      assert !StopsAt(h, s, key, m);
      MatchesIsCmp(h, s, SlotAt(|s|, h.hfunc(key), m), key);
    }
    AbsentAtEmpty(h, s, key, n);
    if free == -1 {
      assert FirstVacant(s, h.hfunc(key), n, SlotAt(|s|, h.hfunc(key), n));
    }
  }

  /** The first slot on the key's path that holds no pair is a tombstone. */
  ghost predicate ReusesTombstone<K, V>(h: Hasher<K>, s: seq<Slot<K, V>>, key: K)
    requires |s| > 0
  {
    exists n: nat, i: nat :: FirstVacant(s, h.hfunc(key), n, i) && s[i].Deleted?
  }

  /** There is one such slot only. */
  lemma FirstVacantTells<K(!new), V>(h: Hasher<K>, s: seq<Slot<K, V>>, key: K, i: nat)
    requires |s| > 0 && exists n: nat :: FirstVacant(s, h.hfunc(key), n, i)
    ensures i < |s| && (ReusesTombstone(h, s, key) <==> s[i].Deleted?)
  {
    var n: nat :| FirstVacant(s, h.hfunc(key), n, i);
    forall n': nat, i': nat | FirstVacant(s, h.hfunc(key), n', i')
      ensures i' == i
    {
    }
  }

  /** A table without tombstones. */
  lemma {:induction false} NoTombstones<K(!new), V>(s: seq<Slot<K, V>>)
    ensures Used(s) >= Live(s)
    ensures Used(s) == Live(s) ==> forall i :: 0 <= i < |s| ==> !s[i].Deleted?
  {
    if s != [] {
      NoTombstones(s[..|s| - 1]);
      assert forall i :: 0 <= i < |s| - 1 ==> s[..|s| - 1][i] == s[i];
    }
  }

  /** hash_update cannot do its work: the doubled size is no long, or memory for a resize that is due is refused. */
  predicate ResizeFails(fill: nat, count: nat, size: nat, allocOk: bool) {
    if 3 * fill >= 2 * size then 2 * size > 0x7fff_ffff || !allocOk
    else size > HASH_MINSIZE && 4 * count <= size && !allocOk
  }

  /** The size that hash_update leaves: twice as much from two thirds in use on, half as much up to a quarter live. */
  function SizeAfter(fill: nat, count: nat, size: nat): nat {
    if 3 * fill >= 2 * size then 2 * size else if size > 8 && 4 * count <= size then size / 2 else size
  }

  // ---------------------------------------------------------------- the table

  class Table<K(!new, ==), V> {
    var fill: nat
    var count: nat
    var mask: nat
    var table: array<Slot<K, V>>
    const hasher: Hasher<K>

    ghost predicate Valid()
      reads this, table
    {
      && table.Length == mask + 1
      && IsTableSize(table.Length)
      && Invariant(hasher, table[..])
      && count == Live(table[..])
      && fill == Used(table[..])
    }

    /** The load bound that hash_update restores: under two thirds of the slots are used. */
    predicate Loaded()
      reads this
    {
      3 * fill < 2 * (mask + 1)
    }

    /** The finite map the table stands for. */
    ghost function Binding(key: K): Option<V>
      reads this, table
    {
      View(hasher, table[..], key)
    }

    /** An insertion uses one more slot unless it takes over a tombstone. */
    ghost function NewlyUsed(key: K): nat
      requires table.Length > 0
      reads this, table
    {
      if ReusesTombstone(hasher, table[..], key) then 0 else 1
    }

    /** hash_lookup: the slot of the key, else the first slot of its path where it can be put. */
    method Lookup(key: K, hash: nat) returns (found: nat)
      requires Valid() && hash == hasher.hfunc(key)
      requires HasEmpty(table[..]) || HasKey(hasher, table[..], key)
      ensures found < table.Length
      ensures Binding(key).Some? <==> table[found].Active?
      ensures Binding(key).Some? ==> hasher.cmp(table[found].key, key) && Binding(key).value == table[found].value
      ensures Binding(key).None? ==> exists n: nat :: FirstVacant(table[..], hash, n, found)
    {
      ghost var s := table[..];
      LookupTerminatesIff(hasher, s, key);
      ghost var last: nat :| StopsAt(hasher, s, key, last);
      FirstTurn(mask + 1, hash);
      var index: nat := hash % (mask + 1);
      var perturb: nat := hash;
      var slot: nat := index;
      var freeslot: int := -1;
      ghost var n: nat := 0;
      while true
        invariant n <= last && StopsAt(hasher, s, key, last)
        invariant ProbeAt(|s|, hash, n) == Probe(index, perturb)
        invariant slot == SlotAt(|s|, hash, n)
        invariant Searching(hasher, s, key, n, freeslot)
        decreases last - n
      {
        MatchesIsCmp(hasher, s, slot, key);
        if table[slot].Empty? {
          SearchFails(hasher, s, key, n, freeslot);
          return if freeslot == -1 then slot else freeslot;
        }
        if Matches(hasher, table[slot], key) {
          ViewIs(hasher, s, key, slot);
          return slot;
        }
        SearchContinues(hasher, s, key, n, freeslot);
        if table[slot].Deleted? && freeslot == -1 {
          freeslot := slot;
        }
        NextTurn(mask + 1, hash, n, index, perturb);
        index := (5 * index + perturb + 1) % TWO_32;
        slot := index % (mask + 1);
        perturb := perturb / 32;
        n := n + 1;
      }
    }

    /** hash_initialize: a fresh table of EMPTY slots, or -1 and no change when memory is refused. */
    method Initialize(size: nat, allocOk: bool) returns (rc: int)
      requires IsTableSize(size) && Consistent(hasher)
      modifies this
      ensures !allocOk ==> rc == -1 && unchanged(this)
      ensures allocOk ==> rc == 0 && fresh(table) && Valid() && table.Length == size
      ensures allocOk ==> fill == count == 0 && forall i :: 0 <= i < size ==> table[i].Empty?
    {
      if !allocOk {
        return -1;
      }
      var slots := new Slot<K, V>[size];
      fill, count, mask, table := 0, 0, size - 1, slots;
      for i := 0 to size
        invariant table == slots && fill == count == 0 && mask == size - 1
        invariant forall j :: 0 <= j < i ==> table[j].Empty?
      {
        table[i] := Empty;
      }
      EmptyTable(hasher, table[..]);
      return 0;
    }

    /** A hash_t before hash_init. The callbacks are known from the start: hash_initialize does not use them. */
    constructor (hasher: Hasher<K>)
      ensures fresh(table) && this.hasher == hasher
    {
      this.hasher := hasher;
      fill, count, mask := 0, 0, 0;
      table := new Slot<K, V>[0];
    }

    /** hash_init: an empty table of the least size, or -1 and no change when memory is refused. */
    method Init(allocOk: bool) returns (rc: int)
      requires Consistent(hasher)
      modifies this
      ensures rc == if allocOk then 0 else -1
      ensures !allocOk ==> unchanged(this)
      ensures allocOk ==> Valid() && fresh(table) && Loaded() && table.Length == 8 && fill == count == 0
      ensures allocOk ==> forall k :: Binding(k) == None
    {
      assert HASH_MINSIZE == Pow2(3);
      rc := Initialize(HASH_MINSIZE, allocOk);
      if allocOk {
        EmptyTable(hasher, table[..]);
      }
    }

    /** hash_copy: reinserts the ACTIVE slots of an old table, dropping its tombstones. */
    method Copy(oldTable: array<Slot<K, V>>)
      requires Valid() && oldTable != table && Invariant(hasher, oldTable[..])
      requires fill == count == 0 && forall i :: 0 <= i < table.Length ==> table[i].Empty?
      requires Live(oldTable[..]) < table.Length
      modifies this`fill, this`count, table
      ensures Valid() && fill == count == Live(oldTable[..])
      ensures forall k :: Binding(k) == View(hasher, oldTable[..], k)
    {
      ghost var old_ := oldTable[..];
      EmptyTable(hasher, table[..]);
      for i := 0 to oldTable.Length
        invariant Valid() && oldTable[..] == old_
        invariant fill == count == Live(old_[..i])
        invariant forall j :: 0 <= j < table.Length ==> !table[j].Deleted?
        invariant forall k :: Binding(k) == View(hasher, old_[..i], k)
      {
        if oldTable[i].Active? {
          CopyOne(oldTable[i], old_, i);
        }
        assert old_[..i + 1][..i] == old_[..i];
        forall k
          ensures Binding(k) == View(hasher, old_[..i + 1], k)
        {
          ViewPrefix(hasher, old_, i, k);
        }
      }
      assert old_[..oldTable.Length] == old_;
    }

    /** The body of the loop of hash_copy for an ACTIVE slot. */
    method CopyOne(slot: Slot<K, V>, ghost old_: seq<Slot<K, V>>, ghost i: nat)
      requires Valid() && Invariant(hasher, old_)
      requires i < |old_| && slot == old_[i] && slot.Active?
      requires fill == count == Live(old_[..i]) && Live(old_) < table.Length
      requires forall j :: 0 <= j < table.Length ==> !table[j].Deleted?
      requires forall k :: Binding(k) == View(hasher, old_[..i], k)
      modifies this`fill, this`count, table
      ensures Valid() && fill == count == old(count) + 1
      ensures forall j :: 0 <= j < table.Length ==> !table[j].Deleted?
      ensures forall k :: Binding(k) == if hasher.cmp(slot.key, k) then Some(slot.value) else old(Binding(k))
    {
      ghost var s := table[..];
      LivePrefix(old_, i);
      CountsBounded(s);
      var found := Lookup(slot.key, hasher.hfunc(slot.key));
      assert View(hasher, old_[..i], slot.key).None?;
      VacantIsReachable(hasher, s, slot.key, found);
      Insert(hasher, s, found, slot.key, slot.value);
      CountsAfterUpdate(s, found, slot);
      table[found] := slot;
      assert table[..] == s[found := slot];
      fill := fill + 1;
      count := count + 1;
    }

    /** hash_update: doubles a table two thirds full, halves one that is a quarter live. */
    method Update(allocOk: bool) returns (rc: int)
      requires Valid()
      modifies this
      ensures Valid() && (table == old(table) || fresh(table))
      ensures forall k :: Binding(k) == old(Binding(k))
      ensures count == old(count)
      ensures rc == if ResizeFails(old(fill), old(count), old(mask) + 1, allocOk) then -1 else 0
      ensures rc == 0 ==> mask + 1 == SizeAfter(old(fill), old(count), old(mask) + 1)
      ensures rc == 0 ==> fill == if mask == old(mask) then old(fill) else count
      ensures rc == 0 ==> Loaded()
      ensures rc == -1 ==> unchanged(this) && (!Loaded() || 4 * count <= mask + 1)
      ensures fill <= old(fill)
    {
      ghost var s := table[..];
      CountsBounded(s);
      var oldSize := mask + 1;
      var newSize := oldSize;
      if 3 * fill >= 2 * oldSize {
        newSize := oldSize * 2;
        if newSize > 0x7fff_ffff {
          return -1;
        }
        DoubleSize(oldSize);
      } else if oldSize > HASH_MINSIZE && 4 * count <= oldSize {
        newSize := oldSize / 2;
        HalfSize(oldSize);
      } else {
        return 0;
      }
      var oldTable := table;
      var ok := Initialize(newSize, allocOk);
      if ok == -1 {
        return -1;
      }
      assert oldTable[..] == s;
      Copy(oldTable);
      return 0;
    }

    /** hash_isset */
    method Isset(key: K) returns (r: bool)
      requires Valid()
      requires HasEmpty(table[..]) || HasKey(hasher, table[..], key)
      ensures r <==> Binding(key).Some?
    {
      var slot := Lookup(key, hasher.hfunc(key));
      return table[slot].Active?;
    }

    /** hash_get */
    method Get(key: K, default: V) returns (r: V)
      requires Valid()
      requires HasEmpty(table[..]) || HasKey(hasher, table[..], key)
      ensures r == match Binding(key) case Some(v) => v case None => default
    {
      var slot := Lookup(key, hasher.hfunc(key));
      if table[slot].Active? {
        return table[slot].value;
      }
      return default;
    }

    /** hash_set: the pair is bound also when -1 is returned, which says that a resize was due and failed. */
    method Set(key: K, value: V, allocOk: bool) returns (rc: int)
      requires Valid()
      requires HasEmpty(table[..]) || HasKey(hasher, table[..], key)
      modifies this, table
      ensures Valid() && (table == old(table) || fresh(table))
      ensures forall k :: Binding(k) == if hasher.cmp(key, k) then Some(value) else old(Binding(k))
      ensures count == old(count) + if old(Binding(key)).Some? then 0 else 1
      ensures old(Binding(key)).Some? ==> rc == 0
      ensures old(Binding(key)).None? ==>
        rc == if ResizeFails(old(fill) + old(NewlyUsed(key)), old(count) + 1, old(mask) + 1, allocOk) then -1 else 0
      ensures mask + 1 == if old(Binding(key)).Some? || rc == -1 then old(mask) + 1
                          else SizeAfter(old(fill) + old(NewlyUsed(key)), old(count) + 1, old(mask) + 1)
      ensures rc == 0 && (old(Loaded()) || old(Binding(key)).None?) ==> Loaded()
      ensures fill <= old(fill) + 1
    {
      var hash := hasher.hfunc(key);
      var slot := Lookup(key, hash);
      if table[slot].Active? {
        Replace(slot, key, value);
        return 0;
      }
      rc := Add(slot, key, value, hash, allocOk);
    }

    /** The part of hash_set for a key that is not bound. */
    method Add(slot: nat, key: K, value: V, hash: nat, allocOk: bool) returns (rc: int)
      requires Valid() && Binding(key).None? && hash == hasher.hfunc(key)
      requires slot < table.Length && exists n: nat :: FirstVacant(table[..], hash, n, slot)
      modifies this, table
      ensures Valid() && (table == old(table) || fresh(table))
      ensures forall k :: Binding(k) == if hasher.cmp(key, k) then Some(value) else old(Binding(k))
      ensures count == old(count) + 1
      ensures rc == if ResizeFails(old(fill) + old(NewlyUsed(key)), old(count) + 1, old(mask) + 1, allocOk) then -1
        else 0
      ensures mask + 1 == if rc == 0 then SizeAfter(old(fill) + old(NewlyUsed(key)), old(count) + 1, old(mask) + 1)
                          else old(mask) + 1
      ensures rc == 0 ==> Loaded()
      ensures fill <= old(fill) + 1
    {
      Occupy(slot, key, value, hash);
      ghost var used, live, size := fill, count, mask + 1;
      assert used == old(fill) + old(NewlyUsed(key)) && live == old(count) + 1 && size == old(mask) + 1;
      rc := Update(allocOk);
      assert mask + 1 == if rc == 0 then SizeAfter(used, live, size) else size;
    }

    /** The slot of the key gets another value. */
    method Replace(slot: nat, key: K, value: V)
      requires Valid() && slot < table.Length && table[slot].Active? && hasher.cmp(table[slot].key, key)
      modifies table
      ensures Valid() && forall k :: Binding(k) == if hasher.cmp(key, k) then Some(value) else old(Binding(k))
    {
      ghost var s := table[..];
      Overwrite(hasher, s, slot, key, value);
      CountsAfterUpdate(s, slot, s[slot].(value := value));
      table[slot] := table[slot].(value := value);
      assert table[..] == s[slot := s[slot].(value := value)];
    }

    /** The first vacant slot of the key's path gets the pair. */
    method Occupy(slot: nat, key: K, value: V, hash: nat)
      requires Valid() && Binding(key).None? && hash == hasher.hfunc(key)
      requires slot < table.Length && exists n: nat :: FirstVacant(table[..], hash, n, slot)
      modifies this`fill, this`count, table
      ensures Valid() && forall k :: Binding(k) == if hasher.cmp(key, k) then Some(value) else old(Binding(k))
      ensures count == old(count) + 1 && fill == old(fill) + old(NewlyUsed(key))
    {
      ghost var s := table[..];
      FirstVacantTells(hasher, s, key, slot);
      VacantIsReachable(hasher, s, key, slot);
      Insert(hasher, s, slot, key, value);
      CountsAfterUpdate(s, slot, Active(key, value, hash));
      count := count + 1;
      if table[slot].Empty? {
        fill := fill + 1;
      }
      table[slot] := Active(key, value, hash);
      assert table[..] == s[slot := Active(key, value, hash)];
    }

    /** hash_del */
    method Del(key: K, allocOk: bool) returns (rc: int)
      requires Valid()
      requires HasEmpty(table[..]) || HasKey(hasher, table[..], key)
      modifies this, table
      ensures Valid() && (table == old(table) || fresh(table))
      ensures forall k :: Binding(k) == if hasher.cmp(key, k) then None else old(Binding(k))
      ensures count == old(count) - if old(Binding(key)).Some? then 1 else 0
      ensures rc == if old(Binding(key)).Some?
        && ResizeFails(old(fill), old(count) - 1, old(mask) + 1, allocOk) then -1 else 0
      ensures mask + 1 == if old(Binding(key)).None? || rc == -1 then old(mask) + 1
                          else SizeAfter(old(fill), old(count) - 1, old(mask) + 1)
      ensures rc == 0 && (old(Loaded()) || old(Binding(key)).Some?) ==> Loaded()
      ensures fill <= old(fill)
    {
      ghost var s := table[..];
      var slot := Lookup(key, hasher.hfunc(key));
      if !table[slot].Active? {
        NoneForEquivalent(hasher, s, key);
        return 0;
      }
      Erase(hasher, s, slot, key);
      CountsAfterUpdate(s, slot, Deleted);
      table[slot] := Deleted;
      assert table[..] == s[slot := Deleted];
      count := count - 1;
      rc := Update(allocOk);
    }
  }

  lemma NoneForEquivalent<K(!new), V>(h: Hasher<K>, s: seq<Slot<K, V>>, key: K)
    requires Consistent(h) && !HasKey(h, s, key)
    ensures forall k :: h.cmp(key, k) ==> View(h, s, k) == None
  {
    forall k, i | h.cmp(key, k) && 0 <= i < |s| && s[i].Active?
      ensures !h.cmp(s[i].key, k)
    {
      assert h.cmp(k, key);
    }
  }

  lemma DoubleSize(size: nat)
    requires IsTableSize(size) && 2 * size <= 0x7fff_ffff
    ensures IsTableSize(2 * size)
  {
    var k: nat :| 3 <= k <= 30 && size == Pow2(k);
    Pow2Is32();
    assert Pow2(32) == 2 * Pow2(31) && Pow2(31) == 2 * Pow2(30);
    assert k != 30;
    assert 2 * size == Pow2(k + 1);
  }

  lemma HalfSize(size: nat)
    requires IsTableSize(size) && size > HASH_MINSIZE
    ensures IsTableSize(size / 2)
  {
    var k: nat :| 3 <= k <= 30 && size == Pow2(k);
    assert Pow2(3) == 8;
    assert size / 2 == Pow2(k - 1);
  }

  lemma {:induction false} EmptyTable<K(!new), V>(h: Hasher<K>, s: seq<Slot<K, V>>)
    requires forall i :: 0 <= i < |s| ==> s[i].Empty?
    ensures Live(s) == Used(s) == 0
    ensures |s| > 0 && Consistent(h) ==> Invariant(h, s)
    ensures forall k :: View(h, s, k) == None
  {
    if s != [] {
      EmptyTable(h, s[..|s| - 1]);
    }
  }

  lemma VacantIsReachable<K(!new), V>(h: Hasher<K>, s: seq<Slot<K, V>>, key: K, i: nat)
    requires |s| > 0 && exists n: nat :: FirstVacant(s, h.hfunc(key), n, i)
    ensures i < |s| && Reachable(s, h.hfunc(key), i)
  {
    var n: nat :| FirstVacant(s, h.hfunc(key), n, i);
    assert OnPath(s, h.hfunc(key), n, i);
  }

  lemma ViewPrefix<K(!new), V>(h: Hasher<K>, s: seq<Slot<K, V>>, i: nat, k: K)
    requires Consistent(h) && NoDuplicates(h, s) && i < |s|
    ensures View(h, s[..i + 1], k) ==
      if s[i].Active? && h.cmp(s[i].key, k) then Some(s[i].value) else View(h, s[..i], k)
  {
    var a, b := s[..i], s[..i + 1];
    if s[i].Active? && h.cmp(s[i].key, k) {
      ViewIs(h, b, k, i);
    } else if HasKey(h, a, k) {
      var j :| 0 <= j < |a| && a[j].Active? && h.cmp(a[j].key, k);
      ViewIs(h, a, k, j);
      ViewIs(h, b, k, j);
    } else {
      forall j | 0 <= j < |b| && b[j].Active?
        ensures !h.cmp(b[j].key, k)
      {
        assert j < i ==> a[j] == b[j];
      }
    }
  }


  /** A table within its load bound always has an EMPTY slot, so that every search returns. */
  lemma LoadedHasEmpty<K(!new), V>(t: Table<K, V>)
    requires t.Valid() && t.Loaded()
    ensures HasEmpty(t.table[..])
  {
    CountsBounded(t.table[..]);
  }

  // ---------------------------------------------------------------- whole runs

  datatype Op<+K, +V> =
    | OpSet(key: K, value: V)
    | OpDel(key: K)
    | OpGet(key: K, default: V)
    | OpIsset(key: K)

  datatype Answer<+V> = Code(rc: int) | Value(value: V) | Present(isset: bool)

  /** The binding of a key after an operation, given the one before. */
  function After<K, V>(h: Hasher<K>, op: Op<K, V>, key: K, before: Option<V>): Option<V> {
    match op
    case OpSet(k, v) => if h.cmp(k, key) then Some(v) else before
    case OpDel(k) => if h.cmp(k, key) then None else before
    case _ => before
  }

  /** What an operation may return, given the binding of its key: a -1 of set and del only tells of refused memory. */
  ghost predicate Answers<K, V>(op: Op<K, V>, binding: Option<V>, granted: bool, answer: Answer<V>) {
    match op
    case OpSet(_, _) => answer == Code(0) || (answer == Code(-1) && !granted)
    case OpDel(_) => answer == Code(0) || (answer == Code(-1) && !granted)
    case OpGet(_, default) => answer == Value(match binding case Some(v) => v case None => default)
    case OpIsset(_) => answer == Present(binding.Some?)
  }

  /** What a finite map holds for a key after a run. */
  function BindingAfter<K, V>(h: Hasher<K>, ops: seq<Op<K, V>>, key: K): Option<V> {
    if ops == [] then None
    else After(h, ops[|ops| - 1], key, BindingAfter(h, ops[..|ops| - 1], key))
  }

  /** hash_lookup returns for this key. */
  predicate SearchEnds<K, V>(h: Hasher<K>, s: seq<Slot<K, V>>, key: K) {
    HasEmpty(s) || HasKey(h, s, key)
  }

  /** One call, for which memory is granted or refused. */
  method Perform<K(!new, ==), V>(t: Table<K, V>, op: Op<K, V>, granted: bool) returns (answer: Answer<V>)
    requires t.Valid() && SearchEnds(t.hasher, t.table[..], op.key) && t.table.Length < 0x1000_0000
    modifies t, t.table
    ensures t.Valid() && (t.table == old(t.table) || fresh(t.table))
    ensures granted && old(t.Loaded()) ==> t.Loaded()
    ensures t.fill <= old(t.fill) + 1
    ensures t.table.Length <= Max(old(t.table.Length), 3 * (old(t.fill) + 1))
    ensures forall k :: t.Binding(k) == After(t.hasher, op, k, old(t.Binding(k)))
    ensures Answers(op, old(t.Binding(op.key)), granted, answer)
  {
    NeverFails(t.mask + 1);
    SizeBound(t.fill, t.fill + 1, t.mask + 1);
    match op {
      case OpSet(k, v) => var rc := t.Set(k, v, granted); answer := Code(rc);
      case OpDel(k) => var rc := t.Del(k, granted); answer := Code(rc);
      case _ => answer := Query(t, op);
    }
  }

  /** A table grows only from two thirds in use on, and is then no larger than three times its slots in use. */
  lemma SizeBound(fill: nat, fill': nat, size: nat)
    requires fill' == fill + 1
    ensures forall count: nat :: SizeAfter(fill, count, size) <= Max(size, 3 * fill')
    ensures forall count: nat :: SizeAfter(fill', count, size) <= Max(size, 3 * fill')
  {
  }

  /** A table of this size can always be resized when memory is granted. */
  lemma NeverFails(size: nat)
    requires size < 0x1000_0000
    ensures forall fill: nat, count: nat :: !ResizeFails(fill, count, size, true)
  {
  }

  /** A call that changes nothing. */
  method Query<K(!new, ==), V>(t: Table<K, V>, op: Op<K, V>) returns (answer: Answer<V>)
    requires t.Valid() && SearchEnds(t.hasher, t.table[..], op.key) && (op.OpGet? || op.OpIsset?)
    ensures forall granted :: Answers(op, t.Binding(op.key), granted, answer)
  {
    match op {
      case OpGet(k, d) => var v := t.Get(k, d); answer := Value(v);
      case OpIsset(k) => var b := t.Isset(k); answer := Present(b);
    }
  }

  lemma BindingAfterStep<K, V>(h: Hasher<K>, ops: seq<Op<K, V>>, i: nat, key: K)
    requires i < |ops|
    ensures BindingAfter(h, ops[..i + 1], key) == After(h, ops[i], key, BindingAfter(h, ops[..i], key))
  {
    assert ops[..i + 1][..i] == ops[..i];
  }

  /** Every answer so far is one the finite map gives after the operations before it. */
  ghost predicate Agrees<K, V>(h: Hasher<K>, ops: seq<Op<K, V>>, granted: seq<bool>, answers: seq<Answer<V>>)
    requires |granted| == |ops|
  {
    |answers| <= |ops|
    && forall i :: 0 <= i < |answers| ==>
      Answers(ops[i], BindingAfter(h, ops[..i], ops[i].key), granted[i], answers[i])
  }

  /** Memory has been granted for the first n operations. */
  ghost predicate Granted(granted: seq<bool>, n: nat) {
    forall i :: 0 <= i < n && i < |granted| ==> granted[i]
  }

  lemma AgreesOn<K, V>(h: Hasher<K>, ops: seq<Op<K, V>>, granted: seq<bool>, answers: seq<Answer<V>>, answer: Answer<V>)
    requires |granted| == |ops| && |answers| < |ops| && Agrees(h, ops, granted, answers)
    requires var i := |answers|; Answers(ops[i], BindingAfter(h, ops[..i], ops[i].key), granted[i], answer)
    ensures Agrees(h, ops, granted, answers + [answer])
  {
  }

  lemma LoadedEnds<K(!new), V>(t: Table<K, V>, key: K)
    requires t.Valid()
    ensures t.Loaded() ==> SearchEnds(t.hasher, t.table[..], key)
  {
    if t.Loaded() {
      LoadedHasEmpty(t);
    }
  }

  lemma NeverEnds<K(!new), V>(t: Table<K, V>, key: K)
    requires t.Valid() && !SearchEnds(t.hasher, t.table[..], key)
    ensures forall n: nat :: !StopsAt(t.hasher, t.table[..], key, n)
  {
    LookupTerminatesIff(t.hasher, t.table[..], key);
  }

  /** One operation more. */
  method RunTurn<K(!new, ==), V>(t: Table<K, V>, ops: seq<Op<K, V>>, granted: seq<bool>, answers: seq<Answer<V>>)
    returns (answers': seq<Answer<V>>)
    requires t.Valid() && t.table.Length < 0x1000_0000 && |granted| == |ops| && |answers| < |ops|
    requires SearchEnds(t.hasher, t.table[..], ops[|answers|].key) && Agrees(t.hasher, ops, granted, answers)
    requires forall k :: t.Binding(k) == BindingAfter(t.hasher, ops[..|answers|], k)
    modifies t, t.table
    ensures t.Valid() && (t.table == old(t.table) || fresh(t.table))
    ensures granted[|answers|] && old(t.Loaded()) ==> t.Loaded()
    ensures t.fill <= old(t.fill) + 1
    ensures t.table.Length <= Max(old(t.table.Length), 3 * (old(t.fill) + 1))
    ensures |answers'| == |answers| + 1 && Agrees(t.hasher, ops, granted, answers')
    ensures forall k :: t.Binding(k) == BindingAfter(t.hasher, ops[..|answers'|], k)
  {
    ghost var i := |answers|;
    var answer := Perform(t, ops[|answers|], granted[|answers|]);
    AgreesOn(t.hasher, ops, granted, answers, answer);
    answers' := answers + [answer];
    forall k
      ensures t.Binding(k) == BindingAfter(t.hasher, ops[..i + 1], k)
    {
      BindingAfterStep(t.hasher, ops, i, k);
    }
  }

  /**
   * Any run from hash_init answers as a finite map would, whatever resizing and tombstones it goes
   * through. It comes to an end early only in a search that never returns, and only after memory
   * has been refused. With this many operations no table has 2^28 slots, whose size in bytes wraps.
   */
  method Run<K(!new, ==),
    V>(h: Hasher<K>, ops: seq<Op<K, V>>, granted: seq<bool>) returns (answers: seq<Answer<V>>, t: Table<K, V>)
    requires Consistent(h) && |granted| == |ops| <= 0x555_5555
    ensures t.Valid() && t.hasher == h && Agrees(h, ops, granted, answers)
    ensures Granted(granted, |ops|) ==> |answers| == |ops|
    ensures |answers| < |ops| ==> forall n: nat :: !StopsAt(h, t.table[..], ops[|answers|].key, n)
    ensures forall k :: t.Binding(k) == BindingAfter(h, ops[..|answers|], k)
  {
    t := new Table<K, V>(h);
    var rc := t.Init(true);
    answers := [];
    for i := 0 to |ops|
      invariant t.Valid() && fresh(t) && fresh(t.table) && t.hasher == h
      invariant Granted(granted, i) ==> t.Loaded()
      invariant t.fill <= i && (t.table.Length <= HASH_MINSIZE || t.table.Length <= 3 * i)
      invariant |answers| == i && Agrees(h, ops, granted, answers)
      invariant forall k :: t.Binding(k) == BindingAfter(h, ops[..i], k)
    {
      LoadedEnds(t, ops[i].key);
      if !SearchEnds(h, t.table[..], ops[i].key) {
        NeverEnds(t, ops[i].key);
        return;
      }
      answers := RunTurn(t, ops, granted, answers);
    }
    assert ops[..|ops|] == ops;
  }

  // ---------------------------------------------------------------- refused memory

  /** Numbers as keys. */
  function NumberHasher(): Hasher<nat> {
    Hasher(k => k % TWO_32, (a, b) => a == b)
  }

  /** A table of the least size that binds the first n numbers to themselves. */
  ghost predicate Counting(t: Table<nat, nat>, n: nat)
    reads t, t.table
  {
    && t.Valid() && t.hasher == NumberHasher() && t.table.Length == HASH_MINSIZE && t.fill == t.count == n
    && forall k: nat :: t.Binding(k) == if k < n then Some(k) else None
  }

  /** One more pair, while the load bound allows it. */
  method CountOn(t: Table<nat, nat>, n: nat)
    requires Counting(t, n) && n < 5
    modifies t, t.table
    ensures Counting(t, n + 1) && (t.table == old(t.table) || fresh(t.table))
  {
    LoadedHasEmpty(t);
    var rc := t.Set(n, n, true);
    NoTombstones(t.table[..]);
    SizeBound(n, n + 1, HASH_MINSIZE);
    SmallestSize(t.table.Length);
  }

  /**
   * Five pairs fill a new table up to its load bound; the sixth is bound although memory for the
   * larger table is refused and hash_set returns -1.
   */
  method RefusedYetBound() returns (t: Table<nat, nat>, rc: int)
    ensures fresh(t) && t.Valid() && rc == -1
    ensures forall k: nat :: t.Binding(k) == if k < 6 then Some(k) else None
  {
    t := new Table<nat, nat>(NumberHasher());
    rc := t.Init(true);
    for i := 0 to 5
      invariant fresh(t) && fresh(t.table) && Counting(t, i)
    {
      CountOn(t, i);
    }
    rc := RefuseNext(t);
  }

  method RefuseNext(t: Table<nat, nat>) returns (rc: int)
    requires Counting(t, 5)
    modifies t, t.table
    ensures t.Valid() && rc == -1
    ensures forall k: nat :: t.Binding(k) == if k < 6 then Some(k) else None
  {
    LoadedHasEmpty(t);
    NoTombstones(t.table[..]);
    rc := t.Set(5, 5, false);
  }

  /** There is no size between 8 and 16. */
  lemma SmallestSize(size: nat)
    requires IsTableSize(size) && size < 2 * HASH_MINSIZE
    ensures size == HASH_MINSIZE
  {
    var k: nat :| 3 <= k <= 30 && size == Pow2(k);
    assert Pow2(3) == 8 && Pow2(4) == 16;
    if k > 3 {
      Pow2Monotone(4, k);
    }
  }
}
