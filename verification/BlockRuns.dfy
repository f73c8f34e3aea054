/**
 * Any run of requests, releases and writes by clients of the allocator (shared/malloc.c) that free a
 * block once and write inside the bytes they asked for: every block they hold is theirs alone and
 * keeps what was last written to it, whatever the allocator does in between.
 */
module BlockRuns {
  import opened BinIndex
  import opened BoundaryTags
  import opened AllocatorState
  import opened AllocatorSteps
  import opened FitSearch
  import opened Malloc

  /** Clients name blocks by the number of the request that gave them. */
  datatype Op =
    | Request(bytes: nat)
    | Release(slot: nat)
    | Write(slot: nat, offset: nat, value: nat)

  /** What a client knows of a block it holds: its words by their offset. */
  datatype Slot = Dead | Held(block: nat, bytes: nat, words: map<nat, nat>)

  /** The word at this offset holds a byte that was asked for; a byte is written by writing its word. */
  predicate Writable(slots: seq<Slot>, k: nat, offset: nat) {
    k < |slots| && slots[k].Held? && offset % 4 == 0 && offset < slots[k].bytes
  }

  /** What the clients hold after one operation; `result` is what malloc returned. */
  function Advance(slots: seq<Slot>, op: Op, result: nat): seq<Slot> {
    match op
    case Request(bytes) => slots + [if result == 0 then Dead else Held(result, bytes, map[])]
    case Release(k) => if k < |slots| && slots[k].Held? then slots[k := Dead] else slots
    case Write(k, offset, value) =>
      if Writable(slots, k, offset) then slots[k := slots[k].(words := slots[k].words[offset := value])] else slots
  }

  function After(ops: seq<Op>, results: seq<nat>): seq<Slot>
    requires |ops| == |results|
  {
    if ops == [] then []
    else Advance(After(ops[..|ops| - 1], results[..|ops| - 1]), ops[|ops| - 1], results[|ops| - 1])
  }

  /** The block is in use, aligned and large enough, and holds what its owner wrote. */
  ghost predicate SlotOk(m: Memory, a: Arena, s: Slot) {
    s.Held? ==>
      && s.block >= 8 && s.block % 8 == 0 && Has(a, s.block - 8, InUse) && s.bytes + 4 <= a.at[s.block - 8].size
      && forall o {:trigger s.words[o]} :: o in s.words ==>
           o % 4 == 0 && o < s.bytes && Word(m, s.block + o) == s.words[o]
  }

  predicate Separate(s: Slot, t: Slot) {
    s.Held? && t.Held? ==> s.block + s.bytes <= t.block || t.block + t.bytes <= s.block
  }

  ghost predicate Different(s: Slot, t: Slot) {
    s.Held? && t.Held? ==> s.block != t.block
  }

  /** Every block held is intact, and no two share a byte. */
  ghost predicate Intact(m: Memory, a: Arena, slots: seq<Slot>) {
    && (forall k {:trigger SlotOk(m, a, slots[k])} :: 0 <= k < |slots| ==> SlotOk(m, a, slots[k]))
    && forall j, k {:trigger Different(slots[j], slots[k])} :: 0 <= j < k < |slots| ==> Different(slots[j], slots[k])
  }

  lemma BlocksSeparate(m: Memory, a: Arena, slots: seq<Slot>, j: nat, k: nat)
    requires Tiling(a) && Intact(m, a, slots) && j < k < |slots|
    ensures Separate(slots[j], slots[k])
  {
    var s, t := slots[j], slots[k];
    assert SlotOk(m, a, s) && SlotOk(m, a, t) && Different(s, t);
    if s.Held? && t.Held? {
      assert Apart(a, s.block - 8, t.block - 8) && Apart(a, t.block - 8, s.block - 8);
    }
  }

  /** A block stays intact when its chunk stays in use and its payload is kept. */
  lemma SlotKept(m: Memory, a: Arena, m': Memory, a': Arena, s: Slot)
    requires SlotOk(m, a, s)
    requires s.Held? ==>
      && Has(a', s.block - 8, InUse) && a'.at[s.block - 8].size == a.at[s.block - 8].size
      && PayloadKept(m, m', a, s.block - 8)
    ensures SlotOk(m', a', s)
  {
  }

  lemma AfterRequest(m: Memory, a: Arena, m': Memory, a': Arena, slots: seq<Slot>, bytes: nat, block: nat)
    requires Intact(m, a, slots) && NONE !in a.at
    requires block == 0 ==> Spared(m, a, m', a', NONE) || (m == m' && a == a')
    requires block != 0 ==>
      block >= 8 && block % 8 == 0 && Given(m, a, m', a', block - 8) && bytes + 4 <= a'.at[block - 8].size
    ensures Intact(m', a', Advance(slots, Request(bytes), block))
  {
    var slots' := Advance(slots, Request(bytes), block);
    forall k | 0 <= k < |slots'|
      ensures SlotOk(m', a', slots'[k])
    {
      if k < |slots| {
        assert SlotOk(m, a, slots[k]);
        if slots[k].Held? && (m != m' || a != a') {
          assert PayloadKept(m, m', a, slots[k].block - 8);
        }
        SlotKept(m, a, m', a', slots[k]);
      }
    }
    forall j, k | 0 <= j < k < |slots'|
      ensures Different(slots'[j], slots'[k])
    {
      assert SlotOk(m, a, slots[j]);
      if k < |slots| {
        assert Different(slots[j], slots[k]);
      }
    }
  }

  lemma AfterRelease(m: Memory, a: Arena, m': Memory, a': Arena, slots: seq<Slot>, k: nat)
    requires Intact(m, a, slots) && k < |slots| && slots[k].Held? && slots[k].block >= 8
    requires Kept(m, a, m', a', slots[k].block - 8)
    ensures Intact(m', a', Advance(slots, Release(k), 0))
  {
    var slots' := Advance(slots, Release(k), 0);
    forall j | 0 <= j < |slots'|
      ensures SlotOk(m', a', slots'[j])
    {
      if j != k {
        assert SlotOk(m, a, slots[j]);
        assert Different(slots[if j < k then j else k], slots[if j < k then k else j]);
        if slots[j].Held? {
          assert PayloadKept(m, m', a, slots[j].block - 8);
        }
        SlotKept(m, a, m', a', slots[j]);
      }
    }
    forall i, j | 0 <= i < j < |slots'|
      ensures Different(slots'[i], slots'[j])
    {
      assert Different(slots[i], slots[j]);
    }
  }

  lemma AfterWrite(m: Memory, a: Arena, slots: seq<Slot>, k: nat, offset: nat, v: nat)
    requires Intact(m, a, slots) && Writable(slots, k, offset) && slots[k].block >= 8 && NONE !in a.at
    requires PayloadsKept(m, Set(m, slots[k].block + offset, v), a, slots[k].block - 8)
    ensures Intact(Set(m, slots[k].block + offset, v), a, Advance(slots, Write(k, offset, v), 0))
  {
    var m', slots' := Set(m, slots[k].block + offset, v), Advance(slots, Write(k, offset, v), 0);
    assert SlotOk(m, a, slots[k]);
    forall j | 0 <= j < |slots'|
      ensures SlotOk(m', a, slots'[j])
    {
      assert SlotOk(m, a, slots[j]);
      if j != k {
        assert Different(slots[if j < k then j else k], slots[if j < k then k else j]);
        if slots[j].Held? {
          assert PayloadKept(m, m', a, slots[j].block - 8);
        }
        SlotKept(m, a, m', a, slots[j]);
      }
    }
    forall i, j | 0 <= i < j < |slots'|
      ensures Different(slots'[i], slots'[j])
    {
      assert Different(slots[i], slots[j]);
    }
  }

  /** One operation of a run. */
  method Perform(h: Allocator, slots: seq<Slot>, op: Op) returns (result: nat)
    requires h.Valid() && Intact(h.mem, h.arena, slots)
    modifies h
    ensures h.Valid() && Intact(h.mem, h.arena, Advance(slots, op, result))
  {
    ghost var m, a := h.mem, h.arena;
    result := 0;
    match op {
      case Request(bytes) =>
        h.ZeroFree();
        ghost var how, pool;
        result, how, pool := h.Malloc(bytes);
        AfterRequest(m, a, h.mem, h.arena, slots, bytes, result);
      case Release(k) =>
        if k < |slots| && slots[k].Held? {
          assert SlotOk(m, a, slots[k]);
          ghost var mid, c := h.Free(slots[k].block);
          AfterRelease(m, a, h.mem, h.arena, slots, k);
        }
      case Write(k, offset, value) =>
        if Writable(slots, k, offset) {
          assert SlotOk(m, a, slots[k]);
          h.ZeroFree();
          h.Store(slots[k].block, slots[k].block + offset, value);
          AfterWrite(m, a, slots, k, offset, value);
        }
    }
  }

  /** Any run, from the state the loader leaves. */
  method Run(h: Allocator, ops: seq<Op>) returns (results: seq<nat>)
    requires h.Fresh()
    modifies h
    ensures |results| == |ops| && h.Valid()
    ensures Intact(h.mem, h.arena, After(ops, results))
  {
    results := [];
    var slots: seq<Slot> := [];
    for n := 0 to |ops|
      invariant |results| == n && h.Valid() && slots == After(ops[..n], results)
      invariant Intact(h.mem, h.arena, slots)
    {
      var result := Perform(h, slots, ops[n]);
      assert ops[..n + 1][..n] == ops[..n] && (results + [result])[..n] == results;
      slots := Advance(slots, ops[n], result);
      results := results + [result];
    }
    assert ops[..|ops|] == ops;
  }
}
