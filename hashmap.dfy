/**
 * The open-addressing hash map of z3_hashmap.h: 32 slots, FNV-1a 64-bit
 * hashing, linear probing from `hash mod 32`.  Keys are the bytes of a C
 * string before its terminator.  Values are pointers the map owns: it frees
 * the old value when a put overwrites a key, the value of a removed key, and
 * every value when the map is dropped; here they are plain values, and the
 * freeing is not modelled.
 *
 * The table operations are stated first as functions on the slot sequence
 * (`PutSpec`, `Lookup`, `RemoveSpec`); the `HashMap` class below performs them
 * in place and is proved to agree with them.
 */
module HashMaps {
  import opened Wrappers
  import opened Bytes
  import Toys

  /** Z3_HASHMAP_INITIAL_CAPACITY; the table never grows. */
  const InitialCapacity: nat := 32

  /** FNV-1a 64-bit offset basis and prime. */
  const OffsetBasis: nat := 0xcbf2_9ce4_8422_2325
  const Prime: nat := 0x100_0000_01b3

  type Key = seq<byte>

  /** Bitwise exclusive or of two bytes. */
  function XorByte(a: nat, b: nat): (r: nat)
    requires a < 256 && b < 256
    ensures r < 256
  {
    ((a as bv8) ^ (b as bv8)) as nat
  }

  /** `hash ^= c`: only the low byte of the 64-bit hash changes. */
  function XorIn(h: nat, c: byte): (r: nat)
    requires h < Toys.SizeMod
    ensures r < Toys.SizeMod && r / 256 == h / 256
  {
    h - h % 256 + XorByte(h % 256, c as int)
  }

  /** One FNV-1a round: XOR the byte in, multiply by the prime modulo 2^64. */
  function Step(h: nat, c: byte): (r: nat)
    requires h < Toys.SizeMod
    ensures r < Toys.SizeMod
  {
    (XorIn(h, c) * Prime) % Toys.SizeMod
  }

  /** FNV-1a rounds over `s`, starting from `h`. */
  function HashFrom(h: nat, s: seq<byte>): (r: nat)
    requires h < Toys.SizeMod
    ensures r < Toys.SizeMod
    decreases |s|
  {
    if s == [] then h else HashFrom(Step(h, s[0]), s[1..])
  }

  /** `z3__hash_str`: FNV-1a 64 of the key's bytes. */
  function Hash(s: Key): (r: nat)
    ensures r < Toys.SizeMod
  {
    HashFrom(OffsetBasis, s)
  }

  /** `z3__hash_str`'s loop: XOR in each byte, multiply, until the terminator. */
  method HashStr(key: Key) returns (h: nat)
    ensures h == Hash(key)
  {
    h := OffsetBasis;
    var i := 0;
    while i < |key|
      invariant 0 <= i <= |key| && h < Toys.SizeMod
      invariant HashFrom(h, key[i..]) == Hash(key)
    {
      assert key[i..][1..] == key[i + 1..];
      h := h - h % 256 + XorByte(h % 256, key[i] as int);
      h := (h * Prime) % Toys.SizeMod;
      i := i + 1;
    }
  }

  /** One round on known values: the low byte `lo`, the byte XORed in `x`, the product `r`. */
  lemma StepAt(h: nat, c: byte, lo: nat, x: nat, r: nat)
    requires h < Toys.SizeMod && h % 256 == lo && XorByte(lo, c as int) == x
    requires ((h - lo + x) * Prime) % Toys.SizeMod == r
    ensures Step(h, c) == r
  {
  }

  /** The empty key and `"a"`, checked against FNV-1a 64's published test values. */
  lemma HashVectors()
    ensures Hash([]) == 0xcbf2_9ce4_8422_2325
    ensures Hash("a") == 0xaf63_dc4c_8601_ec8c
  {
    StepAt(OffsetBasis, 'a', 0x25, 0x44, 0xaf63_dc4c_8601_ec8c);
    assert Hash("a") == HashFrom(Step(OffsetBasis, 'a'), []);
  }

  /** `z3__probe(hash, i, cap)`: the `i`-th slot tried, with the 64-bit wrap of `hash + i`. */
  function Probe(hash: nat, i: nat, cap: nat): (r: nat)
    requires cap > 0
    ensures r < cap
  {
    ((hash + i) % Toys.SizeMod) % cap
  }

  /** The probe number at which a key of hash `h` reaches slot `s`. */
  function Dist(h: nat, s: nat): (r: nat)
    requires s < InitialCapacity
    ensures r < InitialCapacity
  {
    (s + InitialCapacity - h % InitialCapacity) % InitialCapacity
  }

  /** With 32 slots the 64-bit wrap is invisible: probing is rotation from `hash mod 32`. */
  lemma ProbeRotates(h: nat, j: nat)
    ensures Probe(h, j, InitialCapacity) == (h % InitialCapacity + j) % InitialCapacity
  {
    var x := h + j;
    assert x % Toys.SizeMod % InitialCapacity == x % InitialCapacity by {
      ShiftMod(0x800_0000_0000_0000 * (x / Toys.SizeMod), x % Toys.SizeMod);
    }
    ShiftMod(h / InitialCapacity, h % InitialCapacity + j);
  }

  /** Adding a multiple of 32 does not change a value modulo 32. */
  lemma ShiftMod(a: nat, b: nat)
    ensures (InitialCapacity * a + b) % InitialCapacity == b % InitialCapacity
  {
  }

  /** Probe `j` lands on the slot whose distance is `j`, and the other way round. */
  lemma ProbeDist(h: nat, j: nat, s: nat)
    requires j < InitialCapacity && s < InitialCapacity
    ensures Probe(h, j, InitialCapacity) == s <==> Dist(h, s) == j
  {
    ProbeRotates(h, j);
  }

  /** Probes `0 .. 31` visit every one of the 32 slots, each exactly once. */
  lemma ProbeVisitsEverySlot(h: nat)
    ensures forall s :: 0 <= s < InitialCapacity ==> Probe(h, Dist(h, s), InitialCapacity) == s
    ensures forall i, j :: 0 <= i < j < InitialCapacity ==> Probe(h, i, InitialCapacity) != Probe(h, j, InitialCapacity)
  {
    forall s | 0 <= s < InitialCapacity
      ensures Probe(h, Dist(h, s), InitialCapacity) == s
    {
      ProbeDist(h, Dist(h, s), s);
    }
    forall i, j | 0 <= i < j < InitialCapacity
      ensures Probe(h, i, InitialCapacity) != Probe(h, j, InitialCapacity)
    {
      var s := Probe(h, i, InitialCapacity);
      ProbeDist(h, i, s);
      ProbeDist(h, j, s);
    }
  }

  /** `struct Z3HashMapEntry`. */
  datatype Entry<V> = Entry(key: Option<Key>, val: Option<V>, hash: nat, used: bool)

  /** A slot as `calloc` leaves it. */
  function Unused<V>(): Entry<V>
  {
    Entry(None, None, 0, false)
  }

  /** The slots of `z3_hashmap_create`. */
  function EmptyTable<V>(): (r: seq<Entry<V>>)
    ensures |r| == InitialCapacity
    ensures forall s :: 0 <= s < |r| ==> r[s] == Unused()
  {
    seq(InitialCapacity, _ => Unused())
  }

  /** The slot `z3_hashmap_put` writes: first probe from `i` that is unused or holds `k`. */
  function PutIndex<V>(slots: seq<Entry<V>>, h: nat, k: Key, i: nat): (r: Option<nat>)
    requires 0 < |slots| && i <= |slots|
    ensures r.Some? ==> r.value < |slots| && (!slots[r.value].used || slots[r.value].key == Some(k))
    decreases |slots| - i
  {
    if i == |slots| then None
    else
      var idx := Probe(h, i, |slots|);
      if !slots[idx].used || slots[idx].key == Some(k) then Some(idx)
      else PutIndex(slots, h, k, i + 1)
  }

  /**
   * `z3_hashmap_put(map, k, v)` on the slots: the new slots and whether
   * `count` goes up.  A table with no such slot is left as it is.
   */
  function PutSpec<V>(slots: seq<Entry<V>>, k: Key, v: V): (r: (seq<Entry<V>>, bool))
    requires 0 < |slots|
    ensures |r.0| == |slots|
  {
    match PutIndex(slots, Hash(k), k, 0)
    case None => (slots, false)
    case Some(idx) => (slots[idx := Entry(Some(k), Some(v), Hash(k), true)], !slots[idx].used)
  }

  /** `z3_hashmap_get`'s scan from probe `i`: stop at `k` or at the first unused slot. */
  function LookupFrom<V>(slots: seq<Entry<V>>, h: nat, k: Key, i: nat): Option<V>
    requires 0 < |slots| && i <= |slots|
    decreases |slots| - i
  {
    if i == |slots| then None
    else
      var e := slots[Probe(h, i, |slots|)];
      if e.used && e.key == Some(k) then e.val
      else if !e.used then None
      else LookupFrom(slots, h, k, i + 1)
  }

  /** `z3_hashmap_get(map, k)`. */
  function Lookup<V>(slots: seq<Entry<V>>, k: Key): Option<V>
    requires 0 < |slots|
  {
    LookupFrom(slots, Hash(k), k, 0)
  }

  /** The slot `z3_hashmap_remove` clears: first probe from `i` holding `k`, over all probes. */
  function RemoveIndex<V>(slots: seq<Entry<V>>, h: nat, k: Key, i: nat): (r: Option<nat>)
    requires 0 < |slots| && i <= |slots|
    ensures r.Some? ==> r.value < |slots| && slots[r.value].used && slots[r.value].key == Some(k)
    decreases |slots| - i
  {
    if i == |slots| then None
    else
      var idx := Probe(h, i, |slots|);
      if slots[idx].used && slots[idx].key == Some(k) then Some(idx)
      else RemoveIndex(slots, h, k, i + 1)
  }

  /**
   * `z3_hashmap_remove(map, k)` exactly as written: the slot becomes unused,
   * which cuts the probe chain of every key stored past it.
   */
  function RemoveAsWritten<V>(slots: seq<Entry<V>>, k: Key): (r: seq<Entry<V>>)
    requires 0 < |slots|
    ensures |r| == |slots|
  {
    match RemoveIndex(slots, Hash(k), k, 0)
    case None => slots
    case Some(idx) => slots[idx := Entry(None, None, slots[idx].hash, false)]
  }

  /**
   * `z3_hashmap_remove(map, k)` with the slot kept as a tombstone (still
   * `used`, key and value NULL), so later keys stay reachable.  The second
   * component says whether `count` goes down.
   */
  function RemoveSpec<V>(slots: seq<Entry<V>>, k: Key): (r: (seq<Entry<V>>, bool))
    requires 0 < |slots|
    ensures |r.0| == |slots|
  {
    match RemoveIndex(slots, Hash(k), k, 0)
    case None => (slots, false)
    case Some(idx) => (slots[idx := Entry(None, None, slots[idx].hash, true)], true)
  }

  /** The number of slots holding a key. */
  function CountLive<V>(slots: seq<Entry<V>>): (r: nat)
    ensures r <= |slots|
  {
    if slots == [] then 0
    else (if slots[0].key.Some? then 1 else 0) + CountLive(slots[1..])
  }

  /** The keys the table holds. */
  ghost function Keys<V>(slots: seq<Entry<V>>): set<Key>
  {
    set s | 0 <= s < |slots| && slots[s].key.Some? :: slots[s].key.value
  }

  /** Every probe a stored key passes over before reaching its own slot `s` is in use. */
  ghost predicate ChainUsed<V>(slots: seq<Entry<V>>, s: nat)
    requires |slots| == InitialCapacity && s < |slots| && slots[s].key.Some?
  {
    var h := Hash(slots[s].key.value);
    forall j :: 0 <= j < Dist(h, s) ==> slots[Probe(h, j, |slots|)].used
  }

  /** The table's invariant: stored keys are used, carry a value, are reachable and are distinct. */
  ghost predicate Wf<V>(slots: seq<Entry<V>>)
  {
    |slots| == InitialCapacity &&
    (forall s :: 0 <= s < |slots| && slots[s].key.Some? ==>
       slots[s].used && slots[s].val.Some? && ChainUsed(slots, s)) &&
    (forall s, t :: 0 <= s < |slots| && 0 <= t < |slots| && slots[s].key.Some? && slots[t].key == slots[s].key ==> s == t)
  }

  // ---------------------------------------------------------------- lookups

  /** The scan for a stored key reaches its slot and returns its value. */
  lemma {:induction false} LookupFindsStored<V>(slots: seq<Entry<V>>, s: nat, i: nat)
    requires Wf(slots) && s < |slots| && slots[s].key.Some?
    requires i <= Dist(Hash(slots[s].key.value), s)
    ensures LookupFrom(slots, Hash(slots[s].key.value), slots[s].key.value, i) == slots[s].val
    decreases |slots| - i
  {
    var k := slots[s].key.value;
    var h := Hash(k);
    var idx := Probe(h, i, |slots|);
    ProbeDist(h, i, s);
    if idx != s {
      assert slots[idx].used by { assert ChainUsed(slots, s); }
      LookupFindsStored(slots, s, i + 1);
    }
  }

  /** The scan for a key the table does not hold finds nothing. */
  lemma {:induction false} LookupMissing<V>(slots: seq<Entry<V>>, h: nat, k: Key, i: nat)
    requires 0 < |slots| && i <= |slots|
    requires forall s :: 0 <= s < |slots| ==> slots[s].key != Some(k)
    ensures LookupFrom(slots, h, k, i) == None
    decreases |slots| - i
  {
    if i < |slots| {
      LookupMissing(slots, h, k, i + 1);
    }
  }

  /** `get(k)` is the value stored with `k`, or NULL when `k` is not stored. */
  lemma LookupIsStoredValue<V>(slots: seq<Entry<V>>, k: Key)
    requires Wf(slots)
    ensures Lookup(slots, k).Some? <==> k in Keys(slots)
    ensures forall s :: 0 <= s < |slots| && slots[s].key == Some(k) ==> Lookup(slots, k) == slots[s].val
  {
    if s :| 0 <= s < |slots| && slots[s].key == Some(k) {
      LookupFindsStored(slots, s, 0);
    } else {
      LookupMissing(slots, Hash(k), k, 0);
    }
  }

  /** `has(k)` and `get(k)` agree with the invariant's key set: a key is found iff it is stored. */
  lemma KeysCount<V>(slots: seq<Entry<V>>)
    requires Wf(slots)
    ensures |Keys(slots)| == CountLive(slots)
  {
    KeysCountFrom(slots, 0);
  }

  ghost function KeysFrom<V>(slots: seq<Entry<V>>, i: nat): set<Key>
    requires i <= |slots|
  {
    set s | i <= s < |slots| && slots[s].key.Some? :: slots[s].key.value
  }

  lemma {:induction false} KeysCountFrom<V>(slots: seq<Entry<V>>, i: nat)
    requires Wf(slots) && i <= |slots|
    ensures |KeysFrom(slots, i)| == CountLive(slots[i..])
    decreases |slots| - i
  {
    if i < |slots| {
      KeysCountFrom(slots, i + 1);
      assert slots[i..][1..] == slots[i + 1..];
      if slots[i].key.Some? {
        var k := slots[i].key.value;
        assert KeysFrom(slots, i) == KeysFrom(slots, i + 1) + {k};
        assert k !in KeysFrom(slots, i + 1);
      } else {
        assert KeysFrom(slots, i) == KeysFrom(slots, i + 1);
      }
    } else {
      assert KeysFrom(slots, i) == {};
    }
  }

  // ---------------------------------------------------------------- counting

  /** Overwriting one slot changes the count by what it held and what it now holds. */
  lemma {:induction false} CountLiveUpdate<V>(slots: seq<Entry<V>>, idx: nat, e: Entry<V>)
    requires idx < |slots|
    ensures CountLive(slots[idx := e]) + (if slots[idx].key.Some? then 1 else 0) ==
            CountLive(slots) + (if e.key.Some? then 1 else 0)
  {
    if idx > 0 {
      CountLiveUpdate(slots[1..], idx - 1, e);
      assert slots[idx := e][1..] == slots[1..][idx - 1 := e];
    } else {
      assert slots[idx := e][1..] == slots[1..];
    }
  }

  /** `z3_hashmap_create`: no key, count zero, the invariant holds. */
  lemma EmptyTableIsEmpty<V>(k: Key)
    ensures Wf(EmptyTable<V>()) && CountLive(EmptyTable<V>()) == 0
    ensures Lookup(EmptyTable<V>(), k) == None
  {
    var t := EmptyTable<V>();
    assert CountLive(t) == 0 by { CountNone(t); }
    LookupMissing(t, Hash(k), k, 0);
  }

  lemma {:induction false} CountNone<V>(slots: seq<Entry<V>>)
    requires forall s :: 0 <= s < |slots| ==> slots[s].key.None?
    ensures CountLive(slots) == 0
  {
    if slots != [] {
      CountNone(slots[1..]);
    }
  }

  // ---------------------------------------------------------------- put

  /** Every probe `put` passes over is in use and holds another key. */
  lemma {:induction false} PutIndexScan<V>(slots: seq<Entry<V>>, h: nat, k: Key, i: nat, idx: nat)
    requires |slots| == InitialCapacity && i <= |slots|
    requires PutIndex(slots, h, k, i) == Some(idx)
    ensures i <= Dist(h, idx)
    ensures forall j :: i <= j < Dist(h, idx) ==>
              slots[Probe(h, j, |slots|)].used && slots[Probe(h, j, |slots|)].key != Some(k)
    decreases |slots| - i
  {
    var p := Probe(h, i, |slots|);
    ProbeDist(h, i, idx);
    if p != idx {
      PutIndexScan(slots, h, k, i + 1, idx);
    }
  }

  /** `put` of a stored key picks that key's own slot. */
  lemma {:induction false} PutIndexOfStored<V>(slots: seq<Entry<V>>, s: nat, i: nat)
    requires Wf(slots) && s < |slots| && slots[s].key.Some?
    requires i <= Dist(Hash(slots[s].key.value), s)
    ensures PutIndex(slots, Hash(slots[s].key.value), slots[s].key.value, i) == Some(s)
    decreases |slots| - i
  {
    var k := slots[s].key.value;
    var h := Hash(k);
    var idx := Probe(h, i, |slots|);
    ProbeDist(h, i, s);
    if idx != s {
      assert slots[idx].used by { assert ChainUsed(slots, s); }
      PutIndexOfStored(slots, s, i + 1);
    }
  }

  /** When `put` picks an unused slot, the key was not stored anywhere. */
  lemma PutFreshKey<V>(slots: seq<Entry<V>>, k: Key, idx: nat)
    requires Wf(slots)
    requires PutIndex(slots, Hash(k), k, 0) == Some(idx) && !slots[idx].used
    ensures forall s :: 0 <= s < |slots| ==> slots[s].key != Some(k)
  {
    forall s | 0 <= s < |slots|
      ensures slots[s].key != Some(k)
    {
      if slots[s].key == Some(k) {
        PutIndexOfStored(slots, s, 0);
        assert false;
      }
    }
  }

  /** A table with an unused slot always has room for `put`. */
  lemma {:induction false} PutFindsRoom<V>(slots: seq<Entry<V>>, h: nat, k: Key, i: nat, free: nat)
    requires |slots| == InitialCapacity && i <= |slots| && free < |slots| && !slots[free].used
    requires i <= Dist(h, free)
    ensures PutIndex(slots, h, k, i).Some?
    decreases |slots| - i
  {
    ProbeDist(h, i, free);
    if Probe(h, i, |slots|) != free {
      PutFindsRoom(slots, h, k, i + 1, free);
    }
  }

  /** `put` keeps the invariant and counts a new key once. */
  lemma PutKeepsWf<V>(slots: seq<Entry<V>>, k: Key, v: V)
    requires Wf(slots)
    ensures Wf(PutSpec(slots, k, v).0)
    ensures CountLive(PutSpec(slots, k, v).0) == CountLive(slots) + (if PutSpec(slots, k, v).1 then 1 else 0)
  {
    var h := Hash(k);
    match PutIndex(slots, h, k, 0)
    case None =>
    case Some(idx) =>
      var e := Entry(Some(k), Some(v), Hash(k), true);
      var t := slots[idx := e];
      assert t == PutSpec(slots, k, v).0;
      if !slots[idx].used {
        PutFreshKey(slots, k, idx);
      }
      CountLiveUpdate(slots, idx, e);
      PutIndexScan(slots, h, k, 0, idx);
      forall s | 0 <= s < |t| && t[s].key.Some?
        ensures t[s].used && t[s].val.Some? && ChainUsed(t, s)
      {
        if s == idx {
          forall j | 0 <= j < Dist(h, s)
            ensures t[Probe(h, j, |t|)].used
          {
            assert slots[Probe(h, j, |slots|)].used;
          }
        } else {
          assert ChainUsed(slots, s);
        }
      }
    }

  /** `put` of a stored key replaces its value in place; `put` of a new key that finds room adds one. */
  lemma PutCounts<V>(slots: seq<Entry<V>>, k: Key, v: V)
    requires Wf(slots)
    ensures k in Keys(slots) ==> !PutSpec(slots, k, v).1
    ensures k !in Keys(slots) && PutIndex(slots, Hash(k), k, 0).Some? ==> PutSpec(slots, k, v).1
  {
    if k in Keys(slots) {
      var s :| 0 <= s < |slots| && slots[s].key == Some(k);
      PutIndexOfStored(slots, s, 0);
    } else if PutIndex(slots, Hash(k), k, 0).Some? {
      var idx := PutIndex(slots, Hash(k), k, 0).value;
      assert slots[idx].key == Some(k) ==> k in Keys(slots);
    }
  }

  /** `get(k)` right after `put(k, v)` returns `v` whenever `put` found a slot. */
  lemma PutThenGet<V>(slots: seq<Entry<V>>, k: Key, v: V)
    requires Wf(slots) && PutIndex(slots, Hash(k), k, 0).Some?
    ensures Lookup(PutSpec(slots, k, v).0, k) == Some(v)
  {
    var idx := PutIndex(slots, Hash(k), k, 0).value;
    PutKeepsWf(slots, k, v);
    LookupIsStoredValue(PutSpec(slots, k, v).0, k);
    assert PutSpec(slots, k, v).0[idx].key == Some(k);
  }

  /** On a table with an unused slot, `put(k, v)` always finds room, so `get(k)` then returns `v`. */
  lemma PutThenGetNotFull<V>(slots: seq<Entry<V>>, k: Key, v: V, free: nat)
    requires Wf(slots) && free < |slots| && !slots[free].used
    ensures Lookup(PutSpec(slots, k, v).0, k) == Some(v)
  {
    PutFindsRoom(slots, Hash(k), k, 0, free);
    PutThenGet(slots, k, v);
  }

  /** `put(k, v)` leaves every other key's value as it was. */
  lemma PutKeepsOthers<V>(slots: seq<Entry<V>>, k: Key, v: V, k': Key)
    requires Wf(slots) && k' != k
    ensures Lookup(PutSpec(slots, k, v).0, k') == Lookup(slots, k')
  {
    var t := PutSpec(slots, k, v).0;
    PutKeepsWf(slots, k, v);
    LookupIsStoredValue(slots, k');
    LookupIsStoredValue(t, k');
    match PutIndex(slots, Hash(k), k, 0)
    case None =>
    case Some(idx) =>
      assert forall s :: 0 <= s < |slots| && s != idx ==> t[s] == slots[s];
      assert t[idx].key != Some(k');
      if s :| 0 <= s < |slots| && slots[s].key == Some(k') {
        assert s != idx;
      }
  }

  // ---------------------------------------------------------------- puts in order

  /** The slots after `put`ting each (key, value) pair of `ps` in order, starting from `slots`. */
  function PutAll<V>(slots: seq<Entry<V>>, ps: seq<(Key, V)>): (r: seq<Entry<V>>)
    requires 0 < |slots|
    ensures |r| == |slots|
    decreases |ps|
  {
    if ps == [] then slots
    else
      var p := ps[|ps| - 1];
      PutSpec(PutAll(slots, ps[..|ps| - 1]), p.0, p.1).0
  }

  /** One more pair is one more `put`. */
  lemma PutAllSnoc<V>(slots: seq<Entry<V>>, ps: seq<(Key, V)>, k: Key, v: V)
    requires 0 < |slots|
    ensures PutAll(slots, ps + [(k, v)]) == PutSpec(PutAll(slots, ps), k, v).0
  {
    assert (ps + [(k, v)])[..|ps|] == ps;
  }

  /** The value of the last pair of `ps` whose key is `k`, if any. */
  function LastBinding<V>(ps: seq<(Key, V)>, k: Key): Option<V>
    decreases |ps|
  {
    if ps == [] then None
    else if ps[|ps| - 1].0 == k then Some(ps[|ps| - 1].1)
    else LastBinding(ps[..|ps| - 1], k)
  }

  /** `LastBinding` finds a pair naming `k` exactly when there is one, and no later pair names `k`. */
  lemma {:induction false} LastBindingIsLast<V>(ps: seq<(Key, V)>, k: Key)
    ensures LastBinding(ps, k).None? <==> forall i :: 0 <= i < |ps| ==> ps[i].0 != k
    ensures forall i :: 0 <= i < |ps| && ps[i].0 == k && (forall j :: i < j < |ps| ==> ps[j].0 != k) ==>
              LastBinding(ps, k) == Some(ps[i].1)
    decreases |ps|
  {
    if ps != [] {
      var n := |ps| - 1;
      LastBindingIsLast(ps[..n], k);
      assert forall i :: 0 <= i < n ==> ps[..n][i] == ps[i];
    }
  }

  /** Every slot in use holds a key: no tombstones, as in a table only ever `put` to. */
  ghost predicate NoTombstones<V>(slots: seq<Entry<V>>)
  {
    forall s :: 0 <= s < |slots| ==> (slots[s].used <==> slots[s].key.Some?)
  }

  /** A table whose every slot holds a key counts all its slots. */
  lemma {:induction false} CountFull<V>(slots: seq<Entry<V>>)
    requires forall s :: 0 <= s < |slots| ==> slots[s].key.Some?
    ensures CountLive(slots) == |slots|
  {
    if slots != [] {
      CountFull(slots[1..]);
    }
  }

  /** A table without tombstones that holds fewer keys than slots has an unused slot. */
  lemma RoomLeft<V>(slots: seq<Entry<V>>) returns (free: nat)
    requires NoTombstones(slots) && CountLive(slots) < |slots|
    ensures free < |slots| && !slots[free].used
  {
    if forall s :: 0 <= s < |slots| ==> slots[s].used {
      CountFull(slots);
      assert false;
    }
    free :| 0 <= free < |slots| && !slots[free].used;
  }

  /** Puts on an empty table keep its invariant, leave no tombstones and add at most one key each. */
  lemma {:induction false} PutAllShape<V>(ps: seq<(Key, V)>)
    ensures Wf(PutAll(EmptyTable(), ps)) && NoTombstones(PutAll(EmptyTable<V>(), ps))
    ensures CountLive(PutAll(EmptyTable<V>(), ps)) <= |ps|
    decreases |ps|
  {
    if ps == [] {
      EmptyTableIsEmpty<V>([]);
    } else {
      var n := |ps| - 1;
      var t := PutAll(EmptyTable(), ps[..n]);
      PutAllShape(ps[..n]);
      PutKeepsWf(t, ps[n].0, ps[n].1);
    }
  }

  /**
   * Up to 32 puts on a new table (`z3_hashmap_create`) all find room, so each
   * key then maps to the value of the last pair that names it, and every
   * other key to NULL.
   */
  lemma {:induction false} PutAllLookup<V>(ps: seq<(Key, V)>, k: Key)
    requires |ps| <= InitialCapacity
    ensures Lookup(PutAll(EmptyTable(), ps), k) == LastBinding(ps, k)
    decreases |ps|
  {
    if ps == [] {
      EmptyTableIsEmpty<V>(k);
    } else {
      var n := |ps| - 1;
      var t := PutAll(EmptyTable(), ps[..n]);
      PutAllShape(ps[..n]);
      if ps[n].0 == k {
        var free := RoomLeft(t);
        PutThenGetNotFull(t, k, ps[n].1, free);
      } else {
        PutKeepsOthers(t, ps[n].0, ps[n].1, k);
        PutAllLookup(ps[..n], k);
      }
    }
  }

  // ---------------------------------------------------------------- remove

  /** When `remove` finds nothing, the key is stored nowhere. */
  lemma {:induction false} RemoveMissScan<V>(slots: seq<Entry<V>>, h: nat, k: Key, i: nat)
    requires |slots| == InitialCapacity && i <= |slots|
    requires RemoveIndex(slots, h, k, i).None?
    ensures forall j :: i <= j < |slots| ==>
              !(slots[Probe(h, j, |slots|)].used && slots[Probe(h, j, |slots|)].key == Some(k))
    decreases |slots| - i
  {
    if i < |slots| {
      RemoveMissScan(slots, h, k, i + 1);
    }
  }

  /** After `remove(k)`, `k` is stored nowhere. */
  lemma RemoveClearsKey<V>(slots: seq<Entry<V>>, k: Key)
    requires Wf(slots)
    ensures forall s :: 0 <= s < |slots| ==> RemoveSpec(slots, k).0[s].key != Some(k)
  {
    var h := Hash(k);
    match RemoveIndex(slots, h, k, 0)
    case Some(idx) =>
    case None =>
      RemoveMissScan(slots, h, k, 0);
      forall s | 0 <= s < |slots|
        ensures slots[s].key != Some(k)
      {
        ProbeDist(h, Dist(h, s), s);
      }
  }

  /** `remove` keeps the invariant, and counts down exactly when it removed a key. */
  lemma RemoveKeepsWf<V>(slots: seq<Entry<V>>, k: Key)
    requires Wf(slots)
    ensures Wf(RemoveSpec(slots, k).0)
    ensures CountLive(RemoveSpec(slots, k).0) + (if RemoveSpec(slots, k).1 then 1 else 0) == CountLive(slots)
  {
    match RemoveIndex(slots, Hash(k), k, 0)
    case None =>
    case Some(idx) =>
      var e := Entry(None, None, slots[idx].hash, true);
      var t := slots[idx := e];
      CountLiveUpdate(slots, idx, e);
      forall s | 0 <= s < |t| && t[s].key.Some?
        ensures t[s].used && t[s].val.Some? && ChainUsed(t, s)
      {
        assert ChainUsed(slots, s);
      }
  }

  /** `get(k)` after `remove(k)` is NULL. */
  lemma RemoveThenGet<V>(slots: seq<Entry<V>>, k: Key)
    requires Wf(slots)
    ensures Lookup(RemoveSpec(slots, k).0, k) == None
  {
    RemoveClearsKey(slots, k);
    LookupMissing(RemoveSpec(slots, k).0, Hash(k), k, 0);
  }

  /** `remove(k)` leaves every other key's value as it was. */
  lemma RemoveKeepsOthers<V>(slots: seq<Entry<V>>, k: Key, k': Key)
    requires Wf(slots) && k' != k
    ensures Lookup(RemoveSpec(slots, k).0, k') == Lookup(slots, k')
  {
    var t := RemoveSpec(slots, k).0;
    RemoveKeepsWf(slots, k);
    LookupIsStoredValue(slots, k');
    LookupIsStoredValue(t, k');
    match RemoveIndex(slots, Hash(k), k, 0)
    case None =>
    case Some(idx) =>
      assert forall s :: 0 <= s < |slots| && s != idx ==> t[s] == slots[s];
      if s :| 0 <= s < |slots| && slots[s].key == Some(k') {
        assert s != idx;
      }
  }

  // ---------------------------------------------------------------- the finding

  /**
   * Two keys with the same home slot: after `put(k1)`, `put(k2)` and the
   * source's `remove(k1)`, `get(k2)` stops at the emptied home slot and
   * returns NULL; with the tombstone it still returns `k2`'s value.
   */
  lemma RemoveAsWrittenLosesKey<V>(k1: Key, k2: Key, x: V, y: V)
    requires k1 != k2 && Hash(k1) % InitialCapacity == Hash(k2) % InitialCapacity
    ensures Lookup(PutSpec(PutSpec(EmptyTable(), k1, x).0, k2, y).0, k2) == Some(y)
    ensures Lookup(RemoveAsWritten(PutSpec(PutSpec(EmptyTable(), k1, x).0, k2, y).0, k1), k2) == None
    ensures Lookup(RemoveSpec(PutSpec(PutSpec(EmptyTable(), k1, x).0, k2, y).0, k1).0, k2) == Some(y)
  {
    var s0 := EmptyTable<V>();
    var home := Hash(k1) % InitialCapacity;
    var s2 := CollidingPuts(k1, k2, x, y);
    var s3 := s2[home := Entry(None, None, Hash(k1), false)];
    assert RemoveAsWritten(s2, k1) == s3 by {
      ProbeRotates(Hash(k1), 0);
      assert RemoveIndex(s2, Hash(k1), k1, 0) == Some(home);
    }
    assert LookupFrom(s3, Hash(k2), k2, 0) == None by {
      ProbeRotates(Hash(k2), 0);
    }
    assert Wf(s2) by {
      EmptyTableIsEmpty<V>(k1);
      PutKeepsWf(s0, k1, x);
      PutKeepsWf(PutSpec(s0, k1, x).0, k2, y);
    }
    RemoveKeepsOthers(s2, k1, k2);
  }

  /** The table after `put(k1, x)` and `put(k2, y)` for two keys with the same home slot. */
  lemma CollidingPuts<V>(k1: Key, k2: Key, x: V, y: V) returns (s2: seq<Entry<V>>)
    requires k1 != k2 && Hash(k1) % InitialCapacity == Hash(k2) % InitialCapacity
    ensures s2 == PutSpec(PutSpec(EmptyTable(), k1, x).0, k2, y).0
    ensures s2[Hash(k1) % InitialCapacity] == Entry(Some(k1), Some(x), Hash(k1), true)
    ensures Lookup(s2, k2) == Some(y)
  {
    var h1, h2 := Hash(k1), Hash(k2);
    var s0 := EmptyTable<V>();
    var home := h1 % InitialCapacity;
    var next := (home + 1) % InitialCapacity;
    var s1 := PutIntoEmpty(k1, x);
    s2 := s1[next := Entry(Some(k2), Some(y), h2, true)];
    ProbeFirstTwo(h2, home);
    assert PutSpec(s1, k2, y).0 == s2 by {
      PutIndexSkip(s1, h2, k2, 0);
      assert PutIndex(s1, h2, k2, 1) == Some(next);
    }
    assert LookupFrom(s2, h2, k2, 0) == Some(y) by {
      LookupSkip(s2, h2, k2, 0);
      assert LookupFrom(s2, h2, k2, 1) == Some(y);
    }
  }

  /** The first `put` into a new table lands in the key's home slot. */
  lemma PutIntoEmpty<V>(k: Key, x: V) returns (s1: seq<Entry<V>>)
    ensures s1 == PutSpec(EmptyTable(), k, x).0
    ensures s1 == EmptyTable()[Hash(k) % InitialCapacity := Entry(Some(k), Some(x), Hash(k), true)]
  {
    var s0 := EmptyTable<V>();
    ProbeRotates(Hash(k), 0);
    assert PutIndex(s0, Hash(k), k, 0) == Some(Hash(k) % InitialCapacity);
    s1 := s0[Hash(k) % InitialCapacity := Entry(Some(k), Some(x), Hash(k), true)];
  }

  /** The first two probes from home slot `home`. */
  lemma ProbeFirstTwo(h: nat, home: nat)
    requires h % InitialCapacity == home
    ensures Probe(h, 0, InitialCapacity) == home
    ensures Probe(h, 1, InitialCapacity) == (home + 1) % InitialCapacity
  {
    ProbeRotates(h, 0);
    ProbeRotates(h, 1);
  }

  /** `put`'s scan passes over a used slot holding another key. */
  lemma PutIndexSkip<V>(slots: seq<Entry<V>>, h: nat, k: Key, i: nat)
    requires 0 < |slots| && i < |slots|
    requires slots[Probe(h, i, |slots|)].used && slots[Probe(h, i, |slots|)].key != Some(k)
    ensures PutIndex(slots, h, k, i) == PutIndex(slots, h, k, i + 1)
  {
  }

  /** `get`'s scan passes over a used slot holding another key. */
  lemma LookupSkip<V>(slots: seq<Entry<V>>, h: nat, k: Key, i: nat)
    requires 0 < |slots| && i < |slots|
    requires slots[Probe(h, i, |slots|)].used && slots[Probe(h, i, |slots|)].key != Some(k)
    ensures LookupFrom(slots, h, k, i) == LookupFrom(slots, h, k, i + 1)
  {
  }

  /** `"a"` and `"A"` share their home slot 12, so the loss above happens with them. */
  lemma CollidingKeys()
    ensures Hash("a") % InitialCapacity == Hash("A") % InitialCapacity == 12
  {
    HashVectors();
    StepAt(OffsetBasis, 'A', 0x25, 0x64, 0xaf63_fc4c_8602_22ec);
    assert Hash("A") == HashFrom(Step(OffsetBasis, 'A'), []);
  }

  // ---------------------------------------------------------------- iteration order

  /** The first slot from `i` on that holds a key. */
  function NextStored<V>(slots: seq<Entry<V>>, i: nat): (r: Option<nat>)
    requires i <= |slots|
    ensures r.Some? ==> i <= r.value < |slots| && slots[r.value].key.Some?
    ensures r.Some? ==> forall j :: i <= j < r.value ==> slots[j].key.None?
    ensures r.None? ==> forall j :: i <= j < |slots| ==> slots[j].key.None?
    decreases |slots| - i
  {
    if i == |slots| then None
    else if slots[i].key.Some? then Some(i)
    else NextStored(slots, i + 1)
  }

  /** The slots from `i` on that hold a key, in ascending order. */
  function StoredFrom<V>(slots: seq<Entry<V>>, i: nat): seq<nat>
    requires i <= |slots|
    decreases |slots| - i
  {
    if i == |slots| then []
    else (if slots[i].key.Some? then [i] else []) + StoredFrom(slots, i + 1)
  }

  /** The listing is strictly ascending and holds exactly the slots with a key. */
  lemma {:induction false} StoredFromExact<V>(slots: seq<Entry<V>>, i: nat)
    requires i <= |slots|
    ensures forall a, b :: 0 <= a < b < |StoredFrom(slots, i)| ==> StoredFrom(slots, i)[a] < StoredFrom(slots, i)[b]
    ensures forall s :: s in StoredFrom(slots, i) <==> i <= s < |slots| && slots[s].key.Some?
    decreases |slots| - i
  {
    if i < |slots| {
      StoredFromExact(slots, i + 1);
      var rest := StoredFrom(slots, i + 1);
      if slots[i].key.Some? {
        var r := [i] + rest;
        assert r == StoredFrom(slots, i);
        forall a, b | 0 <= a < b < |r|
          ensures r[a] < r[b]
        {
          assert r[b] == rest[b - 1] && rest[b - 1] in rest;
          if a > 0 {
            assert r[a] == rest[a - 1];
          }
        }
      }
    }
  }

  /** The listing from `i` is the next stored slot followed by the listing after it. */
  lemma {:induction false} StoredFromNext<V>(slots: seq<Entry<V>>, i: nat)
    requires i <= |slots|
    ensures NextStored(slots, i).None? ==> StoredFrom(slots, i) == []
    ensures NextStored(slots, i).Some? ==>
              StoredFrom(slots, i) == [NextStored(slots, i).value] + StoredFrom(slots, NextStored(slots, i).value + 1)
    decreases |slots| - i
  {
    if i == |slots| {
    } else if slots[i].key.Some? {
      assert StoredFrom(slots, i) == [i] + StoredFrom(slots, i + 1);
    } else {
      StoredFromNext(slots, i + 1);
      assert StoredFrom(slots, i) == [] + StoredFrom(slots, i + 1);
      assert NextStored(slots, i) == NextStored(slots, i + 1);
    }
  }

  // ---------------------------------------------------------------- the map in place

  /** `Z3HashMap`: the slot array, its capacity and the number of stored keys. */
  class HashMap<V> {
    var entries: array<Entry<V>>
    var capacity: nat
    var count: nat

    ghost predicate Valid()
      reads this, entries
    {
      entries.Length == capacity && Wf(entries[..]) && count == CountLive(entries[..])
    }

    /** `z3_hashmap_create`: 32 unused slots, count zero. */
    constructor Create()
      ensures Valid() && fresh(entries)
      ensures capacity == InitialCapacity && count == 0 && entries[..] == EmptyTable()
    {
      capacity := InitialCapacity;
      count := 0;
      entries := new Entry<V>[InitialCapacity](_ => Unused());
      new;
      assert entries[..] == EmptyTable();
      EmptyTableIsEmpty<V>([]);
    }

    /**
     * `z3_hashmap_put(map, key, value)`: a NULL key or value changes nothing;
     * otherwise the slots become `PutSpec`'s and `count` grows by one for a new key.
     */
    method Put(key: Option<Key>, value: Option<V>)
      requires Valid()
      modifies entries, this`count
      ensures Valid()
      ensures key.None? || value.None? ==> entries[..] == old(entries[..]) && count == old(count)
      ensures key.Some? && value.Some? ==>
                entries[..] == PutSpec(old(entries[..]), key.value, value.value).0 &&
                count == old(count) + (if PutSpec(old(entries[..]), key.value, value.value).1 then 1 else 0)
    {
      if key.None? || value.None? {
        return;
      }
      var k, v := key.value, value.value;
      ghost var slots := entries[..];
      PutKeepsWf(slots, k, v);
      var h := HashStr(k);
      var i := 0;
      while i < capacity
        invariant 0 <= i <= capacity && entries[..] == slots && count == old(count)
        invariant PutIndex(slots, h, k, i) == PutIndex(slots, h, k, 0)
      {
        var idx := Probe(h, i, capacity);
        var e := entries[idx];
        if !e.used || e.key == Some(k) {
          if !e.used {
            count := count + 1;
          }
          entries[idx] := Entry(Some(k), Some(v), h, true);
          assert entries[..] == PutSpec(slots, k, v).0;
          return;
        }
        i := i + 1;
      }
    }

    /** `z3_hashmap_get(map, key)`: NULL for a NULL key, otherwise the scan `Lookup` describes. */
    method Get(key: Option<Key>) returns (r: Option<V>)
      requires Valid()
      ensures r == if key.None? then None else Lookup(entries[..], key.value)
    {
      if key.None? {
        return None;
      }
      var k := key.value;
      var h := HashStr(k);
      var i := 0;
      while i < capacity
        invariant 0 <= i <= capacity
        invariant LookupFrom(entries[..], h, k, i) == Lookup(entries[..], k)
      {
        var e := entries[Probe(h, i, capacity)];
        if e.used && e.key == Some(k) {
          return e.val;
        }
        if !e.used {
          break;
        }
        i := i + 1;
      }
      return None;
    }

    /**
     * `z3_hashmap_remove(map, key)` with the cleared slot kept in use: the
     * slots become `RemoveSpec`'s and `count` drops by one when a key was removed.
     */
    method Remove(key: Option<Key>)
      requires Valid()
      modifies entries, this`count
      ensures Valid()
      ensures key.None? ==> entries[..] == old(entries[..]) && count == old(count)
      ensures key.Some? ==>
                entries[..] == RemoveSpec(old(entries[..]), key.value).0 &&
                count + (if RemoveSpec(old(entries[..]), key.value).1 then 1 else 0) == old(count)
    {
      if key.None? {
        return;
      }
      var k := key.value;
      ghost var slots := entries[..];
      RemoveKeepsWf(slots, k);
      var h := HashStr(k);
      var i := 0;
      while i < capacity
        invariant 0 <= i <= capacity && entries[..] == slots && count == old(count)
        invariant RemoveIndex(slots, h, k, i) == RemoveIndex(slots, h, k, 0)
      {
        var idx := Probe(h, i, capacity);
        var e := entries[idx];
        if e.used && e.key == Some(k) {
          entries[idx] := Entry(None, None, e.hash, true);
          count := count - 1;
          assert entries[..] == RemoveSpec(slots, k).0;
          return;
        }
        i := i + 1;
      }
    }

    /** `z3_hashmap_has(map, key)`: whether `get` finds a value, that is, whether the key is stored. */
    method Has(key: Option<Key>) returns (b: bool)
      requires Valid()
      ensures b <==> key.Some? && key.value in Keys(entries[..])
    {
      var r := Get(key);
      if key.Some? {
        LookupIsStoredValue(entries[..], key.value);
      }
      b := r.Some?;
    }

    /** `z3_hashmap_size(map)`: the number of keys stored. */
    method Size() returns (n: nat)
      requires Valid()
      ensures n == |Keys(entries[..])|
    {
      KeysCount(entries[..]);
      n := count;
    }
  }

  /** `Z3HashMapIterator`: the map (`hmap`, the C field `map`), the next index to look at, and the last entry found. */
  class MapIterator<V> {
    var hmap: HashMap<V>
    var index: nat
    var key: Option<Key>
    var val: Option<V>

    /** `z3_hashmap_iter_init(it, map)`. */
    constructor Init(m: HashMap<V>)
      ensures hmap == m && index == 0 && key.None? && val.None?
    {
      hmap := m;
      index := 0;
      key := None;
      val := None;
    }

    /**
     * `z3_hashmap_iter_next(it)`: moves to the next slot holding a key, from
     * `index` on, and reports it; at the end `index` is the capacity.
     */
    method Next() returns (found: bool)
      requires hmap.Valid() && index <= hmap.capacity
      modifies this`index, this`key, this`val
      ensures index <= hmap.capacity
      ensures found <==> NextStored(hmap.entries[..], old(index)).Some?
      ensures found ==> index == NextStored(hmap.entries[..], old(index)).value + 1 &&
                        key == hmap.entries[index - 1].key && val == hmap.entries[index - 1].val
      ensures !found ==> index == hmap.capacity && key == old(key) && val == old(val)
    {
      while index < hmap.capacity
        invariant old(index) <= index <= hmap.capacity
        invariant NextStored(hmap.entries[..], index) == NextStored(hmap.entries[..], old(index))
        invariant key == old(key) && val == old(val)
      {
        var i := index;
        index := index + 1;
        if hmap.entries[i].key.Some? {
          key := hmap.entries[i].key;
          val := hmap.entries[i].val;
          return true;
        }
      }
      return false;
    }
  }

  /** One call of `iter_next` extends the listing of the slots visited so far. */
  lemma VisitStep<V>(slots: seq<Entry<V>>, done: seq<nat>, at: nat, found: bool, next: nat)
    requires at <= |slots| && done + StoredFrom(slots, at) == StoredFrom(slots, 0)
    requires found <==> NextStored(slots, at).Some?
    requires found ==> next == NextStored(slots, at).value + 1
    ensures found ==> 0 < next <= |slots| && done + [next - 1] + StoredFrom(slots, next) == StoredFrom(slots, 0)
    ensures !found ==> done == StoredFrom(slots, 0)
  {
    StoredFromNext(slots, at);
    if found {
      assert done + [next - 1] + StoredFrom(slots, next) == done + ([next - 1] + StoredFrom(slots, next));
    } else {
      assert done + StoredFrom(slots, at) == done;
    }
  }

  /** Draining an iterator yields every slot holding a key once, in ascending index order. */
  method VisitAll<V>(m: HashMap<V>) returns (visited: seq<nat>)
    requires m.Valid()
    ensures visited == StoredFrom(m.entries[..], 0)
  {
    ghost var slots := m.entries[..];
    visited := [];
    var it := new MapIterator.Init(m);
    var more := it.Next();
    VisitStep(slots, [], 0, more, it.index);
    while more
      invariant it.hmap == m && it.index <= m.capacity && m.entries[..] == slots
      invariant more ==> 0 < it.index && visited + [it.index - 1] + StoredFrom(slots, it.index) == StoredFrom(slots, 0)
      invariant !more ==> visited == StoredFrom(slots, 0)
      decreases if more then m.capacity - it.index + 1 else 0
    {
      visited := visited + [it.index - 1];
      ghost var at := it.index;
      more := it.Next();
      VisitStep(slots, visited, at, more, it.index);
    }
  }
}
