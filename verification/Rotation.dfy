/** Round-robin hand-out and seeding of parallel random generators: ResourceParallelRandom in src/resource.cc. */
module Rotation {
  import opened Arithmetic

  const MAX_DIGIT: nat := 0xFFFF_FFFF_FFFF_FFFF / 2
  const MAX_GPUS: nat := 16
  const RAND_MAGIC: nat := 127
  const WORD: nat := 0x1_0000_0000

  // 127 * INVERSE == 1 + WRAPS * 2^32
  const INVERSE: nat := 4024418175
  const WRAPS: nat := 119

  // ---------- Specification ----------

  /** The counter after one call from counter p. */
  function Advanced(p: nat, size: nat): nat
    requires size > 0
  {
    if p + 1 > MAX_DIGIT then (p + 2) % size else p + 1
  }

  /** The slots handed out by n calls from counter p. */
  ghost function Slots(p: nat, size: nat, n: nat): (s: seq<nat>)
    requires size > 0
    ensures |s| == n
    decreases n
  {
    if n == 0 then [] else [(p + 1) % size] + Slots(Advanced(p, size), size, n - 1)
  }

  lemma {:induction false} SlotsInRange(p: nat, size: nat, n: nat)
    requires size > 0
    ensures forall k :: 0 <= k < n ==> Slots(p, size, n)[k] < size
    decreases n
  {
    if n > 0 {
      SlotsInRange(Advanced(p, size), size, n - 1);
    }
  }

  /** The slots and seeds of n calls after seeding. */
  ghost function Draws(device: nat, copies: nat, globalSeed: nat, n: nat): (draws: seq<(nat, nat)>)
    requires copies > 0
    ensures |draws| == n
    ensures forall k :: 0 <= k < n ==>
              draws[k].0 == Slots(0, copies, n)[k] < copies && draws[k].1 == SeedOf(device, draws[k].0, globalSeed)
  {
    var slots, seeds := Slots(0, copies, n), SeedsOf(device, copies, globalSeed);
    SlotsInRange(0, copies, n);
    seq(n, k requires 0 <= k < n => (slots[k], seeds[slots[k]]))
  }

  /** The seed of copy i on a device, as a 32-bit word. */
  function SeedOf(device: nat, i: nat, globalSeed: nat): (seed: nat)
    ensures seed < 0x1_0000_0000 && (device + 16 * i + 127 * globalSeed - seed) % 0x1_0000_0000 == 0
  {
    (device + i * MAX_GPUS + globalSeed * RAND_MAGIC) % WORD
  }

  ghost function SeedsOf(device: nat, copies: nat, globalSeed: nat): (seeds: seq<nat>)
    ensures |seeds| == copies && forall i :: 0 <= i < copies ==> seeds[i] == SeedOf(device, i, globalSeed)
  {
    seq(copies, i requires 0 <= i => SeedOf(device, i, globalSeed))
  }

  // ---------- The object ----------

  class ParallelRandom {
    const device: nat
    var seeds: seq<nat>
    var currPtr: nat

    ghost predicate Valid()
      reads this
    {
      0 < |seeds| <= MAX_DIGIT && currPtr <= MAX_DIGIT
    }

    constructor (device: nat, copies: nat, globalSeed: nat)
      ensures this.device == device && currPtr == 0 && seeds == SeedsOf(device, copies, globalSeed)
    {
      this.device, currPtr := device, 0;
      var all: seq<nat> := [];
      for i := 0 to copies
        invariant all == SeedsOf(device, copies, globalSeed)[..i]
      {
        all := all + [SeedOf(device, i, globalSeed)];
      }
      seeds := all;
    }

    method SeedWithDeviceID(globalSeed: nat)
      modifies this
      ensures seeds == SeedsOf(device, |old(seeds)|, globalSeed) && currPtr == 0
    {
      ghost var target := SeedsOf(device, |seeds|, globalSeed);
      for i := 0 to |seeds|
        invariant |seeds| == |target| && forall k :: 0 <= k < i ==> seeds[k] == target[k]
      {
        seeds := seeds[i := SeedOf(device, i, globalSeed)];
      }
      currPtr := 0;
    }

    /** The slot is in bounds and the counter stays in range. */
    method GetNext() returns (slot: nat)
      requires Valid()
      modifies this
      ensures Valid() && seeds == old(seeds)
      ensures slot < |seeds| && slot == (old(currPtr) + 1) % |seeds|
      ensures currPtr == if old(currPtr) < MAX_DIGIT then old(currPtr) + 1 else (old(currPtr) + 2) % |seeds|
    {
      var ptr := currPtr + 1;
      currPtr := ptr;
      if ptr > MAX_DIGIT {
        currPtr := (ptr + 1) % |seeds|;
      }
      slot := ptr % |seeds|;
    }

    method GetMany(n: nat) returns (slots: seq<nat>)
      requires Valid()
      modifies this
      ensures Valid() && seeds == old(seeds) && slots == Slots(old(currPtr), |seeds|, n)
    {
      slots := [];
      ghost var size, all := |seeds|, Slots(currPtr, |seeds|, n);
      assert [] + all == all;
      for k := 0 to n
        invariant Valid() && seeds == old(seeds)
        invariant SlotsLeft(slots, currPtr, size, n - k, all)
      {
        ghost var p, done := currPtr, slots;
        var slot := GetNext();
        slots := slots + [slot];
        NextSlot(done, p, size, n - k, all);
      }
      assert slots + [] == slots;
    }

    /** After reseeding, the slots and the seeds behind them depend on device, number of copies and seed alone:
        nothing of the generators' past shows. */
    method Replay(globalSeed: nat, n: nat) returns (draws: seq<(nat, nat)>)
      requires Valid()
      modifies this
      ensures Valid() && draws == Draws(device, |old(seeds)|, globalSeed, n)
    {
      SeedWithDeviceID(globalSeed);
      var slots := GetMany(n);
      SlotsInRange(0, |seeds|, n);
      draws := [];
      for k := 0 to n
        invariant |draws| == k && forall j :: 0 <= j < k ==> draws[j] == Draws(device, |seeds|, globalSeed, n)[j]
      {
        draws := draws + [(slots[k], seeds[slots[k]])];
      }
    }
  }

  /** The slots handed out and those of the n calls still to come are all the slots. */
  ghost predicate SlotsLeft(done: seq<nat>, p: nat, size: nat, n: nat, all: seq<nat>) {
    size > 0 && done + Slots(p, size, n) == all
  }

  lemma NextSlot(done: seq<nat>, p: nat, size: nat, n: nat, all: seq<nat>)
    requires n > 0 && SlotsLeft(done, p, size, n, all)
    ensures SlotsLeft(done + [(p + 1) % size], Advanced(p, size), size, n - 1, all)
  {
  }

  // ---------- Every slot once ----------

  /** Before a reset the slots are consecutive numbers modulo the size. */
  lemma {:induction false} ConsecutiveSlots(p: nat, size: nat, n: nat, k: nat)
    requires size > 0 && k < n && p + n <= MAX_DIGIT + 1
    ensures Slots(p, size, n)[k] == (p + 1 + k) % size
    decreases n
  {
    if k > 0 {
      ConsecutiveSlots(p + 1, size, n - 1, k - 1);
    }
  }

  /** As many calls as there are slots, with no reset before the last, hand out every slot exactly once. */
  lemma WindowCoversAll(p: nat, size: nat)
    requires size > 0 && p + size <= MAX_DIGIT + 1
    ensures var s := Slots(p, size, size);
            && (forall a, b :: 0 <= a < b < size ==> s[a] != s[b])
            && (forall slot: nat :: slot < size ==> slot in s)
  {
    var s := Slots(p, size, size);
    forall a: nat, b: nat | a < b < size ensures s[a] != s[b] {
      ConsecutiveSlots(p, size, size, a);
      ConsecutiveSlots(p, size, size, b);
      ModAdd(p + 1 + a, b - a, size);
    }
    forall slot: nat | slot < size ensures slot in s {
      var r := (p + 1) % size;
      var k := if slot >= r then slot - r else slot - r + size;
      ConsecutiveSlots(p, size, size, k);
      ModAdd(p + 1, k, size);
      assert s[k] == slot;
    }
  }

  /** From the call after a reset on, the slots are one further than they would have been. */
  lemma {:induction false} SlotsAfterReset(p: nat, size: nat, n: nat, k: nat)
    requires 0 < size <= MAX_DIGIT / 2 && p <= MAX_DIGIT && MAX_DIGIT - p < k < n <= size
    ensures Slots(p, size, n)[k] == (p + 2 + k) % size
    decreases MAX_DIGIT - p
  {
    if p < MAX_DIGIT {
      SlotsAfterReset(p + 1, size, n - 1, k - 1);
    } else {
      ResetSlots(size, n, k, (p + 2) % size);
      ModShift(p + 2, k, size);
    }
  }

  lemma ResetSlots(size: nat, n: nat, k: nat, q: nat)
    requires 0 < size <= MAX_DIGIT / 2 && 0 < k < n <= size && q == Advanced(MAX_DIGIT, size) && q < size
    ensures Slots(MAX_DIGIT, size, n)[k] == (q + k) % size
  {
    ConsecutiveSlots(q, size, n - 1, k - 1);
  }

  /** A window of two or more slots hands out every slot once exactly when no reset comes before its last call:
      a reset skips a slot, and then the first slot comes a second time. */
  lemma WindowCoversAllIff(p: nat, size: nat)
    requires 2 <= size <= MAX_DIGIT / 2 && p <= MAX_DIGIT
    ensures (forall a, b :: 0 <= a < b < size ==> Slots(p, size, size)[a] != Slots(p, size, size)[b])
            <==> p + size <= MAX_DIGIT + 1
  {
    if p + size <= MAX_DIGIT + 1 {
      WindowCoversAll(p, size);
    } else {
      SlotsAfterReset(p, size, size, size - 1);
      ModAdd(p + 1, size, size);
      assert Slots(p, size, size)[0] == Slots(p, size, size)[size - 1];
    }
  }

  // ---------- Seeds ----------

  /** 127 has an inverse modulo 2^32, so a generator's seed tells the global seed it was made from. */
  lemma SeedTellsGlobal(d: nat, i: nat, g: nat, g': nat)
    requires g < WORD && g' < WORD
    ensures SeedOf(d, i, g) == SeedOf(d, i, g') <==> g == g'
  {
    ShiftCancels(g * RAND_MAGIC, g' * RAND_MAGIC, d + i * MAX_GPUS);
    InverseOfMagic(g);
    InverseOfMagic(g');
  }

  lemma InverseOfMagic(g: nat)
    requires g < WORD
    ensures (g * RAND_MAGIC % WORD) * INVERSE % WORD == g
  {
    var q, r := g * RAND_MAGIC / WORD, g * RAND_MAGIC % WORD;
    assert g * RAND_MAGIC == q * WORD + r;
    UndoMagic(g, q, r);
  }

  lemma UndoMagic(g: nat, q: nat, r: nat)
    requires g < WORD && 127 * g == q * WORD + r
    ensures r * INVERSE % WORD == g
  {
    var t := g * WRAPS - q * INVERSE;
    assert r * INVERSE == g + t * WORD;
    assert t >= 0;
    ModIs(r * INVERSE, WORD, t, g);
  }

  const COPIES: nat := 0x1000_0000

  lemma PairIsUnique(d: nat, i: nat, d': nat, i': nat)
    requires d < MAX_GPUS && d' < MAX_GPUS && d + i * MAX_GPUS == d' + i' * MAX_GPUS
    ensures d == d' && i == i'
  {
  }

  /** What a global seed adds does not matter for whether two seeds are equal. */
  lemma ShiftCancels(x: nat, y: nat, g: nat)
    ensures (x + g) % WORD == (y + g) % WORD <==> x % WORD == y % WORD
  {
  }

  lemma WordOfPair(d: nat, i: nat)
    requires d < MAX_GPUS
    ensures (d + i * MAX_GPUS) % WORD == d + i % COPIES * MAX_GPUS
  {
  }

  /** Two (device, copy) pairs get the same seed exactly when they are the same device and the copies are a
      multiple of 2^28 apart; so with fewer than 2^28 copies all seeds differ. */
  lemma SeedsEqualIff(d: nat, i: nat, d': nat, i': nat, globalSeed: nat)
    requires d < MAX_GPUS && d' < MAX_GPUS
    ensures SeedOf(d, i, globalSeed) == SeedOf(d', i', globalSeed) <==>
              d == d' && i % 0x1000_0000 == i' % 0x1000_0000
    ensures i < COPIES && i' < COPIES && SeedOf(d, i, globalSeed) == SeedOf(d', i', globalSeed) ==> d == d' && i == i'
  {
    ShiftCancels(d + i * MAX_GPUS, d' + i' * MAX_GPUS, globalSeed * RAND_MAGIC);
    WordOfPair(d, i);
    WordOfPair(d', i');
    if d + i % COPIES * MAX_GPUS == d' + i' % COPIES * MAX_GPUS {
      PairIsUnique(d, i % COPIES, d', i' % COPIES);
    }
  }
}
