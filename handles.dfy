/**
 * Entity handles and the word-level facts both revisions of the engine share.
 *
 * `u32` is `unsigned long` in both headers, so on an LP64 platform every
 * counter, mask and link word is 64 bits wide; `Word` is that type.
 * An entity handle is the bit-field record {alive: 1, generation: 3, id: 28}.
 * The engine also reads the same memory as one raw unsigned word (the
 * `ChunkEmptyEntry` cast); `RawWord` is that view, with the first declared
 * field in the least significant bits (the usual little-endian bit-field
 * allocation) and the padding above bit 31 zero.
 */
module Handles {

  const WordModulus: nat := 0x1_0000_0000_0000_0000
  type Word = x: nat | x < WordModulus

  /** `++x` and `--x` on an unsigned long: wrap around modulo 2^64. */
  function Inc(x: Word): Word { (x + 1) % WordModulus }
  function Dec(x: Word): Word { (x + WordModulus - 1) % WordModulus }

  const GenerationLimit: nat := 8        // the generation field has 3 bits
  const IdLimit: nat := 0x1000_0000      // the id field has 28 bits
  const RawLimit: nat := 0x1_0000_0000   // the three fields fill 32 bits

  type Generation = g: nat | g < GenerationLimit
  type EntityId = i: nat | i < IdLimit

  datatype EntityHandle = EntityHandle(alive: bool, generation: Generation, id: EntityId)

  /** The all-zero handle, what `{}` produces. */
  const NullHandle := EntityHandle(false, 0, 0)

  /** `generation += 1` on the 3-bit field. */
  function NextGeneration(g: Generation): Generation { (g + 1) % GenerationLimit }

  /** Assigning an unsigned long to the 28-bit id field keeps its low 28 bits. */
  function TruncateId(x: nat): EntityId { x % IdLimit }

  /** The handle read as one raw word (what a `ChunkEmptyEntry::nextFree` read returns). */
  function RawWord(h: EntityHandle): (w: nat)
    ensures w < RawLimit
    ensures w % 2 == (if h.alive then 1 else 0)
  {
    (if h.alive then 1 else 0) + 2 * h.generation + 16 * h.id
  }

  /** The handle whose raw word is `w` (what a raw `nextFree = w` write leaves behind). */
  function FromRawWord(w: nat): EntityHandle
  {
    EntityHandle(w % 2 == 1, (w / 2) % GenerationLimit, (w / 16) % IdLimit)
  }

  /** Writing the raw word of a handle and reading the fields back gives the handle. */
  lemma RawWordRoundTrip(h: EntityHandle)
    ensures FromRawWord(RawWord(h)) == h
  {
    var a := if h.alive then 1 else 0;
    var w := a + 2 * h.generation + 16 * h.id;
    assert w / 2 == h.generation + 8 * h.id;
    assert w / 16 == h.id;
  }

  /** Every 32-bit raw word is the raw word of the handle it spells. */
  lemma FromRawWordRoundTrip(w: nat)
    requires w < RawLimit
    ensures RawWord(FromRawWord(w)) == w
  {
    var h := FromRawWord(w);
    assert w / 16 < IdLimit;
    assert w == w % 2 + 2 * ((w / 2) % 8) + 16 * (w / 16);
  }

  /**
   * A word used as a bit set (a component mask) is modelled by the set of the
   * positions of its one bits: `|` is union, `&` is intersection,
   * `& ~(1UL << t)` removes position `t`.
   */
  function Bits(x: nat): set<nat>
    decreases x
  {
    if x == 0 then {} else (if x % 2 == 1 then {0} else {}) + set i | i in Bits(x / 2) :: i + 1
  }

  /** Only zero has no one bit. */
  lemma {:induction false} BitsNonEmpty(x: nat)
    requires x > 0
    ensures Bits(x) != {}
    decreases x
  {
    if x % 2 == 0 {
      BitsNonEmpty(x / 2);
      var i :| i in Bits(x / 2);
      assert i + 1 in Bits(x);
    } else {
      assert 0 in Bits(x);
    }
  }

  /** A word below 2^64 has its one bits among positions 0..63. */
  lemma {:induction false} BitsBelow(x: nat, width: nat)
    requires x < Pow2(width)
    ensures forall i | i in Bits(x) :: i < width
    decreases x
  {
    if x > 0 {
      assert width > 0;
      BitsBelow(x / 2, width - 1);
    }
  }

  /** `2^n`, the bound in `BitsBelow`; its only contract is the positivity that bound needs. */
  function Pow2(n: nat): (r: nat)
    ensures r > 0
  {
    if n == 0 then 1 else 2 * Pow2(n - 1)
  }

  const ComponentsPerChunk: nat := 128
  const MaxComponentChunks: nat := 32
  /** Number of component slots a container can address: 128 * 32. */
  const ComponentSlots: nat := 4096

  /** A component handle names a slot: 0 is the invalid handle. */
  predicate IsComponentHandleValid(h: nat)
  {
    0 < h < ComponentSlots
  }

  /** The `n` consecutive numbers starting at `lo`. */
  function Range(lo: nat, n: nat): (r: seq<nat>)
    ensures |r| == n
  {
    seq(n, i => lo + i)
  }

  lemma RangeCons(lo: nat, n: nat)
    requires n > 0
    ensures [lo] + Range(lo + 1, n - 1) == Range(lo, n)
  {
  }

  lemma RangeSnoc(lo: nat, n: nat)
    ensures Range(lo, n) + [lo + n] == Range(lo, n + 1)
  {
  }

  /** `n` zero words, as `{}` leaves a component handle list. */
  function Zeros(n: nat): (r: seq<nat>)
    ensures |r| == n && forall i | 0 <= i < n :: r[i] == 0
  {
    seq(n, _ => 0)
  }

  /** The handles `lo, lo + 1, ...` of `n` freshly created entities. */
  function SpawnedHandles(lo: nat, n: nat): (r: seq<EntityHandle>)
    requires lo + n <= IdLimit
    ensures |r| == n && forall i | 0 <= i < n :: r[i] == EntityHandle(true, 0, lo + i)
  {
    seq(n, i requires 0 <= i < n => EntityHandle(true, 0, lo + i))
  }

  lemma SpawnedHandlesCons(lo: nat, n: nat)
    requires 0 < n && lo + n <= IdLimit
    ensures [EntityHandle(true, 0, lo)] + SpawnedHandles(lo + 1, n - 1) == SpawnedHandles(lo, n)
  {
  }

  function Min(a: nat, b: nat): nat { if a <= b then a else b }
}
