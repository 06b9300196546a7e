/**
 * The per-type component pool (`ComponentContainer`), identical in both
 * revisions of the engine.
 *
 * A container is a plain struct stored by value in the engine's
 * `std::array`, so it is a datatype here. Its 32 chunk pointers become a
 * sequence of `Chunk`s; a chunk of 128 slots is modelled by the link word
 * each slot holds while it is free (the `ChunkEmptyEntry` view of the slot's
 * bytes). What a component stores in its slot while it is in use is not
 * modelled. Handle `h` lives in chunk `h / 128` at offset `h % 128`.
 */
module Containers {
  import opened Handles

  /** `sizeof(ChunkEmptyEntry)`: a single unsigned long. */
  const LinkBytes: nat := 8

  datatype Chunk = Unallocated | Allocated(links: seq<nat>)

  /**
   * `componentSize`, `firstFreeEntry.nextFree` and `chunks[]`. The source's
   * `nextChunk` field is never read or written after initialisation and is
   * left out.
   */
  datatype Container = Container(componentSize: nat, firstFree: nat, chunks: seq<Chunk>)

  /** `ComponentContainer{}`: no size yet, the free list starts at handle 1, no chunk. */
  const EmptyContainer := Container(0, 1, seq(MaxComponentChunks, _ => Unallocated))

  predicate WellFormed(c: Container)
  {
    && |c.chunks| == MaxComponentChunks
    && forall k | 0 <= k < |c.chunks| :: c.chunks[k].Allocated? ==> |c.chunks[k].links| == ComponentsPerChunk
  }

  /** The links `newChunk` writes: slot `i` of chunk `k` points at handle `k * 128 + i + 1`. */
  function ChunkLinks(k: nat): seq<nat>
  {
    seq(ComponentsPerChunk, i => k * ComponentsPerChunk + i + 1)
  }

  /** The loop of `newChunk` that threads a fresh chunk's slots. */
  method FillChunk(k: nat) returns (links: seq<nat>)
    ensures |links| == ComponentsPerChunk
    ensures forall i | 0 <= i < |links| :: links[i] == k * ComponentsPerChunk + i + 1
    ensures links == ChunkLinks(k)
  {
    var data := new nat[ComponentsPerChunk];
    for i := 0 to ComponentsPerChunk
      invariant forall j | 0 <= j < i :: data[j] == k * ComponentsPerChunk + j + 1
    {
      data[i] := k * ComponentsPerChunk + i + 1;
    }
    links := data[..];
  }

  /** `ensureComponentContainer`: the first call fixes the component size. */
  function EnsureContainer(c: Container, size: nat): Container
  {
    if c.componentSize == 0 then c.(componentSize := size) else c
  }

  /** `ensureComponentChunkHandle`: create the chunk holding `h` if it does not exist yet. */
  function EnsureChunk(c: Container, h: nat): (r: Container)
    requires WellFormed(c) && h < ComponentSlots
    ensures WellFormed(r)
  {
    var k := h / ComponentsPerChunk;
    if c.chunks[k].Unallocated? then c.(chunks := c.chunks[k := Allocated(ChunkLinks(k))]) else c
  }

  /** Whether the chunk holding `h` exists. */
  predicate HasChunk(c: Container, h: nat)
    requires WellFormed(c) && h < ComponentSlots
  {
    c.chunks[h / ComponentsPerChunk].Allocated?
  }

  /** The link word stored in slot `h`. */
  function Link(c: Container, h: nat): nat
    requires WellFormed(c) && h < ComponentSlots && HasChunk(c, h)
  {
    c.chunks[h / ComponentsPerChunk].links[h % ComponentsPerChunk]
  }

  /**
   * `getComponent` and `accessComponent`: the slot of handle `h` starts at
   * byte `componentSize * (h % 128)` of the data of chunk `h / 128`.
   */
  function SlotOffset(componentSize: nat, h: nat): nat
  {
    componentSize * (h % ComponentsPerChunk)
  }

  /**
   * Every slot lies inside its chunk's `componentSize * 128` data bytes, and
   * two different handles never share a byte: they name different chunks or
   * non-overlapping ranges of the same chunk.
   */
  lemma SlotsDisjoint(componentSize: nat, h1: nat, h2: nat)
    requires h1 != h2
    ensures SlotOffset(componentSize, h1) + componentSize <= componentSize * ComponentsPerChunk
    ensures h1 / ComponentsPerChunk != h2 / ComponentsPerChunk
      || SlotOffset(componentSize, h1) + componentSize <= SlotOffset(componentSize, h2)
      || SlotOffset(componentSize, h2) + componentSize <= SlotOffset(componentSize, h1)
  {
    var a, b := h1 % ComponentsPerChunk, h2 % ComponentsPerChunk;
    MulMonotone(componentSize, a + 1, ComponentsPerChunk);
    if h1 / ComponentsPerChunk == h2 / ComponentsPerChunk {
      assert a != b;
      if a < b {
        MulMonotone(componentSize, a + 1, b);
      } else {
        MulMonotone(componentSize, b + 1, a);
      }
    }
  }

  lemma MulMonotone(k: nat, x: nat, y: nat)
    requires x <= y
    ensures k * x <= k * y
  {
  }

  datatype Fetched = Fetched(container: Container, handle: nat, chunkCreated: bool)

  /**
   * `fetchNewComponentHandle`: when the head of the free list is a valid handle,
   * make sure its chunk exists, pop it and return it; otherwise return 0.
   */
  function Fetch(c: Container): (r: Fetched)
    requires WellFormed(c)
    ensures WellFormed(r.container)
  {
    if IsComponentHandleValid(c.firstFree) then
      var h := c.firstFree;
      var c1 := EnsureChunk(c, h);
      Fetched(c1.(firstFree := Link(c1, h)), h, !HasChunk(c, h))
    else
      Fetched(c, 0, false)
  }

  /** Slot `h` can be written: it is addressable and its chunk exists. */
  predicate CanRelease(c: Container, h: nat)
  {
    WellFormed(c) && h < ComponentSlots && HasChunk(c, h)
  }

  /** Push slot `h` onto the free list: its link takes the old head and `h` becomes the head. */
  function Release(c: Container, h: nat): (r: Container)
    requires CanRelease(c, h)
    ensures WellFormed(r)
  {
    var k := h / ComponentsPerChunk;
    c.(chunks := c.chunks[k := Allocated(c.chunks[k].links[h % ComponentsPerChunk := c.firstFree])],
       firstFree := h)
  }

  /**
   * `n` successive fetches: the container afterwards and the handles they
   * returned. A helper: what the run yields is stated by `FreshHandlesInOrder`.
   */
  function FetchRun(c: Container, n: nat): (r: (Container, seq<nat>))
    requires WellFormed(c)
    ensures WellFormed(r.0) && |r.1| == n
    decreases n
  {
    if n == 0 then (c, [])
    else
      var f := Fetch(c);
      var rest := FetchRun(f.container, n - 1);
      (rest.0, [f.handle] + rest.1)
  }

  /**
   * The container of component size `size` after `n` fetches from a fresh one:
   * the head is `n + 1` and exactly the chunks holding handles `1..n` exist,
   * still as `newChunk` threaded them.
   */
  function After(size: nat, n: nat): Container
  {
    Container(size, n + 1,
      seq(MaxComponentChunks, k => if 0 <= k && 1 <= n && k <= n / ComponentsPerChunk then Allocated(ChunkLinks(k)) else Unallocated))
  }

  /** The first `ensureComponentContainer` fixes the size; later calls change nothing. */
  lemma EnsureContainerFixesSize(c: Container, first: nat, later: nat)
    requires first > 0
    ensures EnsureContainer(c, first).componentSize == if c.componentSize == 0 then first else c.componentSize
    ensures EnsureContainer(EnsureContainer(c, first), later) == EnsureContainer(c, first)
  {
  }

  /** A fresh container, once sized, is the state after zero fetches. */
  lemma FreshContainer(size: nat)
    requires size > 0
    ensures EnsureContainer(EmptyContainer, size) == After(size, 0)
    ensures WellFormed(After(size, 0))
  {
  }

  /** A chunk is created on first touch only, and then holds the links `newChunk` writes. */
  lemma EnsureChunkFirstTouch(c: Container, h: nat)
    requires WellFormed(c) && h < ComponentSlots
    ensures HasChunk(EnsureChunk(c, h), h)
    ensures HasChunk(c, h) ==> EnsureChunk(c, h) == c
    ensures !HasChunk(c, h) ==> EnsureChunk(c, h).chunks[h / ComponentsPerChunk].links == ChunkLinks(h / ComponentsPerChunk)
    ensures forall k | 0 <= k < MaxComponentChunks && k != h / ComponentsPerChunk :: EnsureChunk(c, h).chunks[k] == c.chunks[k]
  {
  }

  /**
   * One fetch from the state after `n` fresh fetches returns handle `n + 1`; it
   * creates a chunk exactly when `n + 1` is the first handle of its chunk that
   * the free list reaches (handle 1 for chunk 0, handle `128 * k` for chunk `k`).
   */
  lemma FetchAfter(size: nat, n: nat)
    requires n < ComponentSlots - 1
    ensures WellFormed(After(size, n))
    ensures Fetch(After(size, n)) == Fetched(After(size, n + 1), n + 1, n == 0 || (n + 1) % ComponentsPerChunk == 0)
  {
    var c := After(size, n);
    var h := n + 1;
    var k := h / ComponentsPerChunk;
    assert WellFormed(c);
    assert h == k * ComponentsPerChunk + h % ComponentsPerChunk;
    var c1 := EnsureChunk(c, h);
    assert c.chunks[k].Allocated? <==> !(n == 0 || h % ComponentsPerChunk == 0);
    assert c1.chunks[k] == Allocated(ChunkLinks(k));
    assert Link(c1, h) == h + 1;
    var want := After(size, n + 1);
    forall j | 0 <= j < MaxComponentChunks
      ensures c1.chunks[j] == want.chunks[j]
    {
      assert (1 <= h && j <= h / ComponentsPerChunk) <==> (j == k || (1 <= n && j <= n / ComponentsPerChunk));
    }
    assert c1.chunks == want.chunks;
  }

  /** The closed form is a well-formed container. */
  lemma AfterWellFormed(size: nat, n: nat)
    ensures WellFormed(After(size, n))
  {
    var c := After(size, n);
    forall k | 0 <= k < |c.chunks| && c.chunks[k].Allocated?
      ensures |c.chunks[k].links| == ComponentsPerChunk
    {
      assert c.chunks[k] == Allocated(ChunkLinks(k));
    }
  }

  /** From the state after `m` fresh fetches, `n` more return `m + 1, ..., m + n`. */
  lemma {:induction false} FreshHandlesInOrder(size: nat, m: nat, n: nat)
    requires m + n < ComponentSlots
    ensures WellFormed(After(size, m))
    ensures FetchRun(After(size, m), n).0 == After(size, m + n)
    ensures FetchRun(After(size, m), n).1 == Range(m + 1, n)
    decreases n
  {
    AfterWellFormed(size, m);
    if n > 0 {
      var c := After(size, m);
      FetchAfter(size, m);
      var f := Fetch(c);
      assert f.container == After(size, m + 1) && f.handle == m + 1;
      FreshHandlesInOrder(size, m + 1, n - 1);
      var rest := FetchRun(f.container, n - 1);
      assert FetchRun(c, n) == (rest.0, [f.handle] + rest.1);
      RangeCons(m + 1, n);
    }
  }

  /** A freshly sized container hands out 1, 2, ..., n, pairwise distinct and all valid. */
  lemma FreshHandlesDistinct(size: nat, n: nat)
    requires size > 0 && n < ComponentSlots
    ensures WellFormed(EnsureContainer(EmptyContainer, size))
    ensures var hs := FetchRun(EnsureContainer(EmptyContainer, size), n).1;
      (forall i | 0 <= i < n :: hs[i] == i + 1 && IsComponentHandleValid(hs[i]))
      && (forall i, j | 0 <= i < j < n :: hs[i] != hs[j])
  {
    FreshContainer(size);
    FreshHandlesInOrder(size, 0, n);
  }

  /** After 4095 fresh fetches the head is 4096, which is not a valid handle: every later fetch returns 0. */
  lemma FetchExhausted(size: nat)
    ensures WellFormed(After(size, ComponentSlots - 1))
    ensures Fetch(After(size, ComponentSlots - 1)) == Fetched(After(size, ComponentSlots - 1), 0, false)
  {
    FetchAfter(size, ComponentSlots - 2);
  }

  /** The container free list is LIFO: a fetch after releasing `h` returns `h` and restores the old head. */
  lemma FetchAfterRelease(c: Container, h: nat)
    requires CanRelease(c, h) && IsComponentHandleValid(h)
    ensures Fetch(Release(c, h)) == Fetched(Release(c, h).(firstFree := c.firstFree), h, false)
  {
  }
}
