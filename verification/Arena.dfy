/**
 The bump allocator.  Addresses are integers, and where the system allocator puts a new chunk is up to
 the caller: `base` may be any non-null address whose range overlaps no chunk in use.
 */
module Arena {
  import opened Wrappers
  import opened Multiples

  datatype Layout = Layout(size: nat, align: nat)

  predicate LegalLayout(layout: Layout) {
    layout.align > 0
  }

  /** How far `addr` is below the next multiple of `align`. */
  function AlignOffset(addr: nat, align: nat): (pad: nat)
    requires align > 0
    ensures pad < align
  {
    (align - addr % align) % align
  }

  lemma AlignedUp(addr: nat, align: nat)
    requires align > 0
    ensures (addr + AlignOffset(addr, align)) % align == 0
  {
    RoundedUp(addr, align, addr % align);
  }

  // ---------- Chunks ----------

  datatype Chunk = Chunk(start: nat, end: nat, offset: nat) {
    ghost predicate Valid(chunkSize: nat) {
      0 < start <= offset <= end && end == start + chunkSize
    }

    predicate Fits(layout: Layout)
      requires LegalLayout(layout)
    {
      offset + AlignOffset(offset, layout.align) + layout.size <= end
    }

    /** The chunk after the attempt, and the address of the space if there was room. */
    function Allocate(layout: Layout): (r: (Chunk, Option<nat>))
      requires LegalLayout(layout)
      ensures r.1.Some? <==> Fits(layout)
      ensures r.1.None? ==> r.0 == this
      ensures r.1.Some? ==>
                && r.0 == this.(offset := r.1.value + layout.size)
                && offset <= r.1.value < offset + layout.align
    {
      var aligned := offset + AlignOffset(offset, layout.align);
      var next := aligned + layout.size;
      if next <= end then (this.(offset := next), Some(aligned)) else (this, None)
    }

    function Reset(): Chunk {
      this.(offset := start)
    }
  }

  function NewChunk(base: nat, chunkSize: nat): Chunk {
    Chunk(base, base + chunkSize, base)
  }

  function TotalSize(chunks: seq<Chunk>): int {
    if chunks == [] then 0 else TotalSize(chunks[..|chunks| - 1]) + chunks[|chunks| - 1].end - chunks[|chunks| - 1].start
  }

  lemma {:induction false} TotalOfEqual(chunks: seq<Chunk>, chunkSize: nat)
    requires forall i :: 0 <= i < |chunks| ==> chunks[i].end == chunks[i].start + chunkSize
    ensures TotalSize(chunks) == |chunks| * chunkSize
  {
    if chunks != [] {
      var less := |chunks| - 1;
      TotalOfEqual(chunks[..less], chunkSize);
      NextMultiple(less, |chunks|, chunkSize);
    }
  }

  predicate Separate(a: Chunk, b: Chunk) {
    a.end <= b.start || b.end <= a.start
  }

  predicate InChunk(c: Chunk, addr: nat) {
    c.start <= addr < c.end
  }

  /** No address belongs to both. */
  lemma SeparateIff(a: Chunk, b: Chunk)
    requires a.start < a.end && b.start < b.end
    ensures Separate(a, b) <==> !exists addr: nat :: InChunk(a, addr) && InChunk(b, addr)
  {
    if !Separate(a, b) {
      var addr := if a.start < b.start then b.start else a.start;
      assert InChunk(a, addr) && InChunk(b, addr);
    }
  }

  /**
   Whether an empty chunk takes a layout depends on where the chunk is; it does wherever the chunk is
   exactly when there is room for the worst padding.
   */
  lemma FitsAnywhere(layout: Layout, chunkSize: nat)
    requires LegalLayout(layout) && chunkSize > 0
    ensures layout.size + layout.align - 1 <= chunkSize <==>
            forall base: nat :: base > 0 ==> NewChunk(base, chunkSize).Fits(layout)
  {
    if layout.size + layout.align - 1 > chunkSize {
      var base := if layout.align == 1 then 1 else layout.align + 1;
      assert base % layout.align == if layout.align == 1 then 0 else 1;
      assert AlignOffset(base, layout.align) == layout.align - 1;
      assert !NewChunk(base, chunkSize).Fits(layout);
    }
  }

  /** A chunk has room exactly when some aligned piece of the size lies between its offset and its end. */
  lemma FitsIff(c: Chunk, layout: Layout)
    requires LegalLayout(layout)
    ensures c.Fits(layout) <==>
            exists addr: nat :: c.offset <= addr && addr % layout.align == 0 && addr + layout.size <= c.end
  {
    var up := c.offset + AlignOffset(c.offset, layout.align);
    AlignedUp(c.offset, layout.align);
    forall addr: nat | c.offset <= addr && addr % layout.align == 0 ensures up <= addr {
      NoMultipleBefore(c.offset, layout.align, up, addr);
    }
  }

  // ---------- What has been handed out ----------

  // A piece of memory handed out since the last clear.
  datatype Allocation = Allocation(addr: nat, layout: Layout, chunk: nat) {
    function End(): nat {
      addr + layout.size
    }
  }

  ghost predicate Apart(a: Allocation, b: Allocation) {
    a.End() <= b.addr || b.End() <= a.addr
  }

  predicate Occupies(a: Allocation, addr: nat) {
    a.addr <= addr < a.addr + a.layout.size
  }

  /** No address is handed out twice. */
  lemma ApartIff(a: Allocation, b: Allocation)
    requires a.layout.size > 0 && b.layout.size > 0
    ensures Apart(a, b) <==> !exists addr: nat :: Occupies(a, addr) && Occupies(b, addr)
  {
    if !Apart(a, b) {
      var addr := if a.addr < b.addr then b.addr else a.addr;
      assert Occupies(a, addr) && Occupies(b, addr);
    }
  }

  /** Aligned, and inside the used part of its chunk. */
  ghost predicate Placed(a: Allocation, chunks: seq<Chunk>) {
    && LegalLayout(a.layout)
    && a.addr % a.layout.align == 0
    && a.chunk < |chunks|
    && chunks[a.chunk].start <= a.addr
    && a.End() <= chunks[a.chunk].offset
  }

  ghost predicate ChunksValid(chunks: seq<Chunk>, chunkSize: nat, current: nat) {
    && current < |chunks|
    && (forall i :: 0 <= i < |chunks| ==> chunks[i].Valid(chunkSize))
    && (forall i, j :: 0 <= i < j < |chunks| ==> Separate(chunks[i], chunks[j]))
    && (forall i :: current < i < |chunks| ==> chunks[i].offset == chunks[i].start)
  }

  ghost predicate LiveValid(live: seq<Allocation>, chunks: seq<Chunk>) {
    && (forall i :: 0 <= i < |live| ==> Placed(live[i], chunks))
    && (forall i, j :: 0 <= i < j < |live| ==> Apart(live[i], live[j]))
  }

  /** One successful allocation in chunk `current`. */
  lemma AllocateKeeps(live: seq<Allocation>, chunks: seq<Chunk>, chunkSize: nat, current: nat, layout: Layout)
    requires ChunksValid(chunks, chunkSize, current) && LiveValid(live, chunks)
    requires LegalLayout(layout) && chunks[current].Fits(layout)
    ensures var (chunk, ptr) := chunks[current].Allocate(layout);
            var after := chunks[current := chunk];
            && ChunksValid(after, chunkSize, current)
            && LiveValid(live + [Allocation(ptr.value, layout, current)], after)
  {
    var (chunk, ptr) := chunks[current].Allocate(layout);
    var after := chunks[current := chunk];
    var a := Allocation(ptr.value, layout, current);
    AlignedUp(chunks[current].offset, layout.align);
    assert Placed(a, after);
    forall i | 0 <= i < |live| ensures Placed(live[i], after) && Apart(live[i], a) {
      assert Placed(live[i], chunks);
      var c := live[i].chunk;
      if c != current {
        assert Separate(chunks[c], chunks[current]) || Separate(chunks[current], chunks[c]);
      }
    }
  }

  lemma {:induction false} CountsOnce(all: seq<nat>, id: nat)
    requires (forall i :: 0 <= i < |all| ==> all[i] == i)
    ensures multiset(all)[id] == if id < |all| then 1 else 0
  {
    if all != [] {
      var rest := all[..|all| - 1];
      CountsOnce(rest, id);
      assert all == rest + [|all| - 1];
    }
  }

  // ---------- The arena ----------

  // The flag that an arena shares with the boxes of its current epoch.
  class Token {
    var value: bool

    constructor ()
      ensures value
    {
      value := true;
    }
  }

  class ArenaBox {
    const ptr: nat
    const valid: Token

    constructor (ptr: nat, valid: Token)
      ensures this.ptr == ptr && this.valid == valid
    {
      this.ptr := ptr;
      this.valid := valid;
    }

    /** A box for a part of the same value; `None` stands for the panic of a box that is no longer valid. */
    method Map(f: nat -> nat) returns (mapped: Option<ArenaBox>)
      ensures mapped.Some? <==> valid.value
      ensures mapped.Some? ==> fresh(mapped.value) && mapped.value.ptr == f(ptr) && mapped.value.valid == valid
    {
      var ok := Validate();
      if !ok {
        return None;
      }
      var box := new ArenaBox(f(ptr), valid);
      mapped := Some(box);
    }

    /** Whether the box may still be dereferenced. */
    method Validate() returns (ok: bool)
      ensures ok == valid.value
    {
      ok := valid.value;
    }
  }

  class Arena {
    var chunks: seq<Chunk>
    // Stored values, by the number of the allocation that made them, and how many there have been.
    var elements: seq<nat>
    var stored: nat
    var valid: Token
    var currentChunkIndex: nat
    const chunkSize: nat

    // What is handed out in this epoch, what has been dropped, and the tokens of the earlier epochs.
    ghost var live: seq<Allocation>
    ghost var drops: seq<nat>
    ghost var spent: seq<Token>

    ghost predicate ElementsValid()
      reads this
    {
      && |elements| == |live|
      && drops + elements == seq(stored, i => i)
    }

    ghost predicate TokensValid()
      reads this, valid, spent
    {
      && valid.value
      && valid !in spent
      && (forall i :: 0 <= i < |spent| ==> !spent[i].value)
      && (forall i, j :: 0 <= i < j < |spent| ==> spent[i] != spent[j])
    }

    ghost predicate Valid()
      reads this, valid, spent
    {
      && chunkSize > 0
      && ChunksValid(chunks, chunkSize, currentChunkIndex)
      && LiveValid(live, chunks)
      && ElementsValid()
      && TokensValid()
    }

    /** The token of the given epoch; epochs are counted by clears. */
    ghost function TokenOf(epoch: nat): Token
      requires epoch <= |spent|
      reads this
    {
      if epoch < |spent| then spent[epoch] else valid
    }

    /** A box, mapped or not, is valid exactly while no clear has happened since its epoch. */
    lemma ValidUntilCleared(box: ArenaBox, epoch: nat)
      requires Valid() && epoch <= |spent| && box.valid == TokenOf(epoch)
      ensures box.valid.value <==> epoch == |spent|
    {
    }

    /** Every value is dropped at most once, and those not yet dropped are the ones still held. */
    lemma DroppedOnce(id: nat)
      requires Valid() && id < stored
      ensures multiset(drops)[id] + multiset(elements)[id] == 1
      ensures id in drops <==> id < |drops|
    {
      var all := drops + elements;
      assert all[id] == id;
      assert forall i :: 0 <= i < |all| ==> all[i] == i;
      CountsOnce(all, id);
      assert forall i :: 0 <= i < |drops| ==> drops[i] == all[i];
    }

    function Capacity(): nat
      reads this
    {
      |chunks| * chunkSize
    }

    /** What all chunks take together. */
    lemma CapacityIsTotal()
      requires Valid()
      ensures Capacity() == TotalSize(chunks)
    {
      TotalOfEqual(chunks, chunkSize);
    }

    constructor (chunkSize: nat, base: nat)
      requires chunkSize > 0 && base > 0
      ensures Valid() && fresh(valid)
      ensures live == [] && elements == [] && drops == [] && spent == [] && stored == 0
      ensures chunks == [NewChunk(base, chunkSize)] && this.chunkSize == chunkSize && Capacity() == chunkSize
    {
      chunks := [NewChunk(base, chunkSize)];
      elements := [];
      valid := new Token();
      currentChunkIndex := 0;
      this.chunkSize := chunkSize;
      live, stored, drops, spent := [], 0, [], [];
    }

    /** Empties the chunks that have been used; the later ones already are empty. */
    method ResetChunks()
      requires currentChunkIndex < |chunks|
      modifies this`chunks
      ensures |chunks| == |old(chunks)|
      ensures forall i :: 0 <= i < |chunks| ==>
                            chunks[i] == if i <= currentChunkIndex then old(chunks)[i].Reset() else old(chunks)[i]
    {
      for chunkIndex := 0 to currentChunkIndex + 1
        invariant |chunks| == |old(chunks)|
        invariant forall i :: 0 <= i < |chunks| ==>
                                chunks[i] == if i < chunkIndex then old(chunks)[i].Reset() else old(chunks)[i]
      {
        chunks := chunks[chunkIndex := chunks[chunkIndex].Reset()];
      }
    }

    /** Ends the epoch: its boxes become invalid, its values are dropped in order, its memory is free again. */
    method Clear()
      requires Valid()
      modifies this, valid
      ensures Valid() && fresh(valid)
      ensures live == [] && elements == [] && currentChunkIndex == 0
      ensures drops == old(drops) + old(elements) && stored == old(stored)
      ensures spent == old(spent) + [old(valid)]
      ensures |chunks| == |old(chunks)| && Capacity() == old(Capacity())
      ensures forall i :: 0 <= i < |chunks| ==> chunks[i] == NewChunk(old(chunks)[i].start, chunkSize)
    {
      valid.value := false;
      spent := spent + [valid];
      valid := new Token();
      drops := drops + elements;
      elements := [];
      live := [];
      ResetChunks();
      currentChunkIndex := 0;
    }

    /** Dropping the arena clears it, so everything ever stored has been dropped. */
    method Drop()
      requires Valid()
      modifies this, valid
      ensures drops == seq(old(stored), i => i)
    {
      Clear();
    }

    /** The chunk that is tried when the current one is full. */
    ghost function NextChunk(base: nat): Chunk
      reads this
    {
      if currentChunkIndex + 1 < |chunks| then chunks[currentChunkIndex + 1] else NewChunk(base, chunkSize)
    }

    /** The chunk that the space is taken from: the current one, or else the next one. */
    ghost function Tried(layout: Layout, base: nat): Chunk
      requires LegalLayout(layout) && currentChunkIndex < |chunks|
      reads this
    {
      if chunks[currentChunkIndex].Fits(layout) then chunks[currentChunkIndex] else NextChunk(base)
    }

    /** Records a successful attempt in the current chunk. */
    method HandOut(layout: Layout, chunk: Chunk, ptr: nat) returns (box: ArenaBox)
      requires Valid() && LegalLayout(layout)
      requires chunks[currentChunkIndex].Allocate(layout) == (chunk, Some(ptr))
      modifies this`chunks, this`elements, this`live, this`stored
      ensures Valid() && fresh(box) && box.ptr == ptr && box.valid == valid
      ensures chunks == old(chunks)[currentChunkIndex := chunk] && chunk.start == old(chunks)[currentChunkIndex].start
      ensures live == old(live) + [Allocation(ptr, layout, currentChunkIndex)]
      ensures elements == old(elements) + [old(stored)] && stored == old(stored) + 1
    {
      AllocateKeeps(live, chunks, chunkSize, currentChunkIndex, layout);
      chunks := chunks[currentChunkIndex := chunk];
      elements := elements + [stored];
      live := live + [Allocation(ptr, layout, currentChunkIndex)];
      stored := stored + 1;
      assert drops + elements == (drops + old(elements)) + [old(stored)];
      box := new ArenaBox(ptr, valid);
    }

    /** Moves on to the next chunk, which is empty; a new one is made when there is none. */
    method Advance(base: nat)
      requires ChunksValid(chunks, chunkSize, currentChunkIndex) && LiveValid(live, chunks)
      requires base > 0 && forall i :: 0 <= i < |chunks| ==> Separate(chunks[i], NewChunk(base, chunkSize))
      modifies this`chunks, this`currentChunkIndex
      ensures currentChunkIndex == old(currentChunkIndex) + 1
      ensures ChunksValid(chunks, chunkSize, currentChunkIndex) && LiveValid(live, chunks)
      ensures chunks[currentChunkIndex] == old(NextChunk(base))
      ensures chunks[currentChunkIndex] == NewChunk(chunks[currentChunkIndex].start, chunkSize)
      ensures chunks == old(chunks) + if currentChunkIndex < |old(chunks)| then [] else [NewChunk(base, chunkSize)]
    {
      currentChunkIndex := currentChunkIndex + 1;
      if currentChunkIndex >= |chunks| {
        chunks := chunks + [NewChunk(base, chunkSize)];
      }
      forall i | 0 <= i < |live| ensures Placed(live[i], chunks) {
        assert Placed(live[i], old(chunks));
      }
    }

    /**
     Hands out aligned memory from the current chunk or else from the next one, which is reused after a
     clear or placed at `base`.  `None` stands for the panic.
     */
    method Alloc(layout: Layout, base: nat) returns (box: Option<ArenaBox>)
      requires Valid() && LegalLayout(layout)
      requires base > 0 && forall i :: 0 <= i < |chunks| ==> Separate(chunks[i], NewChunk(base, chunkSize))
      modifies this
      ensures Valid() && valid == old(valid) && spent == old(spent) && drops == old(drops)
      ensures box.Some? <==>
              old(chunks[currentChunkIndex]).Fits(layout) || old(NextChunk(base)).Fits(layout)
      ensures layout.size + layout.align - 1 <= chunkSize ==> box.Some?
      ensures box.Some? ==>
                && fresh(box.value)
                && box.value.valid == valid
                && live == old(live) + [Allocation(box.value.ptr, layout, currentChunkIndex)]
                && elements == old(elements) + [old(stored)]
                && stored == old(stored) + 1
                && var tried := old(Tried(layout, base));
                   && tried.offset <= box.value.ptr < tried.offset + layout.align
                   && chunks[currentChunkIndex] == tried.(offset := box.value.ptr + layout.size)
      ensures currentChunkIndex == old(currentChunkIndex) + if old(chunks[currentChunkIndex]).Fits(layout) then 0 else 1
      ensures |chunks| == |old(chunks)| + if currentChunkIndex < |old(chunks)| then 0 else 1
      ensures forall i :: 0 <= i < |old(chunks)| && i != currentChunkIndex ==> chunks[i] == old(chunks)[i]
      ensures box.None? ==> live == old(live) && elements == old(elements) && stored == old(stored)
      ensures forall i :: 0 <= i < |old(chunks)| ==> chunks[i].start == old(chunks)[i].start
    {
      var attempt := chunks[currentChunkIndex].Allocate(layout);
      if attempt.1.None? {
        Advance(base);
        attempt := chunks[currentChunkIndex].Allocate(layout);
        if attempt.1.None? {
          return None;
        }
      }
      var handedOut := HandOut(layout, attempt.0, attempt.1.value);
      box := Some(handedOut);
    }
  }
}
