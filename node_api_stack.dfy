/*
 * The chunked stack that keeps the Node-API value stack and the handle-scope
 * stack: items live in fixed-size chunks that never move, so the address of
 * an item stays valid while the stack grows.
 */
module NodeApiStack {

  /** The number of items per chunk. */
  const ChunkSize: int := 64

  /** The number of chunks kept for `size` items: at least one, and one spare
      chunk only once the last chunk in use is half full. */
  function RequiredChunkCount(size: int): (count: int)
    requires 0 <= size
    ensures 1 <= count && size <= ChunkSize * count
    ensures size + ChunkSize / 2 <= ChunkSize * count
  {
    var n := (size + ChunkSize / 2 + ChunkSize - 1) / ChunkSize;
    if n < 1 then 1 else n
  }

  /** Two different indices never share a slot. */
  lemma SlotsDiffer(i: int, j: int)
    requires 0 <= i < j
    ensures i / ChunkSize != j / ChunkSize || i % ChunkSize != j % ChunkSize
  {
  }

  /** One more item never needs fewer chunks, and the item that opens a new
      chunk makes room for it. */
  lemma RequiredChunkCountGrows(size: int)
    requires 0 <= size
    ensures RequiredChunkCount(size) <= RequiredChunkCount(size + 1)
    ensures size / ChunkSize < RequiredChunkCount(size + 1)
  {
  }

  class StableAddressStack<T(0)> {
    /** The chunks, each an array of `ChunkSize` items. */
    var storage: seq<array<T>>
    var size: int
    /** The items from the bottom of the stack to its top. */
    ghost var contents: seq<T>

    ghost predicate Valid()
      reads this, storage
    {
      && 1 <= |storage|
      && (forall i :: 0 <= i < |storage| ==> storage[i].Length == ChunkSize)
      && (forall i, j :: 0 <= i < j < |storage| ==> storage[i] != storage[j])
      && size == |contents|
      && size <= ChunkSize * |storage| && |storage| <= RequiredChunkCount(size)
      && (forall i :: 0 <= i < size ==> storage[i / ChunkSize][i % ChunkSize] == contents[i])
    }

    /** A new stack is empty and owns one chunk. */
    constructor ()
      ensures Valid() && contents == [] && |storage| == 1
    {
      var chunk := new T[ChunkSize];
      storage := [chunk];
      size := 0;
      contents := [];
    }

    /** Pushes `value`; a chunk is added only when every chunk is full, and
        the chunks already held stay where they are. */
    method Emplace(value: T)
      requires Valid()
      modifies this, storage
      ensures Valid()
      ensures contents == old(contents) + [value]
      ensures |old(storage)| <= |storage| && storage[..|old(storage)|] == old(storage)
    {
      var newIndex := size;
      var chunkIndex := newIndex / ChunkSize;
      var chunkOffset := newIndex % ChunkSize;
      if chunkOffset == 0 && chunkIndex == |storage| {
        AddChunk();
      }
      StoreAbove(value);
    }

    /** Appends an empty chunk to a stack whose chunks are all full. */
    method AddChunk()
      requires Valid() && size == ChunkSize * |storage|
      modifies this`storage
      ensures Valid() && contents == old(contents)
      ensures |storage| == |old(storage)| + 1 && storage[..|old(storage)|] == old(storage)
      ensures fresh(storage[|old(storage)|])
    {
      RequiredChunkCountGrows(size);
      var chunk := new T[ChunkSize];
      storage := storage + [chunk];
    }

    /** Writes `value` into the first free slot, which the chunks already
        cover. */
    method StoreAbove(value: T)
      requires Valid() && size < ChunkSize * |storage|
      modifies this, storage[size / ChunkSize]
      ensures Valid() && contents == old(contents) + [value] && storage == old(storage)
    {
      var newIndex := size;
      RequiredChunkCountGrows(newIndex);
      ghost var before := contents;
      storage[newIndex / ChunkSize][newIndex % ChunkSize] := value;
      forall i | 0 <= i < newIndex
        ensures storage[i / ChunkSize][i % ChunkSize] == before[i]
      {
        SlotsDiffer(i, newIndex);
      }
      size := size + 1;
      contents := contents + [value];
    }

    /** Drops the top item. */
    method Pop()
      requires Valid() && 0 < size
      modifies this
      ensures Valid()
      ensures contents == old(contents)[..old(size) - 1]
      ensures |storage| <= |old(storage)| && storage == old(storage)[..|storage|]
      ensures |storage| == if RequiredChunkCount(size) < |old(storage)| then RequiredChunkCount(size) else |old(storage)|
    {
      size := size - 1;
      contents := contents[..size];
      ReduceChunkCount();
    }

    /** Shrinks the stack to `newSize` items; it never grows it. */
    method Resize(newSize: int)
      requires Valid() && 0 <= newSize <= size
      modifies this
      ensures Valid()
      ensures contents == old(contents)[..newSize]
      ensures |storage| <= |old(storage)| && storage == old(storage)[..|storage|]
      ensures newSize < old(size) ==>
        |storage| == if RequiredChunkCount(newSize) < |old(storage)| then RequiredChunkCount(newSize) else |old(storage)|
      ensures newSize == old(size) ==> storage == old(storage)
    {
      if newSize < size {
        size := newSize;
        contents := contents[..size];
        ReduceChunkCount();
      }
    }

    /** Frees the chunks beyond `RequiredChunkCount(size)`. */
    method ReduceChunkCount()
      requires 1 <= |storage|
      requires forall i :: 0 <= i < |storage| ==> storage[i].Length == ChunkSize
      requires forall i, j :: 0 <= i < j < |storage| ==> storage[i] != storage[j]
      requires size == |contents| && size <= ChunkSize * |storage|
      requires forall i :: 0 <= i < size ==> storage[i / ChunkSize][i % ChunkSize] == contents[i]
      modifies this`storage
      ensures Valid()
      ensures |storage| <= |old(storage)| && storage == old(storage)[..|storage|]
      ensures |storage| == if RequiredChunkCount(size) < |old(storage)| then RequiredChunkCount(size) else |old(storage)|
    {
      var requiredChunkCount := RequiredChunkCount(size);
      if requiredChunkCount < |storage| {
        storage := storage[..requiredChunkCount];
      }
    }

    function Size(): (n: int)
      reads this, storage
      requires Valid()
      ensures n == |contents|
    {
      size
    }

    function Empty(): (b: bool)
      reads this, storage
      requires Valid()
      ensures b <==> contents == []
    {
      size == 0
    }

    /** The item at `index`, found through its chunk. */
    function At(index: int): (item: T)
      reads this, storage
      requires Valid() && 0 <= index < |contents|
      ensures item == contents[index]
    {
      storage[index / ChunkSize][index % ChunkSize]
    }

    function Top(): (item: T)
      reads this, storage
      requires Valid() && 0 < |contents|
      ensures item == contents[|contents| - 1]
    {
      At(size - 1)
    }

    /** Visits the items chunk by chunk, bottom to top; returns them in the
        order visited. */
    method ForEach() returns (visited: seq<T>)
      requires Valid()
      ensures visited == contents
    {
      visited := [];
      var remaining := size;
      var c := 0;
      while c < |storage|
        invariant 0 <= c <= |storage|
        invariant remaining == if size < ChunkSize * c then 0 else size - ChunkSize * c
        invariant visited == contents[..size - remaining]
      {
        var chunk := storage[c];
        var chunkSize := if ChunkSize < remaining then ChunkSize else remaining;
        var i := 0;
        while i < chunkSize
          invariant 0 <= i <= chunkSize
          invariant visited == contents[..size - remaining + i]
        {
          assert (ChunkSize * c + i) / ChunkSize == c && (ChunkSize * c + i) % ChunkSize == i;
          visited := visited + [chunk[i]];
          i := i + 1;
        }
        remaining := remaining - chunkSize;
        c := c + 1;
      }
    }
  }
}
