/** The growable output buffer (Libraries/RECore/Buffer.cpp and Writer.cpp). */
module WriterBuffer {
  import opened Symbols

  // ---------------------------------------------------------------- growth

  /** The sizes of the buffer over time, and how many bytes reallocations have copied so far. */
  datatype Growth = Growth(size: nat, position: nat, copied: nat)

  /** The new size chosen when `length` bytes do not fit: 10% more, or double if that is
      nothing, but at least enough. */
  function GrownSize(size: nat, length: nat): (newSize: nat)
    ensures newSize >= size + length
  {
    var tenPercentMore := (size as real + size as real * 0.1).Floor;
    var wanted := if tenPercentMore == size then size * 2 else tenPercentMore;
    if wanted < size + length then size + length else wanted
  }

  /** The size in whole numbers: a tenth more, rounded down, or double for fewer than ten bytes. */
  lemma GrownSizeInBytes(size: nat, length: nat)
    ensures var wanted := if size < 10 then 2 * size else size + size / 10;
            GrownSize(size, length) == if wanted < size + length then size + length else wanted
  {
    var tenPercentMore := size as real + size as real * 0.1;
    assert size == 10 * (size / 10) + size % 10;
    assert tenPercentMore == (size + size / 10) as real + (size % 10) as real * 0.1;
    assert tenPercentMore.Floor == size + size / 10;
  }

  function AfterWrite(g: Growth, length: nat): Growth {
    if g.position + length > g.size
    then Growth(GrownSize(g.size, length), g.position + length, g.copied + g.size)
    else g.(position := g.position + length)
  }

  function AfterWrites(g: Growth, lengths: seq<nat>): Growth {
    if lengths == [] then g
    else AfterWrite(AfterWrites(g, lengths[..|lengths| - 1]), lengths[|lengths| - 1])
  }

  /** A reallocation adds at least a twentieth of what it copies. */
  lemma GrowthCoversCopy(size: nat, length: nat)
    requires size > 0
    ensures size <= 20 * (GrownSize(size, length) - size)
  {
    var tenPercentMore := (size as real + size as real * 0.1).Floor;
    assert tenPercentMore >= size;
    if size >= 10 {
      assert 20 * (tenPercentMore - size) >= size;
    }
  }

  /** Over any run of writes the bytes copied are at most 20 times the growth of the buffer, and the
      buffer never gets larger than it started or twice what has been written. */
  lemma {:induction false} GrowthIsAmortised(initial: nat, lengths: seq<nat>)
    requires initial > 0
    ensures var g := AfterWrites(Growth(initial, 0, 0), lengths);
            && g.position <= g.size
            && initial <= g.size
            && g.copied <= 20 * (g.size - initial)
            && (g.size <= initial || g.size <= 2 * g.position)
  {
    if lengths != [] {
      GrowthIsAmortised(initial, lengths[..|lengths| - 1]);
      var g := AfterWrites(Growth(initial, 0, 0), lengths[..|lengths| - 1]);
      GrowthCoversCopy(g.size, lengths[|lengths| - 1]);
    }
  }

  // ---------------------------------------------------------------- the buffer

  class Writer {
    var pData: array<u8>
    var size: nat
    var position: nat
    ghost var copied: nat

    ghost predicate Valid()
      reads this
    {
      pData.Length == size && position <= size && size > 0
    }

    /** What has been written so far. */
    ghost function Contents(): seq<u8>
      requires Valid()
      reads this, pData
    {
      pData[..position]
    }

    /** The buffer only ever moves to a fresh and larger one. */
    twostate predicate Grown()
      reads this
    {
      Valid() && (pData == old(pData) || fresh(pData)) && old(size) <= size
    }

    ghost function Sizes(): Growth
      reads this
    {
      Growth(size, position, copied)
    }

    constructor ()
      ensures Valid() && fresh(pData)
      ensures Contents() == [] && Sizes() == Growth(1024, 0, 0)
    {
      pData := new u8[1024];
      size, position, copied := 1024, 0, 0;
    }

    constructor WithSize(initialSize: nat)
      ensures Valid() && fresh(pData)
      ensures Contents() == [] && Sizes() == Growth(if initialSize < 1 then 1 else initialSize, 0, 0)
    {
      var n := if initialSize < 1 then 1 else initialSize;
      pData := new u8[n];
      size, position, copied := n, 0, 0;
    }

    predicate IsOverflow(length: nat)
      reads this
    {
      position + length > size
    }

    /** Moves to a larger buffer, whatever its size. */
    method Resize(newSize: nat)
      requires Valid() && size <= newSize
      modifies this
      ensures Valid() && fresh(pData)
      ensures Contents() == old(Contents())
      ensures Sizes() == Growth(newSize, old(position), old(copied) + old(size))
    {
      var pNewData := new u8[newSize];
      forall i | 0 <= i < size {
        pNewData[i] := pData[i];
      }
      copied := copied + size;
      pData := pNewData;
      size := newSize;
    }

    /** The reallocation for `length` bytes that do not fit. */
    method MakeRoom(length: nat)
      requires Valid()
      modifies this
      ensures Valid() && fresh(pData) && old(size) <= size
      ensures Contents() == old(Contents())
      ensures Sizes() == Growth(GrownSize(old(size), length), old(position), old(copied) + old(size))
    {
      var oldSize := size;
      var newSize := (size as real + size as real * 0.1).Floor;
      if newSize == size {
        newSize := size * 2;
      }
      if newSize < oldSize + length {
        newSize := oldSize + length;
      }
      Resize(newSize);
    }

    /** Copies bytes for which there is room, and advances past them. */
    method CopyIn(source: seq<u8>)
      requires Valid() && position + |source| <= size
      modifies this`position, pData
      ensures Valid() && position == old(position) + |source|
      ensures Contents() == old(Contents()) + source
    {
      forall i | 0 <= i < |source| {
        pData[position + i] := source[i];
      }
      assert pData[..position] == old(Contents());
      assert pData[position..position + |source|] == source;
      Joined(pData, position, position + |source|);
      position := position + |source|;
    }

    method WriteImpl(source: seq<u8>)
      requires Valid()
      modifies this, pData
      ensures Grown()
      ensures Contents() == old(Contents()) + source
      ensures Sizes() == AfterWrite(old(Sizes()), |source|)
    {
      if IsOverflow(|source|) {
        MakeRoom(|source|);
      }
      CopyIn(source);
    }

    /** The bytes and the terminator that c_str appends. */
    method WriteString(source: Str)
      requires Valid()
      modifies this, pData
      ensures Grown()
      ensures Contents() == old(Contents()) + (source + [0])
      ensures Sizes() == AfterWrite(old(Sizes()), |source| + 1)
    {
      WriteImpl(source + [0]);
    }

    /** The bytes that are written to the file: one more than there are, namely what happens to
        follow them in the buffer. None if the buffer is full, as the byte then lies past its end. */
    method WriteToFile() returns (file: Option<seq<u8>>)
      requires Valid()
      ensures file.Some? <==> position < size
      ensures file.Some? ==> exists last :: file.value == Contents() + [last]
    {
      if position == size {
        return None;
      }
      assert pData[..position + 1] == Contents() + [pData[position]];
      return Some(pData[..position + 1]);
    }

    /** Any run of writes appends, wherever reallocations fall in it. */
    method WriteAll(sources: seq<seq<u8>>)
      requires Valid()
      modifies this, pData
      ensures Grown()
      ensures Contents() == old(Contents()) + Concat(sources)
      ensures Sizes() == AfterWrites(old(Sizes()), Lengths(sources))
    {
      for i := 0 to |sources|
        invariant Grown()
        invariant Contents() == old(Contents()) + Concat(sources[..i])
        invariant Sizes() == AfterWrites(old(Sizes()), Lengths(sources[..i]))
      {
        OneMoreSource(old(Contents()), old(Sizes()), sources, i);
        WriteImpl(sources[i]);
      }
      assert sources[..|sources|] == sources;
    }
  }

  lemma Joined(data: array<u8>, from: nat, end: nat)
    requires from <= end <= data.Length
    ensures data[..end] == data[..from] + data[from..end]
  {}

  function Concat(sources: seq<seq<u8>>): seq<u8> {
    if sources == [] then [] else Concat(sources[..|sources| - 1]) + sources[|sources| - 1]
  }

  function Lengths(sources: seq<seq<u8>>): seq<nat> {
    seq(|sources|, i requires 0 <= i < |sources| => |sources[i]|)
  }

  lemma OneMoreSource(before: seq<u8>, g: Growth, sources: seq<seq<u8>>, n: nat)
    requires n < |sources|
    ensures before + Concat(sources[..n + 1]) == before + Concat(sources[..n]) + sources[n]
    ensures AfterWrites(g, Lengths(sources[..n + 1])) == AfterWrite(AfterWrites(g, Lengths(sources[..n])), |sources[n]|)
  {
    assert sources[..n + 1][..n] == sources[..n];
    var lengths := Lengths(sources[..n + 1]);
    assert lengths[..n] == Lengths(sources[..n]);
  }

  /** A buffer that is written full: the byte after its contents is not there to be written. */
  method FullBuffer() returns (file: Option<seq<u8>>)
    ensures file == None
  {
    var writer := new Writer.WithSize(4);
    writer.WriteImpl([1, 2, 3, 4]);
    file := writer.WriteToFile();
  }
}
