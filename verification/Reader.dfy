/** Reading a loaded file from a cursor (Libraries/RECore/Buffer.cpp and Reader.cpp). */
module ReaderBuffer {
  import opened Symbols
  import opened Bytes

  class Reader {
    const data: seq<u8>
    var position: nat

    constructor (data: seq<u8>)
      ensures this.data == data && position == 0
    {
      this.data := data;
      position := 0;
    }

    function Remaining(): seq<u8>
      reads this
    {
      if position <= |data| then data[position..] else []
    }

    predicate IsOverflow(length: nat)
      reads this
    {
      position + length > |data|
    }

    /** `length` bytes from the cursor, which stays if aPeak; nothing happens if they are not there. */
    method ReadImpl(length: nat, peak: bool := false) returns (bytes: Option<seq<u8>>)
      modifies this
      ensures bytes == if old(position) + length <= |data| then Some(old(Remaining())[..length]) else None
      ensures position == old(position) + if bytes.Some? && !peak then length else 0
    {
      if IsOverflow(length) {
        return None;
      }
      assert data[position..position + length] == Remaining()[..length];
      bytes := Some(data[position..position + length]);
      if !peak {
        position := position + length;
      }
    }

    method ReadU8() returns (n: Option<u8>)
      requires position <= |data|
      modifies this
      ensures position <= |data|
      ensures match TakeU8(old(Remaining()))
              case None => n == None && position == old(position)
              case Some((value, rest)) => n == Some(value) && Remaining() == rest
    {
      var bytes := ReadImpl(1);
      if bytes.None? {
        return None;
      }
      n := Some(bytes.value[0]);
    }

    method ReadU32() returns (n: Option<u32>)
      requires position <= |data|
      modifies this
      ensures position <= |data|
      ensures match TakeU32(old(Remaining()))
              case None => n == None && position == old(position)
              case Some((value, rest)) => n == Some(value) && Remaining() == rest
    {
      var bytes := ReadImpl(4);
      if bytes.None? {
        return None;
      }
      FromLittleEndianBounds(old(Remaining()));
      n := Some(FromLittleEndian(bytes.value));
    }

    method ReadU64() returns (n: Option<u64>)
      requires position <= |data|
      modifies this
      ensures position <= |data|
      ensures match TakeU64(old(Remaining()))
              case None => n == None && position == old(position)
              case Some((value, rest)) => n == Some(value) && Remaining() == rest
    {
      var bytes := ReadImpl(8);
      if bytes.None? {
        return None;
      }
      FromLittleEndianBounds(old(Remaining()));
      n := Some(FromLittleEndian(bytes.value));
    }

    /** The bytes before the next NUL, which is skipped. Nothing stops the search at the end
        of the data, so there has to be one. */
    method ReadString() returns (s: Str)
      requires position <= |data| && UpToNul(Remaining()).Some?
      modifies this
      ensures TakeString(old(Remaining())) == Some((s, Remaining()))
      ensures position <= |data|
    {
      var length := 0;
      ghost var expected := UpToNul(Remaining()).value;
      while data[position + length] != 0
        invariant length <= |expected|
        decreases |expected| - length
      {
        assert data[position + length] == Remaining()[length];
        length := length + 1;
      }
      assert data[position + length] == Remaining()[length];
      s := data[position..position + length];
      assert s == expected;
      position := position + length + 1;
    }

    /** Exactly `length` bytes, NULs and all. */
    method ReadStringOfLength(length: nat) returns (s: Str)
      requires position + length <= |data|
      modifies this
      ensures s == old(Remaining())[..length] && Remaining() == old(Remaining())[length..]
    {
      s := data[position..position + length];
      position := position + length;
    }
  }
}
