/** The bounded stream of custom_binary_reader.cc, over a stream held in memory. */
module BinaryStreams {
  import opened Wrappers
  import opened Integers
  import opened CompressedInts

  const STRING_BUFFER_SIZE: nat := 100

  // ---------------------------------------------------------------- strings, as they are documented

  /** The bytes up to the first NUL, or all of them when there is none. */
  function UpToNul(s: Bytes): (r: Bytes)
    ensures r <= s && 0 !in r
    ensures |r| < |s| ==> s[|r|] == 0
  {
    if s == [] || s[0] == 0 then [] else [s[0]] + UpToNul(s[1..])
  }

  lemma {:induction false} UpToNulIs(s: Bytes, r: Bytes)
    requires r <= s && 0 !in r && (|r| < |s| ==> s[|r|] == 0)
    ensures UpToNul(s) == r
    decreases |s|
  {
    if r != [] {
      assert s[0] == r[0] && r[0] in r;
      UpToNulIs(s[1..], r[1..]);
    }
  }

  /** Whether n bytes fill one buffer of a read, or whole buffers. */
  predicate FillsBuffers(n: nat) {
    n <= STRING_BUFFER_SIZE || n % STRING_BUFFER_SIZE == 0
  }

  /**
   * What GetString appends beyond the text when it meets no NUL: the end of its last full buffer
   * that the last, shorter read did not overwrite.
   */
  function Stale(s: Bytes): (r: Bytes)
    ensures r == [] <==> FillsBuffers(|s|)
  {
    if FillsBuffers(|s|) then []
    else s[|s| - STRING_BUFFER_SIZE..|s| - |s| % STRING_BUFFER_SIZE]
  }

  /** GetString's result over the text s that lies between the offset and the relative end. */
  function StringRead(s: Bytes): Bytes {
    if 0 in s then UpToNul(s) else s + Stale(s)
  }

  /** The documented string is read exactly when it ends in NUL or fills whole buffers. */
  lemma StringReadExactly(s: Bytes)
    ensures StringRead(s) == UpToNul(s) <==> 0 in s || FillsBuffers(|s|)
  {
    if 0 !in s {
      UpToNulIs(s, s);
      assert |s + Stale(s)| == |s| + |Stale(s)|;
    }
  }

  /**
   * GetString's result from an offset past the relative end, with s all that lies after it: the
   * count of bytes left has wrapped around, and whole buffers are read until one holds a NUL.
   */
  function ReadPastEnd(s: Bytes): Option<Bytes> {
    if 0 in s[..|s| - |s| % STRING_BUFFER_SIZE] then Some(UpToNul(s)) else None
  }

  // ---------------------------------------------------------------- the stream

  class CustomBinaryStream {
    const data: Bytes
    var position: nat
    var relativeEnd: nat

    ghost predicate Valid()
      reads this
    {
      position <= |data| && relativeEnd <= |data|
    }

    /** What may still be read. */
    function Available(): Bytes
      reads this
      requires Valid()
    {
      if position <= relativeEnd then data[position..relativeEnd] else []
    }

    constructor (data: Bytes)
      ensures Valid() && this.data == data && Available() == data && position == 0
    {
      this.data := data;
      position := 0;
      relativeEnd := |data|;
    }

    method ReadBytes(count: nat) returns (r: Option<Bytes>)
      requires Valid()
      modifies this`position
      ensures Valid()
      ensures r.Some? <==> count <= |old(Available())| && (count > 0 || old(position) <= relativeEnd)
      ensures r.None? ==> position == old(position)
      ensures r.Some? ==> r.value == old(Available())[..count]
                          && Available() == old(Available())[count..] && position == old(position) + count
    {
      if relativeEnd - position < count {
        return None;
      }
      r := Some(data[position..position + count]);
      position := position + count;
    }

    method ReadByte() returns (r: Option<byte>)
      requires Valid()
      modifies this`position
      ensures Valid()
      ensures old(Available()) == [] ==> r == None && position == old(position)
      ensures old(Available()) != [] ==> r == Some(old(Available())[0]) && position == old(position) + 1
                                         && Available() == old(Available())[1..]
    {
      var bytes := ReadBytes(1);
      if bytes.None? {
        return None;
      }
      return Some(bytes.value[0]);
    }

    method Peek() returns (r: Option<byte>)
      requires Valid()
      ensures r == if Available() == [] then None else Some(Available()[0])
    {
      if position >= relativeEnd {
        return None;
      }
      return Some(data[position]);
    }

    /** Narrows the stream to the next length bytes; it can be narrowed further, never widened. */
    method SetStreamLength(length: nat) returns (ok: bool)
      requires Valid()
      modifies this`relativeEnd
      ensures Valid()
      ensures ok <==> old(position) + length <= old(relativeEnd)
      ensures ok ==> Available() == old(Available())[..length] && relativeEnd == position + length
      ensures !ok ==> relativeEnd == old(relativeEnd)
    {
      if position + length > |data| {
        return false;
      }
      if position + length > relativeEnd {
        return false;
      }
      relativeEnd := position + length;
      return true;
    }

    method ResetStreamLength()
      requires Valid()
      modifies this`relativeEnd
      ensures Valid() && relativeEnd == |data| && Available() == data[position..]
    {
      relativeEnd := |data|;
    }

    /** On failure the bytes tried, at most four, have been read. */
    method ReadCompressedUInt32() returns (r: Option<nat>)
      requires Valid()
      modifies this`position
      ensures Valid()
      ensures match Decode(old(Available()))
              case Some((n, width)) =>
                r == Some(n) && width <= |old(Available())| && position == old(position) + width
                && Available() == old(Available())[width..]
              case None =>
                r == None
                && position == old(position) + (if |old(Available())| < 4 then |old(Available())| else 4)
    {
      ghost var s := Available();
      var first := ReadByte();
      if first.None? {
        return None;
      }
      if first.value < 0x80 {
        return Some(first.value);
      }
      var second := ReadByte();
      if second.None? {
        return None;
      }
      assert second.value == s[1];
      if first.value < 0xC0 {
        return Some(Join2(first.value, second.value) % 0x4000);
      }
      var third := ReadByte();
      if third.None? {
        return None;
      }
      assert third.value == s[2];
      var fourth := ReadByte();
      if fourth.None? {
        return None;
      }
      assert fourth.value == s[3];
      if first.value < 0xE0 {
        return Some(Join4(first.value, second.value, third.value, fourth.value) % 0x2000_0000);
      }
      return None;
    }

    method ReadCompressSignedInt32() returns (r: Option<int>)
      requires Valid()
      modifies this`position
      ensures Valid()
      ensures match DecodeSigned(old(Available()))
              case Some((i, width)) =>
                r == Some(i) && width <= |old(Available())| && position == old(position) + width
                && Available() == old(Available())[width..]
              case None => r == None
    {
      ghost var s := Available();
      var first := Peek();
      if first.None? {
        return None;
      }
      var raw := ReadCompressedUInt32();
      if raw.None? {
        return None;
      }
      BelowMask(s);
      var result, negative := raw.value / 2, raw.value % 2 != 0;
      if negative {
        if first.value < 0x80 {
          return Some(ToInt32(result + 0xFFFF_FFC0));
        } else if first.value < 0xC0 {
          return Some(ToInt32(result + 0xFFFF_E000));
        } else {
          return Some(ToInt32(result + 0xF000_0000));
        }
      }
      return Some(result);
    }

    method ReadBlob() returns (r: Option<Bytes>)
      requires Valid()
      modifies this`position
      ensures Valid()
      ensures r == BlobIn(old(Available()))
    {
      ghost var s := Available();
      var size := ReadCompressedUInt32();
      if size.None? {
        return None;
      }
      DecodeRange(s);
      SliceOfSlice(s, Decode(s).value.1, size.value);
      r := ReadBytes(size.value);
    }

    /** The blob at an offset, read without moving the stream. */
    method GetBlobBytes(offset: nat) returns (r: Option<Bytes>)
      requires Valid()
      modifies this`position
      ensures Valid() && position == old(position)
      ensures r == if offset <= relativeEnd then BlobIn(data[offset..relativeEnd]) else None
    {
      var previous := position;
      if offset > |data| {
        return None;
      }
      position := offset;
      r := ReadBlob();
      position := previous;
    }

    /**
     * The string at an offset, read without moving the stream: what the loop reads in every case,
     * the text as StringRead has it when the offset lies before the relative end, and what
     * ReadPastEnd says when it lies beyond.
     */
    method GetString(offset: nat) returns (r: Option<Bytes>)
      requires Valid()
      modifies this`position
      ensures Valid() && position == old(position)
      ensures offset > |data| ==> r == None
      ensures offset <= |data| ==> r == ReadFrom(data[offset..], relativeEnd - offset)
      ensures offset <= relativeEnd && relativeEnd - offset < 0x1_0000_0000 ==>
                r == Some(StringRead(data[offset..relativeEnd]))
      ensures relativeEnd < offset <= |data| <= 0xFFFF_FF9C ==> r == ReadPastEnd(data[offset..])
    {
      var previous := position;
      if offset > |data| {
        return None;
      }
      position := offset;
      if offset <= relativeEnd && relativeEnd - offset < 0x1_0000_0000 {
        ReadFromBefore(data[offset..], relativeEnd - offset);
        assert data[offset..][..relativeEnd - offset] == data[offset..relativeEnd];
      } else if relativeEnd < offset && |data| <= 0xFFFF_FF9C {
        ReadFromBeyond(data[offset..], relativeEnd - offset);
      }
      r := ReadString();
      position := previous;
    }

    /** Reads over the front of a buffer. */
    method ReadInto(buffer: Bytes, count: nat) returns (r: Bytes)
      requires Valid() && position + count <= |data| && count <= |buffer|
      modifies this`position
      ensures Valid() && position == old(position) + count && |r| == |buffer|
      ensures r == data[old(position)..][..count] + buffer[count..]
    {
      r := data[position..position + count] + buffer[count..];
      position := position + count;
    }

    /** What the loop of GetString is still to append. */
    ghost function ToCome(buffer: Bytes): Option<Bytes>
      reads this
      requires Valid()
    {
      ReadWithin(data[position..], relativeEnd - position, buffer)
    }

    /** The loop of GetString, reading pieces of up to 100 bytes into one buffer. */
    method ReadString() returns (r: Option<Bytes>)
      requires Valid()
      modifies this`position
      ensures Valid()
      ensures r == ReadFrom(data[old(position)..], relativeEnd - old(position))
    {
      var charToRead := Min(STRING_BUFFER_SIZE, ToUInt32(relativeEnd - position));
      var buffer: Bytes := Zeros(charToRead);
      var result: Bytes := [];
      ghost var expected := ToCome(buffer);
      PrefixedNothing(expected);
      while charToRead != 0
        invariant Valid() && charToRead == Min(|buffer|, ToUInt32(relativeEnd - position))
        invariant Prefixed(result, ToCome(buffer)) == expected
        decreases |data| - position
      {
        if position + charToRead > |data| {
          return None;
        }
        var full := ReadPiece(result, buffer, charToRead, expected);
        var text := UpToNul(full);
        buffer, result := full, result + text;
        if |text| < |full| {
          return Some(result);
        }
        charToRead := Min(|buffer|, ToUInt32(relativeEnd - position));
      }
      assert result + [] == result;
      return Some(result);
    }

    method ReadPiece(ghost result: Bytes, buffer: Bytes, count: nat, ghost expected: Option<Bytes>)
      returns (full: Bytes)
      requires Valid() && position + count <= |data|
      requires 0 < count == Min(|buffer|, ToUInt32(relativeEnd - position))
      requires Prefixed(result, ToCome(buffer)) == expected
      modifies this`position
      ensures Valid() && position == old(position) + count && |full| == |buffer|
      ensures var text := UpToNul(full);
              expected == if |text| < |full| then Some(result + text) else Prefixed(result + text, ToCome(full))
    {
      ghost var rest, left := data[position..], relativeEnd - position;
      full := ReadInto(buffer, count);
      assert data[position..] == rest[count..];
      ReadWithinStep(result, rest, left, buffer, count, full);
    }
  }

  lemma SliceOfSlice(s: Bytes, from: nat, count: nat)
    ensures from + count <= |s| ==> s[from..][..count] == s[from..from + count]
  {
  }

  function Prefixed(front: Bytes, r: Option<Bytes>): Option<Bytes> {
    if r.Some? then Some(front + r.value) else None
  }

  lemma PrefixedNothing(r: Option<Bytes>)
    ensures Prefixed([], r) == r
  {
    if r.Some? {
      assert [] + r.value == r.value;
    }
  }

  /**
   * What the loop appends from the bytes after the position, given how far the relative end is,
   * which counts as a uint32, and what its buffer holds. None is a read past the stream's end.
   */
  function ReadWithin(rest: Bytes, left: int, buffer: Bytes): Option<Bytes>
    decreases |rest|
  {
    var n := Min(|buffer|, ToUInt32(left));
    if n == 0 then Some([])
    else if n > |rest| then None
    else
      var buffer' := rest[..n] + buffer[n..];
      var text := UpToNul(buffer');
      if |text| < |buffer'| then Some(text) else Prefixed(text, ReadWithin(rest[n..], left - n, buffer'))
  }

  /** The loop with its buffer as it is set up. */
  function ReadFrom(rest: Bytes, left: int): Option<Bytes> {
    ReadWithin(rest, left, Zeros(Min(STRING_BUFFER_SIZE, ToUInt32(left))))
  }

  lemma PrefixedTwice(a: Bytes, b: Bytes, r: Option<Bytes>)
    ensures Prefixed(a, Prefixed(b, r)) == Prefixed(a + b, r)
  {
    if r.Some? {
      Assoc(a, b, r.value);
    }
  }

  lemma {:induction false} ReadWithinUnfolds(rest: Bytes, left: int, buffer: Bytes, n: nat, next: Bytes)
    requires n == Min(|buffer|, ToUInt32(left)) && 0 < n <= |rest| && next == rest[..n] + buffer[n..]
    ensures ReadWithin(rest, left, buffer) ==
            if |UpToNul(next)| < |next| then Some(UpToNul(next))
            else Prefixed(UpToNul(next), ReadWithin(rest[n..], left - n, next))
  {
  }

  /** One turn of the loop, after what has been appended before. */
  lemma {:induction false} ReadWithinStep(result: Bytes, rest: Bytes, left: int, buffer: Bytes, n: nat, next: Bytes)
    requires n == Min(|buffer|, ToUInt32(left)) && 0 < n <= |rest| && next == rest[..n] + buffer[n..]
    ensures Prefixed(result, ReadWithin(rest, left, buffer)) ==
            if |UpToNul(next)| < |next| then Some(result + UpToNul(next))
            else Prefixed(result + UpToNul(next), ReadWithin(rest[n..], left - n, next))
  {
    ReadWithinUnfolds(rest, left, buffer, n, next);
    PrefixedTwice(result, UpToNul(next), ReadWithin(rest[n..], left - n, next));
  }

  /** Up to a relative end less than 4 GiB away, the loop sees nothing else. */
  lemma {:induction false} ReadWithinBounds(rest: Bytes, left: int, buffer: Bytes)
    requires 0 <= left < 0x1_0000_0000 && left <= |rest|
    ensures ReadWithin(rest, left, buffer) == Some(ReadLoop(rest[..left], buffer))
    decreases |rest|
  {
    var n := Min(|buffer|, left);
    if n != 0 {
      var next := rest[..n] + buffer[n..];
      assert rest[..left][..n] == rest[..n] && rest[..left][n..] == rest[n..][..left - n];
      if |UpToNul(next)| == |next| {
        ReadWithinBounds(rest[n..], left - n, next);
      }
    }
  }

  /** One whole buffer, read past the relative end. */
  lemma {:induction false} PastEndStep(buffer: Bytes, rest: Bytes)
    requires |buffer| == STRING_BUFFER_SIZE
    ensures ReadPastEnd(buffer + rest) ==
            if 0 in buffer then Some(UpToNul(buffer)) else Prefixed(buffer, ReadPastEnd(rest))
  {
    var s, m := buffer + rest, |rest| - |rest| % STRING_BUFFER_SIZE;
    WholeBuffers(|rest|);
    assert s[..m + STRING_BUFFER_SIZE] == buffer + rest[..m];
    if 0 in buffer {
      UpToNulPrefix(buffer, rest);
    } else {
      UpToNulAfter(buffer, rest);
    }
  }

  lemma WholeBuffers(n: nat)
    ensures (STRING_BUFFER_SIZE + n) % STRING_BUFFER_SIZE == n % STRING_BUFFER_SIZE
  {
  }

  lemma {:induction false} ReadWithinPastEnd(rest: Bytes, left: int, buffer: Bytes)
    requires left < 0 && |rest| - left <= 0xFFFF_FF9C && |buffer| == STRING_BUFFER_SIZE
    ensures ReadWithin(rest, left, buffer) == ReadPastEnd(rest)
    decreases |rest|
  {
    var n := STRING_BUFFER_SIZE;
    if n <= |rest| {
      var next, others := rest[..n], rest[n..];
      assert next + buffer[n..] == next && next + others == rest;
      PastEndStep(next, others);
      if 0 !in next {
        UpToNulIs(next, next);
        ReadWithinPastEnd(others, left - n, next);
      } else {
        UpToNulPrefix(next, others);
      }
    }
  }

  lemma ReadFromBefore(rest: Bytes, left: int)
    requires 0 <= left < 0x1_0000_0000 && left <= |rest|
    ensures ReadFrom(rest, left) == Some(StringRead(rest[..left]))
  {
    var buffer, text := Zeros(Min(STRING_BUFFER_SIZE, left)), rest[..left];
    assert ReadFrom(rest, left) == ReadWithin(rest, left, buffer);
    ReadWithinBounds(rest, left, buffer);
    ReadLoopFromStart(text, buffer);
    assert ReadLoop(text, buffer) == StringRead(text);
  }

  lemma ReadFromBeyond(rest: Bytes, left: int)
    requires left < 0 && |rest| - left <= 0xFFFF_FF9C
    ensures ReadFrom(rest, left) == ReadPastEnd(rest)
  {
    ReadWithinPastEnd(rest, left, Zeros(STRING_BUFFER_SIZE));
  }

  // ---------------------------------------------------------------- the loop of GetString

  /** What the loop appends from the text still to be read, given what its buffer holds. */
  function ReadLoop(rest: Bytes, buffer: Bytes): Bytes
    decreases |rest|
  {
    var m := Min(|buffer|, |rest|);
    if m == 0 then []
    else
      var buffer' := rest[..m] + buffer[m..];
      var text := UpToNul(buffer');
      if |text| < |buffer'| then text else text + ReadLoop(rest[m..], buffer')
  }

  lemma {:induction false} UpToNulPrefix(a: Bytes, b: Bytes)
    requires 0 in a
    ensures UpToNul(a + b) == UpToNul(a) && |UpToNul(a)| < |a|
    decreases |a|
  {
    if a[0] != 0 {
      assert (a + b)[1..] == a[1..] + b;
      UpToNulPrefix(a[1..], b);
    }
  }

  lemma {:induction false} UpToNulAfter(a: Bytes, b: Bytes)
    requires 0 !in a
    ensures UpToNul(a + b) == a + UpToNul(b)
    decreases |a|
  {
    if a == [] {
      assert [] + b == b;
    } else {
      assert a[0] in a && (a + b)[1..] == a[1..] + b;
      UpToNulAfter(a[1..], b);
    }
  }

  /** What a NUL-free full buffer leaves behind once rest has been read over it. */
  function Leftover(buffer: Bytes, rest: Bytes): Bytes
    requires |buffer| == STRING_BUFFER_SIZE
  {
    var all := buffer + rest;
    if |rest| % STRING_BUFFER_SIZE == 0 then []
    else all[|all| - STRING_BUFFER_SIZE..|all| - |rest| % STRING_BUFFER_SIZE]
  }

  lemma UpToNulShort(s: Bytes)
    ensures 0 in s <==> |UpToNul(s)| < |s|
    ensures 0 !in s ==> UpToNul(s) == s
  {
    if 0 in s {
      UpToNulPrefix(s, []);
    } else {
      UpToNulIs(s, s);
    }
  }

  /** A read that fills the buffer replaces all of it. */
  lemma ReadFullPiece(s: Bytes, buffer: Bytes, piece: Bytes, more: Bytes)
    requires s == piece + more && 0 < |buffer| == |piece|
    ensures ReadLoop(s, buffer) == if 0 in piece then UpToNul(piece) else piece + ReadLoop(more, piece)
  {
    UpToNulShort(piece);
    assert s[..|buffer|] + buffer[|buffer|..] == piece && s[|buffer|..] == more;
  }

  lemma UpToNulSplit(a: Bytes, b: Bytes)
    ensures UpToNul(a + b) == if 0 in a then UpToNul(a) else a + UpToNul(b)
  {
    if 0 in a {
      UpToNulPrefix(a, b);
    } else {
      UpToNulAfter(a, b);
    }
  }

  /** A buffer without NUL never ends the text early; what it leaves shows only without a NUL. */
  lemma {:induction false} ReadLoopIs(rest: Bytes, buffer: Bytes)
    requires |buffer| == STRING_BUFFER_SIZE && 0 !in buffer
    ensures ReadLoop(rest, buffer) == if 0 in rest then UpToNul(rest) else rest + Leftover(buffer, rest)
    decreases |rest|
  {
    if rest == [] {
    } else if |rest| < STRING_BUFFER_SIZE {
      ReadLastPiece(rest, buffer);
    } else {
      var piece, more := rest[..STRING_BUFFER_SIZE], rest[STRING_BUFFER_SIZE..];
      assert rest == piece + more;
      ReadFullPiece(rest, buffer, piece, more);
      UpToNulSplit(piece, more);
      if 0 !in piece {
        ReadLoopIs(more, piece);
        LeftoverShift(buffer, piece, more);
        Assoc(piece, more, Leftover(piece, more));
      }
    }
  }

  lemma {:induction false} ReadLastPiece(rest: Bytes, buffer: Bytes)
    requires |buffer| == STRING_BUFFER_SIZE && 0 !in buffer && 0 < |rest| < STRING_BUFFER_SIZE
    ensures ReadLoop(rest, buffer) == if 0 in rest then UpToNul(rest) else rest + Leftover(buffer, rest)
  {
    var tail := buffer[|rest|..];
    assert rest[..|rest|] == rest && rest[|rest|..] == [];
    assert 0 !in tail && Leftover(buffer, rest) == tail;
    UpToNulShort(rest + tail);
    UpToNulSplit(rest, tail);
    assert 0 in rest + tail <==> 0 in rest;
  }

  lemma LeftoverShift(buffer: Bytes, piece: Bytes, more: Bytes)
    requires |buffer| == |piece| == STRING_BUFFER_SIZE
    ensures Leftover(buffer, piece + more) == Leftover(piece, more)
  {
    assert (buffer + (piece + more))[STRING_BUFFER_SIZE..] == piece + more;
    assert |piece + more| % STRING_BUFFER_SIZE == |more| % STRING_BUFFER_SIZE;
  }

  /** From a buffer of its own size, whatever that holds, the loop reads what StringRead says. */
  lemma ReadLoopFromStart(s: Bytes, buffer: Bytes)
    requires |buffer| == Min(STRING_BUFFER_SIZE, |s|)
    ensures ReadLoop(s, buffer) == StringRead(s)
  {
    if s != [] {
      var piece, more := s[..|buffer|], s[|buffer|..];
      assert s == piece + more;
      ReadFullPiece(s, buffer, piece, more);
      UpToNulSplit(piece, more);
      if 0 !in piece && more != [] {
        ReadLoopIs(more, piece);
        StaleIsLeftover(s);
        Assoc(piece, more, Leftover(piece, more));
      }
    }
  }

  lemma StaleIsLeftover(s: Bytes)
    requires |s| > STRING_BUFFER_SIZE
    ensures Leftover(s[..STRING_BUFFER_SIZE], s[STRING_BUFFER_SIZE..]) == Stale(s)
  {
    assert s[..STRING_BUFFER_SIZE] + s[STRING_BUFFER_SIZE..] == s;
    assert |s[STRING_BUFFER_SIZE..]| % STRING_BUFFER_SIZE == |s| % STRING_BUFFER_SIZE;
  }

  /** A length and that many bytes, at the front of s. */
  function BlobIn(s: Bytes): Option<Bytes> {
    match Decode(s)
    case None => None
    case Some((n, width)) => if width + n <= |s| then Some(s[width..width + n]) else None
  }

  /** A printed blob, whatever follows it, is read back whole. */
  lemma BlobRoundTrip(blob: Bytes, tail: Bytes)
    requires |blob| <= MAX_UNSIGNED
    ensures BlobIn(Encode(|blob|) + blob + tail) == Some(blob)
  {
    Assoc(Encode(|blob|), blob, tail);
    UnsignedRoundTrip(|blob|, blob + tail);
  }
}
