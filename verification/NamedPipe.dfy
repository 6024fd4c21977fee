/** The chunked write of NamedPipe.cs, and the frame written through it. */
module NamedPipes {
  import opened Wrappers
  import Framing

  const BUFFER_SIZE: nat := 1024

  /** The pipe stream, as the pieces written to it so far. */
  class PipeStream {
    var written: seq<Bytes>

    constructor ()
      ensures written == []
    {
      written := [];
    }

    method Write(bytes: Bytes, offset: nat, count: nat)
      requires offset + count <= |bytes|
      modifies this
      ensures written == old(written) + [bytes[offset..offset + count]]
    {
      written := written + [bytes[offset..offset + count]];
    }
  }

  ghost predicate AllFull(pieces: seq<Bytes>) {
    forall p :: p in pieces ==> |p| == BUFFER_SIZE
  }

  /** The pieces partition the bytes, in order; all but the last fill the buffer of the other end. */
  ghost predicate IsChunking(pieces: seq<Bytes>, bytes: Bytes) {
    && Flatten(pieces) == bytes
    && (pieces != [] ==> AllFull(pieces[..|pieces| - 1]) && 0 < |pieces[|pieces| - 1]| <= BUFFER_SIZE)
  }

  lemma ChunkingExtends(pieces: seq<Bytes>, bytes: Bytes, piece: Bytes)
    requires IsChunking(pieces, bytes) && AllFull(pieces) && 0 < |piece| <= BUFFER_SIZE
    ensures IsChunking(pieces + [piece], bytes + piece)
  {
    FlattenAppend(pieces, [piece]);
    assert (pieces + [piece])[..|pieces|] == pieces;
  }

  method WriteAsync(stream: PipeStream, bytes: Bytes)
    modifies stream
    ensures |old(stream.written)| <= |stream.written|
    ensures stream.written[..|old(stream.written)|] == old(stream.written)
    ensures IsChunking(stream.written[|old(stream.written)|..], bytes)
  {
    var offset := 0;
    var bytesLeft := |bytes|;
    ghost var before := stream.written;
    ghost var pieces: seq<Bytes> := [];
    while bytesLeft > 0
      invariant 0 <= offset && 0 <= bytesLeft && offset + bytesLeft == |bytes|
      invariant stream.written == before + pieces
      invariant IsChunking(pieces, bytes[..offset]) && (bytesLeft > 0 ==> AllFull(pieces))
      decreases bytesLeft
    {
      var write := if bytesLeft > BUFFER_SIZE then BUFFER_SIZE else bytesLeft;
      ChunkingExtends(pieces, bytes[..offset], bytes[offset..offset + write]);
      assert bytes[..offset] + bytes[offset..offset + write] == bytes[..offset + write];
      stream.Write(bytes, offset, write);
      pieces := pieces + [bytes[offset..offset + write]];
      bytesLeft := bytesLeft - write;
      offset := offset + write;
    }
    assert bytes[..offset] == bytes;
  }

  /** WriteBreakpointAsync: the stream gains exactly one frame. */
  method WriteBreakpointAsync(stream: PipeStream, payload: Bytes)
    modifies stream
    ensures Flatten(stream.written) == old(Flatten(stream.written)) + Framing.Frame(payload)
  {
    var bytes := [];
    bytes := bytes + Framing.START;
    bytes := bytes + payload;
    bytes := bytes + Framing.END;
    assert bytes == Framing.Frame(payload);
    ghost var before := stream.written;
    WriteAsync(stream, bytes);
    assert stream.written == before + stream.written[|before|..];
    FlattenAppend(before, stream.written[|before|..]);
  }
}
