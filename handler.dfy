/**
  handle_client_connection: for each chunk recv delivers, append the whole
  chunk to the data file, rewind the stream, and for every '\n' in the chunk
  send what the stream holds from its read position to the point where the
  echo loop stops.
*/
module Handler {
  import opened Stdio
  import opened Echo

  /** The size of the receive buffer, the most one recv call delivers. */
  const BUFFER_SIZE: nat := 1024

  /** One result of recv: some bytes, an orderly shutdown by the peer (0), or an error (-1). */
  datatype Recv = Received(data: seq<byte>) | PeerClosed | RecvFailed

  /** What recv can return into the handler's buffer: data is 1 to BUFFER_SIZE bytes. */
  predicate RecvPossible(r: Recv) {
    r.Received? ==> 1 <= |r.data| <= BUFFER_SIZE
  }

  /**
    Every pass of the echo loop that a chunk starts ends: `character` is not an
    unsigned char, or the chunk holds no '\n' and so starts no pass at all.
  */
  predicate EchoEnds(chunk: seq<byte>, ty: CharType) {
    ty != UnsignedChar || NEWLINE !in chunk
  }

  /** The bytes sent so far for a chunk, and the stream position after them. */
  datatype Scan = Scan(sent: seq<byte>, pos: nat)

  /**
    The `for` loop over the first i bytes of a chunk once the chunk has been
    appended, giving `log`, and the stream rewound: each '\n' runs one pass
    of the echo loop from wherever the previous pass left the stream.
  */
  function ScanPrefix(log: seq<byte>, chunk: seq<byte>, i: nat, ty: CharType): (s: Scan)
    requires i <= |chunk| && EchoEnds(chunk[..i], ty)
    ensures s.pos <= |log|
    decreases i
  {
    if i == 0 then Scan([], 0)
    else
      assert chunk[..i - 1] == chunk[..i][..i - 1] && chunk[..i][i - 1] == chunk[i - 1];
      var prev := ScanPrefix(log, chunk, i - 1, ty);
      if chunk[i - 1] != NEWLINE then prev
      else Scan(prev.sent + Echoed(log[prev.pos..], ty), prev.pos + Consumed(log[prev.pos..], ty))
  }

  /** What one chunk sends back when the data file held `log` before it arrived. */
  function ChunkReply(log: seq<byte>, chunk: seq<byte>, ty: CharType): seq<byte>
    requires EchoEnds(chunk, ty)
  {
    assert chunk[..|chunk|] == chunk;
    ScanPrefix(log + chunk, chunk, |chunk|, ty).sent
  }

  /** The chunks the receive loop handles: recv's results up to the first that is not data. */
  function Taken(recvs: seq<Recv>): (chunks: seq<seq<byte>>)
    ensures |chunks| <= |recvs|
    ensures forall i | 0 <= i < |chunks| :: recvs[i] == Received(chunks[i])
    ensures |chunks| < |recvs| ==> !recvs[|chunks|].Received?
  {
    if recvs == [] || !recvs[0].Received? then []
    else [recvs[0].data] + Taken(recvs[1..])
  }

  /** recv returns something other than data within `recvs`, which ends the receive loop. */
  predicate Ends(recvs: seq<Recv>) {
    |Taken(recvs)| < |recvs|
  }

  /** The chunks one after another. */
  function Flatten(chunks: seq<seq<byte>>): seq<byte>
    decreases |chunks|
  {
    if chunks == [] then [] else Flatten(chunks[..|chunks| - 1]) + chunks[|chunks| - 1]
  }

  /** Everything a connection sends back when its chunks arrive on a data file holding `log`. */
  function Session(log: seq<byte>, chunks: seq<seq<byte>>, ty: CharType): seq<byte>
    requires forall i | 0 <= i < |chunks| :: EchoEnds(chunks[i], ty)
    decreases |chunks|
  {
    if chunks == [] then []
    else
      var n := |chunks| - 1;
      assert forall i | 0 <= i < n :: chunks[..n][i] == chunks[i];
      Session(log, chunks[..n], ty) + ChunkReply(log + Flatten(chunks[..n]), chunks[n], ty)
  }

  /** The inner `while`: fgetc into `character` and send it until `character` equals EOF. */
  method EchoToEof(f: DataFile, ty: CharType) returns (sent: seq<byte>)
    requires f.Valid() && ty != UnsignedChar
    modifies f
    ensures f.Valid() && f.contents == old(f.contents)
    ensures sent == Echoed(old(f.contents)[old(f.pos)..], ty)
    ensures f.pos == old(f.pos) + Consumed(old(f.contents)[old(f.pos)..], ty)
  {
    ghost var data := f.contents;
    ghost var p0 := f.pos;
    sent := [];
    var got := f.Getc();
    var character := Held(got, ty);
    HeldIsEof(got, ty);
    ghost var start := p0;
    while character != EOF
      invariant f.Valid() && f.contents == data
      invariant IsGetcResult(got) && character == Held(got, ty)
      invariant p0 <= start <= |data|
      invariant got == EOF ==> start == f.pos == |data|
      invariant got != EOF ==> f.pos == start + 1 && data[start] == got
      invariant sent == data[p0..start] && NoByteReadsAsEof(sent, ty)
      decreases |data| - start
    {
      sent := sent + [LowByte(character)];
      got := f.Getc();
      character := Held(got, ty);
      HeldIsEof(got, ty);
      start := start + 1;
    }
    assert data[p0..][..start - p0] == sent;
    EchoedUpTo(data[p0..], start - p0, ty);
  }

  /** One pass of the receive loop's body for a chunk of received bytes. */
  method HandleChunk(f: DataFile, chunk: seq<byte>, ty: CharType) returns (sent: seq<byte>)
    requires EchoEnds(chunk, ty)
    modifies f
    ensures f.Valid()
    ensures f.contents == old(f.contents) + chunk
    ensures sent == ChunkReply(old(f.contents), chunk, ty)
  {
    f.Append(chunk);
    f.Rewind();
    sent := [];
    for i := 0 to |chunk|
      invariant f.Valid() && f.contents == old(f.contents) + chunk
      invariant EchoEnds(chunk[..i], ty)
      invariant Scan(sent, f.pos) == ScanPrefix(f.contents, chunk, i, ty)
    {
      ScanPrefixNext(f.contents, chunk, i, ty);
      if chunk[i] == NEWLINE {
        var echoed := EchoToEof(f, ty);
        sent := sent + echoed;
      }
    }
    assert chunk[..|chunk|] == chunk;
  }

  /**
    handle_client_connection for one accepted connection whose recv calls
    return `recvs` in turn; `fileOpens` is whether fopen succeeds. The
    result says what was sent and whether the client socket was closed, which
    happens only once recv has returned something other than data; when
    `recvs` runs out first, the handler is still waiting in recv.
  */
  method HandleConnection(f: DataFile, fileOpens: bool, recvs: seq<Recv>, ty: CharType)
    returns (sent: seq<byte>, closed: bool)
    requires forall i | 0 <= i < |Taken(recvs)| :: EchoEnds(Taken(recvs)[i], ty)
    requires forall i | 0 <= i < |recvs| :: RecvPossible(recvs[i])
    modifies f
    ensures closed == (fileOpens && Ends(recvs))
    ensures f.contents == old(f.contents) + (if fileOpens then Flatten(Taken(recvs)) else [])
    ensures sent == if fileOpens then Session(old(f.contents), Taken(recvs), ty) else []
  {
    sent := [];
    if !fileOpens {
      closed := false;
      return;
    }
    f.Open();
    var n;
    sent, n := ReceiveLoop(f, recvs, ty);
    closed := n < |recvs|;
  }

  /**
    The `while` over recv's results: each data result is handled as a chunk;
    `n` is how many there were before the first result that is not data.
    A data result is never empty: recv returning 0 is a shutdown.
  */
  method ReceiveLoop(f: DataFile, recvs: seq<Recv>, ty: CharType) returns (sent: seq<byte>, n: nat)
    requires forall i | 0 <= i < |Taken(recvs)| :: EchoEnds(Taken(recvs)[i], ty)
    requires forall i | 0 <= i < |recvs| :: RecvPossible(recvs[i])
    modifies f
    ensures n == |Taken(recvs)|
    ensures f.contents == old(f.contents) + Flatten(Taken(recvs))
    ensures sent == Session(old(f.contents), Taken(recvs), ty)
  {
    sent := [];
    ghost var log0 := f.contents;
    ghost var chunks := Taken(recvs);
    assert chunks[..0] == [];
    n := 0;
    while n < |recvs| && recvs[n].Received?
      invariant n <= |chunks|
      invariant forall j | 0 <= j < n :: EchoEnds(chunks[..n][j], ty)
      invariant f.contents == log0 + Flatten(chunks[..n])
      invariant sent == Session(log0, chunks[..n], ty)
    {
      SessionNext(log0, chunks, n, ty);
      assert recvs[n].data == chunks[n];
      var reply := HandleChunk(f, recvs[n].data, ty);
      sent := sent + reply;
      n := n + 1;
    }
    assert chunks[..n] == chunks;
  }

  /** One more chunk of the session: it is appended after the earlier ones and its reply follows theirs. */
  lemma SessionNext(log: seq<byte>, chunks: seq<seq<byte>>, i: nat, ty: CharType)
    requires i < |chunks| && forall j | 0 <= j < |chunks| :: EchoEnds(chunks[j], ty)
    ensures forall j | 0 <= j < i :: EchoEnds(chunks[..i][j], ty)
    ensures EchoEnds(chunks[i], ty)
    ensures Flatten(chunks[..i + 1]) == Flatten(chunks[..i]) + chunks[i]
    ensures Session(log, chunks[..i + 1], ty)
         == Session(log, chunks[..i], ty) + ChunkReply(log + Flatten(chunks[..i]), chunks[i], ty)
  {
    assert chunks[..i + 1][..i] == chunks[..i];
  }

  /** One more byte of the chunk's scan: a '\n' runs one more pass from where the last one stopped. */
  lemma ScanPrefixNext(log: seq<byte>, chunk: seq<byte>, i: nat, ty: CharType)
    requires i < |chunk| && EchoEnds(chunk, ty)
    ensures EchoEnds(chunk[..i], ty) && EchoEnds(chunk[..i + 1], ty)
    ensures chunk[i] == NEWLINE ==> ty != UnsignedChar
    ensures ScanPrefix(log, chunk, i + 1, ty)
         == var prev := ScanPrefix(log, chunk, i, ty);
            if chunk[i] != NEWLINE then prev
            else Scan(prev.sent + Echoed(log[prev.pos..], ty), prev.pos + Consumed(log[prev.pos..], ty))
  {
    assert chunk[..i + 1][i] == chunk[i];
    assert forall j | 0 <= j <= i :: chunk[..i + 1][..j] == chunk[..j];
  }

  /**
    A chunk without '\n' sends nothing back, whatever the log holds, and
    leaves the stream where the rewind put it.
  */
  lemma {:induction false} ScanWithoutNewline(log: seq<byte>, chunk: seq<byte>, i: nat, ty: CharType)
    requires i <= |chunk| && NEWLINE !in chunk[..i]
    ensures ScanPrefix(log, chunk, i, ty) == Scan([], 0)
  {
    if i > 0 {
      assert chunk[..i - 1] == chunk[..i][..i - 1];
      assert chunk[i - 1] == chunk[..i][i - 1];
      ScanWithoutNewline(log, chunk, i - 1, ty);
    }
  }

  /** The reply to a chunk with no '\n' is empty, though the chunk is still appended. */
  lemma NoNewlineNoReply(log: seq<byte>, chunk: seq<byte>, ty: CharType)
    requires NEWLINE !in chunk
    ensures ChunkReply(log, chunk, ty) == []
  {
    assert chunk[..|chunk|] == chunk;
    ScanWithoutNewline(log + chunk, chunk, |chunk|, ty);
  }

  /**
    When no byte of the log reads as EOF, the first '\n' sends the whole log
    and leaves the stream at its end, so every later '\n' sends nothing.
  */
  lemma {:induction false} ScanNoByteReadsAsEof(log: seq<byte>, chunk: seq<byte>, i: nat, ty: CharType)
    requires i <= |chunk| && EchoEnds(chunk[..i], ty) && NoByteReadsAsEof(log, ty)
    ensures ScanPrefix(log, chunk, i, ty)
         == if NEWLINE in chunk[..i] then Scan(log, |log|) else Scan([], 0)
  {
    if i > 0 {
      assert chunk[..i] == chunk[..i - 1] + [chunk[i - 1]];
      ScanNoByteReadsAsEof(log, chunk, i - 1, ty);
      if chunk[i - 1] == NEWLINE {
        var prev := ScanPrefix(log, chunk, i - 1, ty);
        EchoedWhole(log[prev.pos..], ty);
        assert log[0..] == log;
      }
    }
  }

  /**
    The reply to a chunk, when no byte of the log reads as EOF: the whole
    log up to and including the chunk if the chunk holds a '\n' (once, however
    many it holds), and nothing otherwise.
  */
  lemma ChunkReplyIsWholeLog(log: seq<byte>, chunk: seq<byte>, ty: CharType)
    requires EchoEnds(chunk, ty) && NoByteReadsAsEof(log + chunk, ty)
    ensures ChunkReply(log, chunk, ty) == if NEWLINE in chunk then log + chunk else []
  {
    assert chunk[..|chunk|] == chunk;
    ScanNoByteReadsAsEof(log + chunk, chunk, |chunk|, ty);
  }

  /**
    With `character` an int no byte reads as EOF, so every chunk holding a
    '\n' is answered with the whole log, exactly once.
  */
  lemma IntChunkReply(log: seq<byte>, chunk: seq<byte>)
    ensures ChunkReply(log, chunk, Int) == if NEWLINE in chunk then log + chunk else []
  {
    ReadsAsEofExactly(log + chunk, Int);
    ChunkReplyIsWholeLog(log, chunk, Int);
  }

  /**
    With `character` a signed char, a 0xFF byte ends the first echo early and
    the next '\n' of the same chunk resumes after it: the chunk "a", 0xFF,
    '\n', '\n' sent to an empty log is answered with "a\n\n", not with the
    four bytes of the log.
  */
  lemma SignedCharExample()
    ensures ChunkReply([], [0x61, 0xFF, NEWLINE, NEWLINE], SignedChar) == [0x61, NEWLINE, NEWLINE]
    ensures ChunkReply([], [0x61, 0xFF, NEWLINE, NEWLINE], Int) == [0x61, 0xFF, NEWLINE, NEWLINE]
  {
    var chunk: seq<byte> := [0x61, 0xFF, NEWLINE, NEWLINE];
    assert [] + chunk == chunk;
    assert ChunkReply([], chunk, SignedChar) == [0x61, NEWLINE, NEWLINE] by {
      assert NEWLINE !in chunk[..2] by { assert chunk[..2] == [0x61, 0xFF]; }
      ScanWithoutNewline(chunk, chunk, 2, SignedChar);
      EchoedStopsAtFirstFF(chunk, 1);
      ScanPrefixNext(chunk, chunk, 2, SignedChar);
      assert ScanPrefix(chunk, chunk, 3, SignedChar) == Scan([0x61], 2);
      assert chunk[2..] == [NEWLINE, NEWLINE];
      EchoedWhole(chunk[2..], SignedChar);
      ScanPrefixNext(chunk, chunk, 3, SignedChar);
    }
    assert ChunkReply([], chunk, Int) == chunk by {
      assert NEWLINE in chunk by { assert chunk[2] == NEWLINE; }
      IntChunkReply([], chunk);
    }
  }

  /**
    Once recv has returned something other than data, later results are
    never read: they change neither what is appended nor what is sent.
  */
  lemma {:induction false} TakenIgnoresLater(recvs: seq<Recv>, later: seq<Recv>)
    requires |Taken(recvs)| < |recvs|
    ensures Taken(recvs + later) == Taken(recvs)
  {
    if recvs[0].Received? {
      assert (recvs + later)[1..] == recvs[1..] + later;
      TakenIgnoresLater(recvs[1..], later);
    }
  }

  /** The chunks of a connection reach the data file one after another, in order. */
  lemma {:induction false} FlattenAppend(chunks: seq<seq<byte>>, more: seq<seq<byte>>)
    ensures Flatten(chunks + more) == Flatten(chunks) + Flatten(more)
    decreases |more|
  {
    if more == [] {
      assert chunks + more == chunks;
    } else {
      var n := |more| - 1;
      assert (chunks + more)[..|chunks + more| - 1] == chunks + more[..n];
      FlattenAppend(chunks, more[..n]);
    }
  }
}
