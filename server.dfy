/**
  main's accept loop: connections are accepted and handled one at a time,
  all on the same data file, which is removed only once the loop ends.
*/
module Server {
  import opened Stdio
  import opened Echo
  import opened Handler

  /**
    One round of the accept loop: accept fails, or it yields a client whose
    handler finds fopen succeeding or not and whose recv calls return
    `recvs` in turn. The rounds run until a signal clears is_running.
  */
  datatype Accept = AcceptFailed | Accepted(fileOpens: bool, recvs: seq<Recv>)

  /**
    What recv can deliver on an accepted connection, up to the result that
    lets the handler return: main reaches the next accept only after that.
  */
  predicate AcceptPossible(a: Accept) {
    a.Accepted? ==>
      (forall i | 0 <= i < |a.recvs| :: RecvPossible(a.recvs[i])) && (a.fileOpens ==> Ends(a.recvs))
  }

  /**
    What a round did for its client: nothing, or the bytes sent and whether
    the handler closed the socket, which it does once recv returns something
    other than data, and not when fopen fails.
  */
  datatype Outcome = NoClient | Served(sent: seq<byte>, closed: bool)

  /** The bytes one round appends to the data file. */
  function Stored(a: Accept): seq<byte> {
    if a.Accepted? && a.fileOpens then Flatten(Taken(a.recvs)) else []
  }

  /** The bytes a sequence of rounds appends, in round order. */
  function AllStored(accepts: seq<Accept>): seq<byte>
    decreases |accepts|
  {
    if accepts == [] then []
    else AllStored(accepts[..|accepts| - 1]) + Stored(accepts[|accepts| - 1])
  }

  /** The outcome of one round when the data file holds `log` as it starts. */
  function RoundOutcome(log: seq<byte>, a: Accept, ty: CharType): Outcome
    requires ty != UnsignedChar
  {
    match a
    case AcceptFailed => NoClient
    case Accepted(opens, recvs) =>
      Served(if opens then Session(log, Taken(recvs), ty) else [], opens && Ends(recvs))
  }

  /** The outcome of every round, when the data file holds `log` as the server starts. */
  function Outcomes(log: seq<byte>, accepts: seq<Accept>, ty: CharType): (r: seq<Outcome>)
    requires ty != UnsignedChar
    ensures |r| == |accepts|
    decreases |accepts|
  {
    if accepts == [] then []
    else
      var n := |accepts| - 1;
      Outcomes(log, accepts[..n], ty) + [RoundOutcome(log + AllStored(accepts[..n]), accepts[n], ty)]
  }

  /** Outcomes and AllStored grow by one round at a time. */
  lemma OutcomesStep(log: seq<byte>, accepts: seq<Accept>, i: nat, ty: CharType)
    requires ty != UnsignedChar && i < |accepts|
    ensures AllStored(accepts[..i + 1]) == AllStored(accepts[..i]) + Stored(accepts[i])
    ensures log + AllStored(accepts[..i + 1]) == (log + AllStored(accepts[..i])) + Stored(accepts[i])
    ensures Outcomes(log, accepts[..i + 1], ty)
         == Outcomes(log, accepts[..i], ty) + [RoundOutcome(log + AllStored(accepts[..i]), accepts[i], ty)]
  {
    assert accepts[..i + 1][..i] == accepts[..i];
  }

  /** One round of the accept loop's body. */
  method Round(f: DataFile, a: Accept, ty: CharType) returns (outcome: Outcome)
    requires ty != UnsignedChar && AcceptPossible(a)
    modifies f
    ensures f.contents == old(f.contents) + Stored(a)
    ensures outcome == RoundOutcome(old(f.contents), a, ty)
  {
    match a
    case AcceptFailed =>
      outcome := NoClient;
    case Accepted(opens, recvs) =>
      var sent, closed := HandleConnection(f, opens, recvs, ty);
      outcome := Served(sent, closed);
  }

  /**
    The `while (is_running)` loop of main followed by remove(DATA_FILE); the
    data file starts with whatever `f` holds.
  */
  method Serve(f: DataFile, accepts: seq<Accept>, ty: CharType) returns (outcomes: seq<Outcome>)
    requires ty != UnsignedChar
    requires forall i | 0 <= i < |accepts| :: AcceptPossible(accepts[i])
    modifies f
    ensures f.Valid() && f.contents == []
    ensures outcomes == Outcomes(old(f.contents), accepts, ty)
  {
    ghost var log0 := f.contents;
    outcomes := [];
    for i := 0 to |accepts|
      invariant f.contents == log0 + AllStored(accepts[..i])
      invariant outcomes == Outcomes(log0, accepts[..i], ty)
    {
      OutcomesStep(log0, accepts, i, ty);
      var outcome := Round(f, accepts[i], ty);
      outcomes := outcomes + [outcome];
    }
    assert accepts[..|accepts|] == accepts;
    f.Remove();
  }

  /**
    Round k is handled on a data file holding the initial log followed by
    everything the earlier rounds stored: the log persists from one
    connection to the next.
  */
  lemma {:induction false} OutcomeOfRound(log: seq<byte>, accepts: seq<Accept>, k: nat, ty: CharType)
    requires ty != UnsignedChar && k < |accepts|
    ensures Outcomes(log, accepts, ty)[k] == RoundOutcome(log + AllStored(accepts[..k]), accepts[k], ty)
    decreases |accepts|
  {
    var n := |accepts| - 1;
    var pre := accepts[..n];
    OutcomesLast(log, accepts, ty);
    var earlier := Outcomes(log, pre, ty);
    var last := RoundOutcome(log + AllStored(pre), accepts[n], ty);
    if k < n {
      assert pre[..k] == accepts[..k];
      OutcomeOfRound(log, pre, k, ty);
      assert (earlier + [last])[k] == earlier[k];
    } else {
      assert (earlier + [last])[k] == last;
    }
  }

  /** The last round's outcome follows the earlier rounds' outcomes. */
  lemma OutcomesLast(log: seq<byte>, accepts: seq<Accept>, ty: CharType)
    requires ty != UnsignedChar && accepts != []
    ensures Outcomes(log, accepts, ty)
         == Outcomes(log, accepts[..|accepts| - 1], ty)
          + [RoundOutcome(log + AllStored(accepts[..|accepts| - 1]), accepts[|accepts| - 1], ty)]
  {
  }

  /**
    A client whose only chunk holds a '\n' is answered with everything the
    earlier clients stored followed by its own chunk, when no byte reads as
    EOF.
  */
  lemma LaterClientSeesEarlierData(log: seq<byte>, accepts: seq<Accept>, k: nat, chunk: seq<byte>, ty: CharType)
    requires ty != UnsignedChar && k < |accepts|
    requires accepts[k].Accepted? && accepts[k].fileOpens && Ends(accepts[k].recvs)
    requires Taken(accepts[k].recvs) == [chunk]
    requires NEWLINE in chunk && NoByteReadsAsEof(log + AllStored(accepts[..k]) + chunk, ty)
    ensures Outcomes(log, accepts, ty)[k] == Served(log + AllStored(accepts[..k]) + chunk, true)
    ensures Stored(accepts[k]) == chunk
  {
    var before := log + AllStored(accepts[..k]);
    OutcomeOfRound(log, accepts, k, ty);
    assert [chunk][..0] == [];
    assert Session(before, [chunk], ty) == ChunkReply(before + Flatten([]), chunk, ty);
    assert before + Flatten([]) == before;
    assert Flatten([chunk]) == Flatten([]) + chunk;
    ChunkReplyIsWholeLog(before, chunk, ty);
  }

  /** Concatenation regroups freely. */
  lemma AppendAssoc(x: seq<byte>, y: seq<byte>, z: seq<byte>)
    ensures x + (y + z) == x + y + z
  {
  }

  /** The bytes "hello\n", "world\n" and "\n". */
  const HELLO: seq<byte> := [0x68, 0x65, 0x6c, 0x6c, 0x6f, NEWLINE]
  const WORLD: seq<byte> := [0x77, 0x6f, 0x72, 0x6c, 0x64, NEWLINE]
  const EMPTY_RECORD: seq<byte> := [NEWLINE]

  /** A client that sends one chunk and then closes its end. */
  function OneChunkClient(chunk: seq<byte>): Accept {
    Accepted(true, [Received(chunk), PeerClosed])
  }

  /**
    One more client that sends a single chunk holding a '\n' and closes:
    the earlier outcomes are unchanged, the new client is answered with the
    whole log including its chunk, and the chunk is stored at the end.
  */
  lemma OneMoreClient(log: seq<byte>, accepts: seq<Accept>, x: seq<byte>, ty: CharType)
    requires ty != UnsignedChar && NEWLINE in x && NoByteReadsAsEof(log + AllStored(accepts) + x, ty)
    ensures AllStored(accepts + [OneChunkClient(x)]) == AllStored(accepts) + x
    ensures Outcomes(log, accepts + [OneChunkClient(x)], ty)
         == Outcomes(log, accepts, ty) + [Served(log + AllStored(accepts) + x, true)]
  {
    var more := accepts + [OneChunkClient(x)];
    assert more[..|accepts|] == accepts;
    assert Taken([Received(x), PeerClosed]) == [x] by {
      assert [Received(x), PeerClosed][1..] == [PeerClosed];
    }
    assert [x][..0] == [];
    assert Flatten([x]) == x by {
      assert Flatten([x]) == Flatten([]) + x;
    }
    LaterClientSeesEarlierData(log, more, |accepts|, x, ty);
  }

  /**
    OneMoreClient with the earlier outcomes and the data file's contents after
    the earlier rounds named.
  */
  lemma NextClient(log: seq<byte>, accepts: seq<Accept>, seen: seq<byte>, earlier: seq<Outcome>, x: seq<byte>, ty: CharType)
    requires ty != UnsignedChar && NEWLINE in x && NoByteReadsAsEof(seen + x, ty)
    requires log + AllStored(accepts) == seen && Outcomes(log, accepts, ty) == earlier
    ensures log + AllStored(accepts + [OneChunkClient(x)]) == seen + x
    ensures Outcomes(log, accepts + [OneChunkClient(x)], ty) == earlier + [Served(seen + x, true)]
  {
    OneMoreClient(log, accepts, x, ty);
    AppendAssoc(log, AllStored(accepts), x);
  }

  /** A prefix of bytes none of which reads as EOF has no such byte either. */
  lemma NoByteReadsAsEofPrefix(s: seq<byte>, t: seq<byte>, ty: CharType)
    requires NoByteReadsAsEof(s + t, ty)
    ensures NoByteReadsAsEof(s, ty)
  {
    forall i | 0 <= i < |s| ensures Held(s[i], ty) != EOF {
      assert (s + t)[i] == s[i];
    }
  }

  /** A single client sending one chunk that holds a '\n' is answered with the log and that chunk. */
  lemma OneClient(log: seq<byte>, a: seq<byte>, ty: CharType)
    requires ty != UnsignedChar && NEWLINE in a && NoByteReadsAsEof(log + a, ty)
    ensures log + AllStored([OneChunkClient(a)]) == log + a
    ensures Outcomes(log, [OneChunkClient(a)], ty) == [Served(log + a, true)]
  {
    var none: seq<Accept> := [];
    assert none + [OneChunkClient(a)] == [OneChunkClient(a)];
    assert log + AllStored(none) == log && Outcomes(log, none, ty) == [];
    NextClient(log, none, log, [], a, ty);
  }

  /** Two clients, one after the other, each sending one chunk that holds a '\n'. */
  lemma TwoClients(log: seq<byte>, a: seq<byte>, b: seq<byte>, ty: CharType)
    requires ty != UnsignedChar && NEWLINE in a && NEWLINE in b && NoByteReadsAsEof(log + a + b, ty)
    ensures log + AllStored([OneChunkClient(a), OneChunkClient(b)]) == log + a + b
    ensures Outcomes(log, [OneChunkClient(a), OneChunkClient(b)], ty)
         == [Served(log + a, true), Served(log + a + b, true)]
  {
    assert [OneChunkClient(a)] + [OneChunkClient(b)] == [OneChunkClient(a), OneChunkClient(b)];
    assert [Served(log + a, true)] + [Served(log + a + b, true)]
        == [Served(log + a, true), Served(log + a + b, true)];
    NoByteReadsAsEofPrefix(log + a, b, ty);
    OneClient(log, a, ty);
    NextClient(log, [OneChunkClient(a)], log + a, [Served(log + a, true)], b, ty);
  }

  /**
    Three clients, one after another, each sending one chunk that holds a
    '\n' and then closing: each is answered with the log the server started
    with and everything stored so far, its own chunk included.
  */
  lemma ThreeClients(log: seq<byte>, a: seq<byte>, b: seq<byte>, c: seq<byte>, ty: CharType)
    requires ty != UnsignedChar && NEWLINE in a && NEWLINE in b && NEWLINE in c
    requires NoByteReadsAsEof(log + a + b + c, ty)
    ensures Outcomes(log, [OneChunkClient(a), OneChunkClient(b), OneChunkClient(c)], ty)
         == [Served(log + a, true), Served(log + a + b, true), Served(log + a + b + c, true)]
  {
    var two := [OneChunkClient(a), OneChunkClient(b)];
    var earlier := [Served(log + a, true), Served(log + a + b, true)];
    assert two + [OneChunkClient(c)] == [OneChunkClient(a), OneChunkClient(b), OneChunkClient(c)];
    assert earlier + [Served(log + a + b + c, true)]
        == [Served(log + a, true), Served(log + a + b, true), Served(log + a + b + c, true)];
    NoByteReadsAsEofPrefix(log + a + b, c, ty);
    TwoClients(log, a, b, ty);
    NextClient(log, two, log + a + b, earlier, c, ty);
  }

  /**
    Client A sends "hello\n" and receives "hello\n"; client B then sends
    "world\n" and receives "hello\nworld\n"; client C sends "\n" and receives
    "hello\nworld\n\n". None of these bytes is 0xFF, so this holds with
    `character` a signed char as well as an int.
  */
  lemma HelloWorldScenario(ty: CharType)
    requires ty != UnsignedChar
    ensures Outcomes([], [OneChunkClient(HELLO), OneChunkClient(WORLD), OneChunkClient(EMPTY_RECORD)], ty)
         == [Served(HELLO, true), Served(HELLO + WORLD, true), Served(HELLO + WORLD + EMPTY_RECORD, true)]
  {
    assert HELLO[5] == NEWLINE && WORLD[5] == NEWLINE && EMPTY_RECORD[0] == NEWLINE;
    var all := [] + HELLO + WORLD + EMPTY_RECORD;
    assert 0xFF !in all by {
      assert all == [0x68, 0x65, 0x6c, 0x6c, 0x6f, NEWLINE, 0x77, 0x6f, 0x72, 0x6c, 0x64, NEWLINE, NEWLINE];
    }
    ReadsAsEofExactly(all, ty);
    ThreeClients([], HELLO, WORLD, EMPTY_RECORD, ty);
    assert [] + HELLO == HELLO;
  }
}
