/**
  The handler's innermost loop, `while ((character = fgetc(file)) != EOF)
  send(character)`, as functions of the bytes that remain in the stream.
  Echoed and Consumed describe a pass that ends; Iterate runs the loop for a
  bounded number of rounds for every CharType, including the one on which it
  never ends.
*/
module Echo {
  import opened Stdio

  /** No byte of s reads back as EOF once stored in a variable of type ty. */
  predicate NoByteReadsAsEof(s: seq<byte>, ty: CharType) {
    forall i | 0 <= i < |s| :: Held(s[i], ty) != EOF
  }

  /** The bytes one pass sends when the stream still holds `rest`. */
  function Echoed(rest: seq<byte>, ty: CharType): (sent: seq<byte>)
    requires ty != UnsignedChar
    ensures |sent| <= |rest|
    ensures NoByteReadsAsEof(sent, ty)
  {
    if rest == [] || Held(rest[0], ty) == EOF then []
    else [rest[0]] + Echoed(rest[1..], ty)
  }

  /** A pass sends the stream's bytes in order, from the read position on. */
  lemma {:induction false} EchoedIsPrefix(rest: seq<byte>, ty: CharType)
    requires ty != UnsignedChar
    ensures Echoed(rest, ty) == rest[..|Echoed(rest, ty)|]
  {
    if rest != [] && Held(rest[0], ty) != EOF {
      EchoedIsPrefix(rest[1..], ty);
    }
  }

  /**
    The bytes that pass takes from the stream: those it sends and, when it
    stops on a byte rather than at end of file, that byte as well.
  */
  function Consumed(rest: seq<byte>, ty: CharType): (n: nat)
    requires ty != UnsignedChar
    ensures n == if |Echoed(rest, ty)| < |rest| then |Echoed(rest, ty)| + 1 else |rest|
  {
    if rest == [] then 0
    else if Held(rest[0], ty) == EOF then 1
    else 1 + Consumed(rest[1..], ty)
  }

  /** Which bytes read back as EOF: for a signed char exactly 0xFF, otherwise none. */
  lemma {:induction false} ReadsAsEofExactly(s: seq<byte>, ty: CharType)
    ensures NoByteReadsAsEof(s, ty) <==> ty != SignedChar || 0xFF !in s
  {
    if ty == SignedChar && 0xFF in s {
      var i :| 0 <= i < |s| && s[i] == 0xFF;
      HeldIsEof(s[i], ty);
    }
    forall i | 0 <= i < |s|
      ensures Held(s[i], ty) == EOF <==> ty == SignedChar && s[i] == 0xFF
    {
      HeldIsEof(s[i], ty);
    }
  }

  /**
    A pass sends exactly the bytes before the first one that reads as EOF,
    and consumes that byte too when there is one.
  */
  lemma {:induction false} EchoedUpTo(rest: seq<byte>, k: nat, ty: CharType)
    requires ty != UnsignedChar && k <= |rest| && NoByteReadsAsEof(rest[..k], ty)
    requires k < |rest| ==> Held(rest[k], ty) == EOF
    ensures Echoed(rest, ty) == rest[..k]
    ensures Consumed(rest, ty) == if k < |rest| then k + 1 else k
  {
    if k > 0 {
      assert Held(rest[..k][0], ty) != EOF;
      var t := rest[1..][..k - 1];
      assert NoByteReadsAsEof(t, ty) by {
        forall i | 0 <= i < |t| ensures Held(t[i], ty) != EOF {
          assert t[i] == rest[..k][i + 1];
        }
      }
      EchoedUpTo(rest[1..], k - 1, ty);
      assert rest[..k] == [rest[0]] + t;
    }
  }

  /** With `character` an int, no byte reads as EOF. */
  lemma IntNoByteReadsAsEof(s: seq<byte>)
    ensures NoByteReadsAsEof(s, Int)
  {
  }

  /** With no byte that reads as EOF, a pass sends everything up to end of file. */
  lemma {:induction false} EchoedWhole(rest: seq<byte>, ty: CharType)
    requires ty != UnsignedChar && NoByteReadsAsEof(rest, ty)
    ensures Echoed(rest, ty) == rest && Consumed(rest, ty) == |rest|
  {
    assert rest[..|rest|] == rest;
    EchoedUpTo(rest, |rest|, ty);
  }

  /**
    With a signed char, a pass stops at the first 0xFF: it sends what comes
    before it and consumes the 0xFF itself.
  */
  lemma EchoedStopsAtFirstFF(rest: seq<byte>, j: nat)
    requires j < |rest| && rest[j] == 0xFF && 0xFF !in rest[..j]
    ensures Echoed(rest, SignedChar) == rest[..j]
    ensures Consumed(rest, SignedChar) == j + 1
  {
    ReadsAsEofExactly(rest[..j], SignedChar);
    HeldIsEof(rest[j], SignedChar);
    EchoedUpTo(rest, j, SignedChar);
  }

  /** The outcome of running the loop for a bounded number of rounds. */
  datatype Run = Run(sent: seq<byte>, stopped: bool)

  /**
    At most `fuel` rounds of the loop when the stream holds `rest`: each
    round stores fgetc's result in a variable of type ty, stops if that
    variable equals EOF, and otherwise sends its low byte.
  */
  function Iterate(rest: seq<byte>, ty: CharType, fuel: nat): (r: Run)
    ensures |r.sent| <= fuel
    decreases fuel
  {
    if fuel == 0 then Run([], false)
    else
      var character := Held(if rest == [] then EOF else rest[0], ty);
      if character == EOF then Run([], true)
      else
        var b := LowByte(character);
        var next := Iterate(if rest == [] then [] else rest[1..], ty, fuel - 1);
        Run([b] + next.sent, next.stopped)
  }

  /** With a signed char or an int the loop ends within |rest| + 1 rounds, sending Echoed. */
  lemma {:induction false} IterateEnds(rest: seq<byte>, ty: CharType, fuel: nat)
    requires ty != UnsignedChar && fuel > |rest|
    ensures Iterate(rest, ty, fuel) == Run(Echoed(rest, ty), true)
  {
    if rest == [] {
      HeldIsEof(EOF, ty);
    } else if Held(rest[0], ty) != EOF {
      IterateEnds(rest[1..], ty, fuel - 1);
    }
  }

  /**
    With an unsigned char the loop never ends: EOF becomes 255, which never
    equals EOF, so once the remaining bytes are sent every round sends 0xFF.
  */
  lemma {:induction false} UnsignedNeverStops(rest: seq<byte>, fuel: nat)
    ensures !Iterate(rest, UnsignedChar, fuel).stopped
    ensures |Iterate(rest, UnsignedChar, fuel).sent| == fuel
    ensures forall i | 0 <= i < fuel ::
              Iterate(rest, UnsignedChar, fuel).sent[i] == if i < |rest| then rest[i] else 0xFF
  {
    if fuel > 0 {
      var tail := if rest == [] then [] else rest[1..];
      UnsignedNeverStops(tail, fuel - 1);
      var next := Iterate(tail, UnsignedChar, fuel - 1);
      var b := LowByte(Held(if rest == [] then EOF else rest[0], UnsignedChar));
      assert Iterate(rest, UnsignedChar, fuel) == Run([b] + next.sent, next.stopped);
      forall i | 1 <= i < fuel
        ensures ([b] + next.sent)[i] == if i < |rest| then rest[i] else 0xFF
      {
        assert ([b] + next.sent)[i] == next.sent[i - 1];
        assert i - 1 < |tail| ==> tail[i - 1] == rest[i];
      }
    }
  }
}
