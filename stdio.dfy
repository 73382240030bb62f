/**
  The parts of C's stdio and `char` semantics that the server's connection
  handler depends on: bytes as fgetc returns them, EOF, the conversion of an
  fgetc result into the variable that receives it, and the data file together
  with the stream the handler opens on it in "a+b" mode.
*/
module Stdio {

  /** A byte as fgetc returns it: an unsigned char converted to int. */
  type byte = x: int | 0 <= x < 256

  /** The value fgetc returns at end of file. */
  const EOF: int := -1

  /** The record terminator '\n'. */
  const NEWLINE: byte := 10

  /** A value fgetc can return: a byte or EOF. */
  predicate IsGetcResult(r: int) {
    EOF <= r < 256
  }

  /**
    The C type of the variable that receives fgetc's result. The handler
    declares it `char`, which is signed on some ABIs and unsigned on others;
    Int is the `int` that fgetc's own result type calls for.
  */
  datatype CharType = SignedChar | UnsignedChar | Int

  /**
    The value of the variable after `character = r`, for an fgetc result r.
    Converting to a character type keeps the low eight bits (the value
    changes by a multiple of 256) and reads them in that type's range; an
    int keeps r itself.
  */
  function Held(r: int, ty: CharType): (c: int)
    requires IsGetcResult(r)
    ensures ty == Int ==> c == r
    ensures ty == SignedChar ==> -128 <= c < 128 && (c == r || c == r - 256)
    ensures ty == UnsignedChar ==> 0 <= c < 256 && (c == r || c == r + 256)
  {
    match ty
    case Int => r
    case UnsignedChar => if r < 0 then r + 256 else r
    case SignedChar => if r < 128 then r else r - 256
  }

  /**
    The byte that `send(fd, &character, 1, 0)` transmits: the low eight bits of
    `character`. For a `char` that is its one byte. For an `int` it is the first
    byte in memory, which is the low byte on a little-endian ABI only; the model
    takes that ABI, or equivalently an `int` sent through an `unsigned char` copy.
  */
  function LowByte(c: int): (b: byte)
    requires -256 <= c < 256
    ensures b == c || b == c + 256
  {
    if c < 0 then c + 256 else c
  }

  /**
    When the handler's test `character != EOF` fails: at end of file unless
    the variable is an unsigned char, and also on the byte 0xFF when it is a
    signed char.
  */
  lemma HeldIsEof(r: int, ty: CharType)
    requires IsGetcResult(r)
    ensures Held(r, ty) == EOF <==>
              (r == EOF && ty != UnsignedChar) || (r == 0xFF && ty == SignedChar)
  {
  }

  /**
    The data file and the stdio stream the handler opens on it: the bytes
    stored in the file and the stream's read position. The file outlives
    each stream; `pos` only means something while a stream is open.
  */
  class DataFile {
    var contents: seq<byte>
    var pos: nat

    ghost predicate Valid()
      reads this
    {
      pos <= |contents|
    }

    /** The file as the server finds it at start: absent (empty) or left over. */
    constructor (initial: seq<byte>)
      ensures Valid() && contents == initial && pos == 0
    {
      contents := initial;
      pos := 0;
    }

    /**
      fopen in "a+b" mode: the file is created if missing and its contents
      are kept; reading starts at the beginning (the model takes glibc's
      choice, which no observable behaviour of the handler depends on).
    */
    method Open()
      modifies this
      ensures Valid() && contents == old(contents) && pos == 0
    {
      pos := 0;
    }

    /** fwrite on an append-mode stream: every byte goes to the end. */
    method Append(bytes: seq<byte>)
      modifies this
      ensures Valid() && contents == old(contents) + bytes && pos == |contents|
    {
      contents := contents + bytes;
      pos := |contents|;
    }

    /** fseek(file, 0, SEEK_SET). */
    method Rewind()
      modifies this
      ensures Valid() && contents == old(contents) && pos == 0
    {
      pos := 0;
    }

    /** fgetc: the byte at the read position, which advances, or EOF at the end. */
    method Getc() returns (r: int)
      requires Valid()
      modifies this
      ensures Valid() && contents == old(contents) && IsGetcResult(r)
      ensures old(pos) < |contents| ==> r == contents[old(pos)] && pos == old(pos) + 1
      ensures old(pos) == |contents| ==> r == EOF && pos == old(pos)
    {
      if pos < |contents| {
        r := contents[pos];
        pos := pos + 1;
      } else {
        r := EOF;
      }
    }

    /** remove(DATA_FILE): the next fopen in "a+b" mode finds no data. */
    method Remove()
      modifies this
      ensures Valid() && contents == [] && pos == 0
    {
      contents := [];
      pos := 0;
    }
  }
}
