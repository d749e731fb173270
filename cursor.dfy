/**
 * A forward-only reader over an in-memory byte buffer, after Rust's
 * `std::io::Cursor<Vec<u8>>` read through the big-endian readers of the
 * `byteorder` crate. The functions ending in `From` say what a read yields
 * given the bytes the cursor has still to read, and what it leaves unread;
 * the class `Cursor` performs those reads in place on a buffer and a position.
 */
module ByteCursor {
  import opened Common

  /** Why a decode failed. */
  datatype DecodeError = Eof | InvalidUtf8 | InvalidBase64

  /** A value that was read, and the bytes left unread after it. */
  datatype Read<+T> = Read(value: T, rest: Bytes)

  /** The outcome of a read. */
  type Outcome<+T> = Result<Read<T>, DecodeError>

  function Pow256(w: nat): (p: nat)
    ensures p > 0
  {
    if w == 0 then 1 else 0x100 * Pow256(w - 1)
  }

  /** The unsigned integer whose big-endian representation is `s`. */
  function BeValue(s: Bytes): (v: nat)
    ensures v < Pow256(|s|)
    decreases |s|
  {
    if s == [] then 0 else BeValue(s[..|s| - 1]) * 0x100 + s[|s| - 1] as nat
  }

  /** The `w`-byte big-endian representation of `v`; the inverse of `BeValue`. */
  function BeBytes(v: nat, w: nat): (s: Bytes)
    requires v < Pow256(w)
    ensures |s| == w && BeValue(s) == v
    decreases w
  {
    if w == 0 then []
    else
      var s := BeBytes(v / 0x100, w - 1) + [(v % 0x100) as byte];
      assert s[..w - 1] == BeBytes(v / 0x100, w - 1);
      s
  }

  /** `BeValue` loses nothing: a byte string is the representation of its value. */
  lemma {:induction false} BeBytesOfValue(s: Bytes)
    ensures BeBytes(BeValue(s), |s|) == s
    decreases |s|
  {
    if s != [] {
      var n := |s| - 1;
      BeBytesOfValue(s[..n]);
      assert BeValue(s) / 0x100 == BeValue(s[..n]);
      assert s == s[..n] + [s[n]];
    }
  }

  /**
   * What is left after moving `n` bytes on: `n` bytes fewer, or nothing when
   * fewer than `n` remain. A cursor at `pos` has `Skip(data, pos)` still to read.
   */
  function Skip(input: Bytes, n: nat): (rest: Bytes)
    ensures |rest| == if n <= |input| then |input| - n else 0
    ensures n <= |input| ==> input == input[..n] + rest
  {
    if n <= |input| then input[n..] else []
  }

  /** Moving a cursor `n` bytes on skips `n` of the bytes it had left, even past the end. */
  lemma SkipTwice(data: Bytes, pos: nat, n: nat)
    ensures Skip(data, pos + n) == Skip(Skip(data, pos), n)
  {
  }

  /**
   * `read_exact` of `n` bytes: succeeds exactly when `n` bytes remain (always
   * when `n` is 0), yields those bytes and leaves the ones after them.
   */
  function ReadExactFrom(input: Bytes, n: nat): (r: Outcome<Bytes>)
    ensures r.Ok? <==> n <= |input|
    ensures r.Ok? ==> |r.value.value| == n && input == r.value.value + r.value.rest
    ensures r.Err? ==> r.error == Eof
  {
    if n <= |input| then Ok(Read(input[..n], input[n..])) else Err(Eof)
  }

  /** `read_u8`: the next byte, if there is one. */
  function ReadU8From(input: Bytes): (r: Outcome<byte>)
    ensures r.Ok? <==> |input| >= 1
    ensures r.Ok? ==> r.value == Read(input[0], input[1..])
    ensures r.Err? ==> r.error == Eof
  {
    var buf :- ReadExactFrom(input, 1);
    Ok(Read(buf.value[0], buf.rest))
  }

  /** `read_u16::<BE>`: the next two bytes, most significant first. */
  function ReadU16From(input: Bytes): (r: Outcome<u16>)
    ensures r.Ok? <==> |input| >= 2
    ensures r.Ok? ==> r.value.rest == input[2..]
    ensures r.Ok? ==> r.value.value as nat == BeValue(input[..2])
    ensures r.Ok? ==> r.value.value as nat == input[0] as nat * 0x100 + input[1] as nat
    ensures r.Err? ==> r.error == Eof
  {
    var buf :- ReadExactFrom(input, 2);
    assert buf.value == input[..2] && buf.value[..1] == [input[0]];
    Ok(Read(BeValue(buf.value) as u16, buf.rest))
  }

  /** `read_u64::<BE>`: the next eight bytes, most significant first. */
  function ReadU64From(input: Bytes): (r: Outcome<u64>)
    ensures r.Ok? <==> |input| >= 8
    ensures r.Ok? ==> r.value.rest == input[8..]
    ensures r.Ok? ==> r.value.value as nat == BeValue(input[..8])
    ensures r.Err? ==> r.error == Eof
  {
    var buf :- ReadExactFrom(input, 8);
    assert buf.value == input[..8];
    Ok(Read(BeValue(buf.value) as u64, buf.rest))
  }

  /**
   * A read performed by a cursor over `data` returned `r` and left the cursor
   * at `pos`, as `spec` says: on success the bytes left at `pos` are those the
   * read leaves. After a failure the position is left unspecified: every
   * failure ends the decode that made the read.
   */
  predicate Performs<T(==)>(r: Result<T, DecodeError>, spec: Outcome<T>, data: Bytes, pos: nat) {
    match spec
    case Ok(read) => r == Ok(read.value) && Skip(data, pos) == read.rest
    case Err(e) => r == Err(e)
  }

  /** `std::io::Cursor` over an owned byte buffer. */
  class Cursor {
    /** The buffer being read; reads never change it. */
    const data: Bytes
    /** The offset of the next byte to read; it may lie past the end. */
    var pos: nat

    constructor (input: Bytes)
      ensures data == input && pos == 0
    {
      data := input;
      pos := 0;
    }

    /** The bytes this cursor has still to read. */
    function Unread(): Bytes
      reads this
    {
      Skip(data, pos)
    }

    /** `set_position`: never fails, whatever the new position. */
    method SetPosition(p: nat)
      modifies this
      ensures pos == p
    {
      pos := p;
    }

    /** `read_exact` into an `n`-byte buffer; reading 0 bytes succeeds even past the end. */
    method ReadExact(n: nat) returns (r: Result<Bytes, DecodeError>)
      modifies this
      ensures Performs(r, ReadExactFrom(old(Unread()), n), data, pos)
      ensures r.Ok? ==> pos == old(pos) + n
    {
      if n == 0 {
        r := Ok([]);
        assert Unread()[..0] == [];
      } else if pos + n <= |data| {
        r := Ok(data[pos..pos + n]);
        assert Unread()[..n] == data[pos..pos + n];
        pos := pos + n;
      } else {
        r := Err(Eof);
      }
    }

    method ReadU8() returns (r: Result<byte, DecodeError>)
      modifies this
      ensures Performs(r, ReadU8From(old(Unread())), data, pos)
      ensures r.Ok? ==> pos == old(pos) + 1
    {
      var buf :- ReadExact(1);
      r := Ok(buf[0]);
    }

    method ReadU16() returns (r: Result<u16, DecodeError>)
      modifies this
      ensures Performs(r, ReadU16From(old(Unread())), data, pos)
      ensures r.Ok? ==> pos == old(pos) + 2
    {
      var buf :- ReadExact(2);
      r := Ok(BeValue(buf) as u16);
    }

    method ReadU64() returns (r: Result<u64, DecodeError>)
      modifies this
      ensures Performs(r, ReadU64From(old(Unread())), data, pos)
      ensures r.Ok? ==> pos == old(pos) + 8
    {
      var buf :- ReadExact(8);
      r := Ok(BeValue(buf) as u64);
    }
  }
}
