/**
 * Decoding of a lavaplayer track blob (src/decoder.rs). The functions ending
 * in `From` and `Decode` state, read by read, what the decoder yields for the
 * bytes it has still to read; the methods `ReadString`, `DecodeTrack` and
 * `DecodeTrackBase64` walk a `Cursor` through the buffer as the Rust code
 * does and are proved to yield exactly that.
 */
module Decoder {
  import opened Common
  import opened Utf8
  import opened ByteCursor

  /** A decoded track blob. Strings are kept as their (valid UTF-8) bytes. */
  datatype DecodedTrack = DecodedTrack(
    version: byte,
    title: Bytes,
    author: Bytes,
    length: u64,
    identifier: Bytes,
    stream: bool,
    url: Option<Bytes>,
    source: Bytes)

  const TRACK_INFO_VERSIONED: bv32 := 1

  /**
   * The header flags as the decoder computes them: the first byte, widened to
   * 64 bits, masked with bits 30 and 31 and shifted down by 30.
   */
  function HeaderFlags(value: byte): (flags: bv32)
    ensures flags <= 3
  {
    ((value as bv64 & 0xC000_0000) >> 30) as bv32
  }

  /** Bits 30 and 31 of a value below 256 are clear, so the versioned branch never runs. */
  lemma HeaderFlagsAlwaysZero(value: byte)
    ensures HeaderFlags(value) == 0
    ensures HeaderFlags(value) & TRACK_INFO_VERSIONED == 0
  {
  }

  /**
   * `read_string`: a big-endian u16 length `n`, then exactly `n` bytes that
   * must be valid UTF-8. It fails with `Eof` when the two length bytes or the
   * `n` bytes they announce are not all there, and with `InvalidUtf8` when
   * those `n` bytes are not well-formed.
   */
  function ReadStringFrom(input: Bytes): (r: Outcome<Bytes>)
    ensures r.Ok? ==> |r.value.rest| + 2 <= |input|
    ensures r.Err? ==> r.error == Eof || r.error == InvalidUtf8
  {
    var size :- ReadU16From(input);
    var buf :- ReadExactFrom(size.rest, size.value as nat);
    if ValidUtf8(buf.value) then Ok(buf) else Err(InvalidUtf8)
  }

  /**
   * What `ReadStringFrom` yields, in terms of the input bytes alone: `Eof`
   * when the two length bytes or the `n` bytes they announce are not all
   * there, the `n` bytes when they are valid UTF-8, `InvalidUtf8` otherwise.
   */
  lemma ReadStringLayout(input: Bytes)
    ensures |input| < 2 ==> ReadStringFrom(input) == Err(Eof)
    ensures |input| >= 2 ==>
      var n := BeValue(input[..2]);
      ReadStringFrom(input) == if 2 + n > |input| then Err(Eof)
        else if ValidUtf8(input[2..2 + n]) then Ok(Read(input[2..2 + n], input[2 + n..]))
        else Err(InvalidUtf8)
  {
    if |input| >= 2 {
      var n := BeValue(input[..2]);
      if 2 + n <= |input| {
        assert ReadExactFrom(input[2..], n).value.value == input[2..2 + n];
      }
    }
  }

  /** A flag byte (`read_u8()? == 1`): true exactly when the byte is 1; never an error once the byte is there. */
  function ReadFlagFrom(input: Bytes): (r: Outcome<bool>)
    ensures r.Ok? <==> |input| >= 1
    ensures r.Ok? ==> r.value == Read(input[0] == 1, input[1..])
    ensures r.Err? ==> r.error == Eof
  {
    var b :- ReadU8From(input);
    Ok(Read(b.value == 1, b.rest))
  }

  /**
   * The url field that follows the has-url flag: a string when the flag is
   * set; otherwise one length byte `k`, then `k` bytes skipped unread (all
   * that is left, when fewer than `k` remain).
   */
  function ReadUrlFrom(input: Bytes, hasUrl: bool): (r: Outcome<Option<Bytes>>)
    ensures hasUrl ==> r == match ReadStringFrom(input)
      case Ok(s) => Ok(Read(Some(s.value), s.rest))
      case Err(e) => Err(e)
    ensures !hasUrl ==> r == if |input| >= 1 then Ok(Read(None, Skip(input[1..], input[0] as nat))) else Err(Eof)
  {
    if hasUrl then
      var s :- ReadStringFrom(input);
      Ok(Read(Some(s.value), s.rest))
    else
      var size :- ReadU8From(input);
      Ok(Read(None, Skip(size.rest, size.value as nat)))
  }

  /**
   * The header: byte 0 is read for the flags, two bytes are skipped, a version
   * byte is read only when the versioned flag is set, and two more bytes are
   * skipped. As the flags are always 0, every non-empty input yields version 1
   * and leaves all but its first five bytes.
   */
  function DecodeHeader(input: Bytes): (r: Outcome<byte>)
    ensures r == if |input| == 0 then Err(Eof) else Ok(Read(1, Skip(input, 5)))
  {
    var value :- ReadU8From(input);
    HeaderFlagsAlwaysZero(value.value);
    var flags := HeaderFlags(value.value);
    var afterSize := Skip(value.rest, 2);
    match if flags & TRACK_INFO_VERSIONED == 0 then Ok(Read(1, afterSize)) else ReadU8From(afterSize)
    case Err(e) => Err(e)
    case Ok(version) => Ok(Read(version.value, Skip(version.rest, 2)))
  }

  /** Title, author, length and identifier: the fields from the end of the header to the stream flag. */
  function DecodeLeadingFrom(input: Bytes): (r: Outcome<(Bytes, Bytes, u64, Bytes)>)
    ensures r.Ok? ==> |r.value.rest| + 14 <= |input|
    ensures r.Err? ==> r.error == Eof || r.error == InvalidUtf8
  {
    var title :- ReadStringFrom(input);
    var author :- ReadStringFrom(title.rest);
    var length :- ReadU64From(author.rest);
    var identifier :- ReadStringFrom(length.rest);
    Ok(Read((title.value, author.value, length.value, identifier.value), identifier.rest))
  }

  /** The url (or the skipped bytes), then the source: the reads that follow the has-url flag. */
  function UrlAndSourceFrom(input: Bytes, hasUrl: bool): (r: Outcome<(Option<Bytes>, Bytes)>)
    ensures r.Ok? ==> |r.value.rest| + 3 <= |input|
    ensures r.Err? ==> r.error == Eof || r.error == InvalidUtf8
  {
    var url :- ReadUrlFrom(input, hasUrl);
    var source :- ReadStringFrom(url.rest);
    Ok(Read((url.value, source.value), source.rest))
  }

  /** The stream flag, the has-url flag, the url (or skipped bytes) and the source. */
  function DecodeTrailingFrom(input: Bytes): (r: Outcome<(bool, Option<Bytes>, Bytes)>)
    ensures r.Ok? ==> |r.value.rest| + 5 <= |input|
    ensures r.Err? ==> r.error == Eof || r.error == InvalidUtf8
  {
    var stream :- ReadFlagFrom(input);
    var hasUrl :- ReadFlagFrom(stream.rest);
    var tail :- UrlAndSourceFrom(hasUrl.rest, hasUrl.value);
    Ok(Read((stream.value, tail.value.0, tail.value.1), tail.rest))
  }

  /** The fields after the header, in wire order. */
  function DecodeFieldsFrom(input: Bytes, version: byte): (r: Outcome<DecodedTrack>)
    ensures r.Ok? ==> |r.value.rest| + 19 <= |input| && r.value.value.version == version
    ensures r.Err? ==> r.error == Eof || r.error == InvalidUtf8
  {
    var leading :- DecodeLeadingFrom(input);
    var trailing :- DecodeTrailingFrom(leading.rest);
    var (title, author, length, identifier) := leading.value;
    var (stream, url, source) := trailing.value;
    Ok(Read(DecodedTrack(version, title, author, length, identifier, stream, url, source), trailing.rest))
  }

  /** The whole decode, with the bytes it left unread. A blob is never shorter than 24 bytes. */
  function DecodeFrom(input: Bytes): (r: Outcome<DecodedTrack>)
    ensures r.Ok? ==> |r.value.rest| + 24 <= |input| && r.value.value.version == 1
    ensures r.Err? ==> r.error == Eof || r.error == InvalidUtf8
  {
    var header :- DecodeHeader(input);
    DecodeFieldsFrom(header.rest, header.value)
  }

  /** `_decode_track`, as a function of the input bytes. */
  function Decode(data: Bytes): (r: Result<DecodedTrack, DecodeError>)
    ensures r.Ok? ==> r.value.version == 1
    ensures r.Err? ==> r.error == Eof || r.error == InvalidUtf8
  {
    var track :- DecodeFrom(data);
    Ok(track.value)
  }

  /** `move_cursor!`: `set_position(position + n)`, which never fails, even past the end. */
  method MoveCursor(c: Cursor, n: nat)
    modifies c
    ensures c.pos == old(c.pos) + n
    ensures c.Unread() == Skip(old(c.Unread()), n)
  {
    SkipTwice(c.data, c.pos, n);
    c.SetPosition(c.pos + n);
  }

  /** `read_string` on a cursor. */
  method ReadString(c: Cursor) returns (r: Result<Bytes, DecodeError>)
    modifies c
    ensures Performs(r, ReadStringFrom(old(c.Unread())), c.data, c.pos)
    ensures r.Ok? ==> c.pos == old(c.pos) + 2 + |r.value|
  {
    var size :- c.ReadU16();
    var buf :- c.ReadExact(size as nat);
    if !ValidUtf8(buf) {
      return Err(InvalidUtf8);
    }
    return Ok(buf);
  }

  /** The header reads of `_decode_track`, on a cursor at offset 0. */
  method ReadHeader(c: Cursor) returns (r: Result<byte, DecodeError>)
    requires c.pos == 0
    modifies c
    ensures Performs(r, DecodeHeader(c.data), c.data, c.pos)
    ensures r.Ok? ==> c.pos == if HeaderFlags(c.data[0]) & TRACK_INFO_VERSIONED == 0 then 5 else 6
  {
    var value :- c.ReadU8();
    var flags := HeaderFlags(value);
    MoveCursor(c, 2);
    var version: byte;
    if flags & TRACK_INFO_VERSIONED == 0 {
      version := 1;
    } else {
      version :- c.ReadU8();
    }
    MoveCursor(c, 2);
    return Ok(version);
  }

  /**
   * The bytes a url field spans once read: a length-prefixed url string, or
   * the length byte and the bytes it skips, which may run past the end.
   */
  function UrlFieldWidth(url: Option<Bytes>, sizeByte: byte): nat {
    match url
    case Some(u) => 2 + |u|
    case None => 1 + sizeByte as nat
  }

  /** The url branch of `_decode_track`, after the has-url flag. */
  method ReadUrl(c: Cursor, hasUrl: bool) returns (r: Result<Option<Bytes>, DecodeError>)
    modifies c
    ensures Performs(r, ReadUrlFrom(old(c.Unread()), hasUrl), c.data, c.pos)
    ensures r.Ok? ==> r.value.Some? == hasUrl && c.pos == old(c.pos) + UrlFieldWidth(r.value, c.data[old(c.pos)])
  {
    if hasUrl {
      var s :- ReadString(c);
      return Ok(Some(s));
    } else {
      var size :- c.ReadU8();
      MoveCursor(c, size as nat);
      return Ok(None);
    }
  }

  /** Title, author, length and identifier, read from a cursor just past the header. */
  method ReadLeading(c: Cursor) returns (r: Result<(Bytes, Bytes, u64, Bytes), DecodeError>)
    modifies c
    ensures Performs(r, DecodeLeadingFrom(old(c.Unread())), c.data, c.pos)
    ensures r.Ok? ==> c.pos == old(c.pos) + 2 + |r.value.0| + 2 + |r.value.1| + 8 + 2 + |r.value.3|
  {
    var title :- ReadString(c);
    var author :- ReadString(c);
    var length :- c.ReadU64();
    var identifier :- ReadString(c);
    return Ok((title, author, length, identifier));
  }

  /** The url (or the skipped bytes) and the source, read from a cursor just past the has-url flag. */
  method ReadUrlAndSource(c: Cursor, hasUrl: bool) returns (r: Result<(Option<Bytes>, Bytes), DecodeError>)
    modifies c
    ensures Performs(r, UrlAndSourceFrom(old(c.Unread()), hasUrl), c.data, c.pos)
    ensures r.Ok? ==> c.pos == old(c.pos) + UrlFieldWidth(r.value.0, c.data[old(c.pos)]) + 2 + |r.value.1|
  {
    var url :- ReadUrl(c, hasUrl);
    var source :- ReadString(c);
    return Ok((url, source));
  }

  /** The stream flag, the has-url flag, the url and the source, read from a cursor just past the identifier. */
  method ReadTrailing(c: Cursor) returns (r: Result<(bool, Option<Bytes>, Bytes), DecodeError>)
    modifies c
    ensures Performs(r, DecodeTrailingFrom(old(c.Unread())), c.data, c.pos)
    ensures r.Ok? ==> c.pos == old(c.pos) + 2 + UrlFieldWidth(r.value.1, c.data[old(c.pos) + 2]) + 2 + |r.value.2|
  {
    var streamByte :- c.ReadU8();
    var hasUrlByte :- c.ReadU8();
    var tail :- ReadUrlAndSource(c, hasUrlByte == 1);
    return Ok((streamByte == 1, tail.0, tail.1));
  }

  /** `decode_track` / `_decode_track`: walks a fresh cursor through the input. */
  method DecodeTrack(input: Bytes) returns (r: Result<DecodedTrack, DecodeError>)
    ensures r == Decode(input)
  {
    var c := new Cursor(input);
    var version :- ReadHeader(c);
    var leading :- ReadLeading(c);
    var trailing :- ReadTrailing(c);
    var (title, author, length, identifier) := leading;
    var (stream, url, source) := trailing;
    return Ok(DecodedTrack(version, title, author, length, identifier, stream, url, source));
  }

  /**
   * `decode_track_base64`: base64-decodes the text (the `base64` crate's
   * decoder is a parameter here) and decodes the bytes. A base64 failure is
   * reported as `InvalidBase64` before any byte is parsed, and only then.
   */
  method DecodeTrackBase64(input: string, base64: string -> Option<Bytes>)
    returns (r: Result<DecodedTrack, DecodeError>)
    ensures base64(input).None? <==> r == Err(InvalidBase64)
    ensures base64(input).Some? ==> r == Decode(base64(input).value)
  {
    var bytes := base64(input);
    if bytes.None? {
      return Err(InvalidBase64);
    }
    r := DecodeTrack(bytes.value);
  }
}
