/**
 * What the decoder of src/decoder.rs guarantees, stated over the `DecodeFrom`
 * specification: bytes 0-4 do not matter, a cut-short buffer always fails
 * with `Eof`, trailing bytes are ignored, and laying out the fields of a track
 * in wire order decodes back to that track.
 */
module DecoderProperties {
  import opened Common
  import opened Utf8
  import opened ByteCursor
  import opened Decoder

  // ---------------------------------------------------------------------------
  // Bytes 0 to 4 do not matter

  /** `a` and `b` have the same length and the same bytes from offset `from` on. */
  predicate AgreeFrom(a: Bytes, b: Bytes, from: nat) {
    |a| == |b| && forall i :: from <= i < |a| ==> a[i] == b[i]
  }

  /**
   * Byte 0 is read but its value never matters, and bytes 1 to 4 are skipped:
   * two buffers of the same length that agree from offset 5 on decode alike.
   */
  lemma HeaderBytesIgnored(a: Bytes, b: Bytes)
    requires AgreeFrom(a, b, 5)
    ensures DecodeFrom(a) == DecodeFrom(b)
    ensures Decode(a) == Decode(b)
  {
    if |a| >= 5 {
      assert a[5..] == b[5..];
    }
  }

  // ---------------------------------------------------------------------------
  // Cut-short and extended buffers

  /**
   * The forward half of `Extends`: a success on the short input is repeated
   * on the long one, with `extra` left over in addition, and ill-formed UTF-8
   * stays ill-formed.
   */
  predicate ExtendsForward<T(==)>(short: Outcome<T>, long: Outcome<T>, extra: Bytes) {
    && (short.Ok? ==> long == Ok(Read(short.value.value, short.value.rest + extra)))
    && (short == Err(InvalidUtf8) ==> long == Err(InvalidUtf8))
  }

  /** The backward half of `Extends`: a success on the long input that leaves at least `extra` unread is already a success on the short one. */
  predicate ExtendsBack<T>(short: Outcome<T>, long: Outcome<T>, extra: Bytes) {
    long.Ok? && |extra| <= |long.value.rest| ==> short.Ok?
  }

  /** How a read of `short` relates to the same read of `short + extra` (`long`). */
  predicate Extends<T(==)>(short: Outcome<T>, long: Outcome<T>, extra: Bytes) {
    ExtendsForward(short, long, extra) && ExtendsBack(short, long, extra)
  }

  lemma ReadStringExtends(x: Bytes, extra: Bytes)
    ensures Extends(ReadStringFrom(x), ReadStringFrom(x + extra), extra)
  {
    if |x| >= 2 && 2 + BeValue(x[..2]) <= |x| {
      ReadStringWholeExtends(x, extra);
    } else {
      ReadStringCutExtends(x, extra);
    }
  }

  /** A string whose bytes are all there reads the same with more bytes after it. */
  lemma ReadStringWholeExtends(x: Bytes, extra: Bytes)
    requires |x| >= 2 && 2 + BeValue(x[..2]) <= |x|
    ensures ReadStringFrom(x).Ok? ==> ReadStringFrom(x + extra) == Ok(Read(ReadStringFrom(x).value.value, ReadStringFrom(x).value.rest + extra))
    ensures ReadStringFrom(x).Err? ==> ReadStringFrom(x + extra) == Err(InvalidUtf8) == ReadStringFrom(x)
  {
    var y := x + extra;
    var n := BeValue(x[..2]);
    ReadStringLayout(x);
    ReadStringLayout(y);
    assert y[..2] == x[..2];
    assert y[2..2 + n] == x[2..2 + n];
    assert y[2 + n..] == x[2 + n..] + extra;
  }

  /** A string cut short fails with `Eof`, and with more bytes after it leaves fewer than those unread. */
  lemma ReadStringCutExtends(x: Bytes, extra: Bytes)
    requires |x| < 2 || 2 + BeValue(x[..2]) > |x|
    ensures ReadStringFrom(x) == Err(Eof)
    ensures ReadStringFrom(x + extra).Ok? ==> |ReadStringFrom(x + extra).value.rest| < |extra|
  {
    var y := x + extra;
    ReadStringLayout(x);
    ReadStringLayout(y);
    if |x| >= 2 {
      assert y[..2] == x[..2];
    }
  }

  lemma ReadU64Extends(x: Bytes, extra: Bytes)
    ensures Extends(ReadU64From(x), ReadU64From(x + extra), extra)
  {
    var y := x + extra;
    if |x| >= 8 {
      assert y[..8] == x[..8];
      assert y[8..] == x[8..] + extra;
    }
  }

  lemma ReadFlagExtends(x: Bytes, extra: Bytes)
    ensures Extends(ReadFlagFrom(x), ReadFlagFrom(x + extra), extra)
  {
    if |x| >= 1 {
      assert (x + extra)[1..] == x[1..] + extra;
    }
  }

  lemma DecodeLeadingExtends(x: Bytes, extra: Bytes)
    ensures Extends(DecodeLeadingFrom(x), DecodeLeadingFrom(x + extra), extra)
  {
    DecodeLeadingForward(x, extra);
    DecodeLeadingBack(x, extra);
  }

  lemma DecodeLeadingForward(x: Bytes, extra: Bytes)
    ensures ExtendsForward(DecodeLeadingFrom(x), DecodeLeadingFrom(x + extra), extra)
  {
    ReadStringExtends(x, extra);
    var title := ReadStringFrom(x);
    if title.Ok? {
      ReadStringExtends(title.value.rest, extra);
      var author := ReadStringFrom(title.value.rest);
      if author.Ok? {
        ReadU64Extends(author.value.rest, extra);
        var length := ReadU64From(author.value.rest);
        if length.Ok? {
          ReadStringExtends(length.value.rest, extra);
        }
      }
    }
  }

  lemma DecodeLeadingBack(x: Bytes, extra: Bytes)
    ensures ExtendsBack(DecodeLeadingFrom(x), DecodeLeadingFrom(x + extra), extra)
  {
    var long := x + extra;
    if DecodeLeadingFrom(long).Ok? && |extra| <= |DecodeLeadingFrom(long).value.rest| {
      var title' := ReadStringFrom(long);
      var author' := ReadStringFrom(title'.value.rest);
      var length' := ReadU64From(author'.value.rest);
      var identifier' := ReadStringFrom(length'.value.rest);
      assert |extra| <= |identifier'.value.rest| <= |length'.value.rest| <= |author'.value.rest| <= |title'.value.rest|;
      ReadStringExtends(x, extra);
      var title := ReadStringFrom(x);
      ReadStringExtends(title.value.rest, extra);
      var author := ReadStringFrom(title.value.rest);
      ReadU64Extends(author.value.rest, extra);
      var length := ReadU64From(author.value.rest);
      ReadStringExtends(length.value.rest, extra);
    }
  }

  /**
   * The url (or the skipped bytes) followed by the source string. Skipping
   * past the end of a short input succeeds, but the source read after it then
   * fails with `Eof`, so the pair extends as one read.
   */
  lemma UrlAndSourceExtends(x: Bytes, extra: Bytes, hasUrl: bool)
    ensures Extends(UrlAndSourceFrom(x, hasUrl), UrlAndSourceFrom(x + extra, hasUrl), extra)
  {
    UrlAndSourceForward(x, extra, hasUrl);
    UrlAndSourceBack(x, extra, hasUrl);
  }

  lemma UrlAndSourceForward(x: Bytes, extra: Bytes, hasUrl: bool)
    ensures ExtendsForward(UrlAndSourceFrom(x, hasUrl), UrlAndSourceFrom(x + extra, hasUrl), extra)
  {
    if hasUrl {
      ReadStringExtends(x, extra);
      var s := ReadStringFrom(x);
      if s.Ok? {
        ReadStringExtends(s.value.rest, extra);
      }
    } else if |x| >= 1 {
      var k := x[0] as nat;
      assert (x + extra)[1..] == x[1..] + extra;
      if k <= |x| - 1 {
        assert Skip((x + extra)[1..], k) == Skip(x[1..], k) + extra;
        ReadStringExtends(Skip(x[1..], k), extra);
      }
    }
  }

  lemma UrlAndSourceBack(x: Bytes, extra: Bytes, hasUrl: bool)
    ensures ExtendsBack(UrlAndSourceFrom(x, hasUrl), UrlAndSourceFrom(x + extra, hasUrl), extra)
  {
    if hasUrl {
      UrlAndSourceBackWithUrl(x, extra);
    } else {
      UrlAndSourceBackPadded(x, extra);
    }
  }

  lemma UrlAndSourceBackWithUrl(x: Bytes, extra: Bytes)
    ensures ExtendsBack(UrlAndSourceFrom(x, true), UrlAndSourceFrom(x + extra, true), extra)
  {
    var long := x + extra;
    if UrlAndSourceFrom(long, true).Ok? && |extra| <= |UrlAndSourceFrom(long, true).value.rest| {
      var url' := ReadStringFrom(long);
      assert |extra| + 2 <= |url'.value.rest|;
      ReadStringExtends(x, extra);
      ReadStringExtends(ReadStringFrom(x).value.rest, extra);
    }
  }

  lemma UrlAndSourceBackPadded(x: Bytes, extra: Bytes)
    ensures ExtendsBack(UrlAndSourceFrom(x, false), UrlAndSourceFrom(x + extra, false), extra)
  {
    var long := x + extra;
    if UrlAndSourceFrom(long, false).Ok? && |extra| <= |UrlAndSourceFrom(long, false).value.rest| {
      var padding' := ReadUrlFrom(long, false);
      assert |extra| + 2 <= |padding'.value.rest|;
      PaddingBack(x, extra);
      ReadStringExtends(ReadUrlFrom(x, false).value.rest, extra);
    }
  }

  /** Skipped padding that leaves at least `extra` unread lies within `x`. */
  lemma PaddingBack(x: Bytes, extra: Bytes)
    requires ReadUrlFrom(x + extra, false).Ok? && |extra| <= |ReadUrlFrom(x + extra, false).value.rest|
    ensures ReadUrlFrom(x, false).Ok?
    ensures ReadUrlFrom(x + extra, false).value.rest == ReadUrlFrom(x, false).value.rest + extra
  {
    var long := x + extra;
    if extra == [] {
      assert long == x;
    } else {
      var k := long[0] as nat;
      assert |x| >= 1 && long[1..] == x[1..] + extra;
      assert k <= |x| - 1;
      assert Skip(long[1..], k) == Skip(x[1..], k) + extra;
    }
  }

  lemma DecodeTrailingExtends(x: Bytes, extra: Bytes)
    ensures Extends(DecodeTrailingFrom(x), DecodeTrailingFrom(x + extra), extra)
  {
    DecodeTrailingForward(x, extra);
    DecodeTrailingBack(x, extra);
  }

  lemma DecodeTrailingForward(x: Bytes, extra: Bytes)
    ensures ExtendsForward(DecodeTrailingFrom(x), DecodeTrailingFrom(x + extra), extra)
  {
    ReadFlagExtends(x, extra);
    var stream := ReadFlagFrom(x);
    if stream.Ok? {
      ReadFlagExtends(stream.value.rest, extra);
      var hasUrl := ReadFlagFrom(stream.value.rest);
      if hasUrl.Ok? {
        UrlAndSourceForward(hasUrl.value.rest, extra, hasUrl.value.value);
      }
    }
  }

  lemma DecodeTrailingBack(x: Bytes, extra: Bytes)
    ensures ExtendsBack(DecodeTrailingFrom(x), DecodeTrailingFrom(x + extra), extra)
  {
    var long := x + extra;
    if DecodeTrailingFrom(long).Ok? && |extra| <= |DecodeTrailingFrom(long).value.rest| {
      var stream' := ReadFlagFrom(long);
      var hasUrl' := ReadFlagFrom(stream'.value.rest);
      var tail' := UrlAndSourceFrom(hasUrl'.value.rest, hasUrl'.value.value);
      assert |extra| <= |tail'.value.rest|;
      ReadFlagExtends(x, extra);
      var stream := ReadFlagFrom(x);
      ReadFlagExtends(stream.value.rest, extra);
      var hasUrl := ReadFlagFrom(stream.value.rest);
      UrlAndSourceExtends(hasUrl.value.rest, extra, hasUrl.value.value);
    }
  }

  /** How a read of a buffer relates to the read of that buffer with more bytes after it. */
  lemma DecodeExtends(x: Bytes, extra: Bytes)
    ensures Extends(DecodeFrom(x), DecodeFrom(x + extra), extra)
  {
    if |x| >= 5 {
      assert Skip(x + extra, 5) == Skip(x, 5) + extra;
      DecodeFieldsExtends(Skip(x, 5), extra);
    } else if |x| >= 1 {
      assert |Skip(x + extra, 5)| <= |extra|;
    }
  }

  lemma DecodeFieldsExtends(x: Bytes, extra: Bytes)
    ensures Extends(DecodeFieldsFrom(x, 1), DecodeFieldsFrom(x + extra, 1), extra)
  {
    DecodeLeadingExtends(x, extra);
    var leading := DecodeLeadingFrom(x);
    if leading.Ok? {
      DecodeTrailingExtends(leading.value.rest, extra);
    }
    DecodeFieldsBack(x, extra);
  }

  lemma DecodeFieldsBack(x: Bytes, extra: Bytes)
    ensures ExtendsBack(DecodeFieldsFrom(x, 1), DecodeFieldsFrom(x + extra, 1), extra)
  {
    var long := x + extra;
    if DecodeFieldsFrom(long, 1).Ok? && |extra| <= |DecodeFieldsFrom(long, 1).value.rest| {
      var leading' := DecodeLeadingFrom(long);
      assert |extra| <= |DecodeTrailingFrom(leading'.value.rest).value.rest| <= |leading'.value.rest|;
      DecodeLeadingExtends(x, extra);
      DecodeTrailingExtends(DecodeLeadingFrom(x).value.rest, extra);
    }
  }

  /**
   * A decode that succeeds after consuming `n` bytes fails with `Eof` on every
   * shorter prefix of its input, and gives the same track on every longer one.
   */
  lemma DecodePrefix(data: Bytes, k: nat)
    ensures DecodeFrom(data).Ok? && k <= |data| ==>
      var consumed := |data| - |DecodeFrom(data).value.rest|;
      Decode(data[..k]) == if k < consumed then Err(Eof) else Decode(data)
  {
    if DecodeFrom(data).Ok? && k <= |data| {
      var short, extra := data[..k], data[k..];
      assert data == short + extra;
      DecodeExtends(short, extra);
      ExtendedSuccess(DecodeFrom(short), DecodeFrom(data), extra);
    }
  }

  /**
   * When a read of `short + extra` succeeds, the read of `short` fails with
   * `Eof` if the success consumed part of `extra`, and otherwise yields the
   * same value.
   */
  lemma ExtendedSuccess<T>(short: Outcome<T>, long: Outcome<T>, extra: Bytes)
    requires Extends(short, long, extra) && long.Ok?
    requires short.Err? ==> short.error == Eof || short.error == InvalidUtf8
    ensures |extra| > |long.value.rest| ==> short == Err(Eof)
    ensures |extra| <= |long.value.rest| ==> short.Ok? && short.value.value == long.value.value
  {
    if short.Ok? {
      assert long.value.rest == short.value.rest + extra;
    }
  }

  /** Bytes after the source string are ignored. */
  lemma TrailingBytesIgnored(data: Bytes, extra: Bytes)
    ensures Decode(data).Ok? ==> Decode(data + extra) == Decode(data)
  {
    DecodeExtends(data, extra);
  }

  // ---------------------------------------------------------------------------
  // Round trip

  /** The wire form of a string field: its length as a big-endian u16, then its bytes. */
  function StringField(s: Bytes): (f: Bytes)
    requires |s| < 0x1_0000
  {
    BeBytes(|s|, 2) + s
  }

  /** What follows the has-url byte: the url string, or a length byte and that many padding bytes. */
  function UrlBody(url: Option<Bytes>, padding: Bytes): Bytes
    requires url.Some? ==> |url.value| < 0x1_0000
    requires |padding| < 0x100
  {
    match url
    case Some(u) => StringField(u)
    case None => [|padding| as byte] + padding
  }

  /** Every string of the track fits a u16 length prefix. */
  predicate Encodable(t: DecodedTrack) {
    && |t.title| < 0x1_0000
    && |t.author| < 0x1_0000
    && |t.identifier| < 0x1_0000
    && |t.source| < 0x1_0000
    && (t.url.Some? ==> |t.url.value| < 0x1_0000)
  }

  /** Every string of the track is valid UTF-8. */
  predicate WellFormedStrings(t: DecodedTrack) {
    && ValidUtf8(t.title)
    && ValidUtf8(t.author)
    && ValidUtf8(t.identifier)
    && ValidUtf8(t.source)
    && (t.url.Some? ==> ValidUtf8(t.url.value))
  }

  /** Title, author, length and identifier in wire form, followed by `rest`. */
  function LeadingLayout(t: DecodedTrack, rest: Bytes): Bytes
    requires Encodable(t)
  {
    StringField(t.title) + (StringField(t.author) + (BeBytes(t.length as nat, 8) + (StringField(t.identifier) + rest)))
  }

  /** The stream flag, the has-url flag, the url (or padding) and the source in wire form, followed by `rest`. */
  function TrailingLayout(t: DecodedTrack, padding: Bytes, rest: Bytes): Bytes
    requires Encodable(t) && |padding| < 0x100
  {
    [if t.stream then 1 else 0] + ([if t.url.Some? then 1 else 0] + (UrlBody(t.url, padding) + (StringField(t.source) + rest)))
  }

  /**
   * Lays a track out as a blob: a five-byte header, title, author, length,
   * identifier, stream byte, has-url byte, url (or padding) and source.
   */
  function Encode(t: DecodedTrack, header: Bytes, padding: Bytes): (blob: Bytes)
    requires Encodable(t) && |header| == 5 && |padding| < 0x100
  {
    header + LeadingLayout(t, TrailingLayout(t, padding, []))
  }

  /** `ReadStringField` for any two length bytes that spell the length of `s`. */
  lemma ReadStringPieces(len: Bytes, s: Bytes, rest: Bytes)
    requires |len| == 2 && BeValue(len) == |s|
    ensures ReadStringFrom(len + s + rest) == if ValidUtf8(s) then Ok(Read(s, rest)) else Err(InvalidUtf8)
  {
    var input := len + s + rest;
    ReadStringLayout(input);
    assert input[..2] == len;
    assert input[2..2 + |s|] == s;
    assert input[2 + |s|..] == rest;
  }

  /** A string field reads back as that string, or fails as ill-formed UTF-8. */
  lemma ReadStringField(s: Bytes, rest: Bytes)
    requires |s| < 0x1_0000
    ensures ReadStringFrom(StringField(s) + rest) == if ValidUtf8(s) then Ok(Read(s, rest)) else Err(InvalidUtf8)
  {
    ReadStringPieces(BeBytes(|s|, 2), s, rest);
  }

  lemma ReadU64Pieces(bytes: Bytes, v: u64, rest: Bytes)
    requires |bytes| == 8 && BeValue(bytes) == v as nat
    ensures ReadU64From(bytes + rest) == Ok(Read(v, rest))
  {
    assert (bytes + rest)[..8] == bytes;
    assert (bytes + rest)[8..] == rest;
  }

  /** Eight big-endian bytes read back as the u64 they represent. */
  lemma ReadU64Field(v: u64, rest: Bytes)
    ensures ReadU64From(BeBytes(v as nat, 8) + rest) == Ok(Read(v, rest))
  {
    ReadU64Pieces(BeBytes(v as nat, 8), v, rest);
  }

  lemma ReadFlagField(b: byte, rest: Bytes)
    ensures ReadFlagFrom([b] + rest) == Ok(Read(b == 1, rest))
  {
    assert ([b] + rest)[1..] == rest;
  }

  lemma ReadPaddingPieces(padding: Bytes, rest: Bytes)
    requires |padding| < 0x100
    ensures ReadUrlFrom([|padding| as byte] + padding + rest, false) == Ok(Read(None, rest))
  {
    var input := [|padding| as byte] + padding + rest;
    assert input[1..] == padding + rest;
    assert (padding + rest)[|padding|..] == rest;
  }

  /** The url body reads back as the url, or as no url once the padding is skipped. */
  lemma ReadUrlField(url: Option<Bytes>, padding: Bytes, rest: Bytes)
    requires url.Some? ==> |url.value| < 0x1_0000
    requires |padding| < 0x100
    ensures ReadUrlFrom(UrlBody(url, padding) + rest, url.Some?) ==
      if url.Some? && !ValidUtf8(url.value) then Err(InvalidUtf8) else Ok(Read(url, rest))
  {
    if url.Some? {
      ReadStringField(url.value, rest);
    } else {
      ReadPaddingPieces(padding, rest);
    }
  }

  lemma DecodeLeadingEncoded(t: DecodedTrack, rest: Bytes)
    requires Encodable(t)
    ensures DecodeLeadingFrom(LeadingLayout(t, rest)) ==
      if ValidUtf8(t.title) && ValidUtf8(t.author) && ValidUtf8(t.identifier)
      then Ok(Read((t.title, t.author, t.length, t.identifier), rest))
      else Err(InvalidUtf8)
  {
    var r3 := StringField(t.identifier) + rest;
    var r2 := BeBytes(t.length as nat, 8) + r3;
    var r1 := StringField(t.author) + r2;
    ReadStringField(t.title, r1);
    ReadStringField(t.author, r2);
    ReadU64Field(t.length, r3);
    ReadStringField(t.identifier, rest);
  }

  lemma DecodeTrailingEncoded(t: DecodedTrack, padding: Bytes, rest: Bytes)
    requires Encodable(t) && |padding| < 0x100
    ensures DecodeTrailingFrom(TrailingLayout(t, padding, rest)) ==
      if ValidUtf8(t.source) && (t.url.Some? ==> ValidUtf8(t.url.value))
      then Ok(Read((t.stream, t.url, t.source), rest))
      else Err(InvalidUtf8)
  {
    var stream: byte := if t.stream then 1 else 0;
    var hasUrl: byte := if t.url.Some? then 1 else 0;
    var r3 := StringField(t.source) + rest;
    var r2 := UrlBody(t.url, padding) + r3;
    var r1 := [hasUrl] + r2;
    ReadFlagField(stream, r1);
    ReadFlagField(hasUrl, r2);
    ReadUrlField(t.url, padding, r3);
    ReadStringField(t.source, rest);
  }

  /**
   * Decoding a laid-out track gives the track back, whatever the header bytes
   * and the padding, and consumes the whole layout; it fails with
   * `InvalidUtf8` exactly when one of the strings is not valid UTF-8.
   */
  lemma DecodeEncode(t: DecodedTrack, header: Bytes, padding: Bytes)
    requires Encodable(t) && t.version == 1 && |header| == 5 && |padding| < 0x100
    ensures DecodeFrom(Encode(t, header, padding)) ==
      if WellFormedStrings(t) then Ok(Read(t, [])) else Err(InvalidUtf8)
  {
    var trailing := TrailingLayout(t, padding, []);
    var fields := LeadingLayout(t, trailing);
    assert Skip(header + fields, 5) == fields;
    DecodeLeadingEncoded(t, trailing);
    DecodeTrailingEncoded(t, padding, []);
  }

  /** The layout of a track, followed by anything at all, decodes to that track. */
  lemma DecodeEncodeThenMore(t: DecodedTrack, header: Bytes, padding: Bytes, extra: Bytes)
    requires Encodable(t) && WellFormedStrings(t) && t.version == 1
    requires |header| == 5 && |padding| < 0x100
    ensures Decode(Encode(t, header, padding) + extra) == Ok(t)
  {
    DecodeEncode(t, header, padding);
    TrailingBytesIgnored(Encode(t, header, padding), extra);
  }
}
