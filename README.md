# lavalink.rs core, modelled in Dafny

This project models the core of lavalink.rs, a Rust client for the Lavalink
audio node. The model covers four parts of the crate, and proves what each
one guarantees.

- **Track blob decoder** (`src/decoder.rs`). It turns a lavaplayer track blob
  into a `DecodedTrack`. The blob holds version, title, author, length,
  identifier, stream flag, optional url and source.
  - `common.dfy` holds Rust's fixed-width integers, `Option` and `Result`.
  - `utf8.dfy` is the byte syntax of section 4 of RFC 3629. `String::from_utf8`
    accepts exactly the strings it derives.
  - `cursor.dfy` is `std::io::Cursor` with the big-endian readers of
    `byteorder`. It has two forms:
    - functions ending in `From`, which map the bytes still to be read to a
      value and the bytes left after it;
    - a `Cursor` class with a buffer and a position, whose methods are proved
      to perform exactly those reads (`Performs`).
  - `decoder.dfy` states the decode read by read (`ReadStringFrom` …
    `DecodeFrom`, `Decode`). `DecodeTrack` walks a `Cursor` through the
    buffer as `_decode_track` does, and is proved equal to `Decode`. The
    version is always 1 (`HeaderFlagsAlwaysZero` and the contract of
    `Decode`).
  - `decoder_properties.dfy` proves what callers can rely on:
    - bytes 0–4 never matter;
    - a cut-short buffer fails with `Eof`;
    - bytes after the source string are ignored;
    - a track laid out in wire order decodes back to itself.
- **Opcodes** (`src/opcodes.rs`, `opcodes.dfy`): the opcode enumeration,
  `to_string`, `from_str` and the derived order.
- **Outgoing messages** (`src/model.rs`, `model.dfy`): the six message
  constructors, each fixing its own opcode, and `serialize_option_u64`.
- **Players** (`src/player.rs`, `player.dfy`).
  - `AudioPlayer` is a class whose `play`, `stop`, `pause` and `volume`
    change its state only after their message has been sent.
  - `AudioPlayerManager` is a class holding the guild-keyed player table.
  - Building and sending a message are outside the model. Each method takes
    a `transport` function that reports what became of the message:
    - not built: `into_ws_message` failed and the method returns the error;
    - not sent: the channel refused it, the error is logged and ignored;
    - sent.

The commented-out size mask at src/decoder.rs:58-59 shows that the format
(lavaplayer's track encoding) starts with a 32-bit word holding a 30-bit
message size and two flag bits. The code reads only one byte of it, and the
model follows the code:

- The header flags are `((value as i64) & 0xC000_0000) >> 30` of a single
  byte, which is always 0.
  - No version byte is ever read, and the version is always 1.
  - Bit 30 is never tested.
  - No version is ever rejected; there is no `UnsupportedVersion` error.
- The header is one byte read and two two-byte skips, five bytes in all. It
  is not a 32-bit word.
- `move_cursor!` is `set_position`, which never fails. A skip past the end
  is only noticed by the next fixed-width read.

## Model

| member | source | states |
|---|---|---|
| Utf8.ValidUtf8 | src/decoder.rs:20 | the byte strings `String::from_utf8` accepts: a sequence of well-formed characters; `EncodeScalarWellFormed`, `DecodeCharEncodes`, `ValidUtf8Append`, `ValidUtf8ExcludesOctets` and `AsciiIsValid` state its promises |
| Utf8.CharWidth | src/decoder.rs:20 | the length of the UTF-8 character at the start of a byte string, at most 4 and within the string, 0 when none starts there |
| Utf8.EncodeScalarWellFormed | src/decoder.rs:20 | every Unicode scalar value encodes to one well-formed character of the right width that decodes back to it |
| Utf8.DecodeCharEncodes | src/decoder.rs:20 | every well-formed character denotes a scalar value and is exactly that value's encoding |
| Utf8.CharWidthOfAppend | src/decoder.rs:20 | the width of a character does not depend on the bytes after it |
| Utf8.ValidUtf8Append | src/decoder.rs:20 | the concatenation of two valid UTF-8 strings is valid |
| Utf8.ValidUtf8ExcludesOctets | src/decoder.rs:20 | the bytes C0, C1 and F5–FF never occur in valid UTF-8 |
| Utf8.AsciiIsValid | src/decoder.rs:20 | a string of ASCII bytes is valid UTF-8 |
| ByteCursor.BeValue | src/decoder.rs:17 | the big-endian value of w bytes is below 256^w |
| ByteCursor.BeBytes | src/decoder.rs:72 | the w-byte big-endian representation of a value has w bytes and that value |
| ByteCursor.BeBytesOfValue | src/decoder.rs:72 | big-endian decoding loses nothing: re-encoding a byte string's value gives the byte string back |
| ByteCursor.Skip | src/decoder.rs:9-14 | moving n bytes on leaves n bytes fewer, or nothing when fewer than n remain; it never fails; a cursor at a position has the bytes skipped up to it still to read |
| ByteCursor.SkipTwice | src/decoder.rs:9-14 | setting the position n further on skips n of the remaining bytes, even past the end |
| ByteCursor.ReadExactFrom | src/decoder.rs:18-19 | `read_exact` succeeds exactly when n bytes remain, yields them and leaves the rest; otherwise `Eof` |
| ByteCursor.ReadU8From | src/decoder.rs:55 | `read_u8` succeeds exactly when a byte remains and yields it |
| ByteCursor.ReadU16From | src/decoder.rs:17 | `read_u16::<BE>` succeeds exactly when two bytes remain and yields first*256 + second |
| ByteCursor.ReadU64From | src/decoder.rs:72 | `read_u64::<BE>` succeeds exactly when eight bytes remain and yields their big-endian value |
| ByteCursor.Cursor.constructor | src/decoder.rs:53 | a new cursor is at position 0 of the buffer |
| ByteCursor.Cursor.SetPosition | src/decoder.rs:12 | `set_position` sets any position, never failing |
| ByteCursor.Cursor.ReadExact | src/decoder.rs:19 | reading n bytes in place yields what `ReadExactFrom` says and, on success, advances the position by exactly n |
| ByteCursor.Cursor.ReadU8 | src/decoder.rs:55 | reading a byte in place yields what `ReadU8From` says and, on success, advances the position by exactly 1 |
| ByteCursor.Cursor.ReadU16 | src/decoder.rs:17 | reading a big-endian u16 in place yields what `ReadU16From` says and, on success, advances the position by exactly 2 |
| ByteCursor.Cursor.ReadU64 | src/decoder.rs:72 | reading a big-endian u64 in place yields what `ReadU64From` says and, on success, advances the position by exactly 8 |
| Decoder.ReadStringFrom | src/decoder.rs:16-23 | a string read leaves at least 2 bytes fewer, and fails only with `Eof` or `InvalidUtf8` |
| Decoder.ReadStringLayout | src/decoder.rs:16-23 | a big-endian u16 n, then exactly n bytes: `Eof` if they are not all there, the bytes if they are valid UTF-8, `InvalidUtf8` otherwise |
| Decoder.ReadFlagFrom | src/decoder.rs:75-76 | a flag is true exactly when its byte is 1; any byte gives a flag and only a missing byte is an error |
| Decoder.ReadUrlFrom | src/decoder.rs:78-84 | with the has-url flag set the url is a string; otherwise one length byte k is read, k bytes are skipped unread and the url is `None` |
| Decoder.DecodeHeader | src/decoder.rs:55-68 | every non-empty input gives version 1 and leaves all but its first five bytes; an empty one is `Eof` |
| Decoder.DecodeLeadingFrom | src/decoder.rs:70-73 | title, author, length and identifier take at least 14 bytes and fail only with `Eof` or `InvalidUtf8` |
| Decoder.UrlAndSourceFrom | src/decoder.rs:78-86 | the url (or skipped bytes) and the source take at least 3 bytes and fail only with `Eof` or `InvalidUtf8` |
| Decoder.DecodeTrailingFrom | src/decoder.rs:75-86 | the stream flag, has-url flag, url and source take at least 5 bytes and fail only with `Eof` or `InvalidUtf8` |
| Decoder.DecodeFieldsFrom | src/decoder.rs:70-97 | the fields after the header take at least 19 bytes and keep the header's version |
| Decoder.DecodeFrom | src/decoder.rs:52-97 | a decode takes at least 24 bytes, always reports version 1, and fails only with `Eof` or `InvalidUtf8` |
| Decoder.Decode | src/decoder.rs:52-97 | every decoded track has version 1; the only errors are `Eof` and `InvalidUtf8` |
| Decoder.MoveCursor | src/decoder.rs:9-14 | `move_cursor!` advances the position by n and skips n of the remaining bytes, never failing |
| Decoder.ReadString | src/decoder.rs:16-23 | `read_string` on a cursor yields what `ReadStringFrom` says and, on success, advances the position by the 2 length bytes plus the string's length |
| Decoder.ReadHeader | src/decoder.rs:55-68 | the header reads on a fresh cursor yield what `DecodeHeader` says and, on success, leave the position at 5 when the versioned flag is clear and at 6 otherwise; by `Decoder.HeaderFlagsAlwaysZero` the flag is always clear |
| Decoder.ReadUrl | src/decoder.rs:78-84 | the url branch on a cursor yields what `ReadUrlFrom` says; on success the url is present exactly when the flag is set, and the position advances by the width of the url field, even past the end |
| Decoder.ReadLeading | src/decoder.rs:70-73 | the title, author, length and identifier reads on a cursor yield what `DecodeLeadingFrom` says and, on success, advance the position by the three length-prefixed strings plus 8 |
| Decoder.ReadUrlAndSource | src/decoder.rs:78-86 | the url and source reads on a cursor yield what `UrlAndSourceFrom` says and, on success, advance the position by the url field's width plus the length-prefixed source |
| Decoder.ReadTrailing | src/decoder.rs:75-86 | the stream, has-url, url and source reads on a cursor yield what `DecodeTrailingFrom` says and, on success, advance the position by the two flag bytes, the url field and the length-prefixed source |
| Decoder.DecodeTrack | src/decoder.rs:48-98 | walking a cursor through the input yields exactly `Decode(input)` |
| Decoder.DecodeTrackBase64 | src/decoder.rs:102-109 | a base64 failure is reported as `InvalidBase64`, and only a base64 failure is; otherwise the decoded bytes are decoded as a track |
| Decoder.HeaderFlags | src/decoder.rs:56 | the `flags` expression: bits 30 and 31 of the first byte widened to 64 bits, so a two-bit value; `HeaderFlagsAlwaysZero` shows it is always 0 |
| Decoder.HeaderFlagsAlwaysZero | src/decoder.rs:55-66 | the masked flags of any byte are 0, so the versioned branch never runs |
| DecoderProperties.HeaderBytesIgnored | src/decoder.rs:55-70 | two inputs of the same length that agree from offset 5 on decode alike: bytes 0–4 never matter |
| DecoderProperties.ReadStringExtends | src/decoder.rs:16-23 | a string read on a buffer and on that buffer with more bytes after it agree, in both directions |
| DecoderProperties.ReadStringWholeExtends | src/decoder.rs:16-23 | a string whose bytes are all present reads the same value, or the same UTF-8 error, with more bytes after it |
| DecoderProperties.ReadStringCutExtends | src/decoder.rs:16-23 | a string cut short fails with `Eof`, and with more bytes after it leaves fewer than those unread |
| DecoderProperties.ReadU64Extends | src/decoder.rs:72 | a big-endian u64 read on a buffer and on that buffer with more bytes after it agree, in both directions |
| DecoderProperties.ReadFlagExtends | src/decoder.rs:75-76 | a flag read on a buffer and on that buffer with more bytes after it agree, in both directions |
| DecoderProperties.DecodeLeadingExtends | src/decoder.rs:70-73 | the title, author, length and identifier reads on a buffer and on that buffer with more bytes after it agree, in both directions |
| DecoderProperties.DecodeLeadingForward | src/decoder.rs:70-73 | a success on a buffer is repeated with more bytes after it, and `InvalidUtf8` stays |
| DecoderProperties.DecodeLeadingBack | src/decoder.rs:70-73 | a success that leaves at least the added bytes unread is already a success without them |
| DecoderProperties.UrlAndSourceExtends | src/decoder.rs:78-86 | url (or skipped bytes) and source agree on a buffer and on a longer one, even when the skip runs past the end of the shorter |
| DecoderProperties.UrlAndSourceForward | src/decoder.rs:78-86 | the forward half of that agreement |
| DecoderProperties.UrlAndSourceBack | src/decoder.rs:78-86 | the backward half of that agreement |
| DecoderProperties.UrlAndSourceBackWithUrl | src/decoder.rs:78-79 | the backward half when a url string is present |
| DecoderProperties.UrlAndSourceBackPadded | src/decoder.rs:80-86 | the backward half when padding is skipped |
| DecoderProperties.PaddingBack | src/decoder.rs:80-84 | skipped padding that leaves at least the extra bytes unread lies wholly within the shorter buffer |
| DecoderProperties.DecodeTrailingExtends | src/decoder.rs:75-86 | stream flag, has-url flag, url and source agree on a buffer and on a longer one |
| DecoderProperties.DecodeTrailingForward | src/decoder.rs:75-86 | the forward half of that agreement |
| DecoderProperties.DecodeTrailingBack | src/decoder.rs:75-86 | the backward half of that agreement |
| DecoderProperties.DecodeFieldsExtends | src/decoder.rs:70-97 | all the fields after the header agree on a buffer and on a longer one |
| DecoderProperties.DecodeFieldsBack | src/decoder.rs:70-97 | the backward half of that agreement |
| DecoderProperties.DecodeExtends | src/decoder.rs:52-97 | the whole decode agrees on a buffer and on a longer one |
| DecoderProperties.DecodePrefix | src/decoder.rs:52-97 | if a decode succeeds after consuming n bytes, every shorter prefix fails with `Eof` and every longer one gives the same track |
| DecoderProperties.ExtendedSuccess | src/decoder.rs:48-98 | when a read of a buffer with bytes appended succeeds, the read of the buffer alone fails with `Eof` if the success used some of the appended bytes, and otherwise yields the same value |
| DecoderProperties.TrailingBytesIgnored | src/decoder.rs:86-97 | bytes appended after a successfully decoded track do not change the decode |
| DecoderProperties.ReadStringPieces | src/decoder.rs:16-23 | two length bytes spelling \|s\|, then s, read back as s (or `InvalidUtf8`) and leave what follows |
| DecoderProperties.ReadStringField | src/decoder.rs:16-23 | a string laid out as its u16 length and its bytes reads back as that string, or fails as ill-formed UTF-8 |
| DecoderProperties.ReadU64Pieces | src/decoder.rs:72 | eight bytes with big-endian value v read back as v |
| DecoderProperties.ReadU64Field | src/decoder.rs:72 | the big-endian layout of a u64 reads back as that u64 |
| DecoderProperties.ReadFlagField | src/decoder.rs:75-76 | a flag byte reads back as whether it is 1 |
| DecoderProperties.ReadPaddingPieces | src/decoder.rs:80-83 | a length byte k followed by k padding bytes reads as no url, whatever the padding holds |
| DecoderProperties.ReadUrlField | src/decoder.rs:78-84 | the url field laid out with or without a url reads back as that url |
| DecoderProperties.DecodeLeadingEncoded | src/decoder.rs:70-73 | laid-out title, author, length and identifier read back as themselves |
| DecoderProperties.DecodeTrailingEncoded | src/decoder.rs:75-86 | laid-out stream flag, url (or padding) and source read back as themselves |
| DecoderProperties.DecodeEncode | src/decoder.rs:52-97 | a track laid out in wire order, after any five header bytes and with any padding, decodes back to itself and consumes everything; it fails with `InvalidUtf8` exactly when a string is ill-formed |
| DecoderProperties.DecodeEncodeThenMore | src/decoder.rs:52-97 | a laid-out track followed by any bytes decodes to that track |
| Opcodes.ToString | src/opcodes.rs:59-77 | the wire name of each opcode: a non-empty camel-case word of ASCII letters starting lower-case; `FromStrToString`, `ToStringInjective` and `ToStringOrdered` state its promises |
| Opcodes.Ordinal | src/opcodes.rs:13-57 | each opcode's position in the declaration, below 11 |
| Opcodes.Less | src/opcodes.rs:11 | the derived `Ord`: declaration order, which never relates an opcode to itself |
| Opcodes.LessIsStrictTotal | src/opcodes.rs:11 | the derived order is irreflexive, transitive and total on distinct opcodes, with exactly one direction holding |
| Opcodes.ByOrdinal | src/opcodes.rs:13-57 | the opcode at each declared position, the inverse of `Ordinal` |
| Opcodes.FromStr | src/opcodes.rs:82-97 | a parse succeeds only with an opcode other than `Unknown` whose wire name is exactly the input; every failure is `Err(Unknown)` |
| Opcodes.FromStrToString | src/opcodes.rs:63-97 | every opcode but `Unknown` parses back from its wire name |
| Opcodes.UnknownDoesNotRoundTrip | src/opcodes.rs:72-96 | `Unknown` is written as "unknown", which does not parse |
| Opcodes.FromStrSucceedsOnNames | src/opcodes.rs:85-97 | a string parses exactly when it is the wire name of an opcode other than `Unknown` |
| Opcodes.ToStringInjective | src/opcodes.rs:63-75 | distinct opcodes have distinct wire names |
| Opcodes.CapitalisedNameFails | src/opcodes.rs:85-96 | matching is case-sensitive: no wire name with a capitalised first letter parses |
| Opcodes.CaseSensitiveExamples | src/opcodes.rs:85-96 | "Play" and "playerupdate" do not parse |
| Opcodes.NextNameGreater | src/opcodes.rs:63-75 | each wire name comes before the next opcode's in lexicographic order |
| Opcodes.NamesIncrease | src/opcodes.rs:63-75 | wire names increase along the declaration order |
| Opcodes.ToStringOrdered | src/opcodes.rs:11-75 | the derived order of two opcodes is the lexicographic order of their wire names, in both directions |
| Model.Pause.Opcode | src/model.rs:250-252 | `opcode()` of a `Pause`: the opcode the message carries, which `NewPause` fixes to `Pause` |
| Model.Play.Opcode | src/model.rs:250-252 | `opcode()` of a `Play`: the opcode the message carries, which `NewPlay` fixes to `Play` |
| Model.Seek.Opcode | src/model.rs:250-252 | `opcode()` of a `Seek`: the opcode the message carries, which `NewSeek` fixes to `Seek` |
| Model.Stop.Opcode | src/model.rs:250-252 | `opcode()` of a `Stop`: the opcode the message carries, which `NewStop` fixes to `Stop` |
| Model.VoiceUpdate.Opcode | src/model.rs:250-252 | `opcode()` of a `VoiceUpdate`: the opcode the message carries, which `NewVoiceUpdate` fixes to `VoiceUpdate` |
| Model.Volume.Opcode | src/model.rs:250-252 | `opcode()` of a `Volume`: the opcode the message carries, which `NewVolume` fixes to `Volume` |
| Model.NewPause | src/model.rs:30-36 | `Pause::new` keeps the guild and the requested state and carries opcode `Pause`, which parses back from its name |
| Model.NewPlay | src/model.rs:75-88 | `Play::new` keeps the guild, track, start and end time and carries opcode `Play`, which parses back from its name |
| Model.NewSeek | src/model.rs:114-120 | `Seek::new` keeps the guild and position and carries opcode `Seek`, which parses back from its name |
| Model.NewStop | src/model.rs:144-149 | `Stop::new` keeps the guild and carries opcode `Stop`, which parses back from its name |
| Model.NewVoiceUpdate | src/model.rs:168-184 | `VoiceUpdate::new` puts the same guild in the message and in its event, keeps session, token and endpoint, and carries opcode `VoiceUpdate` |
| Model.NewVolume | src/model.rs:225-231 | `Volume::new` keeps the guild and sets (not adjusts) the volume, with opcode `Volume` |
| Model.SerializeOptionU64 | src/model.rs:235-242 | `Some(v)` is written as v and `None` as 0 |
| Model.SerializeOptionU64Collisions | src/model.rs:235-242 | two optional times are written alike exactly when equal or both among `None` and `Some(0)` |
| Model.ConstructorOpcodesDistinct | src/model.rs:244-265 | the six constructors fix six opcodes with distinct wire names, none of them `Unknown` |
| Player.Decimal | src/player.rs:54 | `u64::to_string` gives a non-empty string of decimal digits without leading zeros |
| Player.ParseDecimalOfDecimal | src/player.rs:54 | the text of a guild id denotes that guild id |
| Player.DecimalInjective | src/player.rs:54 | distinct guild ids have distinct texts |
| Player.MessagesNameTheirGuild | src/player.rs:53-131 | the play, stop, pause and volume messages of a player name that player's guild and no other |
| Player.Reported | src/player.rs:58-71 | a player method returns an error exactly when its message could not be built; a failed send still returns `Ok(())` |
| Player.AudioPlayer.constructor | src/player.rs:29-40 | a new player has the given guild, no track, time and position 0, not paused, volume 100 |
| Player.AudioPlayer.Play | src/player.rs:47-72 | after a send, the track is the one requested; otherwise nothing changes; every other field is kept |
| Player.AudioPlayer.Stop | src/player.rs:74-94 | after a send, there is no track; otherwise nothing changes; every other field is kept |
| Player.AudioPlayer.Pause | src/player.rs:96-120 | after a send, the pause state is the one requested; otherwise nothing changes; every other field is kept |
| Player.AudioPlayer.Volume | src/player.rs:127-145 | after a send, the volume is the one requested; otherwise nothing changes; every other field is kept |
| Player.AudioPlayerManager.constructor | src/player.rs:169-174 | a new manager has no players |
| Player.AudioPlayerManager.HasPlayer | src/player.rs:181-183 | `has_player` is the membership test of the table. It is the definition in whose terms `GetPlayer` and `CreatePlayer` state their promises |
| Player.AudioPlayerManager.GetPlayer | src/player.rs:185-192 | `get_player` returns the shared player exactly when `has_player` holds |
| Player.AudioPlayerManager.GetPlayerOwnGuild | src/player.rs:194-205 | every player in the table belongs to the guild it is filed under, so no player is filed under two guilds |
| Player.AudioPlayerManager.CreatePlayer | src/player.rs:194-206 | a guild that has a player is refused with `PlayerAlreadyExists` and the table is kept; otherwise exactly one new player for that guild, in its initial state, is added and returned |

## Left out

- src/rest.rs, src/rest/hyper.rs, src/rest/reqwest.rs: HTTP clients over libraries that are not part of this model (network I/O).
- src/stats.rs, src/lib.rs, src/rest/mod.rs, src/listener.rs: data records (some with floating point), module declarations and a callback trait with no logic.
- src/error.rs: `From` conversions over foreign error types. The decoder uses its own error type (`Eof`, `InvalidUtf8`, `InvalidBase64`); the players use `MessageNotBuilt` and `PlayerAlreadyExists`.
- Decoder.DecodeTrackBase64: base64 decoding (section 4 of RFC 4648, the `base64` crate) is a parameter and is not modelled.
- Decoder.MoveCursor: the position is an unbounded number, so a u64 overflow of `position + n` is not modelled. It would need a buffer of about 2^64 bytes.
- ByteCursor.Cursor.ReadExact: leaves the position unspecified after a failed read. Every failure ends the decode, so nothing reads it again.
- ByteCursor.Cursor.ReadU8, ByteCursor.Cursor.ReadU16, ByteCursor.Cursor.ReadU64, Decoder.ReadString, Decoder.ReadHeader, Decoder.ReadUrl, Decoder.ReadLeading, Decoder.ReadUrlAndSource, Decoder.ReadTrailing: likewise unspecified after a failure.
- Decoder.DecodeTrack: the UTF-8 strings are kept as their bytes; converting them to Rust `String`s changes nothing the model can observe.
- Player.AudioPlayer.Play, Player.AudioPlayer.Stop, Player.AudioPlayer.Pause, Player.AudioPlayer.Volume: the listener callbacks (`track_start`, `track_end`, `player_pause`, `player_resume`) and the log lines are not modelled.
- Building and sending a message is abstracted as the `transport` parameter. This covers the `mpsc::Sender`, its `Arc<Mutex<..>>` and `into_ws_message`, which is not defined in src/model.rs.
- `AudioPlayer::seek` is `unimplemented!()` and has no model.
- `AudioPlayer.guild_id` is a constant, because no method assigns it. It is a `pub` field (src/player.rs:19), so any holder of the shared player returned by `get_player` or `create_player` could reassign it. `Valid()` and `GetPlayerOwnGuild` hold only while clients leave that field alone.
- The manager's `Arc<Mutex<AudioPlayer>>` is a shared object reference, and `new_player` is the `AudioPlayer` constructor.
- The serde derives and JSON field names are not modelled, nor is `VoiceUpdate` serialisation.
- Opcodes.ToStringOrdered: byte-wise string comparison is modelled on characters. Every wire name is ASCII, so the two agree.
