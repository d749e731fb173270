/**
 * The messages a client sends to a Lavalink node (src/model.rs). Every
 * message carries the guild it is about and an opcode that its constructor
 * fixes; the optional start and end times of a `Play` are serialised as a
 * plain u64.
 */
module Model {
  import opened Common
  import Opcodes

  /** Sets the pause state of a guild's player. */
  datatype Pause = Pause(guildId: string, op: Opcodes.Opcode, pause: bool) {
    /** `opcode()`: the opcode the message carries. */
    function Opcode(): Opcodes.Opcode { op }
  }

  /** Plays a base64-encoded track, optionally from `startTime` and up to `endTime`. */
  datatype Play = Play(endTime: Option<u64>, guildId: string, op: Opcodes.Opcode, startTime: Option<u64>, track: string) {
    function Opcode(): Opcodes.Opcode { op }
  }

  /** Seeks a guild's player to a position. */
  datatype Seek = Seek(guildId: string, op: Opcodes.Opcode, position: i64) {
    function Opcode(): Opcodes.Opcode { op }
  }

  /** Stops a guild's player. */
  datatype Stop = Stop(guildId: string, op: Opcodes.Opcode) {
    function Opcode(): Opcodes.Opcode { op }
  }

  /** The voice server data relayed by a `VoiceUpdate`. */
  datatype VoiceUpdateEvent = VoiceUpdateEvent(endpoint: string, guildId: string, token: string)

  /** Relays a voice state update received from Discord. */
  datatype VoiceUpdate = VoiceUpdate(event: VoiceUpdateEvent, guildId: string, op: Opcodes.Opcode, sessionId: string) {
    function Opcode(): Opcodes.Opcode { op }
  }

  /** Sets the volume of a guild's player. */
  datatype Volume = Volume(guildId: string, op: Opcodes.Opcode, volume: i32) {
    function Opcode(): Opcodes.Opcode { op }
  }

  /** The opcode is one a node can parse back from its wire name. */
  predicate WireOpcode(op: Opcodes.Opcode) {
    Opcodes.FromStr(Opcodes.ToString(op)) == Ok(op)
  }

  /** `Pause::new`: the guild and the requested state, with opcode `Pause`. */
  function NewPause(guildId: string, pause: bool): (m: Pause)
    ensures m.guildId == guildId && m.pause == pause
    ensures m.Opcode() == Opcodes.Pause && WireOpcode(m.Opcode())
  {
    Opcodes.FromStrToString(Opcodes.Pause);
    Pause(guildId, Opcodes.Pause, pause)
  }

  /** `Play::new`: the guild, the track and both times, unchanged, with opcode `Play`. */
  function NewPlay(guildId: string, track: string, startTime: Option<u64>, endTime: Option<u64>): (m: Play)
    ensures m.guildId == guildId && m.track == track
    ensures m.startTime == startTime && m.endTime == endTime
    ensures m.Opcode() == Opcodes.Play && WireOpcode(m.Opcode())
  {
    Opcodes.FromStrToString(Opcodes.Play);
    Play(endTime, guildId, Opcodes.Play, startTime, track)
  }

  /** `Seek::new`: the guild and the position, with opcode `Seek`. */
  function NewSeek(guildId: string, position: i64): (m: Seek)
    ensures m.guildId == guildId && m.position == position
    ensures m.Opcode() == Opcodes.Seek && WireOpcode(m.Opcode())
  {
    Opcodes.FromStrToString(Opcodes.Seek);
    Seek(guildId, Opcodes.Seek, position)
  }

  /** `Stop::new`: the guild, with opcode `Stop`. */
  function NewStop(guildId: string): (m: Stop)
    ensures m.guildId == guildId
    ensures m.Opcode() == Opcodes.Stop && WireOpcode(m.Opcode())
  {
    Opcodes.FromStrToString(Opcodes.Stop);
    Stop(guildId, Opcodes.Stop)
  }

  /**
   * `VoiceUpdate::new`: the same guild in the message and in its event, and
   * the session, token and endpoint unchanged, with opcode `VoiceUpdate`.
   */
  function NewVoiceUpdate(sessionId: string, guildId: string, token: string, endpoint: string): (m: VoiceUpdate)
    ensures m.guildId == guildId && m.event.guildId == m.guildId
    ensures m.sessionId == sessionId && m.event.token == token && m.event.endpoint == endpoint
    ensures m.Opcode() == Opcodes.VoiceUpdate && WireOpcode(m.Opcode())
  {
    Opcodes.FromStrToString(Opcodes.VoiceUpdate);
    VoiceUpdate(VoiceUpdateEvent(endpoint, guildId, token), guildId, Opcodes.VoiceUpdate, sessionId)
  }

  /** `Volume::new`: the guild and the new volume, which replaces the old one rather than adjusting it. */
  function NewVolume(guildId: string, volume: i32): (m: Volume)
    ensures m.guildId == guildId && m.volume == volume
    ensures m.Opcode() == Opcodes.Volume && WireOpcode(m.Opcode())
  {
    Opcodes.FromStrToString(Opcodes.Volume);
    Volume(guildId, Opcodes.Volume, volume)
  }

  /** `serialize_option_u64`: an absent time is written as 0 rather than as null. */
  function SerializeOptionU64(option: Option<u64>): (value: u64)
    ensures option.Some? ==> value == option.value
    ensures option.None? ==> value == 0
  {
    match option
    case Some(v) => v
    case None => 0
  }

  /**
   * Two optional times serialise alike exactly when they are equal or are
   * `None` and `Some(0)`: the serialisation loses only the difference between
   * no time and time 0.
   */
  lemma SerializeOptionU64Collisions(a: Option<u64>, b: Option<u64>)
    ensures SerializeOptionU64(a) == SerializeOptionU64(b) <==>
      a == b || (a in {None, Some(0)} && b in {None, Some(0)})
  {
  }

  /** The six message constructors fix six distinct opcodes, none of them `Unknown`. */
  lemma ConstructorOpcodesDistinct(guildId: string)
    ensures var ops := [NewPause(guildId, false).Opcode(), NewPlay(guildId, [], None, None).Opcode(),
                        NewSeek(guildId, 0).Opcode(), NewStop(guildId).Opcode(),
                        NewVoiceUpdate([], guildId, [], []).Opcode(), NewVolume(guildId, 0).Opcode()];
      (forall i :: 0 <= i < |ops| ==> ops[i] != Opcodes.Unknown)
      && forall i, j :: 0 <= i < j < |ops| ==> Opcodes.ToString(ops[i]) != Opcodes.ToString(ops[j])
  {
    var ops := [NewPause(guildId, false).Opcode(), NewPlay(guildId, [], None, None).Opcode(),
                NewSeek(guildId, 0).Opcode(), NewStop(guildId).Opcode(),
                NewVoiceUpdate([], guildId, [], []).Opcode(), NewVolume(guildId, 0).Opcode()];
    forall i, j | 0 <= i < j < |ops|
      ensures Opcodes.ToString(ops[i]) != Opcodes.ToString(ops[j])
    {
      Opcodes.ToStringInjective(ops[i], ops[j]);
    }
  }
}
