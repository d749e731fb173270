/**
 * Per-guild audio players and the table that owns them (src/player.rs). A
 * player's fields change only after the message that asks the node for the
 * change has been handed to the websocket sender; a send that fails is
 * logged and otherwise ignored. Building and sending a message is outside
 * this model: each method takes a `transport` that says what became of the
 * message it built.
 */
module Player {
  import opened Common
  import Model

  /** The library errors the player methods can return. */
  datatype Error =
    | MessageNotBuilt       // `into_ws_message()?` failed before anything was sent
    | PlayerAlreadyExists

  /** A message handed to `into_ws_message` and then to the sender. */
  datatype Outgoing =
    | SendPlay(play: Model.Play)
    | SendStop(stop: Model.Stop)
    | SendPause(pause: Model.Pause)
    | SendVolume(volume: Model.Volume)

  /** What became of an outgoing message. */
  datatype Delivery =
    | NotBuilt   // turning it into a websocket message failed
    | NotSent    // it was built, but the channel refused it
    | Sent

  // ---------------------------------------------------------------------------
  // The guild id as text (`u64::to_string`)

  function Digit(d: nat): (c: char)
    requires d < 10
    ensures '0' <= c <= '9'
  {
    ('0' as int + d) as char
  }

  /** The decimal digits of `n`, without leading zeros. */
  function Decimal(n: nat): (s: string)
    ensures |s| > 0
    ensures forall i :: 0 <= i < |s| ==> '0' <= s[i] <= '9'
    ensures s[0] == '0' ==> s == "0"
    decreases n
  {
    if n < 10 then [Digit(n)] else Decimal(n / 10) + [Digit(n % 10)]
  }

  /** The number a string of decimal digits denotes. */
  function ParseDecimal(s: string): nat
    requires forall i :: 0 <= i < |s| ==> '0' <= s[i] <= '9'
    decreases |s|
  {
    if s == [] then 0 else ParseDecimal(s[..|s| - 1]) * 10 + (s[|s| - 1] as int - '0' as int)
  }

  /** The text of a number denotes that number. */
  lemma {:induction false} ParseDecimalOfDecimal(n: nat)
    ensures ParseDecimal(Decimal(n)) == n
    decreases n
  {
    if n >= 10 {
      ParseDecimalOfDecimal(n / 10);
      var s := Decimal(n);
      assert s[..|s| - 1] == Decimal(n / 10);
    }
  }

  /** Distinct guilds are named by distinct strings. */
  lemma DecimalInjective(a: nat, b: nat)
    ensures Decimal(a) == Decimal(b) <==> a == b
  {
    ParseDecimalOfDecimal(a);
    ParseDecimalOfDecimal(b);
  }

  // ---------------------------------------------------------------------------
  // Messages a player sends

  function PlayMessage(guildId: u64, track: string, startTime: Option<u64>, endTime: Option<u64>): Outgoing {
    SendPlay(Model.NewPlay(Decimal(guildId as nat), track, startTime, endTime))
  }

  function StopMessage(guildId: u64): Outgoing {
    SendStop(Model.NewStop(Decimal(guildId as nat)))
  }

  function PauseMessage(guildId: u64, pause: bool): Outgoing {
    SendPause(Model.NewPause(Decimal(guildId as nat), pause))
  }

  function VolumeMessage(guildId: u64, volume: i32): Outgoing {
    SendVolume(Model.NewVolume(Decimal(guildId as nat), volume))
  }

  /** The guild an outgoing message is about, as its text. */
  function Recipient(m: Outgoing): string {
    match m
    case SendPlay(p) => p.guildId
    case SendStop(s) => s.guildId
    case SendPause(p) => p.guildId
    case SendVolume(v) => v.guildId
  }

  /** Every message a player builds names that player's guild, and no other. */
  lemma MessagesNameTheirGuild(guildId: u64, other: u64, track: string, startTime: Option<u64>, endTime: Option<u64>, pause: bool, volume: i32)
    ensures var names := [Recipient(PlayMessage(guildId, track, startTime, endTime)), Recipient(StopMessage(guildId)),
                          Recipient(PauseMessage(guildId, pause)), Recipient(VolumeMessage(guildId, volume))];
      forall i :: 0 <= i < |names| ==> (names[i] == Decimal(other as nat) <==> other == guildId)
  {
    DecimalInjective(guildId as nat, other as nat);
  }

  /** What a player method returns: an error only when the message could not be built. */
  function Reported(d: Delivery): (r: Result<(), Error>)
    ensures r.Err? <==> d == NotBuilt
    ensures r.Err? ==> r.error == MessageNotBuilt
  {
    if d == NotBuilt then Err(MessageNotBuilt) else Ok(())
  }

  // ---------------------------------------------------------------------------
  // The player

  /** The state fields of a player. */
  datatype PlayerState = PlayerState(track: Option<string>, time: i64, position: i64, paused: bool, volume: i32)

  /** The state of a new player: no track, at time and position 0, not paused, at volume 100. */
  const InitialState := PlayerState(None, 0, 0, false, 100)

  /** `AudioPlayer`: the local view of one guild's player on the node. */
  class AudioPlayer {
    /** A `pub` field in Rust that no method assigns; kept constant on the assumption that clients do not write it. */
    const guildId: u64
    var track: Option<string>
    var time: i64
    var position: i64
    var paused: bool
    var volume: i32

    /** `AudioPlayer::new` */
    constructor (guildId: u64)
      ensures this.guildId == guildId
      ensures State() == InitialState
    {
      this.guildId := guildId;
      track := None;
      time := 0;
      position := 0;
      paused := false;
      volume := 100;
    }

    function State(): PlayerState
      reads this
    {
      PlayerState(track, time, position, paused, volume)
    }

    /** `play`: asks the node to play `track`; records it as the current track once the message is sent. */
    method Play(track: string, startTime: Option<u64>, endTime: Option<u64>, transport: Outgoing -> Delivery)
      returns (r: Result<(), Error>)
      modifies this
      ensures var d := transport(PlayMessage(guildId, track, startTime, endTime));
        && r == Reported(d)
        && State() == if d == Sent then old(State()).(track := Some(track)) else old(State())
    {
      var d := transport(PlayMessage(guildId, track, startTime, endTime));
      if d == NotBuilt {
        return Err(MessageNotBuilt);
      }
      if d == Sent {
        this.track := Some(track);
      }
      return Ok(());
    }

    /** `stop`: asks the node to stop; forgets the current track once the message is sent. */
    method Stop(transport: Outgoing -> Delivery) returns (r: Result<(), Error>)
      modifies this
      ensures var d := transport(StopMessage(guildId));
        && r == Reported(d)
        && State() == if d == Sent then old(State()).(track := None) else old(State())
    {
      var d := transport(StopMessage(guildId));
      if d == NotBuilt {
        return Err(MessageNotBuilt);
      }
      if d == Sent {
        track := None;
      }
      return Ok(());
    }

    /** `pause`: asks the node to pause or resume; records the new state once the message is sent. */
    method Pause(pause: bool, transport: Outgoing -> Delivery) returns (r: Result<(), Error>)
      modifies this
      ensures var d := transport(PauseMessage(guildId, pause));
        && r == Reported(d)
        && State() == if d == Sent then old(State()).(paused := pause) else old(State())
    {
      var d := transport(PauseMessage(guildId, pause));
      if d == NotBuilt {
        return Err(MessageNotBuilt);
      }
      if d == Sent {
        paused := pause;
      }
      return Ok(());
    }

    /** `volume`: asks the node for a new volume; records it, replacing the old one, once the message is sent. */
    method Volume(volume: i32, transport: Outgoing -> Delivery) returns (r: Result<(), Error>)
      modifies this
      ensures var d := transport(VolumeMessage(guildId, volume));
        && r == Reported(d)
        && State() == if d == Sent then old(State()).(volume := volume) else old(State())
    {
      var d := transport(VolumeMessage(guildId, volume));
      if d == NotBuilt {
        return Err(MessageNotBuilt);
      }
      if d == Sent {
        this.volume := volume;
      }
      return Ok(());
    }
  }

  // ---------------------------------------------------------------------------
  // The player table

  /** `AudioPlayerManager`: the players of all guilds, keyed by guild id. */
  class AudioPlayerManager {
    var players: map<u64, AudioPlayer>

    /** Every player is filed under its own guild id. */
    ghost predicate Valid()
      reads this
    {
      forall g :: g in players ==> players[g].guildId == g
    }

    /** `AudioPlayerManager::new`: an empty table. */
    constructor ()
      ensures players == map[]
      ensures Valid()
    {
      players := map[];
    }

    /** `has_player` */
    function HasPlayer(guildId: u64): (b: bool)
      reads this
      ensures b <==> guildId in players
    {
      guildId in players
    }

    /** `get_player`: the shared player of a guild, when there is one. */
    function GetPlayer(guildId: u64): (p: Option<AudioPlayer>)
      reads this
      ensures p.Some? <==> HasPlayer(guildId)
      ensures p.Some? ==> p.value == players[guildId]
    {
      if guildId in players then Some(players[guildId]) else None
    }

    /** A player found under a guild id belongs to that guild, so no player is filed twice. */
    lemma GetPlayerOwnGuild(a: u64, b: u64)
      requires Valid()
      ensures GetPlayer(a).Some? ==> GetPlayer(a).value.guildId == a
      ensures GetPlayer(a).Some? && GetPlayer(b).Some? && GetPlayer(a).value == GetPlayer(b).value ==> a == b
    {
    }

    /**
     * `create_player`: refuses a guild that already has a player; otherwise
     * files a new player for the guild and returns it, leaving every other
     * entry as it was.
     */
    method CreatePlayer(guildId: u64) returns (r: Result<AudioPlayer, Error>)
      requires Valid()
      modifies this
      ensures Valid()
      ensures HasPlayer(guildId)
      ensures old(HasPlayer(guildId)) ==> r == Err(PlayerAlreadyExists) && players == old(players)
      ensures !old(HasPlayer(guildId)) ==>
        && r.Ok? && fresh(r.value)
        && r.value.guildId == guildId && r.value.State() == InitialState
        && players == old(players)[guildId := r.value]
    {
      if guildId in players {
        return Err(PlayerAlreadyExists);
      }
      var player := new AudioPlayer(guildId);
      players := players[guildId := player];
      return Ok(players[guildId]);
    }
  }
}
