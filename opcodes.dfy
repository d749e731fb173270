/**
 * The opcodes exchanged with a Lavalink node (src/opcodes.rs): a closed
 * enumeration, its wire names, the parse of a wire name back to an opcode,
 * and the order Rust derives for it.
 */
module Opcodes {
  import opened Common

  /** The type of a message; the constructors are listed in declaration order. */
  datatype Opcode =
    | Destroy
    | Event
    | Pause
    | Play
    | PlayerUpdate
    | Seek
    | Stats
    | Stop
    | Unknown
    | VoiceUpdate
    | Volume

  /** The position of an opcode in the declaration, which the derived `Ord` compares. */
  function Ordinal(op: Opcode): (n: nat)
    ensures n < 11
  {
    match op
    case Destroy => 0
    case Event => 1
    case Pause => 2
    case Play => 3
    case PlayerUpdate => 4
    case Seek => 5
    case Stats => 6
    case Stop => 7
    case Unknown => 8
    case VoiceUpdate => 9
    case Volume => 10
  }

  /** The derived `PartialOrd`/`Ord`: `a < b` exactly when `a` is declared before `b`. */
  predicate Less(a: Opcode, b: Opcode): (r: bool)
    ensures r ==> a != b
  {
    Ordinal(a) < Ordinal(b)
  }

  /** The derived order is a strict total order: distinct opcodes compare one way or the other, never both. */
  lemma LessIsStrictTotal(a: Opcode, b: Opcode, c: Opcode)
    ensures !Less(a, a)
    ensures a != b ==> (Less(a, b) <==> !Less(b, a))
    ensures Less(a, b) && Less(b, c) ==> Less(a, c)
  {
    ByOrdinalOfOrdinal(a);
    ByOrdinalOfOrdinal(b);
  }

  /** `to_string`: the camel-case wire name of an opcode. */
  function ToString(op: Opcode): (s: string)
    ensures |s| > 0 && 'a' <= s[0] <= 'z'
    ensures forall i :: 0 <= i < |s| ==> 'a' <= s[i] <= 'z' || 'A' <= s[i] <= 'Z'
  {
    match op
    case Destroy => "destroy"
    case Event => "event"
    case Pause => "pause"
    case Play => "play"
    case PlayerUpdate => "playerUpdate"
    case Seek => "seek"
    case Stats => "stats"
    case Stop => "stop"
    case Unknown => "unknown"
    case VoiceUpdate => "voiceUpdate"
    case Volume => "volume"
  }

  /**
   * `from_str`: the opcode with exactly the given wire name. `"unknown"` and
   * every string that is not one of the ten other names fail, and the error is
   * always `Unknown`.
   */
  function FromStr(s: string): (r: Result<Opcode, Opcode>)
    ensures r.Ok? ==> r.value != Unknown && ToString(r.value) == s
    ensures r.Err? ==> r.error == Unknown
  {
    match s
    case "destroy" => Ok(Destroy)
    case "voiceUpdate" => Ok(VoiceUpdate)
    case "play" => Ok(Play)
    case "stop" => Ok(Stop)
    case "pause" => Ok(Pause)
    case "seek" => Ok(Seek)
    case "volume" => Ok(Volume)
    case "playerUpdate" => Ok(PlayerUpdate)
    case "stats" => Ok(Stats)
    case "event" => Ok(Event)
    case _ => Err(Unknown)
  }

  /** Every opcode but `Unknown` parses back from its wire name. */
  lemma FromStrToString(op: Opcode)
    requires op != Unknown
    ensures FromStr(ToString(op)) == Ok(op)
  {
    match op
    case Destroy =>
    case Event =>
    case Pause =>
    case Play =>
    case PlayerUpdate =>
    case Seek =>
    case Stats =>
    case Stop =>
    case VoiceUpdate =>
    case Volume =>
  }

  /** `Unknown` has a wire name, but that name does not parse. */
  lemma UnknownDoesNotRoundTrip()
    ensures ToString(Unknown) == "unknown"
    ensures FromStr(ToString(Unknown)) == Err(Unknown)
  {
  }

  /** A string parses exactly when it is the wire name of an opcode other than `Unknown`. */
  lemma FromStrSucceedsOnNames(s: string)
    ensures FromStr(s).Ok? <==> exists op :: op != Unknown && ToString(op) == s
  {
    if op :| op != Unknown && ToString(op) == s {
      FromStrToString(op);
    }
  }

  /** Distinct opcodes have distinct wire names. */
  lemma ToStringInjective(a: Opcode, b: Opcode)
    ensures ToString(a) == ToString(b) <==> a == b
  {
    if a != b && ToString(a) == ToString(b) {
      if a == Unknown {
        FromStrToString(b);
      } else {
        FromStrToString(a);
        if b != Unknown {
          FromStrToString(b);
        }
      }
    }
  }

  /** The upper-case counterpart of an ASCII lower-case letter; any other character is kept. */
  function AsciiUpper(c: char): (u: char)
    ensures 'a' <= c <= 'z' ==> 'A' <= u <= 'Z' && u != c
    ensures !('a' <= c <= 'z') ==> u == c
  {
    if 'a' <= c <= 'z' then (c as int - 32) as char else c
  }

  /** Matching is case-sensitive: a wire name with a capitalised first letter does not parse. */
  lemma CapitalisedNameFails(op: Opcode)
    ensures |ToString(op)| > 0
    ensures FromStr([AsciiUpper(ToString(op)[0])] + ToString(op)[1..]) == Err(Unknown)
  {
    var name := ToString(op);
    var s := [AsciiUpper(name[0])] + name[1..];
    assert 'A' <= s[0] <= 'Z';
  }

  /** Two examples of case-sensitivity. */
  lemma CaseSensitiveExamples()
    ensures FromStr("Play") == Err(Unknown)
    ensures FromStr("playerupdate") == Err(Unknown)
  {
  }

  /**
   * Byte-wise lexicographic order on strings, as Rust's `str` compares them:
   * the first differing character decides, and a proper prefix comes first.
   */
  predicate LexLess(a: string, b: string)
    decreases |a|
  {
    |b| > 0 && (|a| == 0 || a[0] < b[0] || (a[0] == b[0] && LexLess(a[1..], b[1..])))
  }

  /** The opcode declared at position `n`; the inverse of `Ordinal`. */
  function ByOrdinal(n: nat): (op: Opcode)
    requires n < 11
    ensures Ordinal(op) == n
  {
    if n == 0 then Destroy
    else if n == 1 then Event
    else if n == 2 then Pause
    else if n == 3 then Play
    else if n == 4 then PlayerUpdate
    else if n == 5 then Seek
    else if n == 6 then Stats
    else if n == 7 then Stop
    else if n == 8 then Unknown
    else if n == 9 then VoiceUpdate
    else Volume
  }

  lemma ByOrdinalOfOrdinal(op: Opcode)
    ensures ByOrdinal(Ordinal(op)) == op
  {
  }

  /** `LexLess` is a strict order: irreflexive and transitive. */
  lemma {:induction false} LexLessIrreflexive(s: string)
    ensures !LexLess(s, s)
    decreases |s|
  {
    if |s| > 0 {
      LexLessIrreflexive(s[1..]);
    }
  }

  lemma {:induction false} LexLessTransitive(a: string, b: string, c: string)
    requires LexLess(a, b) && LexLess(b, c)
    ensures LexLess(a, c)
    decreases |a|
  {
    if |a| > 0 && a[0] == b[0] == c[0] {
      LexLessTransitive(a[1..], b[1..], c[1..]);
    }
  }

  /** Each wire name comes before the next one in declaration order. */
  lemma NextNameGreater(n: nat)
    requires n < 10
    ensures LexLess(ToString(ByOrdinal(n)), ToString(ByOrdinal(n + 1)))
  {
    if n == 3 {
      var play, playerUpdate := ToString(Play), ToString(PlayerUpdate);
      assert play[1..][1..][1..][1..] == [];
      assert LexLess(play[1..][1..][1..], playerUpdate[1..][1..][1..]);
    }
  }

  /** Wire names increase along the declaration order. */
  lemma {:induction false} NamesIncrease(m: nat, n: nat)
    requires m < n < 11
    ensures LexLess(ToString(ByOrdinal(m)), ToString(ByOrdinal(n)))
    decreases n - m
  {
    NextNameGreater(m);
    if m + 1 < n {
      NamesIncrease(m + 1, n);
      LexLessTransitive(ToString(ByOrdinal(m)), ToString(ByOrdinal(m + 1)), ToString(ByOrdinal(n)));
    }
  }

  /** The derived order on opcodes is the lexicographic order of their wire names. */
  lemma ToStringOrdered(a: Opcode, b: Opcode)
    ensures Less(a, b) <==> LexLess(ToString(a), ToString(b))
  {
    var i, j := Ordinal(a), Ordinal(b);
    ByOrdinalOfOrdinal(a);
    ByOrdinalOfOrdinal(b);
    if i < j {
      NamesIncrease(i, j);
    } else if j < i {
      NamesIncrease(j, i);
      if LexLess(ToString(a), ToString(b)) {
        LexLessTransitive(ToString(a), ToString(b), ToString(a));
        LexLessIrreflexive(ToString(a));
      }
    } else {
      LexLessIrreflexive(ToString(a));
    }
  }
}
