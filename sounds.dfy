/** Background music and sound effects: a crossfade between the day and night tracks on
    the tick a day/night transition starts, and one effect per sound event. The audio
    channels are represented by the commands issued to them. */
module Sounds {
  datatype Channel = DayChannel | NightChannel | SfxChannel
  datatype Track = DayTrack | NightTrack | DashTrack | LvlUpTrack

  /** A command to an audio channel. `FadeOut` stops the channel, fading out over the
      transition; `FadeIn` plays a track from its start, fading in over the transition, at a
      volume; `Play` plays a track as is. */
  datatype AudioCommand = FadeOut(ch: Channel) | FadeIn(ch: Channel, track: Track, volume: real) | Play(ch: Channel, track: Track)

  /** A transition starts: translating now and not on the previous tick. */
  predicate RisingEdge(isTranslating: bool, prevState: bool) { isTranslating && !prevState }

  /** The commands of one `manage_background` tick. */
  function BackgroundCommands(isTranslating: bool, prevState: bool, isNight: bool): (r: seq<AudioCommand>)
    ensures r != [] <==> RisingEdge(isTranslating, prevState)
    ensures r != [] && isNight ==> r == [FadeOut(NightChannel), FadeIn(DayChannel, DayTrack, 0.4)]
    ensures r != [] && !isNight ==> r == [FadeOut(DayChannel), FadeIn(NightChannel, NightTrack, 1.0)]
  {
    if isTranslating && prevState != isTranslating then
      if isNight then [FadeOut(NightChannel), FadeIn(DayChannel, DayTrack, 0.4)]
      else [FadeOut(DayChannel), FadeIn(NightChannel, NightTrack, 1.0)]
    else []
  }

  /** The `manage_background` system with its `Local` previous state. */
  class BackgroundMusic {
    var prevState: bool

    constructor ()
      ensures !prevState
    {
      prevState := false;
    }

    method ManageBackground(isTranslating: bool, isNight: bool) returns (commands: seq<AudioCommand>)
      modifies this
      ensures commands == BackgroundCommands(isTranslating, old(prevState), isNight)
      ensures prevState == isTranslating
    {
      commands := [];
      if isTranslating && prevState != isTranslating {
        if isNight {
          commands := [FadeOut(NightChannel), FadeIn(DayChannel, DayTrack, 0.4)];
        } else {
          commands := [FadeOut(DayChannel), FadeIn(NightChannel, NightTrack, 1.0)];
        }
      }
      prevState := isTranslating;
    }
  }

  /** Whether each of a run of ticks crossfades, starting from `prev`; the state carried
      from tick to tick is the previous tick's `isTranslating`. */
  function Triggers(prev: bool, ticks: seq<bool>): (r: seq<bool>)
    ensures |r| == |ticks|
    decreases |ticks|
  {
    if ticks == [] then []
    else [RisingEdge(ticks[0], prev)] + Triggers(ticks[0], ticks[1..])
  }

  /** Tick i crossfades exactly when it translates and the tick before it did not. */
  lemma {:induction false} TriggersAreRisingEdges(prev: bool, ticks: seq<bool>, i: nat)
    requires i < |ticks|
    ensures Triggers(prev, ticks)[i] <==> RisingEdge(ticks[i], if i == 0 then prev else ticks[i - 1])
    decreases i
  {
    if i > 0 {
      TriggersAreRisingEdges(ticks[0], ticks[1..], i - 1);
      assert Triggers(prev, ticks)[i] == Triggers(ticks[0], ticks[1..])[i - 1];
    }
  }

  /** A transition held over several ticks crossfades at most once, on its first tick. */
  lemma HeldTransitionTriggersOnce(prev: bool, ticks: seq<bool>, i: nat)
    requires forall k :: 0 <= k < |ticks| ==> ticks[k]
    requires 0 < i < |ticks|
    ensures !Triggers(prev, ticks)[i]
  {
    TriggersAreRisingEdges(prev, ticks, i);
  }

  // ---------------------------------------------------------------------------
  // Sound effects
  // ---------------------------------------------------------------------------

  datatype PlaySoundEvent = LvlUp | Dash

  function EffectOf(e: PlaySoundEvent): Track
  {
    match e
    case Dash => DashTrack
    case LvlUp => LvlUpTrack
  }

  /** `play_sounds`: one effect on the effects channel per event, in order. */
  method PlaySounds(events: seq<PlaySoundEvent>) returns (commands: seq<AudioCommand>)
    ensures |commands| == |events|
    ensures forall i :: 0 <= i < |events| ==> commands[i] == Play(SfxChannel, EffectOf(events[i]))
  {
    commands := [];
    var i := 0;
    while i < |events|
      invariant 0 <= i <= |events|
      invariant |commands| == i
      invariant forall k :: 0 <= k < i ==> commands[k] == Play(SfxChannel, EffectOf(events[k]))
    {
      match events[i] {
        case Dash => commands := commands + [Play(SfxChannel, DashTrack)];
        case LvlUp => commands := commands + [Play(SfxChannel, LvlUpTrack)];
      }
      i := i + 1;
    }
  }
}
