/**
 The playback state shared by the player and the episode pages, as a value:
 the loaded episode list, the index of the current episode and three flags.
 Each player command is a function from the state before the call to the
 state after it; the lemmas below relate commands to one another.
 */
module PlayerState {

  /** An episode as the player sees it; durations are whole seconds. */
  datatype Episode = Episode(title: string, members: string, thumbnail: string, duration: nat, url: string)

  datatype State = State(
    episodeList: seq<Episode>,
    currentEpisodeIndex: nat,
    isPlaying: bool,
    isLoop: bool,
    isShuffle: bool)

  /** The state the provider starts with: nothing loaded, index 0, every flag off. */
  const Initial := State([], 0, false, false, false)

  /**
   The index invariant: a valid position in a non-empty list, and 0 while
   the list is empty.
   */
  predicate Valid(s: State)
    ensures Valid(s) ==> (s.currentEpisodeIndex < |s.episodeList| <==> |s.episodeList| > 0)
  {
    if |s.episodeList| > 0 then s.currentEpisodeIndex < |s.episodeList| else s.currentEpisodeIndex == 0
  }

  /** `hasPrevious`; on a valid state: a list is loaded and the current episode is not its first. */
  predicate HasPrevious(s: State)
    ensures Valid(s) ==> (HasPrevious(s) <==> |s.episodeList| > 0 && s.currentEpisodeIndex != 0)
  {
    s.currentEpisodeIndex > 0
  }

  /**
   `hasNext`; on a valid state in order: a list is loaded and the current
   episode is not its last.
   */
  predicate HasNext(s: State)
    ensures Valid(s) && !s.isShuffle ==>
      (HasNext(s) <==> |s.episodeList| > 0 && s.currentEpisodeIndex != |s.episodeList| - 1)
  {
    s.isShuffle || s.currentEpisodeIndex + 1 < |s.episodeList|
  }

  /**
   The shuffle draw `Math.floor(random * n)` for a `random` in [0, 1): an
   index of a non-empty list of length `n`, and 0 when `n` is 0.
   */
  function ShuffleIndex(n: nat, random: real): (k: nat)
    requires 0.0 <= random < 1.0
    ensures n > 0 ==> k < n
    ensures n == 0 ==> k == 0
  {
    var x := random * n as real;
    assert 0.0 <= x;
    assert x < n as real || n == 0 by {
      if n > 0 {
        var gap := (1.0 - random) * n as real;
        assert gap == n as real - x;
        assert gap > 0.0;
      }
    }
    x.Floor
  }

  /** Every index of a non-empty list is the outcome of some draw. */
  lemma ShuffleReachesEveryIndex(n: nat, k: nat)
    requires k < n
    ensures 0.0 <= k as real / n as real < 1.0
    ensures ShuffleIndex(n, k as real / n as real) == k
  {
    var r := k as real / n as real;
    assert r * n as real == k as real;
  }

  function Play(s: State, episode: Episode): (r: State)
    ensures Valid(r)
  {
    s.(episodeList := [episode], currentEpisodeIndex := 0, isPlaying := true)
  }

  function TogglePlay(s: State): (r: State)
    ensures Valid(s) ==> Valid(r)
  {
    s.(isPlaying := !s.isPlaying)
  }

  function ToggleLoop(s: State): (r: State)
    ensures Valid(s) ==> Valid(r)
  {
    s.(isLoop := !s.isLoop)
  }

  function ToggleShuffle(s: State): (r: State)
    ensures Valid(s) ==> Valid(r)
  {
    s.(isShuffle := !s.isShuffle)
  }

  function SetPlayingState(s: State, playing: bool): (r: State)
    ensures Valid(s) ==> Valid(r)
  {
    s.(isPlaying := playing)
  }

  /** The index is not checked by the caller-facing command; here it must be one of the list's. */
  function PlayList(s: State, list: seq<Episode>, index: nat): (r: State)
    requires index < |list|
    ensures Valid(r)
  {
    s.(episodeList := list, currentEpisodeIndex := index, isPlaying := true)
  }

  function ClearPlayerState(s: State): (r: State)
    ensures Valid(r)
  {
    s.(episodeList := [], currentEpisodeIndex := 0)
  }

  /** Next episode; `random` stands for the value `Math.random()` returned. */
  function PlayNext(s: State, random: real): (r: State)
    requires 0.0 <= random < 1.0
    ensures Valid(s) ==> Valid(r)
  {
    if s.isShuffle then s.(currentEpisodeIndex := ShuffleIndex(|s.episodeList|, random))
    else if HasNext(s) then s.(currentEpisodeIndex := s.currentEpisodeIndex + 1)
    else s
  }

  function PlayPrevious(s: State): (r: State)
    ensures Valid(s) ==> Valid(r)
  {
    if HasPrevious(s) then s.(currentEpisodeIndex := s.currentEpisodeIndex - 1) else s
  }

  // ----- Properties of the commands -----

  lemma InitialIsValid()
    ensures Valid(Initial) && !HasPrevious(Initial) && !HasNext(Initial)
  {
  }

  /** `play` forgets the previous list and index, whatever they were, and keeps the mode flags. */
  lemma PlayForgetsPriorState(s: State, t: State, episode: Episode)
    requires s.isLoop == t.isLoop && s.isShuffle == t.isShuffle
    ensures Play(s, episode) == Play(t, episode)
    ensures Play(s, episode).episodeList == [episode]
    ensures Play(s, episode).currentEpisodeIndex == 0 && Play(s, episode).isPlaying
    ensures Play(s, episode).isLoop == s.isLoop && Play(s, episode).isShuffle == s.isShuffle
  {
  }

  /** Each toggle undoes itself, and all three flip exactly one flag. */
  lemma TogglesAreInvolutions(s: State)
    ensures TogglePlay(TogglePlay(s)) == s
    ensures ToggleLoop(ToggleLoop(s)) == s
    ensures ToggleShuffle(ToggleShuffle(s)) == s
    ensures TogglePlay(s).isPlaying != s.isPlaying
    ensures ToggleLoop(s).isLoop != s.isLoop
    ensures ToggleShuffle(s).isShuffle != s.isShuffle
  {
  }

  /** `setPlayingState` is idempotent, and `togglePlay` is setting the opposite state. */
  lemma SetPlayingStateIdempotent(s: State, playing: bool)
    ensures SetPlayingState(SetPlayingState(s, playing), playing) == SetPlayingState(s, playing)
    ensures SetPlayingState(s, s.isPlaying) == s
    ensures TogglePlay(s) == SetPlayingState(s, !s.isPlaying)
  {
  }

  /** While shuffling there is always a next episode, even at the end of the list. */
  lemma ShuffleAlwaysHasNext(s: State)
    requires s.isShuffle
    ensures HasNext(s)
  {
  }

  /** In order, `playNext` steps by exactly one when there is a next episode, and is a no-op otherwise. */
  lemma PlayNextInOrder(s: State, random: real)
    requires 0.0 <= random < 1.0
    requires Valid(s) && !s.isShuffle
    ensures HasNext(s) ==> PlayNext(s, random) == s.(currentEpisodeIndex := s.currentEpisodeIndex + 1)
    ensures !HasNext(s) ==> PlayNext(s, random) == s
    ensures |s.episodeList| > 0 && s.currentEpisodeIndex == |s.episodeList| - 1 ==> PlayNext(s, random) == s
  {
  }

  /**
   Shuffled, `playNext` changes only the index, to one of the list (0 for
   an empty list); the current index itself can be drawn again.
   */
  lemma PlayNextShuffled(s: State, random: real)
    requires 0.0 <= random < 1.0
    requires s.isShuffle
    ensures PlayNext(s, random).(currentEpisodeIndex := s.currentEpisodeIndex) == s
    ensures |s.episodeList| > 0 ==> PlayNext(s, random).currentEpisodeIndex < |s.episodeList|
    ensures |s.episodeList| == 0 ==> PlayNext(s, random).currentEpisodeIndex == 0
    ensures Valid(s) && |s.episodeList| > 0 ==>
      PlayNext(s, s.currentEpisodeIndex as real / |s.episodeList| as real) == s
  {
    if Valid(s) && |s.episodeList| > 0 {
      ShuffleReachesEveryIndex(|s.episodeList|, s.currentEpisodeIndex);
    }
  }

  /** `playPrevious` steps back by exactly one when there is a previous episode, and is a no-op otherwise. */
  lemma PlayPreviousSteps(s: State)
    ensures HasPrevious(s) ==> PlayPrevious(s) == s.(currentEpisodeIndex := s.currentEpisodeIndex - 1)
    ensures !HasPrevious(s) ==> PlayPrevious(s) == s
  {
  }

  /** In order, previous undoes next and next undoes previous. */
  lemma NextAndPreviousAreInverse(s: State, random: real)
    requires 0.0 <= random < 1.0
    requires Valid(s) && !s.isShuffle
    ensures HasNext(s) ==> PlayPrevious(PlayNext(s, random)) == s
    ensures HasPrevious(s) ==> PlayNext(PlayPrevious(s), random) == s
  {
  }

  /** `clearPlayerState` empties the list and resets the index but leaves every flag, `isPlaying` included. */
  lemma ClearKeepsFlags(s: State)
    ensures ClearPlayerState(s) == Initial.(isPlaying := s.isPlaying, isLoop := s.isLoop, isShuffle := s.isShuffle)
  {
  }

  /**
   Three episodes loaded from the start: no previous, a next; two steps reach
   the last one and a third step stays there.
   */
  lemma StepThroughThreeEpisodes(a: Episode, b: Episode, c: Episode, random: real)
    requires 0.0 <= random < 1.0
    ensures var s0 := PlayList(Initial, [a, b, c], 0);
      !HasPrevious(s0) && HasNext(s0)
    ensures var s2 := PlayNext(PlayNext(PlayList(Initial, [a, b, c], 0), random), random);
      s2.currentEpisodeIndex == 2 && !HasNext(s2) && PlayNext(s2, random) == s2
  {
  }

  /** Clearing after loading a list does not stop playback. */
  lemma ClearDoesNotStop(a: Episode, b: Episode)
    ensures var s := ClearPlayerState(PlayList(Initial, [a, b], 1));
      s.episodeList == [] && s.currentEpisodeIndex == 0 && s.isPlaying
  {
  }
}
