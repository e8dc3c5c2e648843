/**
 The playback-state provider as a mutable object: five fields overwritten by
 the commands, two derived values, and an index invariant every command
 keeps.  Each command takes effect as one step from the state before the
 call, and its new state is the matching transition of `PlayerState`.
 */
module PlayerContext {
  import opened PlayerState
  import opened Wrappers

  class PlayerContextProvider {
    var episodeList: seq<Episode>
    var currentEpisodeIndex: nat
    var isPlaying: bool
    var isLoop: bool
    var isShuffle: bool

    /** The fields as one value, for stating what a command does. */
    function Snapshot(): State
      reads this
    {
      State(episodeList, currentEpisodeIndex, isPlaying, isLoop, isShuffle)
    }

    ghost predicate Valid()
      reads this
    {
      PlayerState.Valid(Snapshot())
    }

    /** The derived `hasPrevious`: true when the current episode is not the first of a loaded list. */
    predicate HasPrevious()
      reads this
      ensures Valid() ==> (HasPrevious() <==> |episodeList| > 0 && currentEpisodeIndex != 0)
    {
      PlayerState.HasPrevious(Snapshot())
    }

    /** The derived `hasNext`: always while shuffling, else when the current episode is not the last one. */
    predicate HasNext()
      reads this
      ensures isShuffle ==> HasNext()
      ensures Valid() && !isShuffle ==>
        (HasNext() <==> |episodeList| > 0 && currentEpisodeIndex != |episodeList| - 1)
    {
      PlayerState.HasNext(Snapshot())
    }

    /**
     The episode the player shows and plays: `episodeList[currentEpisodeIndex]`,
     which is absent (`undefined`) when the index is past the end.  Under the
     index invariant it is present exactly when a list is loaded.
     */
    function CurrentEpisode(): (e: Option<Episode>)
      reads this
      ensures e.Some? <==> currentEpisodeIndex < |episodeList|
      ensures e.Some? ==> e.value == episodeList[currentEpisodeIndex]
      ensures Valid() ==> (e.Some? <==> |episodeList| > 0)
    {
      if currentEpisodeIndex < |episodeList| then Some(episodeList[currentEpisodeIndex]) else None
    }

    constructor ()
      ensures Valid()
      ensures Snapshot() == Initial
    {
      episodeList := [];
      isPlaying := false;
      isLoop := false;
      isShuffle := false;
      currentEpisodeIndex := 0;
    }

    method Play(episode: Episode)
      requires Valid()
      modifies this
      ensures Valid()
      ensures episodeList == [episode] && currentEpisodeIndex == 0 && isPlaying
      ensures isLoop == old(isLoop) && isShuffle == old(isShuffle)
      ensures Snapshot() == PlayerState.Play(old(Snapshot()), episode)
    {
      episodeList := [episode];
      currentEpisodeIndex := 0;
      isPlaying := true;
    }

    method TogglePlay()
      requires Valid()
      modifies this
      ensures Valid()
      ensures isPlaying == !old(isPlaying)
      ensures episodeList == old(episodeList) && currentEpisodeIndex == old(currentEpisodeIndex)
      ensures isLoop == old(isLoop) && isShuffle == old(isShuffle)
      ensures Snapshot() == PlayerState.TogglePlay(old(Snapshot()))
    {
      isPlaying := !isPlaying;
    }

    method ToggleLoop()
      requires Valid()
      modifies this
      ensures Valid()
      ensures isLoop == !old(isLoop)
      ensures episodeList == old(episodeList) && currentEpisodeIndex == old(currentEpisodeIndex)
      ensures isPlaying == old(isPlaying) && isShuffle == old(isShuffle)
      ensures Snapshot() == PlayerState.ToggleLoop(old(Snapshot()))
    {
      isLoop := !isLoop;
    }

    method ToggleShuffle()
      requires Valid()
      modifies this
      ensures Valid()
      ensures isShuffle == !old(isShuffle)
      ensures episodeList == old(episodeList) && currentEpisodeIndex == old(currentEpisodeIndex)
      ensures isPlaying == old(isPlaying) && isLoop == old(isLoop)
      ensures Snapshot() == PlayerState.ToggleShuffle(old(Snapshot()))
    {
      isShuffle := !isShuffle;
    }

    method SetPlayingState(state: bool)
      requires Valid()
      modifies this
      ensures Valid()
      ensures isPlaying == state
      ensures episodeList == old(episodeList) && currentEpisodeIndex == old(currentEpisodeIndex)
      ensures isLoop == old(isLoop) && isShuffle == old(isShuffle)
      ensures Snapshot() == PlayerState.SetPlayingState(old(Snapshot()), state)
    {
      isPlaying := state;
    }

    /** Loads a whole list and starts at `index`, which the caller picks from that list. */
    method PlayList(list: seq<Episode>, index: nat)
      requires Valid()
      requires index < |list|
      modifies this
      ensures Valid()
      ensures episodeList == list && currentEpisodeIndex == index && isPlaying
      ensures isLoop == old(isLoop) && isShuffle == old(isShuffle)
      ensures Snapshot() == PlayerState.PlayList(old(Snapshot()), list, index)
    {
      episodeList := list;
      currentEpisodeIndex := index;
      isPlaying := true;
    }

    /** Empties the list and resets the index; the flags, `isPlaying` included, are left as they were. */
    method ClearPlayerState()
      requires Valid()
      modifies this
      ensures Valid()
      ensures episodeList == [] && currentEpisodeIndex == 0
      ensures isPlaying == old(isPlaying) && isLoop == old(isLoop) && isShuffle == old(isShuffle)
      ensures Snapshot() == PlayerState.ClearPlayerState(old(Snapshot()))
    {
      episodeList := [];
      currentEpisodeIndex := 0;
    }

    /**
     Moves to a random episode while shuffling, else to the following one if
     there is one; `random` is the value `Math.random()` returned.
     */
    method PlayNext(random: real)
      requires Valid()
      requires 0.0 <= random < 1.0
      modifies this
      ensures Valid()
      ensures episodeList == old(episodeList)
      ensures isPlaying == old(isPlaying) && isLoop == old(isLoop) && isShuffle == old(isShuffle)
      ensures old(isShuffle) ==> currentEpisodeIndex == ShuffleIndex(|episodeList|, random)
      ensures !old(isShuffle) && old(HasNext()) ==> currentEpisodeIndex == old(currentEpisodeIndex) + 1
      ensures !old(isShuffle) && !old(HasNext()) ==> currentEpisodeIndex == old(currentEpisodeIndex)
      ensures Snapshot() == PlayerState.PlayNext(old(Snapshot()), random)
    {
      if isShuffle {
        var nextRandomEpisodeIndex := ShuffleIndex(|episodeList|, random);
        currentEpisodeIndex := nextRandomEpisodeIndex;
      } else if HasNext() {
        currentEpisodeIndex := currentEpisodeIndex + 1;
      }
    }

    method PlayPrevious()
      requires Valid()
      modifies this
      ensures Valid()
      ensures episodeList == old(episodeList)
      ensures isPlaying == old(isPlaying) && isLoop == old(isLoop) && isShuffle == old(isShuffle)
      ensures old(HasPrevious()) ==> currentEpisodeIndex == old(currentEpisodeIndex) - 1
      ensures !old(HasPrevious()) ==> currentEpisodeIndex == old(currentEpisodeIndex)
      ensures Snapshot() == PlayerState.PlayPrevious(old(Snapshot()))
    {
      if HasPrevious() {
        currentEpisodeIndex := currentEpisodeIndex - 1;
      }
    }
  }

  /**
   A session driven through the object: three episodes, two steps forward
   reach the last one, a third stays there, and clearing keeps playback on.
   */
  method StepThroughSession(a: Episode, b: Episode, c: Episode, random: real)
    requires 0.0 <= random < 1.0
  {
    var player := new PlayerContextProvider();
    player.PlayList([a, b, c], 0);
    assert !player.HasPrevious() && player.HasNext();
    player.PlayNext(random);
    player.PlayNext(random);
    assert player.currentEpisodeIndex == 2 && !player.HasNext();
    player.PlayNext(random);
    assert player.currentEpisodeIndex == 2;
    player.ClearPlayerState();
    assert player.episodeList == [] && player.isPlaying;
    player.TogglePlay();
    player.TogglePlay();
    assert player.isPlaying;
  }
}
