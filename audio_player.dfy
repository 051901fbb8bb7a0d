/**
 * The transport of the playlist player: which track of the catalog is
 * current, whether the player believes it is playing, and the commands it
 * has sent to the media element. The catalog is known only by its length;
 * track display fields and DOM writes are not modelled.
 *
 * The pure functions below are the specification of each transport
 * operation on a `State` value; the class `AudioPlayer` performs the same
 * operations in place and is proved to agree with them.
 */
module Player {

  /** A command sent to the media element. `Load(i)` is setting its source
      to the resource of track `i`. */
  datatype Command = Load(track: nat) | Play | Pause

  /** What the transport has at a given moment. */
  datatype State = State(index: int, playing: bool, commands: seq<Command>)

  /** Whether `i` names a track of a catalog of `n` tracks. Reading a track
      outside the catalog yields `undefined`, and reading its title throws. */
  predicate InCatalog(i: int, n: nat) {
    0 <= i < n
  }

  /** The index `nextTrack` moves to: one further, or back to the first
      track from the last one. */
  function NextIndex(i: int, n: nat): (r: int)
    ensures InCatalog(i, n) ==> InCatalog(r, n) && r == (i + 1) % n
  {
    if i < n - 1 then i + 1 else 0
  }

  /** The index `previousTrack` moves to: one back, or round to the last
      track from the first one. */
  function PreviousIndex(i: int, n: nat): (r: int)
    ensures InCatalog(i, n) ==> InCatalog(r, n) && r == (i + n - 1) % n
  {
    if i > 0 then i - 1 else n - 1
  }

  // ---- The playing flag and the command log ----

  /** Whether the last play or pause sent to the media element was a play;
      false when none was sent. Loads in between do not matter. */
  function LastTransportIsPlay(c: seq<Command>): bool {
    if c == [] then false
    else if c[|c| - 1] == Play then true
    else if c[|c| - 1] == Pause then false
    else LastTransportIsPlay(c[..|c| - 1])
  }

  /** The flag reflects the last transport command issued, not the media
      element's own state. */
  predicate FlagMatchesLog(s: State) {
    s.playing == LastTransportIsPlay(s.commands)
  }

  /** The log `c'` is the log `c` with commands appended. */
  predicate Extends(c': seq<Command>, c: seq<Command>) {
    c <= c'
  }

  /** A load appended to the log leaves the last transport command as it was. */
  lemma LastTransportAfterLoad(c: seq<Command>, i: nat)
    ensures LastTransportIsPlay(c + [Load(i)]) == LastTransportIsPlay(c)
  {
    assert (c + [Load(i)])[..|c|] == c;
  }

  // ---- Specification of each operation on a State value ----

  /** `loadTrack(i)`: the index is set first; the source of the media element
      is set only when the track exists (otherwise reading the track's title
      throws before). */
  function LoadTrackState(s: State, n: nat, i: int): (r: State)
    ensures r.index == i && r.playing == s.playing
    ensures Extends(r.commands, s.commands)
    ensures r.commands == s.commands + (if InCatalog(i, n) then [Load(i)] else [])
    ensures FlagMatchesLog(s) ==> FlagMatchesLog(r)
  {
    if InCatalog(i, n) then
      LastTransportAfterLoad(s.commands, i);
      s.(index := i, commands := s.commands + [Load(i)])
    else
      s.(index := i)
  }

  function PlayState(s: State): (r: State)
    ensures r.playing && r.index == s.index && r.commands == s.commands + [Play]
    ensures FlagMatchesLog(r)
  {
    s.(playing := true, commands := s.commands + [Play])
  }

  function PauseState(s: State): (r: State)
    ensures !r.playing && r.index == s.index && r.commands == s.commands + [Pause]
    ensures FlagMatchesLog(r)
  {
    s.(playing := false, commands := s.commands + [Pause])
  }

  /** `togglePlayPause`: pause when playing, play when paused. */
  function ToggleState(s: State): (r: State)
    ensures r.playing == !s.playing && r.index == s.index
    ensures r.commands == s.commands + [if s.playing then Pause else Play]
    ensures FlagMatchesLog(r)
  {
    if s.playing then PauseState(s) else PlayState(s)
  }

  /** Whether `playTrack(i)` returns normally: either nothing is loaded, or
      the load succeeds. */
  predicate PlayTrackOk(s: State, n: nat, i: int) {
    i == s.index || InCatalog(i, n)
  }

  /** `playTrack(i)`: load only when the index changes, then play; a load
      that throws skips the play. */
  function PlayTrackState(s: State, n: nat, i: int): (r: State)
    ensures r.index == i
    ensures Extends(r.commands, s.commands)
    ensures PlayTrackOk(s, n, i) ==>
      r.playing && r.commands == s.commands + (if i == s.index then [Play] else [Load(i), Play])
    ensures !PlayTrackOk(s, n, i) ==> r == s.(index := i)
    ensures FlagMatchesLog(s) ==> FlagMatchesLog(r)
  {
    if i == s.index then PlayState(s)
    else if InCatalog(i, n) then PlayState(LoadTrackState(s, n, i))
    else LoadTrackState(s, n, i)
  }

  /** `nextTrack`: `playTrack` of the next index. */
  function NextTrackState(s: State, n: nat): (r: State)
    ensures r.index == NextIndex(s.index, n)
    ensures Extends(r.commands, s.commands)
    ensures FlagMatchesLog(s) ==> FlagMatchesLog(r)
  {
    PlayTrackState(s, n, NextIndex(s.index, n))
  }

  /** `previousTrack`: `playTrack` of the previous index. */
  function PreviousTrackState(s: State, n: nat): (r: State)
    ensures r.index == PreviousIndex(s.index, n)
    ensures Extends(r.commands, s.commands)
    ensures FlagMatchesLog(s) ==> FlagMatchesLog(r)
  {
    PlayTrackState(s, n, PreviousIndex(s.index, n))
  }

  /** The state after construction and `init`: index 0, paused, and track 0
      loaded when the catalog has one. */
  function InitState(n: nat): (r: State)
    ensures FlagMatchesLog(r)
  {
    if n > 0 then LoadTrackState(State(0, false, []), n, 0) else State(0, false, [])
  }

  /** The state after `k` "playback ended" notifications, each of which calls
      `nextTrack`. */
  function Advance(s: State, n: nat, k: nat): (r: State)
    ensures Extends(r.commands, s.commands)
    ensures FlagMatchesLog(s) ==> FlagMatchesLog(r)
  {
    if k == 0 then s else NextTrackState(Advance(s, n, k - 1), n)
  }

  // ---- Properties of the transport ----

  /** From the last track `nextTrack` wraps to the first; from the first
      track `previousTrack` wraps to the last. */
  lemma WrapAround(n: nat)
    requires n >= 1
    ensures NextIndex(n - 1, n) == 0
    ensures PreviousIndex(0, n) == n - 1
  {
  }

  /** Moving forward and then back, or back and then forward, returns to
      the same track. */
  lemma NextPreviousInverse(i: int, n: nat)
    requires InCatalog(i, n)
    ensures PreviousIndex(NextIndex(i, n), n) == i
    ensures NextIndex(PreviousIndex(i, n), n) == i
  {
  }

  /** With the current index in the catalog, both navigation operations
      complete, keep the index in the catalog and leave the player playing. */
  lemma NavigationKeepsRange(s: State, n: nat)
    requires InCatalog(s.index, n)
    ensures PlayTrackOk(s, n, NextIndex(s.index, n))
    ensures InCatalog(NextTrackState(s, n).index, n) && NextTrackState(s, n).playing
    ensures NextTrackState(s, n).index == (s.index + 1) % n
    ensures PlayTrackOk(s, n, PreviousIndex(s.index, n))
    ensures InCatalog(PreviousTrackState(s, n).index, n) && PreviousTrackState(s, n).playing
    ensures PreviousTrackState(s, n).index == (s.index + n - 1) % n
  {
  }

  /** `playTrack(i)` on a track of the catalog: only a play when `i` is the
      current track, otherwise a load of `i` followed by a play; either way
      `i` becomes current and the player is playing. */
  lemma PlayTrackCommands(s: State, n: nat, i: int)
    requires InCatalog(i, n)
    ensures PlayTrackOk(s, n, i)
    ensures PlayTrackState(s, n, i).index == i && PlayTrackState(s, n, i).playing
    ensures i == s.index ==> PlayTrackState(s, n, i).commands == s.commands + [Play]
    ensures i != s.index ==> PlayTrackState(s, n, i).commands == s.commands + [Load(i), Play]
  {
  }

  /** `loadTrack(i)` makes `i` current, keeps the playing flag and sends
      neither play nor pause. */
  lemma LoadTrackSendsNoTransport(s: State, n: nat, i: int)
    ensures LoadTrackState(s, n, i).index == i
    ensures LoadTrackState(s, n, i).playing == s.playing
    ensures var c := LoadTrackState(s, n, i).commands;
      |c| >= |s.commands| && c[..|s.commands|] == s.commands
      && Play !in c[|s.commands|..] && Pause !in c[|s.commands|..]
  {
  }

  /** Toggling flips the playing flag; two toggles restore it and leave the
      index alone, having sent a pause and a play in the order the first
      state calls for. */
  lemma ToggleTwice(s: State)
    ensures ToggleState(s).playing == !s.playing
    ensures ToggleState(ToggleState(s)).playing == s.playing
    ensures ToggleState(ToggleState(s)).index == s.index
    ensures ToggleState(ToggleState(s)).commands
      == s.commands + (if s.playing then [Pause, Play] else [Play, Pause])
  {
  }

  /** After `init` the player is at track 0 and paused, and has sent no play;
      it has loaded track 0 exactly when the catalog is not empty. */
  lemma InitStartsPaused(n: nat)
    ensures InitState(n).index == 0 && !InitState(n).playing
    ensures Play !in InitState(n).commands
    ensures InitState(n).commands == if n > 0 then [Load(0)] else []
  {
  }

  /** With an empty catalog the index only ever takes the values 0 and -1.
      From 0, `previousTrack` moves the index to -1 and then throws, and
      `nextTrack` sends a play with no source loaded. From -1, the reverse:
      `previousTrack` computes -1, the current index, so it only plays, and
      `nextTrack` moves the index to 0 and then throws. */
  lemma EmptyCatalogNavigation(s: State)
    requires s.index == 0 || s.index == -1
    ensures s.index == 0 ==>
      !PlayTrackOk(s, 0, PreviousIndex(s.index, 0))
      && PreviousTrackState(s, 0) == s.(index := -1)
      && PlayTrackOk(s, 0, NextIndex(s.index, 0))
      && NextTrackState(s, 0) == PlayState(s)
    ensures s.index == -1 ==>
      PlayTrackOk(s, 0, PreviousIndex(s.index, 0))
      && PreviousTrackState(s, 0) == PlayState(s)
      && !PlayTrackOk(s, 0, NextIndex(s.index, 0))
      && NextTrackState(s, 0) == s.(index := 0)
    ensures PreviousTrackState(s, 0).index in {0, -1}
    ensures NextTrackState(s, 0).index in {0, -1}
  {
  }

  /** Helper for `DivModUnique`: a positive multiple of `n` is at least `n`. */
  lemma MultipleAtLeast(d: int, n: nat)
    requires d >= 1
    ensures d * n >= n
  {
  }

  /** Euclidean division is unique: a quotient and a remainder below `n`
      that rebuild `x` are `x / n` and `x % n`. */
  lemma DivModUnique(x: int, q: int, r: int, n: nat)
    requires n > 0 && 0 <= r < n && x == q * n + r
    ensures x / n == q && x % n == r
  {
    var q', r' := x / n, x % n;
    assert (q - q') * n == r' - r;
    if q > q' {
      MultipleAtLeast(q - q', n);
      assert false;
    } else if q < q' {
      MultipleAtLeast(q' - q, n);
      assert false;
    }
  }

  /** Stepping a remainder by one agrees with stepping the number. */
  lemma ModStep(a: int, n: nat)
    requires n > 0
    ensures (a % n + 1) % n == (a + 1) % n
  {
    var q, r := a / n, a % n;
    assert a == q * n + r && 0 <= r < n;
    if r + 1 < n {
      assert a + 1 == q * n + (r + 1);
      DivModUnique(a + 1, q, r + 1, n);
      DivModUnique(r + 1, 0, r + 1, n);
    } else {
      assert a + 1 == (q + 1) * n + 0;
      DivModUnique(a + 1, q + 1, 0, n);
      DivModUnique(r + 1, 1, 0, n);
    }
  }

  /** The track reached after `m` steps from `i` is in the catalog, and one
      step more from it reaches (i + k) mod n, for `k == m + 1`. */
  lemma ModStepAfter(i: int, m: nat, k: nat, n: nat, j: int)
    requires n > 0 && k == m + 1 && j == (i + m) % n
    ensures InCatalog(j, n)
    ensures (j + 1) % n == (i + k) % n
  {
    ModStep(i + m, n);
    assert i + m + 1 == i + k;
  }

  /** After `k` "ended" notifications from track `i`, track `(i + k) mod n`
      is current. */
  lemma {:induction false} AdvanceIndex(s: State, n: nat, k: nat)
    requires InCatalog(s.index, n)
    ensures Advance(s, n, k).index == (s.index + k) % n
    decreases k, 1
  {
    if k == 0 {
      DivModUnique(s.index, 0, s.index, n);
    } else {
      AdvanceStep(s, n, k);
    }
  }

  /** Auto-advance loops through the catalog: after `k` "ended"
      notifications from track `i`, track `(i + k) mod n` is current, every
      step has completed, and the player is playing (for `k > 0`). After `n`
      of them the starting track is current again. */
  lemma AdvanceLoops(s: State, n: nat, k: nat)
    requires InCatalog(s.index, n)
    ensures Advance(s, n, k).index == (s.index + k) % n
    ensures Advance(s, n, k).playing == (k > 0 || s.playing)
    ensures Advance(s, n, n).index == s.index
  {
    AdvanceIndex(s, n, k);
    AdvancePlaying(s, n, k);
    AdvanceCycle(s, n);
  }

  /** After at least one "ended" notification the player is playing. */
  lemma AdvancePlaying(s: State, n: nat, k: nat)
    requires InCatalog(s.index, n)
    ensures Advance(s, n, k).playing == (k > 0 || s.playing)
  {
    if k > 0 {
      AdvanceStep(s, n, k);
    }
  }

  /** After `n` "ended" notifications the starting track is current again. */
  lemma AdvanceCycle(s: State, n: nat)
    requires InCatalog(s.index, n)
    ensures Advance(s, n, n).index == s.index
  {
    FullCycle(s.index, n);
    AdvanceIndex(s, n, n);
  }

  /** Going round the whole catalog comes back to the same track. */
  lemma FullCycle(i: int, n: nat)
    requires InCatalog(i, n)
    ensures (i + n) % n == i
  {
    DivModUnique(i + n, 1, i, n);
  }

  /** The `k`-th "ended" notification moves from track (i + k - 1) mod n to
      track (i + k) mod n and leaves the player playing. */
  lemma {:induction false} AdvanceStep(s: State, n: nat, k: nat)
    requires InCatalog(s.index, n) && k > 0
    ensures Advance(s, n, k).index == (s.index + k) % n
    ensures Advance(s, n, k).playing
    decreases k, 0
  {
    var m: nat := k - 1;
    AdvanceIndex(s, n, m);
    StepFrom(s, n, m, k);
  }

  /** One more notification from the track reached after `m` of them. */
  lemma StepFrom(s: State, n: nat, m: nat, k: nat)
    requires InCatalog(s.index, n) && k == m + 1
    requires Advance(s, n, m).index == (s.index + m) % n
    ensures Advance(s, n, k).index == (s.index + k) % n
    ensures Advance(s, n, k).playing
  {
    var t := Advance(s, n, m);
    ModStepAfter(s.index, m, k, n, t.index);
    NextFromCatalog(t, n);
    AdvanceUnfold(s, n, m, k);
  }

  /** `nextTrack` from a track of the catalog completes: it moves one track
      on, wrapping round, and leaves the player playing. */
  lemma NextFromCatalog(t: State, n: nat)
    requires InCatalog(t.index, n)
    ensures NextTrackState(t, n).index == (t.index + 1) % n
    ensures NextTrackState(t, n).playing
  {
    assert PlayTrackOk(t, n, NextIndex(t.index, n));
  }

  /** One more notification is one more `nextTrack`. */
  lemma AdvanceUnfold(s: State, n: nat, m: nat, k: nat)
    requires k == m + 1
    ensures Advance(s, n, k) == NextTrackState(Advance(s, n, m), n)
  {
  }

  // ---- The player object ----

  class AudioPlayer {
    /** The length of the catalog, fixed once `init` has fetched it (zero
        when the fetch failed). */
    const trackCount: nat
    var currentTrackIndex: int
    var isPlaying: bool
    /** Every command sent to the media element so far, oldest first. */
    var commands: seq<Command>

    function Snapshot(): State
      reads this
    {
      State(currentTrackIndex, isPlaying, commands)
    }

    /** The object invariant: `isPlaying` reflects the last play or pause
        sent to the media element. */
    predicate Valid()
      reads this
    {
      FlagMatchesLog(Snapshot())
    }

    /** The constructor followed by `init` once the catalog is known. */
    constructor (trackCount: nat)
      ensures this.trackCount == trackCount
      ensures Valid() && Snapshot() == InitState(trackCount)
      ensures currentTrackIndex == 0 && !isPlaying
    {
      this.trackCount := trackCount;
      currentTrackIndex := 0;
      isPlaying := false;
      commands := [];
      new;
      if trackCount > 0 {
        var _ := LoadTrack(0);
      }
    }

    /** Returns false when the track does not exist and the source throws
        after having set the index. */
    method LoadTrack(index: int) returns (ok: bool)
      requires Valid()
      modifies this
      ensures Valid()
      ensures ok == InCatalog(index, trackCount)
      ensures Snapshot() == LoadTrackState(old(Snapshot()), trackCount, index)
      ensures currentTrackIndex == index && isPlaying == old(isPlaying)
    {
      currentTrackIndex := index;
      if !InCatalog(index, trackCount) {
        return false;
      }
      commands := commands + [Load(index)];
      ok := true;
    }

    method PlayTrack(index: int) returns (ok: bool)
      requires Valid()
      modifies this
      ensures Valid()
      ensures ok == PlayTrackOk(old(Snapshot()), trackCount, index)
      ensures Snapshot() == PlayTrackState(old(Snapshot()), trackCount, index)
      ensures InCatalog(index, trackCount) ==>
        ok && currentTrackIndex == index && isPlaying
        && commands == old(commands) + (if index == old(currentTrackIndex) then [Command.Play] else [Load(index), Command.Play])
    {
      ok := true;
      if index != currentTrackIndex {
        ok := LoadTrack(index);
      }
      if ok {
        Play();
      }
    }

    method TogglePlayPause()
      requires Valid()
      modifies this
      ensures Valid()
      ensures Snapshot() == ToggleState(old(Snapshot()))
      ensures isPlaying == !old(isPlaying) && currentTrackIndex == old(currentTrackIndex)
    {
      if isPlaying {
        Pause();
      } else {
        Play();
      }
    }

    method Play()
      requires Valid()
      modifies this
      ensures Valid()
      ensures Snapshot() == PlayState(old(Snapshot()))
    {
      isPlaying := true;
      commands := commands + [Command.Play];
    }

    method Pause()
      requires Valid()
      modifies this
      ensures Valid()
      ensures Snapshot() == PauseState(old(Snapshot()))
    {
      isPlaying := false;
      commands := commands + [Command.Pause];
    }

    method PreviousTrack() returns (ok: bool)
      requires Valid()
      modifies this
      ensures Valid()
      ensures ok == PlayTrackOk(old(Snapshot()), trackCount, PreviousIndex(old(currentTrackIndex), trackCount))
      ensures Snapshot() == PreviousTrackState(old(Snapshot()), trackCount)
      ensures InCatalog(old(currentTrackIndex), trackCount) ==>
        ok && InCatalog(currentTrackIndex, trackCount) && isPlaying
        && currentTrackIndex == (old(currentTrackIndex) + trackCount - 1) % trackCount
    {
      var prevIndex := if currentTrackIndex > 0 then currentTrackIndex - 1 else trackCount - 1;
      ok := PlayTrack(prevIndex);
      if InCatalog(old(currentTrackIndex), trackCount) {
        NavigationKeepsRange(old(Snapshot()), trackCount);
      }
    }

    method NextTrack() returns (ok: bool)
      requires Valid()
      modifies this
      ensures Valid()
      ensures ok == PlayTrackOk(old(Snapshot()), trackCount, NextIndex(old(currentTrackIndex), trackCount))
      ensures Snapshot() == NextTrackState(old(Snapshot()), trackCount)
      ensures InCatalog(old(currentTrackIndex), trackCount) ==>
        ok && InCatalog(currentTrackIndex, trackCount) && isPlaying
        && currentTrackIndex == (old(currentTrackIndex) + 1) % trackCount
    {
      var nextIndex := if currentTrackIndex < trackCount - 1 then currentTrackIndex + 1 else 0;
      ok := PlayTrack(nextIndex);
      if InCatalog(old(currentTrackIndex), trackCount) {
        NavigationKeepsRange(old(Snapshot()), trackCount);
      }
    }
  }
}
