# MusicApp audio player — transport and time formatter

This project models the core of the MusicApp playlist player (`script.js`, class `AudioPlayer`):

- the **transport state machine**, made of the current track index, the Playing/Paused flag and the commands the player sends to its media element (set the source to a track, play, pause);
- the **time formatter**, which writes a whole number of seconds as `M:SS`.

The catalog is known only by its length. The class gets it as the constructor argument `trackCount`, which stands for the catalog that `init` fetched. A failed fetch gives 0. DOM writes (titles, artist, cover image, button icon, total-time text) are not modelled. Setting the media element's source is recorded as `Load(i)`. Calling its `play()` or `pause()` is recorded as `Play` or `Pause`.

`audio_player.dfy` (module `Player`) has two layers:

- pure transition functions over a `State` value (`LoadTrackState`, `PlayTrackState`, `ToggleState`, `NextTrackState`, …), with lemmas stating the transport's properties;
- the class `AudioPlayer`, whose methods update `currentTrackIndex`, `isPlaying` and `commands` in place. Each method is proved to produce the state its transition function gives.

`format_time.dfy` (module `TimeFormat`) defines `FormatTime` from models of `Number.prototype.toString` (`Decimal`) and `String.prototype.padStart` (`PadStart`). It also defines an independent reader, `ParseTime`, which accepts leading zeros in the minutes. The lemmas prove that `ParseTime` undoes `FormatTime` for every number, and that `FormatTime` undoes `ParseTime` on every well-formed text (`IsTimeText`: minutes without a leading zero).

The player keeps one invariant, `FlagMatchesLog`: `isPlaying` is true exactly when the last play or pause sent to the media element was a play. It is false when neither has been sent. Every transition function preserves it, and the class keeps it as `Valid()`.

Behaviour of the code outside a well-formed catalog index:

- `loadTrack` has no guard for an index outside the catalog. It reads `this.tracks[index]`, which gives `undefined` (`script.js:65`), sets `currentTrackIndex` (`script.js:66`), and then throws a `TypeError` when it reads the track's title (`script.js:67`). No source is set, and `playTrack` never reaches its `play()`. The model's methods return `ok == false` in that case.
- `previousTrack` on an empty catalog produces index −1. From index 0 it loads −1 and throws, leaving the index at −1. From −1 it computes −1 again, which is the current index, so nothing is loaded and `play()` is issued.
- `nextTrack` on an empty catalog always computes index 0. From index 0 nothing is loaded, but `play()` is issued and the flag becomes Playing. From −1 it loads 0 and throws, leaving the index at 0.
- `EmptyCatalogNavigation` states all four cases. It also states that the index stays in {0, −1}.

## Model

| member | source | states |
|---|---|---|
| `Player.NextIndex` | script.js:101 | for an index in the catalog the next index is in the catalog and equals (i + 1) mod n, so it wraps from the last track to 0 |
| `Player.PreviousIndex` | script.js:96 | for an index in the catalog the previous index is in the catalog and equals (i + n − 1) mod n, so it wraps from 0 to the last track |
| `Player.LoadTrackState` | script.js:64-72 | loadTrack(i) sets the index to i, keeps the flag, appends Load(i) exactly when i is in the catalog and nothing otherwise, and keeps the flag/log invariant |
| `Player.PlayState` | script.js:83-87 | play sets the flag, appends Play, keeps the index, and leaves the flag matching the log |
| `Player.PauseState` | script.js:89-93 | pause clears the flag, appends Pause, keeps the index, and leaves the flag matching the log |
| `Player.ToggleState` | script.js:79-81 | toggling flips the flag, keeps the index, appends Pause when Playing and Play when Paused, and leaves the flag matching the log |
| `Player.PlayTrackState` | script.js:74-77 | playTrack(i) makes i current; when it completes, the flag is Playing and the log gains Play (i current) or Load(i),Play (otherwise); when the load throws, only the index changes; the log only grows and the invariant is kept |
| `Player.NextTrackState` | script.js:100-103 | nextTrack makes NextIndex current, only appends to the log, and keeps the invariant |
| `Player.PreviousTrackState` | script.js:95-98 | previousTrack makes PreviousIndex current, only appends to the log, and keeps the invariant |
| `Player.InitState` | script.js:17-29 | the state after init satisfies the flag/log invariant |
| `Player.Advance` | script.js:140 | k "ended" notifications only append to the log and keep the flag/log invariant |
| `Player.WrapAround` | script.js:95-103 | next from index n − 1 is 0; previous from index 0 is n − 1 |
| `Player.NextPreviousInverse` | script.js:95-103 | previous undoes next and next undoes previous on every index of the catalog |
| `Player.NavigationKeepsRange` | script.js:95-103 | from an index in a non-empty catalog, nextTrack and previousTrack complete without throwing, keep the index in range and leave the player Playing |
| `Player.PlayTrackCommands` | script.js:74-77 | playTrack(i) on a catalog track issues only Play when i is current, and Load(i) then Play otherwise; afterwards i is current and the player is Playing |
| `Player.LoadTrackSendsNoTransport` | script.js:64-72 | loadTrack(i) makes i current, keeps the Playing/Paused flag and issues neither play nor pause |
| `Player.ToggleTwice` | script.js:79-93 | toggling flips the flag; two toggles restore flag and index, having issued Pause,Play or Play,Pause |
| `Player.InitStartsPaused` | script.js:17-29 | after init the player is at index 0 and Paused, has issued no play, and has loaded track 0 exactly when the catalog is non-empty |
| `Player.EmptyCatalogNavigation` | script.js:64-103 | with an empty catalog: from index 0, previousTrack sets the index to −1 and throws before any command, and nextTrack issues a play with nothing loaded; from index −1, previousTrack only plays, and nextTrack sets the index to 0 and throws; the index stays in {0, −1} |
| `Player.AdvanceLoops` | script.js:140 | after k "ended" notifications from track i, track (i + k) mod n is current and, for k > 0, the player is Playing (for k = 0 the flag is unchanged); after n of them the starting track is current again |
| `Player.AudioPlayer.constructor` | script.js:17-29 | the new player satisfies the invariant and is in the init state: index 0, Paused, track 0 loaded only for a non-empty catalog |
| `Player.AudioPlayer.LoadTrack` | script.js:64-72 | sets the index to the argument, keeps the flag, loads the track and succeeds exactly when it is in the catalog |
| `Player.AudioPlayer.PlayTrack` | script.js:74-77 | keeps the invariant; for a catalog track the track becomes current, the flag is Playing and the log gains Play or Load(i),Play; for any index the new state is PlayTrackState (an index equal to the current one only plays, a different one outside the catalog is set and then throws, without a play) |
| `Player.AudioPlayer.TogglePlayPause` | script.js:79-81 | flips the Playing/Paused flag by issuing pause when Playing and play when Paused; the index is unchanged |
| `Player.AudioPlayer.Play` | script.js:83-87 | sets the flag to Playing and appends Play to the command log |
| `Player.AudioPlayer.Pause` | script.js:89-93 | sets the flag to Paused and appends Pause to the command log |
| `Player.AudioPlayer.PreviousTrack` | script.js:95-98 | moves to (i + n − 1) mod n and is Playing when the index was in range; in general the new state is PreviousTrackState |
| `Player.AudioPlayer.NextTrack` | script.js:100-103 | moves to (i + 1) mod n and is Playing when the index was in range; in general the new state is NextTrackState |
| `TimeFormat.Decimal` | script.js:129 | the numeral of a natural is non-empty, all digits, starts with '0' only for zero, has one digit exactly below 10 |
| `TimeFormat.PadStart` | script.js:129 | the result is at least `width` long, ends with the input, and is filled with the fill character before it |
| `TimeFormat.FormatTime` | script.js:126-130 | the rendering has at least four characters with the colon third from the end |
| `TimeFormat.ValueOfDecimal` | script.js:127-129 | the numeral of n reads back as n |
| `TimeFormat.DecimalOfValue` | script.js:127-129 | every canonical numeral is the numeral of its value |
| `TimeFormat.FormatTimeFields` | script.js:126-130 | the minutes field is the canonical numeral of floor(s / 60); the seconds field is exactly two digits with value s mod 60 |
| `TimeFormat.ParseFormatTime` | script.js:126-130 | the rendering is a well-formed M:SS text and reads back as s |
| `TimeFormat.FormatParseTime` | script.js:126-130 | every well-formed M:SS text is the rendering of the number it reads as |
| `TimeFormat.FormatTimeInjective` | script.js:126-130 | distinct numbers of seconds never render alike |
| `TimeFormat.FormatTimeExamples` | script.js:126-130 | 0, 59, 60, 61, 3599 and 3600 seconds render as 0:00, 0:59, 1:00, 1:01, 59:59 and 60:00 |

## Left out

- `loadBeats` (script.js:35-62): the fetch of `beats.json`, JSON parsing and card rendering are I/O and DOM. Only the resulting catalog length enters the model, as the constructor argument, and a failed fetch is length 0.
- `seekTo`, `setVolume`, `updateProgress`, `updateDuration` (script.js:105-124): floating-point arithmetic on the media element's `duration` and `currentTime`, and DOM writes. Setting the initial volume to 0.7 in `init` is left out for the same reason.
- `setupEventListeners` and the `DOMContentLoaded` hook (script.js:132-144): event wiring. Each listener is a direct call of the matching method; `AdvanceLoops` covers the "ended" listener.
- Track display fields and the total-time text written by `loadTrack` are DOM writes. They are not modelled.
- The promise returned by the media element's `play()` and its possible rejection: the model records only that play was issued.
- The asynchronous order of the constructor and `init`: the model's constructor performs both, with the catalog already fetched.
- `TimeFormat.FormatTime`: does not model non-integer, negative or NaN seconds. It treats seconds as unbounded naturals, while JavaScript numbers lose integer precision above 2^53 and `toString` switches to exponent notation from 10^21.
