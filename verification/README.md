# MediaPlayer: the player screen and its path resolver, in Dafny

This project models the core of a small Android media-player screen
(`MainActivity`) and its helper that turns a picked URI into a file path
(`FileUtils`), and proves properties of the model with Dafny 4.11.

- `wrappers.dfy` (`Wrappers`): `Option` for Java's nullable references, `Outcome` for a call that returns or ends in an uncaught exception.
- `javaint.dfy` (`JavaInt`): Java `int` as a subset type, its wrap-around, and Java's truncating `/` and sign-keeping `%`.
- `transport.dfy` (`Transport`): the pure helpers of the screen. These are the `MM:SS` time label (`formatTime`), the clamped skip target (`seekRelative`), and the case-sensitive `.mp4` / `.mkv` test that decides whether a display surface is attached.
- `session.dfy` (`Session`): the screen as a state machine over events. The events are picker results, the decoder's prepared and completed callbacks, the play/pause and skip buttons, seek-bar poll ticks, and `onDestroy`. The decoder is an abstract record (`playing`, `position`, `duration`, plus an id and whether preparation is pending). Queued poll ticks are a count, because the handler queues one message per `postDelayed` call and `removeCallbacks` drops all of them.
- `fileutils.dfy` (`FileUtils`): `getPathFromUri` as a decision tree over oracle inputs. The oracles are the content queries, the stream bytes and read sizes, an I/O-fault point and the cache directory. `copyFileToCache` is an imperative loop over 4096-byte reads, and `getFileName` is modelled with its fallback.

The model follows the code as written, including in these places:
- A content row's DATA value is returned as-is, even when it is null or empty. No media-index authority is checked.
- `togglePlayPause` starts a decoder that is still preparing. Transport operations are not dropped before the decoder is ready.
- An unchecked exception in the resolver is not converted into an error. This covers a null scheme in `getFileName` and a null file name passed to `new File`. Such a call is modelled as `Crashed`.

Observations the proofs make explicit:
- Pausing and resuming within one poll period queues a second poll tick (`Session.PauseResumeAddsPollingChain`). Every tick re-queues itself while playing, so both chains keep running until playback stops or the decoder is released.
- `position + delta` in `seekRelative` is a 32-bit sum. From any position within 10 s of the largest `int`, a forward skip wraps and seeks to 0, whatever the duration (`Transport.SkipForwardWrapsNearIntMax`).
- If the copy fails part-way, the cache file is left behind holding a prefix of the source bytes (`FileUtils.GetPathFromUri`).

## Model

| member | source | states |
|---|---|---|
| `JavaInt.Wrap` | app/src/main/java/com/utkarsh/mediaplayer/MainActivity.java:180 | the `int` sum equals the true sum when it fits, and differs from it by a multiple of 2^32 otherwise |
| `JavaInt.Rem` | app/src/main/java/com/utkarsh/mediaplayer/MainActivity.java:152-153 | Java's `%` satisfies the division identity with the truncated quotient; the remainder lies in [0, b) for non-negative dividends and (-b, 0] for negative ones |
| `Transport.ClockFieldsWithinHour` | app/src/main/java/com/utkarsh/mediaplayer/MainActivity.java:151-155 | for ms >= 0, minutes and seconds both lie in [0, 59], and minutes*60 + seconds is the number of whole seconds elapsed within the current hour |
| `Transport.FormatTimeReadsBack` | app/src/main/java/com/utkarsh/mediaplayer/MainActivity.java:151-155 | for ms >= 0 the label has exactly 5 characters: two zero-padded digits, ':', two zero-padded digits; read back, it gives the minutes mod 60 and seconds mod 60 of the input |
| `Transport.FormatTimeDropsHours` | app/src/main/java/com/utkarsh/mediaplayer/MainActivity.java:153 | adding one hour to a non-negative time leaves the label unchanged, so hours are discarded |
| `Transport.NegativeFieldsMirror` | app/src/main/java/com/utkarsh/mediaplayer/MainActivity.java:152-153 | for negative input each field is the negation of the field for the magnitude (truncating division), and anything above -1000 ms shows 00:00 |
| `Transport.TwoDigitsOf` | app/src/main/java/com/utkarsh/mediaplayer/MainActivity.java:154 | `%02d` of a value in [0, 99] is two decimal digits whose value is that number |
| `Transport.SeekTarget` | app/src/main/java/com/utkarsh/mediaplayer/MainActivity.java:178-183 | the skip target is never negative; it is at most the duration when the duration is non-negative, and 0 when the duration is negative |
| `Transport.SeekIsNearest` | app/src/main/java/com/utkarsh/mediaplayer/MainActivity.java:180-181 | without overflow, the target is the point of [0, duration] nearest to position + delta; an in-range sum is kept unchanged |
| `Transport.SkipExamples` | app/src/main/java/com/utkarsh/mediaplayer/MainActivity.java:103-106 | back 10 s from 5 s of a 60 s file gives 0, and forward 10 s from 55 s gives 60 s |
| `Transport.SkipForwardWrapsNearIntMax` | app/src/main/java/com/utkarsh/mediaplayer/MainActivity.java:180 | from every position within 10 s of the largest `int`, the 10 s forward sum wraps to a negative value and the seek goes to 0, whatever the duration |
| `Transport.EndsWithIffConcat` | app/src/main/java/com/utkarsh/mediaplayer/MainActivity.java:76 | a string ends with a suffix exactly when it is some string followed by that suffix |
| `Transport.VideoPathsAreExactlyTheTwoSuffixes` | app/src/main/java/com/utkarsh/mediaplayer/MainActivity.java:76-78 | a path gets a display exactly when it is a string followed by ".mp4" or ".mkv"; the test is case-sensitive, so "clip.MP4" gets none |
| `Session.Release` | app/src/main/java/com/utkarsh/mediaplayer/MainActivity.java:198-204 | afterwards there is no decoder; if there was one, it is no longer live and no poll tick is queued; with no decoder nothing changes |
| `Session.PlayMedia` | app/src/main/java/com/utkarsh/mediaplayer/MainActivity.java:70-96 | the old decoder is released before a fresh one is created, so the new one is the only live decoder and inherits no queued poll tick; the new decoder is not playing, at position 0 with no duration yet; a display is attached exactly for a video path that loaded; preparation is pending exactly when loading did not fail; the current path is untouched |
| `Session.OnActivityResult` | app/src/main/java/com/utkarsh/mediaplayer/MainActivity.java:56-68 | nothing changes unless the request code, OK result and data all match; in that case the resolved path is stored, even null; a new decoder is created exactly when all three match and the path is non-null |
| `Session.OnPrepared` | app/src/main/java/com/utkarsh/mediaplayer/MainActivity.java:81-85 | a decoder that is preparing becomes the same decoder, now playing, no longer preparing and with the reported duration, and one poll tick is queued; live decoders and the current path are untouched; any other state is unchanged |
| `Session.OnCompleted` | app/src/main/java/com/utkarsh/mediaplayer/MainActivity.java:87-90 | the same decoder stops playing with every other field kept; queued ticks, live decoders and the current path are untouched |
| `Session.Toggle` | app/src/main/java/com/utkarsh/mediaplayer/MainActivity.java:157-167 | with no decoder nothing changes; otherwise the same decoder has its playing flag flipped and nothing else; pausing leaves the tick queue unchanged, starting queues one more poll tick |
| `Session.Seek` | app/src/main/java/com/utkarsh/mediaplayer/MainActivity.java:178-183 | with no decoder nothing changes; otherwise only the position changes, to exactly the skip target of `Transport.SeekTarget`, so >= 0 and <= a non-negative duration; ticks, live decoders and the current path are untouched |
| `Session.Tick` | app/src/main/java/com/utkarsh/mediaplayer/MainActivity.java:130-139 | a queued tick is consumed and re-queued only while a decoder exists and is playing, so otherwise the queue shrinks by one; with nothing queued nothing runs |
| `Session.OnDestroy` | app/src/main/java/com/utkarsh/mediaplayer/MainActivity.java:210-215 | from any state: no decoder and no queued tick afterwards, and, under the invariant, no live decoder |
| `Session.RunKeepsInv` | app/src/main/java/com/utkarsh/mediaplayer/MainActivity.java:56-215 | after any sequence of events, at most one decoder is live, it is the current one, and no tick is queued without a decoder |
| `Session.StepKeepsInv` | app/src/main/java/com/utkarsh/mediaplayer/MainActivity.java:56-215 | each single event preserves that invariant |
| `Session.SwitchBeforeReady` | app/src/main/java/com/utkarsh/mediaplayer/MainActivity.java:72-73 | picking file B while file A is still preparing leaves only B's decoder live |
| `Session.NoTickAfterDestroy` | app/src/main/java/com/utkarsh/mediaplayer/MainActivity.java:213-214 | a poll tick after onDestroy finds nothing queued and changes nothing |
| `Session.PauseResumeAddsPollingChain` | app/src/main/java/com/utkarsh/mediaplayer/MainActivity.java:159-164 | pause followed by resume returns the decoder to playing with one more tick queued, and a tick then keeps the queue length |
| `FileUtils.FileName` | app/src/main/java/com/utkarsh/mediaplayer/FileUtils.java:60-74 | a null scheme throws; a non-null DISPLAY_NAME of a content URI's first row is the name; any other name returned is the URI's last path segment |
| `FileUtils.ReadCount` | app/src/main/java/com/utkarsh/mediaplayer/FileUtils.java:48 | a read returns -1 exactly at the end of the stream, and otherwise between 1 and 4096 bytes, never more than remain |
| `FileUtils.CopyStream` | app/src/main/java/com/utkarsh/mediaplayer/FileUtils.java:46-50 | the written bytes are always a prefix of the input and are the concatenation of the chunks read, each 1 to 4096 bytes; the copy succeeds exactly when no fault point is reached, and then the output equals the whole input |
| `FileUtils.CopyFileToCache` | app/src/main/java/com/utkarsh/mediaplayer/FileUtils.java:40-58 | a stream that cannot be opened, an unwritable cache file or an I/O error gives null, not an exception; a null file name crashes; with a file name, a writable cache file and no fault the result is the absolute path of the cache file, whose contents equal the source bytes |
| `FileUtils.GetPathFromUri` | app/src/main/java/com/utkarsh/mediaplayer/FileUtils.java:17-38 | a null URI gives null; a file URI gives its path with no query and no copy; a content URI with a first DATA row gives that value (even null) after one query and no copy; only the remaining cases open a stream or write a cache file, which always holds a prefix of the source and all of it when its path is returned; every non-null result is a file URI's path, a content row's DATA value, or the cache path for the file name after a complete copy, and the latter is returned whenever the copy completes |

## Left out

- Android UI: widgets, layout, button glyphs, toasts and the time-label text views. `updatePlayPauseButton`, `updateTimeText` and the seek-bar range are projections with no state of their own.
- The seek-bar drag listener (`onProgressChanged`, MainActivity.java:111-114) seeks to a progress value the widget bounds itself; it is not modelled.
- The surface callbacks, including the replay of the current path in `surfaceCreated`: this is host lifecycle plumbing.
- Decoding: the decoder is an abstract record. Its position does not advance on its own. Preparation timing, errors reported by the decoder, and calls in states the platform rejects are not modelled.
- Handler timing: the 1000 ms delays are real-time scheduling. Only the count of queued tick messages is kept.
- Session.OnActivityResult: takes the resolved path as an event field, the value `FileUtils.GetPathFromUri` returns. It does not call the resolver, so a resolver crash is not a transition of the screen.
- The content resolver, cursors, streams and the file system are oracle inputs. Nothing is proved about them.
- `getColumnIndexOrThrow` throwing for a missing DATA column, and a query throwing a security exception, are not modelled. These exceptions are unchecked and escape the resolver.
- FileUtils.FileName: a cursor without a DISPLAY_NAME column makes `getColumnIndex` return -1, and `getString(-1)` then throws (FileUtils.java:66). The model treats the name row as present or absent and does not crash there; it crashes only for a null scheme.
- FileUtils.CopyFileToCache: `openInputStream` returning null (the first `read` then throws a null-pointer exception) or throwing a security exception (FileUtils.java:41) is not modelled; the stream either opens or fails with a caught I/O error.
- Session.PlayMedia: `loadFails` stands only for the caught I/O error of `setDataSource` (MainActivity.java:74, 92). Its unchecked exceptions (illegal argument, security, illegal state) escape `playMedia` and are not modelled.
- FileUtils.CachePath: `new File(dir, name).getAbsolutePath()` is `dir + "/" + name` for an absolute `dir`. Path normalisation is not modelled.
- FileUtils.CopyStream: one fault point stands for every I/O error of the copy (read, write or flush). Write failures are not separated from read failures.
- Locale effects of `String.format`: the label uses ASCII digits and two-digit zero padding.
- Cache eviction, a media-index authority check and a non-empty-path check: the code has none of them.
