# Voice recorder with live waveform — Dafny model

This project models the logic of a mobile voice-recorder screen. The user
records clips, which are saved as files in a `recordings/` directory. The
screen lists them, and the user can rename and delete them. While a
recording is in progress, a live waveform shows up to 15 bars. Each bar is
derived from the latest loudness (metering) reading and a random jitter.

The model has four parts:

- `wrappers.dfy` (`Wrappers`): `Option`, standing for the source's `T | null`.
- `waveform.dfy` (`Waveform`): the bar-height formula, the sliding window of
  bars, and the `WaveformDisplay` class. The class holds the displayed
  heights, the timer's buffer and the recording flag. `Tick` is one firing of
  the sampling timer. `SetRecordingInProgress` is the effect that runs when
  the recording flag changes.
- `file_names.dfy` (`FileNames`): the string rules of the recordings screen.
  They cover the display name (file name without its extension), the
  extension the rename keeps, and the path a rename moves a file to.
- `recordings.dfy` (`Recordings`): the `Recording` entry, the list built from
  a directory listing, and the delete filter. It also holds the
  `RecorderScreen` class, with the list, the edit index and text, the
  latest-loudness cell, the recording flag and the last recorder uri.

Loudness and heights are exact `real`s. Every call into the file system or
the audio platform becomes a parameter carrying its outcome: a listing or
none, a moved uri or none, a move or delete that succeeded or not. The
`Math.random()` draw is a parameter `random` with `0 <= random < 1`.

Two facts of the code shape the model:

- The jitter `0.2 + random * 0.5` lies in [0.2, 0.7), so every height is
  strictly below 42.
- An entry appended by `stopRecording` is the moved `File` itself, so its
  name keeps the extension. Entries loaded from the directory have the
  extension stripped.

## Model

| member | source | states |
|---|---|---|
| `Waveform.Normalize` | components/WaveFormDisplay.tsx:19 | the normalised loudness lies in [0,1]; loudness ≤ −60 gives 0, loudness ≥ 0 gives 1, and in between it is (L+60)/60 |
| `Waveform.Variation` | components/WaveFormDisplay.tsx:20 | a uniform draw in [0,1) gives a jitter factor in [0.2, 0.7) |
| `Waveform.Height` | components/WaveFormDisplay.tsx:19-21 | every height lies in [0, 60·v], so below 42; loudness ≤ −60 gives 0 for any jitter; loudness ≥ 0 gives 60·v, which is in [12, 42) |
| `Waveform.Slide` | components/WaveFormDisplay.tsx:23-24 | push then shift: the result is the suffix of `old ++ [h]` of length min(max, \|old\|+1) when \|old\| ≤ max, so it ends with `h` and keeps the other bars in order |
| `Waveform.SlideWindow` | components/WaveFormDisplay.tsx:23-24 | one push/shift on the window of a history equals the window of the history extended by the new height |
| `Waveform.ReplayIsWindow` | components/WaveFormDisplay.tsx:16-26 | starting from an empty buffer, k appending ticks leave exactly the last min(15, k) heights, in order, and so min(15, k) bars |
| `Waveform.TwoBarEviction` | components/WaveFormDisplay.tsx:23-24 | with room for two bars, four ticks hold 1, 2, 2 and 2 bars; the third evicts the first height and the fourth evicts the second |
| `Waveform.TwentyTicks` | components/WaveFormDisplay.tsx:16-24 | twenty appending ticks leave exactly the heights of ticks 6 to 20 |
| `Waveform.WindowInBarRange` | components/WaveFormDisplay.tsx:19-26 | the displayed window of a session whose heights are in [0, 42) is itself in [0, 42) |
| `Waveform.WaveformDisplay.constructor` | components/WaveFormDisplay.tsx:4-16 | mounting starts with no bars and an empty buffer, whatever the recording flag |
| `Waveform.WaveformDisplay.SetRecordingInProgress` | components/WaveFormDisplay.tsx:9-31 | an unchanged flag changes nothing; stopping empties the displayed heights; starting empties them and starts over a fresh empty buffer, so no bar carries over from a prior session |
| `Waveform.WaveformDisplay.Tick` | components/WaveFormDisplay.tsx:17-27 | a null reading leaves heights and buffer unchanged; otherwise the new height is pushed and the oldest dropped past 15; afterwards the displayed heights equal the buffer, are the last min(15, k) heights of the session, and each lies in [0, 42) |
| `FileNames.LastIndexOf` | app/index.tsx:120 | gives the position of the last occurrence of a character, or none exactly when the character does not occur |
| `FileNames.ExtensionDot` | app/index.tsx:52 | the dot it finds is followed by one or more characters, none of them a dot or a slash; it finds none exactly when no such suffix exists |
| `FileNames.StripExtension` | app/index.tsx:52 | the display name is a prefix of the file name; exactly a final dot-and-extension suffix is removed; a name without one (no dot, a trailing dot, or a slash after the last dot) is unchanged |
| `FileNames.ExtensionOf` | app/index.tsx:52 | the stripped suffix exists exactly when the name has an extension, and the name is the display name plus "." plus it |
| `FileNames.StripAppended` | app/index.tsx:52 | adding a plain extension to a name and stripping it gives the name back |
| `FileNames.Split` | app/index.tsx:120 | `split` returns at least one part |
| `FileNames.SplitPartsAvoidSep` | app/index.tsx:120 | no part returned by `split` contains the separator |
| `FileNames.JoinSplit` | app/index.tsx:120 | joining the parts of `split` with the separator gives the string back |
| `FileNames.RenameExtension` | app/index.tsx:120 | the kept extension is a dot-free suffix of the name: the text after the last dot, or the whole name when it has no dot |
| `FileNames.RenameExtensionIsLastPart` | app/index.tsx:120 | the kept extension is exactly the last element of `name.split('.')` (what `pop()` returns) |
| `FileNames.RenamedPath` | app/index.tsx:119-122 | as written, the new path is dir + text + "." + the last dot-separated part of the shown name; when that part is a plain extension, the path's extension is exactly that part and stripping it gives dir + text |
| `FileNames.RenamedPathDropsExtension` | app/index.tsx:119-122 | as written, renaming an entry whose shown name was stripped from "base.ext" produces "dir + text + . + base", whose extension is the old base name, not ext |
| `FileNames.RenamedTakeBecomesMemoDotTake` | app/index.tsx:119-122 | the concrete instance: "take.m4a" is shown as "take", and renaming it to "memo" gives "recordings/memo.take" |
| `FileNames.KeptExtensionPath` | app/index.tsx:119-122 | the corrected rename path keeps the file's own extension and strips back to dir + text; a file without an extension gets none |
| `FileNames.FileName` | app/index.tsx:85-87 | a file's name is a slash-free suffix of its path; when the path has a slash, the character just before the name is a slash, so the name is the whole segment after the last slash; with no slash it is the whole path |
| `Recordings.DisplayEntries` | app/index.tsx:50-58 | the loaded list has one entry per listed file, in order, with the same uri and the name without its extension |
| `Recordings.WithoutUri` | app/index.tsx:203 | the filtered list is never longer than the list |
| `Recordings.WithoutUriMembers` | app/index.tsx:203 | an entry remains exactly when it was in the list and its uri differs from the tapped uri |
| `Recordings.WithoutUriLength` | app/index.tsx:203 | the list is unchanged when no entry has the uri, and strictly shorter when one does |
| `Recordings.WithoutUriAppend` | app/index.tsx:203 | the filter distributes over concatenation, so the remaining entries keep their original order |
| `Recordings.RecorderScreen.constructor` | app/index.tsx:28-33 | the screen starts with an empty list, no edit index, empty edit text, a null loudness cell and no recording |
| `Recordings.RecorderScreen.LoadRecordings` | app/index.tsx:47-64 | a successful listing replaces the list with the stripped entries; a failed listing leaves it unchanged |
| `Recordings.RecorderScreen.UpdateMetering` | app/index.tsx:40-45 | the loudness cell is overwritten only by a non-null metering value; a null reading keeps the previous value |
| `Recordings.RecorderScreen.Record` | app/index.tsx:66-71 | starting a recording sets the recording flag |
| `Recordings.RecorderScreen.StopRecording` | app/index.tsx:73-89 | the flag is cleared; with no uri or an empty uri, or a failed move, the list is unchanged; otherwise exactly one entry, the moved file under its own name, is appended at the end and the recorder uri is remembered |
| `Recordings.RecorderScreen.EnterEdit` | app/index.tsx:192-196 | the edit index becomes the tapped index and the edit text the first min(15, \|name\|) characters of its name |
| `Recordings.RecorderScreen.ChangeEditText` | app/index.tsx:179-180 | typing replaces the edit text |
| `Recordings.RecorderScreen.CancelEdit` | app/index.tsx:216-220 | cancel resets the edit index to none and the edit text to empty |
| `Recordings.RecorderScreen.SaveEdit` | app/index.tsx:115-139 | as written: a successful move replaces only the entry at the index, with `RenamedPath` of the directory, the edit text and the entry's shown name, and with the edit text as name; the length and all other entries are unchanged; a failed move leaves the list unchanged; the editor is reset either way |
| `Recordings.RecorderScreen.SaveEditKeepingExtension` | app/index.tsx:115-139 | the corrected handler: the same state change as `SaveEdit`, except that the new path is `KeptExtensionPath` of the entry's uri, so the file keeps its real extension |
| `Recordings.RecorderScreen.DeleteRecording` | app/index.tsx:199-204 | a successful delete removes every entry with the tapped uri, keeping the rest in order, so the list gets shorter and no entry has that uri; a failed delete changes nothing |

## Findings

| source | as written | input that shows it | evidently intended | confidence | as-written member | corrected member |
|---|---|---|---|---|---|---|
| app/index.tsx:119-122 | the extension to keep is taken from the displayed name, but the list loader (line 52) has already stripped the extension from that name, and a rename stores the bare edit text as the name | file `take.m4a`, shown as `take`, renamed to `memo`: the file moves to `recordings/memo.take` | keep the file's real extension (`recordings/memo.m4a`), as the comment "keep extension" says | high, by reading; not executed | `FileNames.RenamedPathDropsExtension` | `FileNames.KeptExtensionPath` |

`RecorderScreen.SaveEdit` is the handler as written, built on
`FileNames.RenamedPath`. `RecorderScreen.SaveEditKeepingExtension` is the
corrected handler, built on `FileNames.KeptExtensionPath`, which takes the
extension from the entry's uri. For entries appended by `stopRecording`,
whose names still carry the extension, the two rules give the same path.

## Left out

- Audio platform calls are not modelled: recorder setup, `prepareToRecordAsync`, `record`, `stop`, playback (`player.replace`, `seekTo`, `play`), the permission request and the audio mode. They are foreign calls. Their outcomes enter only as the recorder uri given to `StopRecording`.
- File-system calls are not modelled: `Directory.list`, `exists`, `create`, `File.move` and `delete`. They appear only as outcome parameters: a listing or none, a moved uri or none, `moveOk`, `deleteOk`. How the platform forms the moved uri is not modelled.
- The `setInterval`/`clearInterval` timing and React's scheduling are not modelled. A tick is a call to `Tick`, allowed only while recording is in progress (between the timer's start and its clearing). The 120 ms period and render batching are not modelled.
- Unmount cleanup is not modelled. When the display is removed, the timer is cleared and the display's state is discarded, so there is nothing left to state about.
- `Math.random` is not modelled. It is the parameter `random` in [0, 1).
- IEEE-754 rounding is not modelled. Loudness, jitter and heights are exact reals.
- Presentation is not modelled: layout, styles, the on-screen scale `height * 3`, the 20-character truncation of shown names, the colour of the record button, and the permission gate screen.
- `console.log` output is not modelled.
- Delete does not adjust the edit index. That matches the source, and the model does not reason about which row the editor shows afterwards.
- `Recordings.RecorderScreen.EnterEdit`: `slice(0, 15)` counts UTF-16 code units, while the model counts characters (Unicode scalar values). The two differ for names with characters outside the Basic Multilingual Plane, such as emoji; there JavaScript may keep fewer characters, or split a surrogate pair.
