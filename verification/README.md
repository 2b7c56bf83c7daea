# XF chord, rehearsal-mark and melody extraction, modelled in Dafny

This project models the decoding and pairing layer of `converter.py` in the
xf-tools lead-sheet converter. That layer sits between a merged MIDI message
stream and the chord-symbol library. The model covers five parts:

- **XF chord decoding.** A Yamaha XF chord payload is a root byte, a
  chord-type byte and an optional bass byte. Each note byte has the layout
  `0fffnnnn`. The payload decodes to a figure such as `Dmaj7/G#` or to
  `N.C.` (module `Xf`). The decoder uses the tables `XF_ROOT_DISP`,
  `XF_ROOT_NOTE` and `XF_CHORD_TYPES`.
- **XF rehearsal-mark decoding.** A mark byte `rr` becomes the base name of
  its low nibble in the table `XF_REHE_BASE`, followed by `(rr >> 4) & 7`
  apostrophes (module `Xf`).
- **The chord-figure normaliser** (module `Normalizer`). It has three
  stages:
  - an enharmonic token rewrite driven by `\b[A-G](?:bb|##|b|#)\b`, with the
    `\b` word-boundary semantics modelled exactly for ASCII word characters;
  - literal quality rewrites;
  - the flat rewrite, which turns `bb` into `--` and then `b` into `-`.
- **The chord and rehearsal scanners.** Each is a fold over a stream of
  `(delta, message)` events that adds every delta to an absolute tick
  (modules `Midi` and `Scanners`). The song title comes from the first
  track name (module `Title`).
- **The melody extractor.** Channel-0 note-ons are paired with their
  releases through a per-pitch map of pending onsets (module `Melody`).

Python's `str.strip`, `str.replace` and the regular-expression notion of a
word character are modelled in module `Text`.

Each loop is written as the source writes it: a front-to-back fold with an
accumulator. Each loop also has a reference definition read from the end of
the stream, and a lemma proves that the two agree:

- `Midi.Scan` is paired with `Midi.Stamps`.
- `Melody.Run` is paired with `Melody.Pending` and `Melody.Notes`.

The other properties are then proved about the reference definitions.

Offsets are exact quotients `tick / tpq` of type `real`, with
`ticks_per_quarter > 0`.

Two consequences of the code that a reader might not expect:

- **Byte sequence `(0x32, 0x02, 0x45)`.** The bass byte 0x45 has letter
  code 5, which is G, and accidental code 4, which is `#`. The sequence
  therefore decodes to `Dmaj7/G#` (`Xf.ExampleChords`).
- **The normaliser is not idempotent.** In `bE#m` the `b` hides the word
  boundary before `E`, so the first pass gives `-E#m`. A second pass sees
  the token `E#` and gives `-Fm` (`Normalizer.NotIdempotent`).

## Model

| member | source | states |
|---|---|---|
| Xf.NoteName | converter.py:137-147 | A note byte names a note exactly when its letter code `b & 0x0F` is 1..7 and its accidental code `(b >> 4) & 7` is 0..6. The byte 127 names none. The name is the letter followed by the accidental spelling. |
| Xf.SpellingRoundTrip | converter.py:13-14 | Encoding a letter/accidental pair as a byte and decoding that byte gives the pair and its name back. |
| Xf.NoteNameEqualIff | converter.py:154-158 | Two decodable note bytes give equal names exactly when their low seven bits agree. The source's string comparison of root and bass therefore compares notes. |
| Xf.DecodeChord | converter.py:124-135 | Decoding fails exactly in three cases: the payload length is outside 2..4; the type byte is beyond 0x22; the type is not N.C. and the root does not decode. Type 0x22 gives "N.C." whatever the root and bass are. |
| Xf.DecodeChordIsFigure | converter.py:124-160 | The decoded text equals the figure of the field-level reading of the payload: root name, quality, and "/bass" when the bass differs from the root. |
| Xf.FigureOfChord | converter.py:131-160 | No decoded figure is empty. A figure is "N.C." exactly when the type byte is 0x22; any other figure starts with its root letter. |
| Xf.DecodeEncodeChord | converter.py:124-160 | Encoding any valid chord as a payload and decoding it gives back the chord and its figure. |
| Xf.SlashRule | converter.py:129-158 | A decoded figure contains '/' exactly when all of these hold: the type is not N.C., a third byte exists, that byte decodes, and its low seven bits differ from the root's. A missing third byte, 127 or an undecodable bass never causes failure. A fourth byte is ignored. |
| Xf.RehearsalLabelParts | converter.py:292-300 | The label of the byte built from section s and variant count v is base name s followed by exactly v apostrophes. |
| Xf.RehearsalLabelInjective | converter.py:292-300 | Two mark bytes give the same label exactly when their low seven bits agree. The label determines both the section and the variant count. |
| Xf.RehearsalLabel | converter.py:292-300 | The label of a mark byte. Its meaning is stated by `RehearsalLabelParts` (base name, then the variant count in apostrophes) and `RehearsalLabelInjective` (equal labels exactly when the low seven bits agree). |
| Xf.ExampleChords | converter.py:124-160 | Worked payloads: (0x31,0x00) gives C; (0x32,0x02,0x45) gives Dmaj7/G#; (0x33,0x08,0x33) gives Em; (0x7E,0x22) gives N.C.; (0x31,0x13,0x70,0x45) gives C7. A one-byte payload, type 0x23 and letter code 0 give None. |
| Xf.ExampleMarks | converter.py:292-300 | Worked mark bytes: 0x13 gives A', 0x00 gives Intro and 0x2F gives M''. |
| Text.StripCharacterised | converter.py:212 | `strip()` removes exactly the leading and trailing Python white space. The result is a slice of the input, and its first and last characters are not white space. |
| Text.ReplaceNoOccurrence | converter.py:91-96 | `str.replace` leaves a string without an occurrence of the pattern unchanged. |
| Text.StripIdempotent | converter.py:212 | Stripping an already stripped text changes nothing. |
| Text.Strip | converter.py:212 | Python's `strip()`. See `StripCharacterised` (exactly the surrounding white space goes) and `StripIdempotent`. |
| Text.ReplaceOccurrence | converter.py:91-93 | `str.replace` rewrites the first occurrence of the pattern: in `x + pat + y`, with no occurrence starting inside `x`, the result is `x`, then the replacement, then the replacement applied to `y`. |
| Text.ReplaceLeavesNo | converter.py:91-93 | After `str.replace` the pattern occurs nowhere in the result. Another text `q` occurs in the result only if it occurred in the input. Both need two conditions: no occurrence of `q` can start inside the replacement, and no proper suffix of `q` is a prefix of the replacement or has it as a prefix, so that no occurrence can end inside it. |
| Text.Replace | converter.py:91-96 | Python's `str.replace`. A replacement no longer than the pattern never lengthens the text, and one of equal length keeps the length. What it rewrites is stated by `ReplaceOccurrence`, `ReplaceNoOccurrence` and `ReplaceLeavesNo`. |
| Normalizer.Normalize | converter.py:73-96 | "" and "N.C." are returned unchanged. Any other figure comes out with no lower-case 'b' and is never longer than it went in. |
| Normalizer.TokenAt | converter.py:88 | The length of the enharmonic token at the front of a text (a note letter and `bb`, `##`, `b` or `#`, between word boundaries): 2 or 3 and within the text. Where a token matches is stated by `WholeWordToken`, `TrailingSharpKept`, `InsideWordCopied` and `FlatInsideWordKept`. |
| Normalizer.Simplify | converter.py:79-86 | `simplify_enharmonics`: the replacement is never longer than the matched token. Which token maps to which note is stated by `WholeWordToken`. |
| Normalizer.Enharmonics | converter.py:79-88 | The `re.sub` pass never lengthens the figure. Its rewrites are stated by `WholeWordToken`, `EnharmonicSplits`, `TrailingSharpKept`, `InsideWordCopied`, `NoLetterCopied` and `FlatInsideWordKept`. |
| Normalizer.QualityPass | converter.py:91-93 | The three quality rewrites in order. See `QualityPassAbsent`, `QualitySpellingsGone` and the worked figures `Add9Respelled`, `Minor11Respelled` and `MinorMajor9Respelled`. |
| Normalizer.FlatPass | converter.py:96 | The two flat rewrites. See `FlatPassIsMapChar`: together they turn every `b` into `-`. |
| Normalizer.FlatPassIsMapChar | converter.py:96 | Replacing `bb` by `--` and then `b` by `-` equals turning every `b` into `-`. |
| Normalizer.QualityPassAbsent | converter.py:91-93 | The quality rewrites change nothing in a figure without '9' and '('. |
| Normalizer.QualitySpellingsGone | converter.py:91-96 | No normalised figure contains `add9`, `m7(11)` or `m(maj7,9)`. The quality stage rewrites every occurrence, and neither a later rewrite nor the flat stage brings one back. |
| Normalizer.Add9Respelled | converter.py:73-96 | "Cadd9" normalises to "Cadd2". |
| Normalizer.Minor11Respelled | converter.py:73-96 | "Dm7(11)" normalises to "Dm11". |
| Normalizer.MinorMajor9Respelled | converter.py:73-96 | "Bbm(maj7,9)" normalises to "B-m(maj9)": the quality is respelled and the root's flat becomes `-`. |
| Normalizer.WholeWordToken | converter.py:79-88 | A key of the enharmonic map standing as a whole word is replaced by its entry (E#→F, …, Bbb→A), and the scan resumes after it. |
| Normalizer.EnharmonicSplits | converter.py:88 | Tokens never span a separator that is neither a word character nor '#', such as '/'. The text on either side is rewritten independently. |
| Normalizer.TrailingSharpKept | converter.py:88 | A note letter followed by a '#' that ends the figure is never rewritten, because no `\b` follows '#'. |
| Normalizer.InsideWordCopied | converter.py:88 | Inside a run of word characters, after a word character, no token matches and the text is copied unchanged. |
| Normalizer.NoLetterCopied | converter.py:88 | Text without a note letter A-G is never token-rewritten, whatever precedes it. |
| Normalizer.FlatInsideWordKept | converter.py:88 | A note letter and one flat followed by more of the same word is not a token: the figure comes through the token rewrite unchanged. |
| Normalizer.TrailingSharpUnchanged | converter.py:73-96 | "E#" normalises to "E#". |
| Normalizer.SharpMinorSimplified | converter.py:73-96 | "E#m" normalises to "Fm". |
| Normalizer.TrailingFlatSimplified | converter.py:73-96 | "Fb" normalises to "E". |
| Normalizer.FlatQualityKept | converter.py:73-96 | "Fbmaj7" is not token-rewritten and normalises to "F-maj7". |
| Normalizer.BlockedBoundary | converter.py:73-96 | "bE#m" normalises to "-E#m": the leading 'b' hides the word boundary before 'E', so the token `E#` is not found. |
| Normalizer.OpenedBoundary | converter.py:73-96 | "-E#m" normalises to "-Fm": after '-' the boundary is there and `E#` becomes F. |
| Normalizer.NotIdempotent | converter.py:73-96 | Normalising "bE#m" twice differs from normalising it once. |
| Midi.TotalTicksAppend | converter.py:174-176 | The absolute tick is additive over concatenated streams: every message's delta counts, whatever the message is. |
| Midi.Scan | converter.py:174-176 | The tick-accumulating loop keeps the items found so far as a prefix, and stamps every new item with a tick between the starting tick and the starting tick plus the stream's deltas. Its full result is stated by `ScanIsStamps`. |
| Midi.ScanIsStamps | converter.py:174-176 | The tick-accumulating loop yields, for each message that produces an item, the item stamped with the sum of all deltas up to and including that message. |
| Midi.StampsSorted | converter.py:174-176 | Stamped items come out in stream order, with non-decreasing ticks, none after the end of the stream. |
| Midi.StampOfMessage | converter.py:176 | A message that yields an item is the last stamp of the prefix ending at it, at that prefix's total ticks. |
| Midi.SilentPrefix | converter.py:193-194 | Messages that yield nothing contribute no item, but their deltas still shift every later stamp. |
| Scanners.DropFiller | converter.py:189-191 | The payload without 0x7F bytes contains exactly the non-0x7F bytes of the payload. |
| Scanners.DropFillerCounts | converter.py:191 | Filtering keeps each non-0x7F byte as many times as it occurs and drops every 0x7F. |
| Scanners.DropFillerAppend | converter.py:191 | Filtering works byte by byte and keeps stream order: filtering a concatenation concatenates the filtered parts, so root, type and bass keep their positions relative to one another. |
| Scanners.ChordText | converter.py:180-233 | The chord text a message yields. See `XfChordEvent`, `TextChordEvent` and `NoChordFrom`, which state it through `ChordOf`. |
| Scanners.TextCandidate | converter.py:206-233 | The candidate a text, lyric or marker event yields. See `TextChordEvent`: only the stripped text matters. |
| Scanners.ChordOf | converter.py:236-249 | A no-chord object appears only for the text "N.C." when the library's no-chord object is truthy. Any other chord is the normalised text, and the library must build it. Every non-empty, non-"N.C." text whose normalised figure the library builds yields a chord. |
| Scanners.XfChordEvent | converter.py:187-197 | A chord event with a non-empty filtered payload yields the chord its fields describe. Type 0x22 gives the no-chord object when that object is truthy. Any other type gives the normalised figure of root, quality and differing bass when the library builds it. A payload whose fields do not decode gives nothing. |
| Scanners.NoChordFrom | converter.py:180-194 | A chord event whose payload is all 0x7F yields nothing, as do XF events with another ID and all other non-text messages. |
| Scanners.TextChordEvent | converter.py:206-212 | A text, lyric or marker event yields the same chord as a text event carrying its stripped text: surrounding white space and the kind of event never matter. |
| Scanners.ChordsInStreamOrder | converter.py:174-249 | The chord list is the reference stamps placed at their tick over tpq. Each chord sits at the sum of all deltas up to its message. Offsets never decrease along the list, are non-negative, and do not exceed the stream's total ticks over tpq. |
| Scanners.ChordFiguresUseMinusForFlat | converter.py:241-244 | No chord symbol the scanner builds has a lower-case 'b' in its figure. |
| Scanners.ScanChords | converter.py:172-249 | The chord list of a stream. See `ChordsInStreamOrder`, `ChordFiguresUseMinusForFlat` and `SampleChords`. |
| Scanners.MarkOf | converter.py:282-291 | A message yields a mark exactly when it is a sequencer-specific event with header 43 7B, ID 02 and at least one byte after the ID. |
| Scanners.MarksInStreamOrder | converter.py:278-301 | The mark list is the reference stamps: (absolute tick, label) pairs in stream order with non-decreasing ticks. |
| Scanners.MarkLabelsDistinguish | converter.py:292-301 | Two mark events give the same label exactly when their data bytes agree in the low seven bits. |
| Scanners.ScanMarks | converter.py:278-301 | The mark list of a stream. See `MarksInStreamOrder` and `SampleMarks`. |
| Scanners.SampleMarks | converter.py:278-301 | In the sample stream the only mark is A' at tick 480. |
| Scanners.SampleChords | converter.py:172-249 | In the sample stream the chords are C at offset 0 and Em at offset 2. The empty-payload chord event yields nothing but its delta counts. |
| Title.FirstTrackName | converter.py:105-108 | The title from a track is None exactly when the track has no track-name event. Otherwise it is the stripped name of the first track-name event. |
| Title.SongTitle | converter.py:98-108 | With no tracks, or no track name in the first track, there is no title. Otherwise the title is the stripped first track name of the first track. |
| Melody.Step | converter.py:318-334 | Every message adds its delta to the tick. A message that neither presses nor releases on channel 0 changes nothing else. A press emits no note. |
| Melody.Run | converter.py:313-335 | The extraction loop. See `RunAgrees`: its tick, pending map and notes are the reference ones. |
| Melody.Extract | converter.py:313-335 | The extracted melody. See `ExtractIsNotes`, `NotesWellFormed`, `NotePaired` and `UnreleasedDropped`. |
| Melody.RunAgrees | converter.py:313-335 | After any stream, the loop's tick is the sum of deltas, its pending map holds exactly the pending onsets, and its notes are the reference notes. |
| Melody.ExtractIsNotes | converter.py:313-335 | The extracted melody equals the reference melody, which has one note per release that finds its pitch pending. |
| Melody.PendingUntouched | converter.py:324-329 | Events that neither press nor release a pitch on channel 0 leave its pending onset unchanged. |
| Melody.NotePaired | converter.py:325-334 | A press of p, events leaving p alone, then a release of p append the note (start/tpq, (end-start)/tpq). Any earlier pending onset of p is replaced. |
| Melody.UnreleasedDropped | converter.py:327-335 | When a stream continues without any channel-0 release of pitch p, the notes extracted so far stay a prefix and every later note has another pitch. An onset of p still pending at the end is dropped, however many notes of p came before it. |
| Melody.NoReleaseNoNotes | converter.py:327-333 | A stream without a channel-0 release yields no note. |
| Melody.ClosedWellFormed | converter.py:330-333 | A note closed at tick t from an onset no later than t has a non-negative offset and duration, and its offset plus duration is t/tpq. |
| Melody.LoneNote | converter.py:318-334 | A press, then events that neither press nor release, then a release of the same pitch give exactly one note, from the press to the release. |
| Melody.NotesWellFormed | converter.py:330-333 | Every note has a non-negative offset and duration and ends no later than the stream. |
| Melody.SingleNote | converter.py:318-334 | A press at 0 and a release at 480 ticks (tpq 480), with a channel-1 note between them, give one note of pitch 60 at offset 0 lasting one quarter. |

## Left out

- Loading MIDI files with `mido.MidiFile` and merging their tracks with `mido.merge_tracks`: this is library I/O. The model takes the merged stream of `(delta, message)` events as its input.
- The chord-symbol library's validation and construction of chord symbols, and the truthiness of the objects it builds: these are fields of `Scanners.ChordLibrary` (`accepts`, `builds`, `noChordTruthy`), because the library's code is not part of this model.
- The regular expression at converter.py:222 that cuts a chord candidate out of a text event is the uninterpreted `ChordLibrary.candidate`. Only the control flow around it is modelled: one search per stripped text, and a rejected candidate discards the event.
- Text.IsWordChar: covers only ASCII letters, digits and `_`. Python's `\b` on `str` patterns also treats non-ASCII letters and digits as word characters, so figures with such characters next to a note token are not modelled faithfully.
- Floating-point division `ticks / ticks_per_quarter`: offsets are exact `real` quotients, so rounding is not modelled.
- Melody.Step: keeps the onset velocity but emits notes as pitch, offset and duration only. The rest of the library's note object is not modelled.
- Debug log buffers, progress and warning prints, the tick-per-quarter mismatch warning, and the exception-to-warning handling around chord construction are left out. They affect only output text, and a construction failure is modelled as `builds` being false.
- `create_lead_sheet`, the command-line entry points and the document assembly (insertion, quantisation, writing MusicXML) are left out. They are operations of the score library, with no logic of the converter's own to verify.
