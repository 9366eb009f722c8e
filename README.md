# video-transcription: the subtitle serialiser, modelled and proved in Dafny

video-transcription turns a video into an SRT subtitle file. It extracts
the audio with ffmpeg, transcribes it with Whisper and writes the subtitle
document. This project models the part that is the program's own logic:

- **Segment mode** (`SRTGenerator.generate`). Each transcription segment
  becomes one numbered SRT entry: its number, a timing line
  `start --> end` and the stripped segment text. A blank line separates
  neighbouring entries, and none follows the last.
- **Word mode** (`SRTGenerator.generate_with_word_timestamps`). The word
  timestamps of all segments are collected in order. Without any, the
  output is segment mode's. Otherwise the stripped words are packed
  greedily into chunks. Each word costs its length plus one, and a
  non-empty chunk is closed when the next word would take it past the
  limit (42 by default). The chunks are then written like segment entries.
- **Timestamp formatting** (`format_timestamp`): `HH:MM:SS,mmm`, with hours
  at least two digits wide and never truncated.
- **Video-format check** (`AudioExtractor.is_format_supported`). The final
  suffix of the path's file name, lower-cased, must be one of fourteen
  container extensions.

All times are non-negative whole milliseconds (`nat`). Both generators
return the document as a string instead of writing a file.

Files, one module each:

- `wrappers.dfy`: `Option`.
- `text.dfy`: `str.strip()` and `str.join`.
- `timestamp.dfy`: decimal rendering, zero padding, `Format` and a parser
  `Parse` that inverts it.
- `formats.dfy`: `PurePath.name`, `PurePath.suffix`, `str.lower()` and the
  allow-list.
- `words.dfy`: the word and chunk records, a recursive reference definition
  `Greedy` of the chunking, its characterisation `GreedyPartition`, and the
  imperative scan `GroupWords` proved equal to it.
- `srt.dfy`: segments, entries, the field layout of an SRT document, the
  two generators and the writing, collecting and grouping loops they call.

The source's loops are methods with loop invariants: `Generate`,
`CollectWords`, `GroupWords` and `WriteChunks`. Each is proved equal to a
function of its inputs, and the properties the source promises are proved
about those functions. `GenerateWithWordTimestamps` has no loop of its own:
it calls `CollectWords`, then either `Generate` or `GroupWords` and
`WriteChunks`, and its `maxChars` parameter defaults to `DefaultMaxChars`
(42), as `max_chars_per_line` does.

Three facts about the code shape the timestamp model:

- **Negative durations.** `format_timestamp` does not reject a negative
  input; the model's durations are `nat`.
- **Rounding.** The code formats a float number of seconds with `06.3f`;
  here times are already whole milliseconds.
- **The parser.** The source has no timestamp parser; `Timestamp.Parse`
  is the model's own inverse of `Format`.

## Model

| member | source | states |
|---|---|---|
| Text.Strip | src/video_transcription/srt_generator.py:32 | `strip()` never lengthens its input, and a non-empty result neither starts nor ends with whitespace. |
| Text.TrimStartSpec | src/video_transcription/srt_generator.py:32 | The left half of `strip()`: what remains is a suffix of the input; everything removed is whitespace; what remains does not start with whitespace. |
| Text.TrimEndSpec | src/video_transcription/srt_generator.py:32 | The right half of `strip()`: what remains is a prefix of the input; everything removed is whitespace; what remains does not end with whitespace. |
| Text.StripSpec | src/video_transcription/srt_generator.py:32 | `s.strip()` is the slice of `s` between its leading and its trailing whitespace, and it neither starts nor ends with whitespace. |
| Text.StripIdempotent | src/video_transcription/srt_generator.py:32 | Stripping an already stripped text changes nothing. |
| Text.StripEmptyIff | src/video_transcription/srt_generator.py:68 | A word strips to the empty string exactly when it is all whitespace. That such a word still costs 1 follows from `Words.Cost` (`len(word_text) + 1`), and that it is kept as an empty word from `Words.WordsKept`. |
| Text.Join | src/video_transcription/srt_generator.py:74 | `' '.join`: the words with one separator between each two. What that means is stated by `JoinSnoc` (a chunk's text grows by a space and the new word as the word is added) and `JoinLength` (the total length). |
| Text.JoinSnoc | src/video_transcription/srt_generator.py:74 | Joining more than one word is joining all but the last, a space, and the last: the join of a chunk grown word by word. |
| Text.JoinLength | src/video_transcription/srt_generator.py:74 | The joined text is as long as the words together plus one separator between each two. |
| Timestamp.Digits | src/video_transcription/utils.py:32 | `str(n)`: a non-empty string of decimal digits with no leading zero unless `n` is 0. |
| Timestamp.ValueOfDigits | src/video_transcription/utils.py:32 | Reading back the decimal rendering of `n` gives `n`. |
| Timestamp.DigitsLength | src/video_transcription/utils.py:32 | The rendering of `n` fits in `w` digits exactly when `n < 10^w`. |
| Timestamp.DigitsOfValue | src/video_transcription/utils.py:32 | A digit string without a leading zero is the rendering of the number it denotes. |
| Timestamp.ZeroPad | src/video_transcription/utils.py:32 | `f"{n:0{w}d}"` is all digits and exactly `max(w, len(str(n)))` long, so it is never truncated. |
| Timestamp.ValueOfZeroPad | src/video_transcription/utils.py:32 | Zero padding never changes the number a field denotes. |
| Timestamp.PadOfValue | src/video_transcription/utils.py:32 | Every digit string of length `w` is the `w`-wide padding of its value. |
| Timestamp.FieldsDecompose | src/video_transcription/utils.py:28-30 | Of the fields `Hours`, `Minutes`, `Seconds` and `Millis` (the source's `//` and `%` steps, over whole milliseconds): minutes and seconds are below 60, milliseconds below 1000, and hours·3600000 + minutes·60000 + seconds·1000 + milliseconds is the input. |
| Timestamp.FieldsOfSum | src/video_transcription/utils.py:28-30 | The fields are unique: any in-range hours, minutes, seconds and milliseconds adding up to the input are the ones computed. |
| Timestamp.Format | src/video_transcription/utils.py:25-32 | `format_timestamp`: the padded hours, minutes, seconds and milliseconds with `:`, `:` and `,` between; what this layout means is stated by `FormatLayout`, `ParseFormat` and `FormatParse` below. |
| Timestamp.FormatLayout | src/video_transcription/utils.py:28-32 | Where each field of the output sits. The hours field is everything before the last ten characters, at least two digits, padded only to two, and denotes the full hour count. Minutes and seconds are two digits below 60 and milliseconds three digits. The separators are `:`, `:` and `,`. |
| Timestamp.NoDot | src/video_transcription/utils.py:32 | A timestamp built from digit fields contains no `.`, so the comma is the only decimal separator. |
| Timestamp.ParseFormat | src/video_transcription/utils.py:25-32 | Round trip: parsing the formatted timestamp of `ms` gives back exactly `ms`. |
| Timestamp.FormatParse | src/video_transcription/utils.py:25-32 | The other direction: every string the parser accepts is the formatting of what it reads. |
| Timestamp.FormatOfFields | src/video_transcription/utils.py:28-32 | Any canonical `HH:MM:SS,mmm` string is the formatting of the millisecond count its fields add up to. |
| Timestamp.FormatZero | src/video_transcription/utils.py:25-32 | `format_timestamp(0)` is `00:00:00,000`. |
| Timestamp.FormatOneHourOneMinute | src/video_transcription/utils.py:25-32 | `format_timestamp(3661.5)` is `01:01:01,500`. |
| Timestamp.FormatWideHours | src/video_transcription/utils.py:28-32 | 100 hours renders as `100:00:00,000`: the hours field widens past two digits. |
| Formats.LastSep | src/video_transcription/audio_extractor.py:71 | The directory part of a path ends at its last `/` (or is empty). |
| Formats.Name | src/video_transcription/audio_extractor.py:71 | `PurePath(p).name` contains no `/` and is never `.`. |
| Formats.LastDot | src/video_transcription/audio_extractor.py:71 | `rfind('.')`: the index of a `.` with no `.` after it, or -1. |
| Formats.Lower | src/video_transcription/audio_extractor.py:71 | `lower()`, character by character. What that means for the check is stated by `SuffixLower` (lowering commutes with taking the suffix), `CaseInsensitive` (paths equal up to case get the same answer) and `LowerIdempotent`. |
| Formats.SupportedFormatsShape | src/video_transcription/audio_extractor.py:10-13 | Each of the fourteen allowed extensions is a dot followed by at least one non-dot character, all in lower case. |
| Formats.Suffix | src/video_transcription/audio_extractor.py:71 | `Path(p).suffix`: from the last dot of the file name to its end, or empty when that dot is the first or last character or there is none (the rule of CPython 3.12's `pathlib`); its shape is stated by `SuffixShape`. |
| Formats.SuffixShape | src/video_transcription/audio_extractor.py:71 | `Path.suffix` is empty, or it is a dot followed by at least one non-dot character and a proper tail of the file name. |
| Formats.IsFormatSupported | src/video_transcription/audio_extractor.py:68-71 | `is_format_supported`: only a path with a non-empty suffix is accepted; `SupportedIff` characterises exactly which ones are. |
| Formats.SupportedIff | src/video_transcription/audio_extractor.py:68-71 | Independent description: a path is accepted exactly when some tail of its file name, not starting at the name's first character, is an allowed extension in lower case. |
| Formats.FinalExtensionDecides | src/video_transcription/audio_extractor.py:71 | The suffix of `p + "." + x` is `.x`, and it alone decides acceptance, whatever extensions `p` already has. |
| Formats.NoExtensionRejected | src/video_transcription/audio_extractor.py:71 | A file name with no dot, or whose only dot is its first character, has an empty suffix and is rejected. |
| Formats.NameTrailingSlash | src/video_transcription/audio_extractor.py:71 | A trailing slash does not change the file name. |
| Formats.NameOfPath | src/video_transcription/audio_extractor.py:71 | The file name of `dir/file` is `file`. |
| Formats.NameOfFile | src/video_transcription/audio_extractor.py:71 | A bare file name (not empty, not `.`, no `/`) is its own name. |
| Formats.SuffixLower | src/video_transcription/audio_extractor.py:71 | Lower-casing the path and taking the suffix commute. |
| Formats.CaseInsensitive | src/video_transcription/audio_extractor.py:71 | Two paths that agree up to case are accepted or rejected together. |
| Formats.LowerIdempotent | src/video_transcription/audio_extractor.py:71 | Lower-casing twice is lower-casing once. |
| Formats.InnerExtensionIgnored | src/video_transcription/audio_extractor.py:71 | `a.srt.mp4` is accepted. |
| Formats.LastExtensionDecides | src/video_transcription/audio_extractor.py:71 | `a.mp4.srt` is rejected. |
| Formats.UpperCaseAccepted | src/video_transcription/audio_extractor.py:71 | `videos/Clip.MKV` is accepted. |
| Formats.LeadingDotRejected | src/video_transcription/audio_extractor.py:71 | The bare leading-dot name `.mp4` is rejected. |
| Formats.NoDotRejected | src/video_transcription/audio_extractor.py:71 | `movie` is rejected. |
| Formats.DirectoryDotRejected | src/video_transcription/audio_extractor.py:71 | `clips.mp4/raw` is rejected: a dot in a directory name is no extension. |
| Formats.SrtNotSupported | src/video_transcription/audio_extractor.py:10-13 | `.srt` is not in the allow-list. |
| Words.Trim | src/video_transcription/srt_generator.py:67-68 | One stripped word per word, in order, with its start and end unchanged and its text `word.strip()`. |
| Words.Texts | src/video_transcription/srt_generator.py:79-86 | The text list of a run holds one text per word, in order. |
| Words.Chunks | src/video_transcription/srt_generator.py:74-95 | One chunk per part, in order. Chunk `k` has part `k`'s texts, its first word's start, its last word's end and the joined texts. |
| Words.Extend | src/video_transcription/srt_generator.py:72-90 | The first chunk never shrinks as words are considered, and never reaches past the input. |
| Words.Greedy | src/video_transcription/srt_generator.py:67-95 | The reference definition of the chunking yields no empty chunk. |
| Words.ExtendSpec | src/video_transcription/srt_generator.py:72-90 | The first chunk, once extended, is within the limit unless it is one word, and the word after it would not have fitted. |
| Words.FirstChunkSpec | src/video_transcription/srt_generator.py:72-90 | The first chunk is a single word or within the limit, and the next word would take it past the limit. |
| Words.FirstChunkUnique | src/video_transcription/srt_generator.py:72-90 | Only one first-chunk length has both of those properties. |
| Words.GreedyIsGreedyPartition | src/video_transcription/srt_generator.py:67-95 | The greedy chunks cover the words in order. None is empty; each is one word or within the limit; and each chunk after the first starts with a word that did not fit into the chunk before. |
| Words.ConsPartition | src/video_transcription/srt_generator.py:72-90 | A first chunk that fits, in front of such a chunking of the remaining words that starts with a word it could not take, gives such a chunking of all words. |
| Words.TailPartition | src/video_transcription/srt_generator.py:72-90 | Removing the first chunk of such a chunking leaves such a chunking of the remaining words. |
| Words.GreedyPartitionIsGreedy | src/video_transcription/srt_generator.py:67-95 | Any chunking with those properties is the greedy one: the description determines the chunks. |
| Words.GreedyPartitionIff | src/video_transcription/srt_generator.py:67-95 | A chunking has those properties exactly when it is the greedy one. |
| Words.ChunkWordsOfChunks | src/video_transcription/srt_generator.py:74-95 | The chunks' word lists, one after the other, are the texts of the words the parts cover. |
| Words.WordsKept | src/video_transcription/srt_generator.py:53-95 | No word is dropped, split or reordered: the chunks' words, one after the other, are exactly the stripped words. |
| Words.GreedyCovers | src/video_transcription/srt_generator.py:67-95 | The greedy parts, one after the other, are the input words, and none is empty. |
| Words.ChunkSpan | src/video_transcription/srt_generator.py:72-95 | Chunk `k` holds the consecutive stripped words starting at its offset: their texts, the first one's start, the last one's end and their texts joined by single spaces. |
| Words.PartSpan | src/video_transcription/srt_generator.py:72-95 | The same for any list of non-empty parts, over the words they cover. |
| Words.RunChunk | src/video_transcription/srt_generator.py:74-95 | The chunk of a run of words sitting at offset `o`: its texts are those words' texts, its start the first one's, its end the last one's. |
| Words.TextLength | src/video_transcription/srt_generator.py:69-74 | A chunk's text is one character shorter than its running length. |
| Words.LoadTexts | src/video_transcription/srt_generator.py:69-90 | `Load`, the sum of the words' `Cost` (`len(word_text) + 1`), is `current_length`: the running length is the words' lengths plus one per word. |
| Words.ChunkLimits | src/video_transcription/srt_generator.py:69-90 | The `current_length + word_length > max_chars_per_line` test, stated through `Load` and `Cost` on the chunk texts. A chunk of several words has text length + 1 within the limit. Each chunk after the first starts with a word that would have taken the chunk before it past the limit. |
| Words.OverlongWordAlone | src/video_transcription/srt_generator.py:72 | A word longer than the limit stands alone in its chunk: it is neither dropped nor split. |
| Words.GroupingExample | src/video_transcription/srt_generator.py:67-95 | Words ` aaaa`, ` bbbb`, ` cccc` under a limit of 10 give the chunks `aaaa bbbb` (0 to 900 ms) and `cccc` (900 to 1500 ms). |
| Words.GrowOpen | src/video_transcription/srt_generator.py:84-90 | A word that fits joins the open chunk, and the chunks stay a greedy chunking of the words so far. |
| Words.CloseOpen | src/video_transcription/srt_generator.py:72-83 | A word that does not fit closes the open chunk and opens the next, and the chunks stay a greedy chunking. |
| Words.ScanStart | src/video_transcription/srt_generator.py:63-65 | Before the first word there are no chunks, nothing is open, and the length is 0. |
| Words.ScanClose | src/video_transcription/srt_generator.py:72-83 | The close branch keeps the loop state in step with the chunking: the finished chunk is appended, and the word seeds the new chunk with its start, end and cost. |
| Words.ScanAdd | src/video_transcription/srt_generator.py:84-90 | The add branch keeps the loop state in step: the word is appended, the start is set only if unset, the end is always updated and the length grows by the word's cost. |
| Words.ScanFinish | src/video_transcription/srt_generator.py:92-95 | After the last word, flushing a non-empty open chunk gives exactly the greedy chunks. |
| Words.GroupWords | src/video_transcription/srt_generator.py:62-95 | The grouping loop returns exactly the chunks of the greedy chunking of the stripped words. |
| Srt.TimingLine | src/video_transcription/srt_generator.py:27-29 | The timing line `start --> end` of two formatted times; it is placed by `LinesOfEntry`, and each of its two times is read back by `ParseFormat`. |
| Srt.Entry | src/video_transcription/srt_generator.py:24-33 | One entry as the loop writes it: number, timing line and text, each followed by a newline; `UnlinesBlock` ties it to the field layout. |
| Srt.UnlinesBlock | src/video_transcription/srt_generator.py:24-37 | The three fields of an entry, each followed by a newline, are the entry as written; with the blank separator in front they are a newline and then the entry. |
| Srt.Lines | src/video_transcription/srt_generator.py:22-37 | A document of `n` entries has `4n - 1` fields, each followed by a newline (none for no entries). |
| Srt.LinesOfEntry | src/video_transcription/srt_generator.py:22-37 | Entry `k` is fields `4k` to `4k + 2` (number, timing line, text), and field `4k + 3` is the empty separator when another entry follows. |
| Srt.LinesAt | src/video_transcription/srt_generator.py:22-37 | The same for all entries at once, plus the field count. |
| Srt.Document | src/video_transcription/srt_generator.py:22-37 | What the writing loop produces for a list of entries is exactly the fields of `Lines`, each followed by a newline. |
| Srt.EmittedLines | src/video_transcription/srt_generator.py:22-37 | After `k` entries the loop has written the first `k` entries' fields, each followed by a newline, plus the empty separator field if another entry follows. |
| Srt.WriteStep | src/video_transcription/srt_generator.py:22-37 | One more loop iteration writes the entry, then a blank line unless the entry was the last. |
| Srt.WriteEntry | src/video_transcription/srt_generator.py:24-33 | Writes the number, `start --> end` and the text, each on a line of its own, after what was written before. |
| Srt.SegmentBlocks | src/video_transcription/srt_generator.py:22-33 | The entries of segment mode, one per segment, numbered from 1 as `enumerate(segments, 1)` does. What they mean in the written file is stated by `SegmentEntryLines` and `SegmentModeLayout`. |
| Srt.Generate | src/video_transcription/srt_generator.py:8-37 | `generate` writes the document of the segment entries. |
| Srt.SegmentEntryLines | src/video_transcription/srt_generator.py:22-37 | Segment `k`, field by field: its number `k + 1`, its timing line and its stripped text, then an empty separator unless it is the last. |
| Srt.SegmentModeLayout | src/video_transcription/srt_generator.py:8-37 | The whole segment-mode document, field by field, each field followed by a newline. `4n - 1` fields for `n` segments, an empty document for none, and each segment `k` in fields `4k` to `4k + 2` with the separators between. |
| Srt.AllWords | src/video_transcription/srt_generator.py:52-55 | The word timestamps of all segments in segment order, a segment without `words` adding none; stated by `AllWordsAppend`, `AllWordsEmptyIff` and `CollectWords`. |
| Srt.AllWordsAppend | src/video_transcription/srt_generator.py:52-55 | Collecting is compositional: the words of two runs of segments are the first run's words followed by the second's. |
| Srt.AllWordsEmptyIff | src/video_transcription/srt_generator.py:52-57 | There are no words to group exactly when no segment carries any, which is when word mode falls back. |
| Srt.CollectWords | src/video_transcription/srt_generator.py:52-55 | The collection loop gathers every segment's words, segment after segment, skipping segments without `words`. |
| Srt.ChunkBlocks | src/video_transcription/srt_generator.py:99-106 | The entries of word mode, one per chunk, numbered from 1. What they mean in the written file is stated by `WordEntryLines`. |
| Srt.WriteChunks | src/video_transcription/srt_generator.py:97-109 | The chunk-writing loop writes the document of the chunk entries. |
| Srt.GenerateWithWordTimestamps | src/video_transcription/srt_generator.py:39-109 | Without any word timestamps the output is exactly segment mode's. Otherwise it is the document of the greedy chunks of all stripped words, under a limit that defaults to 42. |
| Srt.WordEntryLines | src/video_transcription/srt_generator.py:97-109 | Chunk `k` of word mode, field by field (the predicate `ChunkEntryFields`): its number `k + 1`; a timing line from its first word's start to its last word's end; its words joined by single spaces; then an empty separator unless it is the last. |

## Left out

- Floating-point time. Segment and word times are whole milliseconds. The
  model omits the `timedelta` arithmetic on float seconds and the rounding
  of `06.3f`; it also omits the near-boundary float output that shows 60
  seconds (`…:60,000`).
- Validation of times. The source does not check `start <= end`, ordering,
  or negative values; the model's `nat` times rule out only negatives.
- File output. `mkdir`, `open` and the UTF-8 write are left out: both
  generators return the document string, and failures of the write are
  not modelled.
- Dictionary access. Segments and words are typed records. The `KeyError`
  a segment without `start`, `end` or `text` would raise is not modelled;
  the optional `words` key is modelled as an `Option`.
- `AudioExtractor.extract_audio`: it calls ffmpeg, a foreign library, and
  touches the file system.
- `VideoTranscriber` in `transcriber.py`: Whisper model loading,
  inference and device probing are foreign calls.
- `main.py` (the command-line wrapper) and the `print_*` helpers of
  `utils.py`: console I/O.
- Formats.Suffix: the suffix rule is that of CPython 3.12's `pathlib`, where a
  name ending in a dot has no suffix. Later versions may count that trailing
  dot as a suffix; `.` is not an allowed extension, so acceptance is the same.
- Formats.Name: POSIX paths only. Windows drive letters and backslash
  separators are not modelled.
- Formats.Lower: only A–Z and KELVIN SIGN are lowered; every other
  character is kept. Python lowers many more, but none of those
  characters lowers to plain ASCII, and every allowed extension is
  ASCII, so `IsFormatSupported` gives the same answer.
- Text.IsSpace: the whitespace set is Python's `str.isspace()`
  characters. The model has no Unicode normalisation.
- Srt.Lines: a text with an embedded newline (`strip()` keeps inner
  newlines) spans more lines of the file than its one field; the layout
  lemmas count fields, not physical lines.
- `max_chars_per_line` is an integer; a float limit is not modelled.
