# Token-stream engine of the tablature processor

This project models the core of `tab-processing/process_tokens.py`, the part of
a guitar-tablature toolkit that rewrites a stream of tablature tokens (such as
`note:s1:f2`, `clean0:note:s3:f5`, `measure:repeat_open` or `wait:480`). The
model covers four operations:

- **Strip and restore** (`StripRestore`). Strip splits a token list into the
  instrumental tokens (those starting with `note:`) and a map from index to
  every other token. Restore puts such a map back around a list of
  instrumental tokens.
- **Repeat expansion** (`Repeats`). Each `measure:repeat_open … measure:repeat_close:<count>`
  region is replaced by `count` copies of its inner tokens. There are two
  fallbacks: an open marker with no close marker after it, and a close marker
  with no count.
- **Track merging** (`TrackMerge`). Within a group of simultaneous track
  tokens, the `clean<N>:` tags are removed and the rests are collapsed into
  one. The group is then sorted stably by string number; tokens without a
  string number go last.
- **The acoustic-solo body pass** (`AcousticSolo`). This pass keeps the tokens
  between `start` and `end` and expands repeats in them. It then merges all
  the `clean…` tokens between two recognized tokens (`note…`, `bfs…`,
  `nfx…`, `wait…`) into one group, even when unrecognized tokens separate
  them, and places the group just before the next recognized token. Every
  other token is dropped.

The module `Tokens` holds the small string predicates that stand in for the
regular expressions: prefix tests, digit runs and decimal values. `Examples`
works the operations on small token lists.

The loops of the source are methods. Each method's contract ties its result to
a specification function, and lemmas prove what the source promises about
those functions. Restore's placement and fill passes work on an `array`, as
the source's `reconstructed` list is updated in place. The other loops build
their output by appending, so they are modelled on sequences. Python's
negative list indices are modelled (`Slot`). An out-of-range index or a
missing pure token makes restore return `Err(IndexError)`.

## Model

| member | source | states |
|---|---|---|
| StripRestore.IsInstrumental | tab-processing/process_tokens.py:5-6 | a token is instrumental exactly when it is `note:` followed by anything |
| StripRestore.PureOf | tab-processing/process_tokens.py:18-20 | the kept tokens are no more than the input and are all instrumental tokens of the input |
| StripRestore.RemovedOf | tab-processing/process_tokens.py:16-22 | index `i` is a key exactly when it is an index of the list whose token is not instrumental, and it maps to that token; with PureOf it splits the list (StripPartitions) and restore undoes it (RoundTrip) |
| StripRestore.Strip | tab-processing/process_tokens.py:8-23 | the loop returns the instrumental tokens in order and the index map of the others; index `i` is a key exactly when `tokens[i]` is not instrumental, and each key maps to the token at that index; the two sizes add up to the input length |
| StripRestore.StripPartitions | tab-processing/process_tokens.py:18-23 | every index goes to exactly one of the two outputs: the two sizes add up to the input length |
| StripRestore.FillSpec | tab-processing/process_tokens.py:39-43 | the fill loop succeeds exactly when there are at least as many pure tokens as empty slots; it then keeps every filled slot and puts `pure[c]` into the empty slot with `c` empty slots before it |
| StripRestore.FillPattern | tab-processing/process_tokens.py:39-43 | whether the fill loop succeeds depends only on which slots are empty, not on their contents |
| StripRestore.OccupiedCount | tab-processing/process_tokens.py:33-37 | when all keys are in range, they fill at most as many slots as there are keys, and exactly that many if and only if no two keys (`k` and `k - n`) name the same slot |
| StripRestore.RestoreSucceeds | tab-processing/process_tokens.py:33-45 | restore succeeds if and only if every key is a valid (possibly negative) index of the `len(pure) + len(removed)` slots and no two keys name the same slot |
| StripRestore.RestoreContents | tab-processing/process_tokens.py:33-45 | a successful restore has length `len(pure) + len(removed)`, has each removed token at the slot its key names, and has the pure tokens in order in the remaining slots, all of them used |
| StripRestore.Place | tab-processing/process_tokens.py:33-37 | the placement loop over an array of `None` reports success exactly when all keys are in range; it then writes each key's token at that key's slot |
| StripRestore.FillEmpty | tab-processing/process_tokens.py:39-45 | the fill loop on the array computes `Fill(pure, old contents)`: an `IndexError` when pure tokens run out, otherwise the filled list, which is exactly the array's new contents, slot by slot |
| StripRestore.Restore | tab-processing/process_tokens.py:25-45 | `restore_non_instrumental` returns what `RestoreSpec` describes (see RestoreSucceeds and RestoreContents) |
| StripRestore.FillStripped | tab-processing/process_tokens.py:18-23 | filling strip's gaps with strip's pure tokens gives back the input |
| StripRestore.RoundTrip | tab-processing/process_tokens.py:8-45 | `restore(strip(ts)) == ts` for every token list |
| Repeats.RepeatCount | tab-processing/process_tokens.py:97-103 | a count is read only from a close marker; RepeatCountSome and RepeatCountOfDigits say when there is one and what it is |
| Repeats.RepeatCountSome | tab-processing/process_tokens.py:97-101 | a count is found exactly when the token starts with `measure:repeat_close:` and a digit follows; otherwise the bad-count fallback applies |
| Repeats.RepeatCountOfDigits | tab-processing/process_tokens.py:97-103 | digits after the prefix, leading zeros allowed, followed by text that does not start with a digit, are read as their decimal value |
| Repeats.RepeatCountOfMarker | tab-processing/process_tokens.py:97-103 | a close marker written with count `n`, followed by anything that does not start with a digit, reads back as `n` |
| Repeats.CloseIsNotOpen | tab-processing/process_tokens.py:86-88 | a close marker is never taken for an open marker |
| Repeats.FirstCloseIsFirst | tab-processing/process_tokens.py:87-89 | the close-marker search finds the first close marker at or after its start, or reports none when there is no close marker |
| Repeats.FindClose | tab-processing/process_tokens.py:87-89 | the inner `while` stops at the first close marker after the open marker, or at the end of the list |
| Repeats.AppendCopies | tab-processing/process_tokens.py:106-107 | the `for` loop appends exactly `count` copies of the inner tokens |
| Repeats.RepeatAdd | tab-processing/process_tokens.py:104-107 | the copy loop can be split anywhere: `a + b` copies are `a` copies followed by `b` copies |
| Repeats.RepeatLength | tab-processing/process_tokens.py:104-107 | `count` copies of `inner` have length `count * len(inner)` |
| Repeats.RepeatTokens | tab-processing/process_tokens.py:104-107 | every token of the copies is an inner token |
| Repeats.ExpandRegion | tab-processing/process_tokens.py:86-109 | a region (open marker, tokens without a close marker, close marker with count `n`) becomes `n` copies of its inner tokens, with both markers dropped, and the scan resumes after the close marker |
| Repeats.ExpandUnclosed | tab-processing/process_tokens.py:87-93 | an open marker with no close marker after it is emitted unchanged and the scan moves on by one token |
| Repeats.ExpandBadCount | tab-processing/process_tokens.py:96-101 | an open marker whose close marker has no count is emitted unchanged and the scan moves on by one, without consuming the close marker; when no open marker lies between them, the close marker is then emitted as an ordinary token |
| Repeats.ExpandPassThrough | tab-processing/process_tokens.py:110-113 | a stretch without open markers is copied unchanged, in order |
| Repeats.ExpandNoMarkers | tab-processing/process_tokens.py:74-115 | a list without open markers is returned unchanged |
| Repeats.ExpandTokens | tab-processing/process_tokens.py:74-115 | every token of the expansion is a token of the input |
| Repeats.ExpandRepeats | tab-processing/process_tokens.py:74-115 | `expand_repeats` returns `Expand(tokens)`, the expansion the lemmas above characterise |
| TrackMerge.TrackTagLength | tab-processing/process_tokens.py:62 | a track tag found at the head of text is `clean`, one or more digits and `:`; TrackTagLengthOfTag gives the converse |
| TrackMerge.TrackTagLengthOfTag | tab-processing/process_tokens.py:62 | every `clean<digits>:` at the head of text is found as a tag of length `6 + len(digits)`, leading zeros allowed |
| TrackMerge.RemoveTrackTagOfDigits | tab-processing/process_tokens.py:62 | `clean<digits>:` followed by text with no further tag loses exactly the tag, leading zeros allowed |
| TrackMerge.RemoveTrackTags | tab-processing/process_tokens.py:62 | removing tags never lengthens the text; RemoveTrackTagsNoTag and RemoveTrackTagOfTagged say what it does to untagged and tagged tokens |
| TrackMerge.RemoveTrackTagsNoTag | tab-processing/process_tokens.py:62 | text with no track tag is left unchanged |
| TrackMerge.RemoveTrackTagOfTagged | tab-processing/process_tokens.py:62 | `clean<N>:` followed by text with no further tag loses exactly the tag |
| TrackMerge.RemoveTrackTagsAll | tab-processing/process_tokens.py:62 | for every text: one without a tag is unchanged, and one with a leading tag and no tag after it becomes what follows the tag |
| TrackMerge.NoteKey | tab-processing/process_tokens.py:49-52 | the key `re.search` finds: NoteKeySpec proves it is the value of the leftmost `s<digits>:`, or the last-sorting `None` when there is none |
| TrackMerge.NoteKeySpec | tab-processing/process_tokens.py:49-52 | the key is `None` exactly when no `s<digits>:` occurs, and otherwise the value of the digits of the leftmost one |
| TrackMerge.NoteKeyOfNote | tab-processing/process_tokens.py:49-52 | the sort key of a note written as `note:s<n>:…` is `n` |
| TrackMerge.NoteKeyOfRest | tab-processing/process_tokens.py:49-52 | `rest` has no string number, so it gets the key that sorts last |
| TrackMerge.WithKey | tab-processing/process_tokens.py:53 | the key classes of a list: a token is in class `k` exactly when it is in the list and its key is `k` |
| TrackMerge.SortNotes | tab-processing/process_tokens.py:47-54 | the sort result is a permutation of its input and is sorted by key (numbers ascending, keyless last), and within each key class it keeps the input order (stability) |
| TrackMerge.SortNotesUnique | tab-processing/process_tokens.py:53 | any ordering that is sorted by key and stable equals `SortNotes`, so the model does not depend on which stable sort is used |
| TrackMerge.Prune | tab-processing/process_tokens.py:57-70 | every token the loop emits is a cleaned token, and it emits a rest exactly when the cleaned group holds one |
| TrackMerge.PruneNoRest | tab-processing/process_tokens.py:60-70 | without a rest, the loop copies the cleaned tokens |
| TrackMerge.PruneShape | tab-processing/process_tokens.py:60-70 | the loop keeps every token before the first rest, emits one rest at that position, and drops every later rest |
| TrackMerge.PruneRestCount | tab-processing/process_tokens.py:64-68 | the loop emits exactly one rest if any cleaned token is a rest, and none otherwise |
| TrackMerge.PruneMultiset | tab-processing/process_tokens.py:60-70 | as a multiset, the loop emits the cleaned tokens that are not rests plus at most one rest |
| TrackMerge.Cleaned | tab-processing/process_tokens.py:60-62 | the group keeps its length; position by position, a token without a track tag stays as it is, and a token `clean<N>:<t>` with no tag in `t` becomes `t` (`TagDropped`) |
| TrackMerge.MergeTracksAndPrune | tab-processing/process_tokens.py:56-72 | `merge_tracks_and_prune` returns `SortNotes(Prune(Cleaned(notes)))`; the result is sorted by key, is a permutation of the pruned cleaned tokens, and holds exactly one rest when the cleaned group held any rest |
| AcousticSolo.Body | tab-processing/process_tokens.py:131-145 | the collected body tokens come from the input and are never `start` or `end` |
| AcousticSolo.BodyOfFramed | tab-processing/process_tokens.py:131-145 | for a single `start … end` frame, the body is exactly the framed tokens, whatever the header and footer hold |
| AcousticSolo.SplitBody | tab-processing/process_tokens.py:126-145 | the split loop collects `Body(tokens)` |
| AcousticSolo.Tracks | tab-processing/process_tokens.py:156-157 | the tokens a group collects are exactly the `clean…` tokens of the stretch |
| AcousticSolo.RecognizedOf | tab-processing/process_tokens.py:160-169 | the tokens passed through are exactly the recognized tokens of the stretch |
| AcousticSolo.ScanGathers | tab-processing/process_tokens.py:154-162 | track tokens and unrecognized tokens emit nothing; the track tokens join the current group and the unrecognized ones are dropped |
| AcousticSolo.ScanSegment | tab-processing/process_tokens.py:154-169 | a recognized token flushes the current group through the merger, then is emitted itself, and the group starts empty |
| AcousticSolo.ScanNoTracks | tab-processing/process_tokens.py:154-169 | without track tokens, the grouping emits the recognized tokens in order |
| AcousticSolo.ScanChord | tab-processing/process_tokens.py:154-169 | a chord (track tokens, then a recognized token) becomes the merged group followed by that token |
| AcousticSolo.GroupTracks | tab-processing/process_tokens.py:150-173 | the grouping loop emits `Finish(Scan(expanded))`, including the flush of a trailing group |
| AcousticSolo.ProcessedPlainFrame | tab-processing/process_tokens.py:117-175 | one frame with no repeat markers and no track tokens yields its recognized tokens, in order |
| AcousticSolo.ProcessedChord | tab-processing/process_tokens.py:117-175 | one frame holding one chord yields the merged track tokens followed by the recognized token |
| AcousticSolo.ProcessRawAcousticSoloTokens | tab-processing/process_tokens.py:117-175 | `process_raw_acoustic_solo_tokens` on a token list returns `Processed(tokens)`: the body, expanded, then grouped |
| Examples.ExpandThreeCopies | tab-processing/process_tokens.py:74-115 | a one-token region with count 3 becomes three copies of the token |
| Examples.ExpandZeroCopies | tab-processing/process_tokens.py:103-107 | a region with count 0 disappears |
| Examples.ExpandUnclosedExample | tab-processing/process_tokens.py:87-93 | an open marker with no close marker stays in place |
| Examples.CleanedRestExample | tab-processing/process_tokens.py:62 | `clean0:rest` becomes `rest` |
| Examples.CleanedRestOneExample | tab-processing/process_tokens.py:62 | `clean1:rest` becomes `rest` |
| Examples.CleanedNoteExample | tab-processing/process_tokens.py:62 | `clean2:note:s1:f2` becomes `note:s1:f2` |
| Examples.SortOutOfOrderPair | tab-processing/process_tokens.py:49-53 | two tokens whose keys are out of order are swapped; in particular a token without a string number goes after one with a number |
| Examples.SortTwoNotesExample | tab-processing/process_tokens.py:47-54 | `note:s3:f0` and `note:s1:f2` are put in string order |
| Examples.MergeExample | tab-processing/process_tokens.py:56-72 | once the tags are removed, two rests and a fretted note merge into the note followed by a single rest |
| Examples.CleanedOfThree | tab-processing/process_tokens.py:60-62 | cleaning a group of three cleans each of its tokens |
| Examples.MergedExample | tab-processing/process_tokens.py:56-72 | `clean0:rest`, `clean1:rest` and `clean2:note:s1:f2` merge into `note:s1:f2` followed by a single `rest` |
| Examples.StripOfThree | tab-processing/process_tokens.py:8-23 | when only the middle of three tokens is instrumental, strip keeps it and maps indices 0 and 2 to the others |
| Examples.StripExample | tab-processing/process_tokens.py:8-45 | `wait:1`, `note:a`, `bfs:x` strip to `[note:a]` and `{0: wait:1, 2: bfs:x}`, and restore gives the list back |

## Left out

- The file-path branch of `process_raw_acoustic_solo_tokens`, which reads a token file and raises `ValueError`, is not modelled (tab-processing/process_tokens.py:118-123). It is file I/O. The model takes the token list directly.
- `main` and the example-folder driver, which do directory listing and file output, are not modelled (tab-processing/process_tokens.py:178 onwards).
- The tokenizer modules under `tab-processing/tokenizers/` are not part of this model.
- AcousticSolo.SplitBody: the header and footer lists are built but not returned, as in the source, and the model states nothing about them. The source comment says tokens after `end` go to the footer. The code in fact sends them to the header, because `in_body` is false there. Neither list reaches the result.
- The regular expressions are replaced by hand-written string predicates. Python's `re` accepts any Unicode decimal digit for `\d`; the model accepts only ASCII `0`-`9`. It also models `float('inf')` as a `None` key that sorts after every number.
- TrackMerge.SortNotes is a stable insertion sort, while Python uses Timsort. SortNotesUnique proves that every stable sort by the same key gives the same list. Running time is not modelled.
- StripRestore.Place picks the dictionary keys in an unspecified order, while Python iterates in insertion order. The result is the same for every order, because distinct keys that name distinct slots do not interfere. Restore fails whenever two keys name the same slot, whichever of them was written last.
- StripRestore.Restore: when pure tokens run out, the source raises `IndexError`, and the model returns `Err(IndexError)`. Surplus pure tokens cannot occur, because the list length is `len(pure) + len(removed)`. The code has no separate error for a size mismatch, and neither has the model.
- Tokens.DecimalValue has no length limit. Since Python 3.11, `int()` raises `ValueError` on a digit string of more than 4300 digits (tab-processing/process_tokens.py:52 and :103); the model reads such a string as its value.
- StripRestore.Restore: keys that are not integers cannot occur, since the map is typed `map<int, Token>`.
- Repeats.ExpandRepeats and AcousticSolo.ProcessRawAcousticSoloTokens: each inner loop (the close-marker search, the copy loop, the split, the grouping) is a separate method, called from where the source runs that loop.
