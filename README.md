# Letter ordering widget and foreign-object garbage collector

This project models two parts of an interactive whiteboard application in
Dafny and proves properties of the models.

**The "ordonner des lettres" widget** (`resources/library/interactivities/ordonner_des_lettres.wgt/locales/fr/js/script.js`).
It is a small exercise page. Each block plays a sound, shows a prompt, and
presents the letters of an answer word as shuffled tiles. The learner drags
the tiles into order. After every reorder the block turns green when the
tiles spell the answer and red otherwise.

- In the edit view the teacher can change the prompt and the answer, drop an
  audio file on a block, add blocks and close blocks.
- The exercise is saved as a list of records `{text, audio, answer}` and
  loaded back from that list.

The model keeps the page state as a class `LetterWidget.Widget`. It holds the
sequence of blocks and the selected view, and each event handler is a method
of that class. The shuffle stays an in-place algorithm over an `array`
(`LetterTiles.Shuffle`). The random draws it consumes are parameters.

**The foreign-object garbage collector** (`src/core/UBForeignObjectsHandler.cpp`).
For a document directory it does four things:

1. It reads every page (an SVG file) and records the `{uuid}` identifier of
   each stored file a page references. It looks only at the direct children
   of each page's root element: video, audio and image elements, foreign
   objects other than text boxes, and teacher guides, whose media children it
   reads up to the first one whose path carries no identifier.
   `PageScan.ScanKeys` states that the scan records exactly these.
2. It lists the stored-file sub-directories and records the identifier
   carried by each file name.
3. It computes the symmetric difference of the two sorted key lists.
4. For every identifier in that difference that is on disk, it deletes the
   stored file. Such an identifier was not recorded in step 1. So a file that
   a page mentions only from a deeper element, from a text box's ub:src, or
   from a teacher guide's media child after an id-less one IS deleted. A
   widget bundle's thumbnail is deleted first; when the thumbnail is missing
   at that moment, the widget is kept. `PageScan.CureDeletesOnlyOrphans` and
   `PageScan.CureDeletesOrphans` state the two directions against the pages
   themselves.

The collector is a class `ForeignHandler.Handler`. Its two `QMap` fields
are ordered association lists (`QMaps`). The file system is a set of paths.
The loops of the page scan, the directory scans, the teacher-guide walk,
the symmetric-difference merge and the deletion loop are methods proved
against specification functions. The loops inside `rm_r`, `cleanTrash` and
the public `cure` over a list of directories are not modelled as loops (see
"Left out").

Modules:

- `Wrappers`: the Option type.
- `Strings`: the lexicographic order and the string operations both sources use.
- `LetterTiles`: the tiles, the shuffle and the answer check.
- `LetterWidget`: the blocks, records and event handlers.
- `QMaps`: QMap.
- `SymDiffs`: std::set_symmetric_difference.
- `ForeignIds`: the id and thumbnail string functions.
- `ForeignHandler`: the scans and the deletion loop.
- `CureProperties`: what the deletion loop guarantees, given the two maps.
- `PageScan`: which ids the pages reference, and what cure does to the rest.

## Model

| member | source | states |
|---|---|---|
| LetterTiles.SwapIndex | resources/library/interactivities/ordonner_des_lettres.wgt/locales/fr/js/script.js:357 | the swap index is below the array length and is the nearest integer to r*(n-1), a half rounding up (computed over reals, not doubles) |
| LetterTiles.SwapPositions | resources/library/interactivities/ordonner_des_lettres.wgt/locales/fr/js/script.js:357 | one swap index per draw, each below the array length |
| LetterTiles.Swap | resources/library/interactivities/ordonner_des_lettres.wgt/locales/fr/js/script.js:358-360 | one iteration's exchange of positions i and pos, keeping the length; SwapPermutes and SwapIn state what it does |
| LetterTiles.SwapPermutes | resources/library/interactivities/ordonner_des_lettres.wgt/locales/fr/js/script.js:358-360 | exchanging two positions keeps the multiset of elements |
| LetterTiles.SwapIn | resources/library/interactivities/ordonner_des_lettres.wgt/locales/fr/js/script.js:358-360 | the three assignments through tmp leave the array as the old array with positions i and pos exchanged |
| LetterTiles.ShuffleSteps | resources/library/interactivities/ordonner_des_lettres.wgt/locales/fr/js/script.js:355-361 | the array after the first k iterations, each swapping position i with the i-th drawn position; the length never changes |
| LetterTiles.Shuffled | resources/library/interactivities/ordonner_des_lettres.wgt/locales/fr/js/script.js:351-363 | what shuffle leaves in the array once every iteration has run with the given draws; ShuffleStepsPermute states that it is a permutation |
| LetterTiles.ShuffleStepsPermute | resources/library/interactivities/ordonner_des_lettres.wgt/locales/fr/js/script.js:355-361 | after any number of loop iterations the array is a permutation of the original (same length, same multiset) |
| LetterTiles.Shuffle | resources/library/interactivities/ordonner_des_lettres.wgt/locales/fr/js/script.js:351-363 | the array afterwards is the specified swap sequence applied to the old array, and a permutation of it |
| LetterTiles.TilesOf | resources/library/interactivities/ordonner_des_lettres.wgt/locales/fr/js/script.js:256-259 | one tile per answer character, in order; ConcatTilesOf states that they spell the answer |
| LetterTiles.BuildTiles | resources/library/interactivities/ordonner_des_lettres.wgt/locales/fr/js/script.js:256-259 | a fresh array holding one single-character tile per answer character, in answer order |
| LetterTiles.ConcatTilesOf | resources/library/interactivities/ordonner_des_lettres.wgt/locales/fr/js/script.js:256-259 | concatenating the tiles built from an answer gives the answer back |
| LetterTiles.Concat | resources/library/interactivities/ordonner_des_lettres.wgt/locales/fr/js/script.js:370-372 | the text of the tiles joined in document order, as the `each` loop builds `str`; ConcatAppend and ConcatPermutation state its properties |
| LetterTiles.ConcatAppend | resources/library/interactivities/ordonner_des_lettres.wgt/locales/fr/js/script.js:370-372 | the text of two tile lists joined is the text of the first followed by the text of the second |
| LetterTiles.ConcatPermutation | resources/library/interactivities/ordonner_des_lettres.wgt/locales/fr/js/script.js:370-372 | tiles that are a reordering of each other concatenate to strings with the same multiset of characters |
| LetterTiles.TilesKeepLetters | resources/library/interactivities/ordonner_des_lettres.wgt/locales/fr/js/script.js:256-262 | the shuffled tiles of an answer hold exactly the answer's characters, one tile per character |
| LetterTiles.Checked | resources/library/interactivities/ordonner_des_lettres.wgt/locales/fr/js/script.js:373-380 | a checked block is always green or red, never gray |
| LetterTiles.InOrderIsGreen | resources/library/interactivities/ordonner_des_lettres.wgt/locales/fr/js/script.js:366-381 | tiles in the answer's own order are judged green |
| LetterTiles.GreenIffSpelled | resources/library/interactivities/ordonner_des_lettres.wgt/locales/fr/js/script.js:366-381 | single-character tiles are green if and only if they are exactly the answer's tiles in order |
| LetterWidget.ImportExportRoundTrip | resources/library/interactivities/ordonner_des_lettres.wgt/locales/fr/js/script.js:213-267 | exporting the blocks importData built from a list of records gives back the same records in the same order |
| LetterWidget.Imported | resources/library/interactivities/ordonner_des_lettres.wgt/locales/fr/js/script.js:236-267 | importData makes one block per record, numbered 1 to n in record order by the `++tmp` counter; ImportExportRoundTrip states that export gives the records back |
| LetterWidget.ImportedBlock | resources/library/interactivities/ordonner_des_lettres.wgt/locales/fr/js/script.js:240-262 | the block importData builds for a record: its number, prompt, source "../../" plus the audio path, hidden answer, the answer's shuffled single-letter tiles, gray; ImportExportRoundTrip states that export inverts it |
| LetterWidget.ExportedRecord | resources/library/interactivities/ordonner_des_lettres.wgt/locales/fr/js/script.js:215-231 | the record exportData writes for a block: its prompt, its source without the first "../../", and the answer of the editable field in the edit view or of the hidden input otherwise |
| LetterWidget.Exported | resources/library/interactivities/ordonner_des_lettres.wgt/locales/fr/js/script.js:213-233 | one exported record per block, in document order |
| LetterWidget.ForEdit | resources/library/interactivities/ordonner_des_lettres.wgt/locales/fr/js/script.js:100-114 | the blocks after entering the edit view: gray, without tiles, the hidden answer copied into the editable field; EditKeepsExport states that export is unchanged |
| LetterWidget.ForDisplay | resources/library/interactivities/ordonner_des_lettres.wgt/locales/fr/js/script.js:64-86 | the blocks after entering the display view: the edited answer becomes the hidden answer and its shuffled tiles are appended; DisplayKeepsExport states that export is unchanged |
| LetterWidget.ExampleBlock | resources/library/interactivities/ordonner_des_lettres.wgt/locales/fr/js/script.js:270-302 | the example block: number 1, the example prompt, "../../objects/beep.wav", the example answer and its shuffled tiles |
| LetterWidget.NewBlock | resources/library/interactivities/ordonner_des_lettres.wgt/locales/fr/js/script.js:317-341 | the block addContainer builds: the given number, the default prompt, an empty source and hidden answer, the example answer to edit, no tiles, gray |
| LetterWidget.Renumbered | resources/library/interactivities/ordonner_des_lettres.wgt/locales/fr/js/script.js:343-348 | after relabelling there are as many blocks as before, block i carries number i+1, and apart from its number it is the old block i |
| LetterWidget.EditKeepsExport | resources/library/interactivities/ordonner_des_lettres.wgt/locales/fr/js/script.js:92-114 | switching to the edit view does not change what exportData would write |
| LetterWidget.DisplayKeepsExport | resources/library/interactivities/ordonner_des_lettres.wgt/locales/fr/js/script.js:55-88 | switching to the display view commits the edited answers: the export equals what the edit view exported |
| LetterWidget.CheckedBlock | resources/library/interactivities/ordonner_des_lettres.wgt/locales/fr/js/script.js:366-381 | the block turns green if and only if its tiles spell its hidden answer, is never left gray, and nothing but its colour changes |
| LetterWidget.CheckIdempotent | resources/library/interactivities/ordonner_des_lettres.wgt/locales/fr/js/script.js:366-381 | checking a block twice without reordering gives the same block as checking once |
| LetterWidget.AcceptsAudio | resources/library/interactivities/ordonner_des_lettres.wgt/locales/fr/js/script.js:438 | a drop is accepted exactly when its media type begins with "audio" |
| LetterWidget.DroppedSource | resources/library/interactivities/ordonner_des_lettres.wgt/locales/fr/js/script.js:440-443 | the new source is "../../" plus the dropped path without its first character, so export writes that path back |
| LetterWidget.AfterDrop | resources/library/interactivities/ordonner_des_lettres.wgt/locales/fr/js/script.js:428-447 | only a transfer with non-empty text whose parsed type starts with "audio" changes the block, and only its source; DropExport states the effect on export |
| LetterWidget.DropExport | resources/library/interactivities/ordonner_des_lettres.wgt/locales/fr/js/script.js:428-459 | a drop changes the exported audio only for an audio payload, and then to the dropped path minus its first character |
| LetterWidget.ChangeStyle | resources/library/interactivities/ordonner_des_lettres.wgt/locales/fr/js/script.js:396-426 | value 1 removes every pad class, any other value adds all of them, and no other class changes |
| LetterWidget.StyleSettles | resources/library/interactivities/ordonner_des_lettres.wgt/locales/fr/js/script.js:396-426 | applying a style twice equals applying it once, and the plain style after any style gives back the original classes without the pad classes |
| LetterWidget.BuildBlock | resources/library/interactivities/ordonner_des_lettres.wgt/locales/fr/js/script.js:240-262 | the block built for one record is the specified imported block, and its shuffled tiles hold exactly the answer's characters |
| LetterWidget.Widget.ImportData | resources/library/interactivities/ordonner_des_lettres.wgt/locales/fr/js/script.js:236-267 | one block per record is appended, numbered from 1, and every block's tiles hold its answer's characters |
| LetterWidget.Widget.ShowExample | resources/library/interactivities/ordonner_des_lettres.wgt/locales/fr/js/script.js:270-302 | the built-in example block is appended with the example answer's shuffled tiles |
| LetterWidget.Widget.AppendBlock | resources/library/interactivities/ordonner_des_lettres.wgt/locales/fr/js/script.js:241 | appending a block whose tiles agree with its answer keeps the tile invariant and adds it at the end |
| LetterWidget.Widget.Load | resources/library/interactivities/ordonner_des_lettres.wgt/locales/fr/js/script.js:24-38 | on a fresh page the saved records, or the example when none are saved, become blocks numbered 1..n whose export is what was loaded |
| LetterWidget.Widget.ExportData | resources/library/interactivities/ordonner_des_lettres.wgt/locales/fr/js/script.js:213-233 | one record per block in document order, with the answer taken from the editable field in the edit view and from the hidden input otherwise |
| LetterWidget.Widget.RefreshBlockNumbers | resources/library/interactivities/ordonner_des_lettres.wgt/locales/fr/js/script.js:343-348 | every block is relabelled with its position and nothing else changes |
| LetterWidget.Widget.CloseContainer | resources/library/interactivities/ordonner_des_lettres.wgt/locales/fr/js/script.js:140-143 | the closed block is removed and the rest are renumbered 1..n |
| LetterWidget.Widget.AddContainer | resources/library/interactivities/ordonner_des_lettres.wgt/locales/fr/js/script.js:317-341 | a new block with the default prompt and answer is appended, numbered one past the count, so numbering stays consecutive |
| LetterWidget.Widget.SwitchToDisplay | resources/library/interactivities/ordonner_des_lettres.wgt/locales/fr/js/script.js:55-91 | unless already in the display view, every block's edited answer becomes its hidden answer and receives its shuffled tiles, keeping the tile invariant |
| LetterWidget.Widget.SwitchToEdit | resources/library/interactivities/ordonner_des_lettres.wgt/locales/fr/js/script.js:92-120 | unless already in the edit view, every block turns gray, loses its tiles and shows its hidden answer for editing |
| LetterWidget.Widget.CheckResult | resources/library/interactivities/ordonner_des_lettres.wgt/locales/fr/js/script.js:366-381 | the concatenation loop and the comparison recolour block k as CheckedBlock says, and leave every other block alone |
| LetterWidget.Widget.Reorder | resources/library/interactivities/ordonner_des_lettres.wgt/locales/fr/js/script.js:263-265 | a reorder of block k's tiles is followed by the check, and the tile invariant is kept |
| LetterWidget.Widget.OnDropAudio | resources/library/interactivities/ordonner_des_lettres.wgt/locales/fr/js/script.js:428-459 | in the edit view, whose blocks carry the drop handler, the drop alerts exactly when there is no dataTransfer or its text is empty, and only an audio payload replaces the block's source |
| Strings.Less | src/core/UBForeignObjectsHandler.cpp:143-149 | the order QMap keeps its QString keys in, so that keys() comes out sorted for set_symmetric_difference: lexicographic by character; LessIrreflexive, LessTransitive, LessTotal and LessAsymmetric state that it is a strict total order |
| Strings.LessIrreflexive | src/core/UBForeignObjectsHandler.cpp:143-149 | no key is below itself |
| Strings.LessTransitive | src/core/UBForeignObjectsHandler.cpp:143-149 | a key below a key below a third key is below the third |
| Strings.LessTotal | src/core/UBForeignObjectsHandler.cpp:143-149 | of two different keys one is below the other |
| Strings.LessAsymmetric | src/core/UBForeignObjectsHandler.cpp:143-149 | two keys are never each below the other |
| Strings.IndexOf | resources/library/interactivities/ordonner_des_lettres.wgt/locales/fr/js/script.js:219 | String.prototype.indexOf behind a replace with a string pattern: the first position at or after `from` where the pattern occurs, with no occurrence between; None exactly when it occurs nowhere from there |
| Strings.ReplaceFirstOfPrefix | resources/library/interactivities/ordonner_des_lettres.wgt/locales/fr/js/script.js:219 | replacing the first "../../" of "../../"+s gives s |
| Strings.ReplaceFirst | resources/library/interactivities/ordonner_des_lettres.wgt/locales/fr/js/script.js:219 | replace with a string pattern rewrites the first occurrence only, as IndexOf finds it; ReplaceFirstOfPrefix states the round trip export relies on |
| Strings.Substr | resources/library/interactivities/ordonner_des_lettres.wgt/locales/fr/js/script.js:440 | substr(start, length) holds min(length, characters left from start) characters, none when start is past the end, and its i-th character is the string's character start+i |
| Strings.Without | src/core/UBForeignObjectsHandler.cpp:291 | after removing the braces no brace remains, and every character left was in the path |
| Strings.ReplaceAll | src/core/UBForeignObjectsHandler.cpp:291 | QString::replace rewrites every occurrence, left to right, resuming after each; ReplaceAllNone, NoWgtLeft, ReplaceWgtSuffix and ThumbOfStoredWidget state its effect |
| Strings.ReplaceAllNone | src/core/UBForeignObjectsHandler.cpp:291 | a string that holds no occurrence of the pattern is left unchanged |
| QMaps.Keys | src/core/UBForeignObjectsHandler.cpp:143-144 | keys() lists the keys in iteration order, strictly ascending |
| QMaps.Value | src/core/UBForeignObjectsHandler.cpp:195 | value(k) is present exactly when k is a key, and is the value stored under k |
| QMaps.Insert | src/core/UBForeignObjectsHandler.cpp:136 | after insert the map is still ordered, k maps to v, and every other key keeps its value |
| QMaps.InsertKeeps | src/core/UBForeignObjectsHandler.cpp:136 | insert never loses a key |
| SymDiffs.SymDiff | src/core/UBForeignObjectsHandler.cpp:147-149 | the merge std::set_symmetric_difference performs: the smaller head goes out, equal heads are both skipped, and the rest of the longer range is copied; SymDiffSpec states what it holds |
| SymDiffs.SymDiffSpec | src/core/UBForeignObjectsHandler.cpp:147-149 | on strictly sorted inputs the merge output is strictly sorted and holds exactly the keys in one input but not the other |
| SymDiffs.SymDiffLength | src/core/UBForeignObjectsHandler.cpp:147-149 | the output never holds more than both inputs together |
| SymDiffs.SymDiffDisjoint | src/core/UBForeignObjectsHandler.cpp:145-149 | inputs with no common key come out whole, so the output can reach the sum of the input sizes |
| SymDiffs.SymDiffAtRest | src/core/UBForeignObjectsHandler.cpp:147-149 | the merge continued from positions i and j is the merge of what is left of the two ranges |
| SymDiffs.SymmetricDifferenceInto | src/core/UBForeignObjectsHandler.cpp:145-150 | writing into a fixed buffer yields the whole merge output exactly when it fits, and otherwise fills the buffer with its prefix |
| SymDiffs.PresizedCapacity | src/core/UBForeignObjectsHandler.cpp:145 | the size v.resize gives the result vector: the larger of the two key counts |
| SymDiffs.PresizedTooSmall | src/core/UBForeignObjectsHandler.cpp:145 | with one key referenced only and another present only, the output needs more slots than the presized vector has |
| SymDiffs.SafeCapacity | src/core/UBForeignObjectsHandler.cpp:145 | the sum of the input sizes always holds the output (the capacity the corrected FindRedundandElements uses) |
| ForeignIds.FirstMatch | src/core/UBForeignObjectsHandler.cpp:276-277 | a position found is at or after the start, and the pattern matches there |
| ForeignIds.MatchesAt | src/core/UBForeignObjectsHandler.cpp:276 | where the pattern `\{.(?!.*\{).*\}` can start: a "{", one more character, then no "{" and some "}" in the rest |
| ForeignIds.FirstMatchSpec | src/core/UBForeignObjectsHandler.cpp:276-277 | the pattern matches nowhere before the position found, and nowhere at all when none is found |
| ForeignIds.MatchEnd | src/core/UBForeignObjectsHandler.cpp:276-281 | the greedy match runs to the last "}" of the path, with no "{" after its second character |
| ForeignIds.StrIdFrom | src/core/UBForeignObjectsHandler.cpp:270-282 | null exactly when no match is found; otherwise at least three characters, opening with "{" and closing with "}" |
| ForeignIds.StrIdFromSpec | src/core/UBForeignObjectsHandler.cpp:270-282 | null exactly when the pattern matches nowhere; otherwise the text from the leftmost match to the last "}" of the path, with no "{" after its second character |
| ForeignIds.StrIdOfStoredPath | src/core/UBForeignObjectsHandler.cpp:270-282 | a stored path made of a brace-free prefix, "{uuid}" and a brace-free suffix yields exactly "{uuid}" |
| ForeignIds.StoredPathMatch | src/core/UBForeignObjectsHandler.cpp:276-277 | in a path of a brace-free prefix, "{uuid}" and a brace-free suffix, the leftmost match is at the brace |
| ForeignIds.StrIdIdempotent | src/core/UBForeignObjectsHandler.cpp:270-282 | the id of an id is itself |
| ForeignIds.ThumbFileNameFrom | src/core/UBForeignObjectsHandler.cpp:284-294 | null exactly for the empty path, and a widget path gives a ".png" path; ThumbOfStoredWidget states that the rest of the path is kept |
| ForeignIds.ThumbFileNameSpec | src/core/UBForeignObjectsHandler.cpp:289-293 | a thumbnail path holds no brace and no ".wgt" |
| ForeignIds.ThumbOfStoredWidget | src/core/UBForeignObjectsHandler.cpp:289-292 | the thumbnail of a stored widget `dir{id}.wgt` is `dirid.png`: every other character kept in order, the braces dropped, ".wgt" turned into ".png" |
| ForeignIds.NoWgtLeft | src/core/UBForeignObjectsHandler.cpp:291 | after replacing ".wgt" by ".png" no ".wgt" remains anywhere |
| ForeignIds.ReplaceWgtSuffix | src/core/UBForeignObjectsHandler.cpp:291 | a trailing ".wgt" always becomes a trailing ".png" |
| ForeignIds.WidgetThumbSuffix | src/core/UBForeignObjectsHandler.cpp:198-199 | the thumbnail of a path that ends in ".wgt" ends in ".png" |
| ForeignHandler.Attribute | src/core/UBForeignObjectsHandler.cpp:239 | attribute(name) is present exactly when the element has that attribute |
| ForeignHandler.ChildrenTagged | src/core/UBForeignObjectsHandler.cpp:219 | the children walked by firstChildElement(tag)/nextSiblingElement(tag) are exactly the children with that tag; TaggedAppend and TaggedSnoc state that they come in document order |
| ForeignHandler.TaggedAppend | src/core/UBForeignObjectsHandler.cpp:219-233 | the walk keeps document order: the tagged children of two runs of siblings are those of the first followed by those of the second |
| ForeignHandler.TaggedSnoc | src/core/UBForeignObjectsHandler.cpp:219-233 | the last sibling is walked last, and only when it carries the tag |
| ForeignHandler.AddRef | src/core/UBForeignObjectsHandler.cpp:239-247 | a present path carrying an id records id -> path, anything else changes nothing, and no other id changes |
| ForeignHandler.MediaRefs | src/core/UBForeignObjectsHandler.cpp:237-248 | the referenced-ids map stays ordered, and every entry still maps an id to a path carrying that id |
| ForeignHandler.ForeignObjectRefs | src/core/UBForeignObjectsHandler.cpp:250-268 | as MediaRefs, reading ub:src and skipping text boxes |
| ForeignHandler.GuideRefs | src/core/UBForeignObjectsHandler.cpp:217-235 | as MediaRefs, over the media children of a teacher guide until the first without an id |
| ForeignHandler.TeacherGuideRefs | src/core/UBForeignObjectsHandler.cpp:217-235 | as GuideRefs, over every media child of the guide |
| ForeignHandler.InvokeRefs | src/core/UBForeignObjectsHandler.cpp:88-99 | dispatch keeps the map ordered and consistent, and a tag outside video/audio/image/foreignObject/teacherGuide changes nothing |
| ForeignHandler.PageRefs | src/core/UBForeignObjectsHandler.cpp:101-112 | reading a page's child elements in order keeps the map ordered and consistent; PageKeeps, PageRecords and PageOnly state which ids it holds afterwards |
| ForeignHandler.PagesRefs | src/core/UBForeignObjectsHandler.cpp:185-188 | reading every page in turn keeps the map ordered and consistent; ScanKeys states which ids it holds afterwards |
| ForeignHandler.AddEntry | src/core/UBForeignObjectsHandler.cpp:131-136 | a file name carrying an id records id -> absolute path, and no other id changes |
| ForeignHandler.ScanPath | src/core/UBForeignObjectsHandler.cpp:116-119 | the absolute path of a scan directory, `absPrefix + dirName` with `absPrefix` the document path and "/"; ScanPathParts states its parts |
| ForeignHandler.ScanPathParts | src/core/UBForeignObjectsHandler.cpp:116-119 | a scan directory's path is the document path, one separator, then the directory's name |
| ForeignHandler.DirIds | src/core/UBForeignObjectsHandler.cpp:128-138 | the present-ids map stays ordered over a whole listing |
| ForeignHandler.FileSystemIds | src/core/UBForeignObjectsHandler.cpp:114-126 | the present-ids map stays ordered over the scan directories; FileSystemIdsKeys states which ids it holds |
| ForeignHandler.RemoveTree | src/core/UBForeignObjectsHandler.cpp:153-177 | rm_r as the model takes it: the path and every path below it are gone, and nothing else is touched; hidden and system entries, which rm_r does not list, are removed here too (see Left out) |
| ForeignHandler.DeleteStep | src/core/UBForeignObjectsHandler.cpp:195-205 | a candidate not on disk, or a widget without its thumbnail, removes nothing; otherwise the stored path is removed, and for a widget its thumbnail too, no other path goes, and exactly what lies under the removed paths disappears |
| ForeignHandler.RemoveCandidate | src/core/UBForeignObjectsHandler.cpp:195-205 | one iteration of the deletion loop leaves the file system and removes the paths that DeleteStep gives |
| ForeignHandler.Deletions | src/core/UBForeignObjectsHandler.cpp:194-212 | the deletion loop only shrinks the file system and removes at most two paths per candidate; DeletionsRemove and CureDeletesUnreferenced state what it deletes |
| ForeignHandler.Handler.constructor | src/core/UBForeignObjectsHandler.cpp:314-318 | the collector starts with two empty maps |
| ForeignHandler.Handler.RecordRef | src/core/UBForeignObjectsHandler.cpp:246 | inserting an id with a path that carries it keeps both maps ordered and every referenced entry consistent |
| ForeignHandler.Handler.MediaToContainer | src/core/UBForeignObjectsHandler.cpp:237-248 | the referenced-ids map becomes MediaRefs of the old one; nothing else changes |
| ForeignHandler.Handler.ForeignObjectToContainer | src/core/UBForeignObjectsHandler.cpp:250-268 | the referenced-ids map becomes ForeignObjectRefs of the old one; nothing else changes |
| ForeignHandler.Handler.TeacherGuideToContainer | src/core/UBForeignObjectsHandler.cpp:217-235 | the loop over media children leaves the map TeacherGuideRefs says, returning at the first child without an id |
| ForeignHandler.Handler.InvokeFromText | src/core/UBForeignObjectsHandler.cpp:88-99 | the map becomes InvokeRefs of the old one |
| ForeignHandler.Handler.FitIdsFromSvgDom | src/core/UBForeignObjectsHandler.cpp:101-112 | the loop over the root's child elements leaves the map PageRefs says |
| ForeignHandler.Handler.RecordEntry | src/core/UBForeignObjectsHandler.cpp:131-136 | one listed entry leaves the present-ids map AddEntry says; the referenced ids are untouched |
| ForeignHandler.Handler.FitIdsFromDir | src/core/UBForeignObjectsHandler.cpp:128-138 | the loop over a listing leaves the present-ids map DirIds says |
| ForeignHandler.Handler.FitIdsFromFileSystem | src/core/UBForeignObjectsHandler.cpp:114-126 | the loop over the existing scan directories leaves the present-ids map FileSystemIds says |
| ForeignHandler.Handler.FindRedundandElements | src/core/UBForeignObjectsHandler.cpp:140-151 | the candidates are strictly sorted and are exactly the ids that are referenced but not present, or present but not referenced |
| ForeignHandler.Handler.RemoveRedundant | src/core/UBForeignObjectsHandler.cpp:194-212 | the deletion loop leaves the file system and removed paths that Deletions gives |
| ForeignHandler.Handler.Cure | src/core/UBForeignObjectsHandler.cpp:179-215 | cure scans the pages, then the directories, then deletes along the symmetric difference of the two key lists |
| CureProperties.DeletionsShrink | src/core/UBForeignObjectsHandler.cpp:194-212 | every file that disappears lies under a path the loop removed |
| CureProperties.DeletionsFromCandidates | src/core/UBForeignObjectsHandler.cpp:194-212 | every removed path is the stored path, or the thumbnail, of a candidate that is on disk |
| CureProperties.CureDeletesOnlyUnreferenced | src/core/UBForeignObjectsHandler.cpp:190-212 | every file cure deletes lies under the stored path of an id that is on disk and absent from the referenced-ids map, or under that path's thumbnail; CureDeletesOnlyOrphans restates it against the pages |
| CureProperties.DeletionsMonotone | src/core/UBForeignObjectsHandler.cpp:194-212 | the deletion loop never brings a file back: after all the candidates the disk holds no more than after the first j |
| CureProperties.DeletionsRemove | src/core/UBForeignObjectsHandler.cpp:195-205 | a candidate that is on disk, for a widget with its thumbnail still there when its turn comes, leaves nothing under its stored path or thumbnail once the loop ends |
| CureProperties.ThumbReachesTurn | src/core/UBForeignObjectsHandler.cpp:198-201 | a widget's thumbnail that is on disk and lies under no other unreferenced path is still there when the loop reaches the widget |
| CureProperties.CureDeletesUnreferenced | src/core/UBForeignObjectsHandler.cpp:190-212 | every id on disk that is absent from the referenced-ids map is deleted: nothing under its stored path survives cure, and for a widget nothing under its thumbnail, unless the thumbnail is missing when its turn comes |
| CureProperties.MissingPathRemovesNothing | src/core/UBForeignObjectsHandler.cpp:155-158 | rm_r of a path that does not exist removes nothing, on a disk that holds every parent directory |
| CureProperties.WidgetWithoutThumbKept | src/core/UBForeignObjectsHandler.cpp:198-202 | a widget whose thumbnail is not on disk is never removed |
| CureProperties.WidgetIsNotThumbnail | src/core/UBForeignObjectsHandler.cpp:43-44 | a ".wgt" path and a ".png" path are never the same path |
| CureProperties.AbsentCandidateRemovesNothing | src/core/UBForeignObjectsHandler.cpp:195-197 | a candidate that is referenced but not on disk removes nothing |
| CureProperties.LaterEntryWins | src/core/UBForeignObjectsHandler.cpp:136 | of several listed files carrying the same id, the last one listed is recorded |
| CureProperties.DirIdsKeys | src/core/UBForeignObjectsHandler.cpp:128-138 | the present ids are exactly the ids already there plus those the listed names carry |
| CureProperties.FileSystemIdsKeys | src/core/UBForeignObjectsHandler.cpp:114-126 | the present ids after the directory scan are the old ones plus exactly the ids carried by names in the scan directories that exist; a missing directory adds nothing |
| CureProperties.GuideStopsAtIdless | src/core/UBForeignObjectsHandler.cpp:227-230 | the first media child whose path carries no id ends the scan, and the children after it are never read |
| CureProperties.IdlessFirstEndsGuide | src/core/UBForeignObjectsHandler.cpp:227-230 | a guide whose first media child carries no id is walked to an end with the map unchanged, whatever the later children hold, a missing relativePath included |
| CureProperties.GuideRecords | src/core/UBForeignObjectsHandler.cpp:220-234 | a media child read by the scan is recorded unless a later child carries the same id |
| CureProperties.GuideUntouched | src/core/UBForeignObjectsHandler.cpp:220-234 | the scan never changes the value of an id no remaining child carries |
| CureProperties.MediaRecorded | src/core/UBForeignObjectsHandler.cpp:90-93 | an image, audio or video element whose xlink:href carries an id records that id with that path |
| CureProperties.TextBoxIgnored | src/core/UBForeignObjectsHandler.cpp:252-255 | a text box never adds a reference, whatever its ub:src says |
| PageScan.ElementReferences | src/core/UBForeignObjectsHandler.cpp:88-99 | which child of a page's root references an id: a video, audio or image through xlink:href, a foreign object other than a text box through ub:src, a teacher guide through a media child whose earlier media siblings all carry ids |
| PageScan.Referenced | src/core/UBForeignObjectsHandler.cpp:101-112 | some direct child of some page's root references the id |
| PageScan.AddRefKeeps | src/core/UBForeignObjectsHandler.cpp:239-247 | recording a path never drops an id already recorded |
| PageScan.GuideKeeps | src/core/UBForeignObjectsHandler.cpp:217-235 | the teacher-guide walk never drops an id already recorded |
| PageScan.InvokeKeeps | src/core/UBForeignObjectsHandler.cpp:88-99 | invokeFromText never drops an id already recorded |
| PageScan.PageKeeps | src/core/UBForeignObjectsHandler.cpp:101-112 | reading a page never drops an id already recorded |
| PageScan.PagesKeeps | src/core/UBForeignObjectsHandler.cpp:185-188 | reading the pages never drops an id already recorded |
| PageScan.GuideRecordsReferenced | src/core/UBForeignObjectsHandler.cpp:217-235 | a media child that carries an id, after media siblings that all carry ids, gets its id recorded |
| PageScan.GuideReferencesShift | src/core/UBForeignObjectsHandler.cpp:220-234 | after the walk passes a media child that carries an id, the later children reference what they referenced before |
| PageScan.InvokeRecords | src/core/UBForeignObjectsHandler.cpp:88-99 | a child of the root that references an id gets it recorded |
| PageScan.PageRecords | src/core/UBForeignObjectsHandler.cpp:101-112 | reading a page records every id that one of the root's children references |
| PageScan.PagesRecords | src/core/UBForeignObjectsHandler.cpp:185-188 | reading the pages records every id that some page references |
| PageScan.AddRefOnly | src/core/UBForeignObjectsHandler.cpp:239-247 | recording a path adds no id other than the one the path carries |
| PageScan.GuideOnly | src/core/UBForeignObjectsHandler.cpp:217-235 | the teacher-guide walk records only ids its media children reference |
| PageScan.InvokeOnly | src/core/UBForeignObjectsHandler.cpp:88-99 | invokeFromText records only an id the element references |
| PageScan.PageReferencesSnoc | src/core/UBForeignObjectsHandler.cpp:101-112 | a reference from the last child of the root, or from a child before it, is a reference of the page |
| PageScan.PageOnly | src/core/UBForeignObjectsHandler.cpp:101-112 | reading a page records only ids that the root's children reference |
| PageScan.ReferencedSnoc | src/core/UBForeignObjectsHandler.cpp:185-188 | a reference on the last page, or on a page before it, is a reference of the document |
| PageScan.PagesOnly | src/core/UBForeignObjectsHandler.cpp:185-188 | reading the pages records only ids that some page references |
| PageScan.ScanKeys | src/core/UBForeignObjectsHandler.cpp:185-188 | after the page scan an id is recorded if and only if it was recorded before or some page references it |
| PageScan.CureDeletesOnlyOrphans | src/core/UBForeignObjectsHandler.cpp:179-212 | with the referenced ids read from the pages, every file cure deletes lies under the stored path, or the thumbnail, of an id that is on disk, that no page references and that was not recorded before the scan |
| PageScan.CureDeletesOrphans | src/core/UBForeignObjectsHandler.cpp:179-212 | with the referenced ids read from the pages, an id on disk that no page references and that was not recorded before loses everything under its stored path, and a widget everything under its thumbnail, when the thumbnail is there at its turn |

## Left out

- Widget markup: prompts and answers are inserted into HTML (`"<div>" + text + "</div>"`, `value='" + answer + "'`). The model treats them as plain text, so markup or a quote inside an answer is not interpreted.
- Widget characters: `for (var j in answer)` walks UTF-16 code units. The model walks Dafny characters, so a surrogate pair is not split into two tiles here.
- Widget randomness: `Math.random()` draws are parameters (one sequence of draws in [0, 1) per shuffle).
- LetterTiles.SwapIndex: `r*(n-1)` and `Math.round` are computed over exact reals, not IEEE doubles, so rounding errors of the product are not modelled.
- Widget host: `window.sankore`, `window.widget` and the preference store are not modelled, and neither is JSON. `Widget.Load` takes the saved records, or none, as a parameter. The style preference and the reload button are left out.
- Widget audio: playback, pause, replay and their timers (script.js lines 122-125 and 171-209) are not modelled.
- Widget drops: `stringToXML` is not modelled. A drop arrives already parsed into its `path` and `type` texts, or as "unparsable", where the source throws and nothing changes. Empty text is treated as unparsable whatever parse result accompanies it.
- Widget edits: the user's typing into contenteditable prompts and answers is not an operation of the model; a block's fields can simply hold any text.
- Widget dead code: the first `checkResult` (script.js lines 305-314) is overridden by the second and is never called. The `.add_img`, `.close_img`, `.true_img` and `.false_img` handlers act on elements this widget never creates. None of these is modelled.
- Strings.Less: it compares Unicode scalar values, where QString's operator< compares UTF-16 code units. The two orders differ only between a character above U+FFFF and one from U+E000 to U+FFFF, and the uuids the application writes between braces hold neither.
- LetterWidget.ChangeStyle: JavaScript's loose `val == 1` accepts "1" as well as 1. The model takes the value as an integer.
- Collector I/O: reading the SVG files (`createDomFromSvg`), listing directories and the `QFile::exists` checks are parameters.
  - Pages arrive parsed into element trees; a page that cannot be read is a page without child elements.
  - Directory listings arrive as a map from directory path to its entries, in listing order.
  - The disk is a set of paths. The model does not require the listings and that set to agree.
- Collector DOM: only element nodes are modelled. Text and comment nodes are never visited by the element-walking calls.
- ForeignHandler.Handler.TeacherGuideToContainer: when the walk reaches a media child without a relativePath, the source's `continue` never advances, so the loop never ends. The model requires the walk to end (`GuideTerminates`, `GuideReadable`, `Readable`): every media child up to the first whose path carries no id has a relativePath. Children after that one are never read and may lack it (`IdlessFirstEndsGuide`).
- ForeignIds.StrIdFrom: QRegExp's `.` is taken to match any character, including a line break; file paths contain none.
- Collector deletion: `rm_r` is modelled by its effect. Its failure results, which the source ignores, and the order in which it visits sub-entries are not modelled.
- CureProperties.CureDeletesUnreferenced: for a widget it assumes the thumbnail is on disk and lies under no other unreferenced path, so that the existence check at the widget's turn succeeds; `DeletionsRemove` states the same conclusion from the disk as it is at that turn.
- ForeignHandler.RemoveTree: the disk is a set of paths that the model does not require to hold every parent directory. On such a set, removing a path that is not itself on disk still removes what lies under it, where `rm_r` returns at once; on a disk that holds every parent directory the two agree (`MissingPathRemovesNothing`). The model also removes every path below a directory, where `rm_r` lists sub-entries with `QDir::AllEntries | QDir::NoDotAndDotDot` only (cpp line 166). Hidden and system entries, broken symbolic links among them, are never visited, so they stay, and `rmdir` then fails on the directory that still holds them. A widget directory `{u}.wgt/` holding a `.DS_Store` file is kept whole by the source and removed whole by the model.
- Collector cleanup: removing the candidate's parent directory when it is left empty (cpp lines 206-211) is left out, and so is `cleanTrash`, which deletes the `*.swf` files before the scan with a loop of `rm_r` calls.
- Collector logging: `qDebug` output and `Q_ASSERT` are left out.
- Collector entry points: the public `cure(QList<QUrl>)` only calls `cure` once per directory, on the same object, so the maps carry over from one directory to the next (`Handler.Cure` keeps them). The list loop itself is not modelled. Because of the carry-over, an id recorded from the pages of an earlier directory also keeps a later directory's file with that id, even when no page of the later directory references it. `PageScan.Orphan` says so by asking the id to be absent from the map the scan starts with.
- ForeignHandler.Handler.FindRedundandElements: it uses a buffer of `|domIds| + |presentIds|` slots, not the source's presized vector (see Findings).

## Findings

| source | as written | input that shows it | evidently intended | confidence | as-written member | corrected member |
|---|---|---|---|---|---|---|
| src/core/UBForeignObjectsHandler.cpp:145 | the result vector is sized to the larger of the two key counts before set_symmetric_difference writes through `v.begin()` | the pages reference `{a}` only and the disk holds `{b}` only: the difference has two ids and the vector has one slot, so the second id is written past the end | a capacity of both counts together (or a back inserter), which always holds the difference | not executed | SymDiffs.PresizedTooSmall | SymDiffs.SafeCapacity |
