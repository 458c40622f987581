# shaderDemo playback core in Dafny

A model of the image-playback core of shaderDemo, a desktop viewer. The
viewer loads a directory of PNG files into a name-keyed map and plays the
images back as a slideshow, at about 30 frames a second, with pause and
single-step keys. The project models two parts.

**The image loader.**
- `ImageData` with its two constructors and `isValid`.
- `ImageLoadOptions`.
- The map comparator `NumericStringCompare`. Under it, two names compare by the integers `std::stoi` reads from them, or as plain strings when a conversion throws.
- The `std::map` that uses this comparator.
- `loadImagesFromDirectory` (without the resizing branch): filter, sort, truncate, decode, insert.
- `getImage`, `getImageNames`, `getImageCount`, `clearImages`, and the stem extraction.

**The two renderers' playback state machines.**
- The keyboard controls `togglePause`, `stepForward` and `stepBackward`.
- The wrap-around of `nextFrame` and `previousFrame`.
- One pass of each `renderLoop`: step handling, the 33 ms timer, presenting.
- The guards and format choice of each `updateTexture`.
- From the compute renderer: the work-group count and the statistics counter that resets at 60.

The modules follow the program:

| file | module | what it holds |
|---|---|---|
| `wrappers.dfy` | `Wrappers` | `Option` |
| `orders.dfy` | `Orders` | comparator properties the map relies on (strict weak order, restricted to a key set) |
| `numeric_order.dfy` | `NumericOrder` | `std::stoi` as a partial function on strings, `std::string::operator<`, `NumericStringCompare` and its laws |
| `images.dfy` | `Images` | `ImageData`, `isValid`, the constructors, `ImageLoadOptions`, the shape of a successful decode |
| `image_store.dfy` | `ImageStore` | the map as the sorted sequence of its entries. Lookup and insertion go through the lower bound, as the balanced tree does |
| `image_loader.dfy` | `ImageLoader` | `path::stem`/`extension`, candidate filter, sort, truncation, the load loop |
| `playback.dfy` | `Playback` | the state shared by both renderers, the controls, index arithmetic, upload formats, step consumption |
| `render_loop.dfy` | `RenderLoop` | one pass of `render/Renderer.cpp`'s loop, runs of events, its `updateTexture` |
| `compute_loop.dfy` | `ComputeLoop` | one pass of `computeRenderer/Renderer.cpp`'s loop, its `updateTexture`, group count, `frameCount` |

**How the outside world enters the model.**
- Time is a millisecond reading passed to each pass of a loop.
- The directory listing is a sequence of entries, each a file name plus whether it is a regular file.
- `stbi_load` is an oracle from file name to an optional decoded image. Its result carries what stb guarantees: positive dimensions, 1 to 4 channels, and exactly `w*h*c` bytes.
- A GL upload is an `Upload` value: format, dimensions, and the buffer handed over.
- A present is a flag in the frame a pass yields.
- Key presses and loop passes are interleaved as one sequence of events.

**Behaviour worth knowing before reading the table.**
- The compute renderer does not present a paused pass unless both step requests are pending. It consumes the forward step first, so only the backward flag is still set when line 208 is evaluated (see Findings).
- In both renderers, a step still pending after playback resumes is consumed, and a due timer advance follows in the same pass (`RenderLoop.ResumedStepAndAdvance`).
- On a missing path or a non-directory, `loadImagesFromDirectory` returns `false` and leaves the map as it was.
- `loadImagesFromDirectory` returns the flag `loadedCount > 0`, not the count.
- Neither renderer sets `GL_UNPACK_ALIGNMENT`, so GL pads every row of an upload to a multiple of 4 bytes while `stbi_load` packs them (see Findings). An `Upload` records the alignment in force, and `Playback.ReadSize` follows GL's unpacking rule: every row but the last at the padded stride, then one whole row.

## Model

| member | source | states |
|---|---|---|
| Images.DefaultImage | ImageLoader.h:16 | the default record has zero width, height and channels and no bytes, so it is not valid |
| Images.IsValid | ImageLoader.h:21 | a record is valid exactly when it has at least one byte and a positive width and height |
| Images.SizedImage | ImageLoader.h:18-19 | the sized constructor keeps the dimensions and holds exactly `size` bytes, each equal to the source byte at the same position |
| Images.DefaultOptions | ImageLoader.h:25-30 | default options set `maxImages` to 0, meaning no limit, and log verbosely |
| Images.FromDecoded | ImageLoader.cpp:131-138 | the record stored for a decoded file is valid and well-shaped, with the decoder's dimensions, channel count and bytes |
| NumericOrder.Stoi | ImageLoader.h:37-38 | `stoi` yields a value exactly when a number can be read after the white space and the optional sign, and that number fits in a 32-bit `int` |
| NumericOrder.DecimalRoundTrip | ImageLoader.h:37-38 | reading back the decimal rendering of any 32-bit integer gives the integer |
| NumericOrder.StoiPaddedNumber | ImageLoader.h:37-38 | leading zeros and any suffix starting with a non-digit do not change the value read |
| NumericOrder.LongNumberOverflows | ImageLoader.h:37-43 | eleven or more digits without a leading zero never fit, so such names fall back to string comparison |
| NumericOrder.NoLeadingNumberFails | ImageLoader.h:37-43 | a name that begins with anything other than white space, a sign or a digit never converts |
| NumericOrder.LexTransitive | ImageLoader.h:42 | string comparison is transitive |
| NumericOrder.LexConnected | ImageLoader.h:42 | of two different strings, string comparison orders one before the other |
| NumericOrder.NumericLessIrreflexive | ImageLoader.h:33-45 | no name orders before itself |
| NumericOrder.NumericLess | ImageLoader.h:33-45 | two names compare by their converted values when `stoi` succeeds on both, and by `std::string` order when either conversion throws |
| NumericOrder.NumericLessAsymmetric | ImageLoader.h:33-45 | two names are never each before the other |
| NumericOrder.EquivalentIff | ImageLoader.h:33-45 | two names are one map key exactly when they are equal or both convert to the same integer |
| NumericOrder.NumericKeyOrder | ImageLoader.h:33-45 | the comparator is irreflexive and asymmetric, and its equivalence is transitive on all strings |
| NumericOrder.ParsedNamesStrictWeakOrder | ImageLoader.h:36-39 | over names that all convert, the comparator is a strict weak order |
| NumericOrder.UnparsedNamesStrictTotalOrder | ImageLoader.h:40-43 | over names none of which converts, the comparator is a strict total order |
| NumericOrder.SameValueNamesShareKey | ImageLoader.h:33-45 | "1", "01" and "1a" are pairwise equivalent, so they occupy a single map key |
| NumericOrder.OverflowBreaksTransitivity | ImageLoader.h:33-45 | "2" < "10" < "10000000000" < "2", so the comparator is not transitive on those three names |
| ImageStore.LowerBound | ImageLoader.h:69 | the search stops at the first key not ordered before the probe; every earlier key is ordered before it |
| ImageStore.Find | ImageLoader.cpp:158-164 | a lookup returns a record only when an entry whose key is equivalent to the probe holds it |
| ImageStore.FindExact | ImageLoader.cpp:158-164 | in a sorted map, a lookup succeeds exactly when some key is equivalent to the probe, and returns that entry's record |
| ImageStore.Assign | ImageLoader.cpp:138 | assignment adds one entry exactly when the key was not found, and adds no key other than the one assigned |
| ImageStore.FindAfterAssign | ImageLoader.cpp:138 | looking up the key just assigned finds the record just assigned |
| ImageStore.FindAfterAssignOther | ImageLoader.cpp:138 | after an assignment, keys equivalent to the assigned one find the new record, and every other lookup is unchanged |
| ImageStore.AssignKeepsSorted | ImageLoader.h:69 | assignment keeps the keys in strictly increasing comparator order while the comparator is transitive on them |
| ImageStore.Names | ImageLoader.cpp:166-175 | one name per entry, in iteration order |
| ImageStore.Count | ImageLoader.h:62 | `getImageCount` is the number of entries, which is the number of names `getImageNames` lists |
| ImageStore.NamesOrderedAndDistinct | ImageLoader.cpp:166-175 | the listed names increase under the comparator, no two are equal or equivalent, and there are `getImageCount` of them |
| ImageStore.Clear | ImageLoader.cpp:21-23 | after clearing, no lookup finds anything, no name is listed, and the count is 0 |
| ImageStore.AssignKeepsWellShaped | ImageLoader.cpp:135-138 | assigning a well-shaped record keeps every record of the map well-shaped |
| ImageStore.FindWellShaped | ImageLoader.cpp:158-164 | a lookup in a map of well-shaped records returns a well-shaped record |
| ImageLoader.Extension | ImageLoader.cpp:42 | the extension is a suffix of the file name |
| ImageLoader.ExtensionIsAfterLastDot | ImageLoader.cpp:42 | the extension is empty exactly when the name is "." or "..", or no period follows the first character; otherwise it starts at the last period, which is not the first character, and holds no other period |
| ImageLoader.SplitAtLastDot | ImageLoader.cpp:42-49 | a non-empty stem followed by a period and a period-free rest splits into exactly that stem and that extension |
| ImageLoader.StemThenExtension | ImageLoader.cpp:177-179 | a file name is its stem followed by its extension |
| ImageLoader.Stem | ImageLoader.cpp:177-179 | the base name a record is stored under is a prefix of the file name: everything before the extension |
| ImageLoader.Lower | ImageLoader.cpp:45-46 | lower-casing maps each character through `tolower` and keeps the length |
| ImageLoader.PngFiles | ImageLoader.cpp:36-52 | a name is collected exactly when some regular-file entry has it and its lower-cased extension is ".png" |
| ImageLoader.PngNameIsCandidate | ImageLoader.cpp:36-52 | "x.png", "x.PNG" and "x.Png" are candidates with stem "x" whenever "x" is not empty |
| ImageLoader.DotPngIsNotCandidate | ImageLoader.cpp:42-49 | a file named just ".png" has an empty extension and is never collected |
| ImageLoader.NonRegularIsNotCandidate | ImageLoader.cpp:37-39 | an entry that is not a regular file is never collected |
| ImageLoader.SortFileNames | ImageLoader.cpp:54-55 | the sort returns the candidates, with multiplicity, in non-decreasing string order |
| ImageLoader.SortedPermutationUnique | ImageLoader.cpp:54-55 | two sorted arrangements of the same names are equal, so the sort's result is fully determined |
| ImageLoader.Truncate | ImageLoader.cpp:58-60 | the cut is a prefix of length `maxImages` when that is positive and smaller than the count, and the whole list otherwise |
| ImageLoader.SelectedFiles | ImageLoader.cpp:54-60 | the visited files are in sorted order and are all collected candidates |
| ImageLoader.DefaultOptionsKeepAll | ImageLoader.cpp:58-60 | with the default options every candidate is visited |
| ImageLoader.LimitKeepsSortedPrefix | ImageLoader.cpp:58-60 | with a positive limit, the visited files are the first min(limit, count) sorted candidates |
| ImageLoader.LoadOne | ImageLoader.cpp:131-150 | a failed decode leaves the map unchanged; a success adds at most the file's stem as a key |
| ImageLoader.LoadFiles | ImageLoader.cpp:63-152 | `loadedCount` is at most the number of files and is zero exactly when no file decodes; existing keys stay; new keys are stems of visited files |
| ImageLoader.LoadImages | ImageLoader.cpp:25-156 | a missing path or non-directory returns false and leaves the map unchanged; otherwise the result is true exactly when some visited file decodes, which is exactly when `loadedCount > 0`; no existing key is lost |
| ImageLoader.LoadFilesKeepsSorted | ImageLoader.cpp:63-152 | the load loop keeps the map sorted while the comparator is transitive on the keys involved |
| ImageLoader.LoadFilesLastWins | ImageLoader.cpp:63-152 | after the loop, a name finds the record of the last decoded file whose stem is equivalent to it; names no decoded file matches find what they found before |
| ImageLoader.LoadAddsOnlySelectedStems | ImageLoader.cpp:63-152 | a load adds only stems of visited files and grows the map by at most `loadedCount` entries |
| ImageLoader.NumericLoadOrderedByValue | ImageLoader.cpp:63-152 | into a sorted map, a load of names that all convert keeps the map sorted, and each name finds the last decoded file with the same value |
| ImageLoader.EquivalentStemsShareOneSlot | ImageLoader.cpp:138-143 | two decoded files with equivalent stems both count as loaded, but the map keeps one entry, holding the second record |
| ImageLoader.SameValueFilesShareOneSlot | ImageLoader.cpp:138-143 | loading "1.png" and "01.png" returns true with `loadedCount` 2 but one map entry, which holds the record of "1.png" |
| ImageLoader.LoadImagesKeepsWellShaped | ImageLoader.cpp:135-138 | every record a load stores holds exactly width * height * channels bytes |
| Playback.Initial | render/Renderer.cpp:3-11 | the constructor starts at the first image, playing, with no step pending |
| Playback.TogglePause | render/Renderer.cpp:149-152 | `togglePause` negates `paused` and changes nothing else |
| Playback.TogglePauseInvolution | render/Renderer.cpp:149-152 | toggling twice restores the state |
| Playback.RequestStepForward | render/Renderer.cpp:154-159 | a forward request is recorded only while paused; while playing, the state is unchanged |
| Playback.RequestStepBackward | render/Renderer.cpp:161-166 | a backward request is recorded only while paused; while playing, the state is unchanged |
| Playback.StepRequestsIdempotent | render/Renderer.cpp:154-166 | a second request before the next pass changes nothing |
| Playback.ControlsKeepValid | render/Renderer.cpp:149-166 | no control moves the index, so each keeps it in range |
| Playback.Control | render/Renderer.cpp:149-166 | a key event never moves the index or the timer baseline |
| Playback.NextIndex | render/Renderer.cpp:358-366 | `nextFrame` increments modulo the name count and keeps the index in range; with no names it changes nothing |
| Playback.PrevIndex | render/Renderer.cpp:368-381 | `previousFrame` keeps an index in range; with no names it changes nothing |
| Playback.PrevUndoesNext | render/Renderer.cpp:358-381 | going back undoes going forward and vice versa |
| Playback.PrevIsDecrementModulo | render/Renderer.cpp:368-381 | going back is a decrement modulo the name count |
| Playback.AdvanceIsModular | render/Renderer.cpp:358-366 | `k` calls of `nextFrame` land on `(i + k) mod n` |
| Playback.FullCycleReturns | render/Renderer.cpp:358-366 | `n` calls of `nextFrame` over `n` names return to the starting index |
| Playback.CurrentRecord | render/Renderer.cpp:333-339 | the record `updateTexture` looks at is absent with no names, and otherwise is the record of an entry equivalent to the current name |
| Playback.ListedNameFindsItsRecord | render/Renderer.cpp:10 | over a sorted map, looking up the `i`-th name `getImageNames` listed finds the `i`-th record |
| Playback.ConsumeStep | render/Renderer.cpp:193-199 | a pass consumes at most one request, forward before backward, moves the index accordingly, and clears only the consumed flag |
| Playback.DueForAdvance | render/Renderer.cpp:188-207 | the timer moves on only while playing and once at least 33 ms have passed since the last advance; the compute loop applies the same test at computeRenderer/Renderer.cpp:219 |
| Playback.ConsumeStepKeepsValid | render/Renderer.cpp:193-199 | consuming a step keeps the index in range |
| Playback.BackwardSurvivesForward | render/Renderer.cpp:193-199 | with both requests pending, forward is taken and backward remains for the next pass |
| Playback.FormatFor | computeRenderer/Renderer.cpp:429-436 | 1, 3 and 4 channels select luminance, RGB and RGBA, which read that many bytes per pixel; no other count has a format |
| Playback.FormatForReadsWholeBuffer | computeRenderer/Renderer.cpp:429-440 | a well-shaped record uploaded with the selected format stays inside its buffer exactly when its rows need no padding at the upload's alignment (one row, alignment 1, or a row length that is a multiple of the alignment), and is then read exactly to its end |
| Playback.PassUploads | render/Renderer.cpp:193-213 | a pass issues exactly one upload per move that has a record to show, the step's first and the timer's last, each the one for the index that move landed on; no move means no upload |
| Playback.TickCount | render/Renderer.cpp:191-231 | a stream holds at most as many passes as events |
| Playback.NoTickCountedIffNoTick | render/Renderer.cpp:191-231 | a stream holds no pass exactly when none of its events is a pass |
| RenderLoop.UpdateTexture | render/Renderer.cpp:332-356 | no upload without names or with a missing or invalid record; otherwise the record is uploaded as RGBA exactly when it has 4 channels, and as RGB otherwise, at the default unpack alignment of 4 |
| RenderLoop.RenderTick | render/Renderer.cpp:191-224 | a pass always presents, consumes a step as `ConsumeStep` does, advances exactly when playing and at least 33 ms have passed since the baseline, then resets the baseline to now; its uploads are those `PassUploads` describes for the stepped-to and the final index, so none with no names or no move |
| RenderLoop.RenderTickShowsCurrent | render/Renderer.cpp:193-213 | whenever a pass moves the index and the record there is uploadable, the last upload is that record's |
| RenderLoop.RenderTickIndex | render/Renderer.cpp:193-213 | a pass moves the index by the consumed step and then by one `nextFrame` if the timer fired |
| RenderLoop.PausedTickHoldsFrame | render/Renderer.cpp:191-224 | a paused pass with no step pending changes nothing and uploads nothing, but presents |
| RenderLoop.ResumedStepAndAdvance | render/Renderer.cpp:193-213 | a step still pending after resuming is consumed, and a due timer advance follows in the same pass: two images on |
| RenderLoop.RenderRun | render/Renderer.cpp:191-231 | any interleaving of keys and passes keeps the index in range and yields exactly one frame per pass |
| RenderLoop.PlayingTickAdvances | render/Renderer.cpp:202-213 | playing with nothing pending, a pass one interval after the baseline advances once and takes the reading as the new baseline |
| RenderLoop.PlayingRunAdvancesEachPass | render/Renderer.cpp:188-213 | over passes at least one interval apart, the index advances once per pass and the baseline is the last reading |
| RenderLoop.PlayingRunFrames | render/Renderer.cpp:188-224 | in such a run, every pass yields a frame that advanced and presented |
| RenderLoop.PlayingRunAdvances | render/Renderer.cpp:188-213 | after `k` paced passes over `n` names, the index is `(i + k) mod n` |
| RenderLoop.PlayingRunCycles | render/Renderer.cpp:188-213 | `n` paced passes over `n` names return to the starting image |
| RenderLoop.PausedStepShowsNextFrame | render/Renderer.cpp:154-224 | paused, a forward key and one pass move one image on, upload it and present it |
| RenderLoop.NarrowRecordOverRead | render/Renderer.cpp:346-350 | a well-shaped record of 1 or 2 channels is uploaded as RGB, which reads more bytes than its buffer holds |
| RenderLoop.GreyPixelOverRead | render/Renderer.cpp:346-350 | a one-pixel greyscale image, one byte, is uploaded as RGB, which reads three bytes |
| RenderLoop.RgbColumnOverRead | render/Renderer.cpp:346-350 | a 1x2 RGB record of six bytes is read to byte 7, because the second row starts at the padded offset 4 |
| RenderLoop.UpdateTextureIntended | computeRenderer/Renderer.cpp:419-440 | the corrected upload selects the format by channel count (1, 3, 4), uploads nothing for other counts, and declares its rows packed |
| RenderLoop.IntendedUploadInBounds | render/Renderer.cpp:346-350 | over a map of well-shaped records, the corrected upload reads its buffer exactly to the end and no further |
| RenderLoop.IntendedAgreesOnColour | render/Renderer.cpp:346-350 | on 3- and 4-channel records, the corrected upload is the one the code issues except that it declares its rows packed |
| ComputeLoop.GroupCount | computeRenderer/Renderer.cpp:475-476 | `(d + 15) / 16` groups of 16 cover `d` texels, and one group fewer does not |
| ComputeLoop.GroupCountIsLeast | computeRenderer/Renderer.cpp:475-476 | every group count that covers `d` is at least `(d + 15) / 16` |
| ComputeLoop.GroupCountOfMultiple | computeRenderer/Renderer.cpp:475-476 | a multiple of 16 needs exactly that many groups |
| ComputeLoop.NextFrameCount | computeRenderer/Renderer.cpp:546-561 | the counter is incremented, reset to 0 on reaching 60, and stays in [0, 60) |
| ComputeLoop.FrameCountWraps | computeRenderer/Renderer.cpp:546-561 | starting from 0, the counter after `k` presented frames is `k mod 60` |
| ComputeLoop.UpdateTexture | computeRenderer/Renderer.cpp:412-440 | no upload without names, with a missing or invalid record, or with a channel count other than 1, 3 or 4; otherwise the record with the format of its channel count, at the default unpack alignment of 4 |
| ComputeLoop.UploadInBoundsIffRowsUnpadded | computeRenderer/Renderer.cpp:429-440 | over well-shaped records, an upload stays inside its buffer exactly when it has one row or `width * channels` is a multiple of 4, and then reads exactly its buffer |
| ComputeLoop.RgbColumnOverRead | computeRenderer/Renderer.cpp:438-440 | a 1x2 RGB record of six bytes is read to byte 7 as written, and to byte 6 with packed rows |
| ComputeLoop.UpdateTexturePacked | computeRenderer/Renderer.cpp:412-440 | the corrected upload is the written one, issued with an unpack alignment of 1 |
| ComputeLoop.PackedUploadReadsWholeBuffer | computeRenderer/Renderer.cpp:438-440 | over well-shaped records, the corrected upload reads its buffer exactly to the end and no further |
| ComputeLoop.SameUploadAsIntended | computeRenderer/Renderer.cpp:412-440 | this renderer's corrected upload equals the corrected upload of the other renderer |
| ComputeLoop.InitialCompute | computeRenderer/Renderer.cpp:3-14 | the constructor starts playback at the first image with the counter at 0 |
| ComputeLoop.ComputeTick | computeRenderer/Renderer.cpp:193-223 | a pass consumes a step as `ConsumeStep` does; it presents exactly when playing or both requests were pending, and only then bumps the counter; it advances exactly when playing and 33 ms have passed; its uploads are those `PassUploads` describes for the stepped-to and the final index |
| ComputeLoop.ComputeTickShowsCurrent | computeRenderer/Renderer.cpp:195-222 | whenever a pass moves the index and the record there is uploadable, the last upload is that record's |
| ComputeLoop.SamePlaybackAsRenderLoop | computeRenderer/Renderer.cpp:195-222 | both renderers leave the same playback state, take the same step and advance alike |
| ComputeLoop.ComputeTickKeepsCounter | computeRenderer/Renderer.cpp:546-561 | a pass keeps the counter in [0, 60) |
| ComputeLoop.ComputeRun | computeRenderer/Renderer.cpp:193-227 | any interleaving of keys and passes keeps the index in range and yields exactly one frame per pass |
| ComputeLoop.ComputeRunKeepsCounter | computeRenderer/Renderer.cpp:546-561 | under any events, a counter that starts in [0, 60) stays there |
| ComputeLoop.PausedSingleStepNotPresented | computeRenderer/Renderer.cpp:195-216 | paused with only a forward request, a pass moves to the next image but does not present it |
| ComputeLoop.PausedStepKeyNotPresented | computeRenderer/Renderer.cpp:157-216 | paused, a forward key and one pass move the index without presenting |
| ComputeLoop.ComputeTickIntended | computeRenderer/Renderer.cpp:195-222 | the corrected pass presents exactly when playing or a step was consumed |
| ComputeLoop.IntendedDiffersOnlyInPresenting | computeRenderer/Renderer.cpp:195-222 | the corrected pass leaves the same state and uploads as the written one; it presents differently exactly on paused passes with a single request pending |

The compute renderer's `togglePause`, `stepForward` and `stepBackward`
(computeRenderer/Renderer.cpp:152-169) and its `nextFrame` and
`previousFrame` (computeRenderer/Renderer.cpp:566-592) match the plain
renderer's line for line. Both renderers therefore use the same `Playback`
functions.

## Left out

- The resizing branch of the load, ImageLoader.cpp:72-128. It uses float resize factors, reads `options.maxResolution`, which `ImageLoadOptions` (ImageLoader.h:25-30) does not declare, and calls a loader stb does not provide. The model uses the original-size path only.
- Filesystem iteration and PNG decoding are replaced by an entry sequence and a decode oracle. The sort compares file names: all paths share one parent directory, so `path` comparison reduces to comparing file names character by character.
- The verbose flag only selects log output. Every `std::cout`/`std::cerr` line is left out.
- EGL/GL setup, shaders, drawing and the output-texture resize (computeRenderer/Renderer.cpp:442-445) are left out. An upload is recorded as a value; a present is a flag.
- Of the GL pixel-store state, only `GL_UNPACK_ALIGNMENT` is modelled. The other unpack parameters keep their defaults in both renderers.
- The initial `updateTexture` before each loop (render/Renderer.cpp:185, computeRenderer/Renderer.cpp:188) is `UpdateTexture` at index 0. No separate member states it.
- Threads, atomics, `sleep_for` and the shutdown flag are left out. Key presses and passes are one sequential stream of events.
- The clock is an integer millisecond reading. `duration_cast` truncation is taken to have happened already.
- The float timing statistics (`lastFrameTime`, `totalRenderTime`, the averages) are left out.
- `main.cpp` (window procedure and message loop) is not part of this model.
- `std::map` with a comparator that is not a strict weak order is undefined behaviour. The model's lookup and insertion follow the lower-bound recipe on the sorted entry sequence in every case. The lemmas about lookup assume transitivity only on the keys involved.
- ComputeLoop.GroupCount: requires `d <= INT_MAX - 15`. The source takes `d` from `glGetTexLevelParameteriv`, where it is bounded by the GL texture size limit; the model does not model that limit.
- Characters compare by code point. `std::string` compares `char` values as unsigned bytes, which agrees on ASCII names; names are not modelled as byte strings.

## Findings

| source | as written | input that shows it | evidently intended | confidence | as-written member | corrected member |
|---|---|---|---|---|---|---|
| computeRenderer/Renderer.cpp:195-208 | the step branch clears the flag it consumed before line 208 tests `!paused \|\| shouldStepForward \|\| shouldStepBackward` | paused, one forward request pending, one pass | a paused single step presents the image it moved to, as in the other renderer | not executed; high | ComputeLoop.PausedSingleStepNotPresented | ComputeLoop.ComputeTickIntended |
| render/Renderer.cpp:346-350 | every channel count other than 4 is uploaded as `GL_RGB` | a 1x1 greyscale PNG: one channel, one byte, of which GL reads three | 1 channel uploads as luminance, as in the compute renderer's switch | not executed; high | RenderLoop.GreyPixelOverRead | RenderLoop.UpdateTextureIntended |
| computeRenderer/Renderer.cpp:438-440 | the upload runs with the default `GL_UNPACK_ALIGNMENT` of 4, which pads each row to a multiple of 4 bytes, while `stbi_load` packs its rows | a 1x2 RGB PNG: six bytes, of which GL reads seven; rows are also read sheared | `glPixelStorei(GL_UNPACK_ALIGNMENT, 1)` before the upload, so a well-shaped record is read exactly to its end | not executed; high | ComputeLoop.RgbColumnOverRead | ComputeLoop.UpdateTexturePacked |
| render/Renderer.cpp:349-350 | the same upload at the default alignment of 4 | a 1x2 RGB PNG: six bytes, of which GL reads seven | packed rows, as above | not executed; high | RenderLoop.RgbColumnOverRead | RenderLoop.UpdateTextureIntended |
