# Animator core, modelled in Dafny

The animator is a browser editor for short animations. The user places scene elements on a
screen: images from a bundled catalog, tiled effects and speech bubbles. Each element gets
keyframes on a 25-frame timeline. The editor interpolates the frames between keyframes,
plays the result back, and can composite each frame onto a canvas for export.

This project models the logic of that editor:

- **Keyframe interpolation** (`interpolateElementsStates`) and the template catalog merge of
  `loadTemplates`, in `editor_helpers.dfy`.
  - The source's nested loops are the method `InterpolateElementsStates`. It is proved equal
    to `Resolve`, a declarative definition: element `e` at frame `i` takes the pose of the
    segment that starts at its last keyframe at or before `i`. That segment runs toward the
    next keyframe, or to the end of the timeline, and is cut short by a truthy
    `lastFrameIndex`.
  - The properties of the animation are lemmas about `Resolve`: linear interpolation, the
    held pose, truncation, absence before the first keyframe, and registry order.
- **The scene store**, the `Editor` component, in `editor.dfy`. It is a class whose methods
  replace its fields as the component's handlers do. Every method keeps a frame/registry
  invariant `Valid()`:
  - 25 frames;
  - distinct registry ids;
  - every keyframe is stored under its own id;
  - every key names a registered element. This holds because the model's
    `addElementToFrame` writes nothing for an id it finds neither in the frame's rendered
    list nor in the registry. As written, the source keys `{}` under such an id; see
    Findings.
  The methods that re-render keep `Rendered()`, which says the rendered lists are `Resolve`
  of the current state.
- **The compositor** helpers `drawText`, `drawSpeech` and `drawElement`, in
  `screen_helpers.dfy`. The canvas (`canvas.dfy`) is a class holding a log of abstract
  drawing calls. A normal form `Net` of the translations and rotations in a log says when
  a sequence of calls leaves the context's transform as it found it.
- **The image-ready counter** of `ScreenCanvas.draw`, in `screen_canvas.dfy`. One draw pass
  is the class `DrawPass`, and each image's `onload` callback is one call of `Load`.
- **The drop-down's value logic** (`Select`), in `select.dfy`.
- **The asset catalog** of `elements.ts`, in `elements.dfy`. This covers the file-name pattern,
  taken as JavaScript evaluates it (greedy `folder`, lazy `name`), the URL built from a match,
  and the grouping of URLs by folder.

Shared data types are in `types.dfy`: `Vec`, `Element`, `Frame` as a map from id to element,
and `Template`. `Option` and `Result` are in `wrappers.dfy`.

Geometry is `real`. Rotation is an abstract angle: no trigonometry is involved, and the
context only needs to know that `rotate(-a)` undoes `rotate(a)`. The browser's text
measurement is an uninterpreted function `measure(fontPx, text)`, and the line height is a
function of the font size.

## Model

| member | source | states |
|---|---|---|
| EditorHelpers.InterpolateElementsStates | src/js/components/Editor/EditorHelpers.ts:49-126 | the nested loops produce exactly one list per frame, and the result equals the declarative `Resolve` of registry, timeline and catalog |
| EditorHelpers.InterpolateElement | src/js/components/Editor/EditorHelpers.ts:91-123 | scanning one element's keyframes, filling each segment and then the tail appends to frame `i` exactly the entry `PoseAt` gives for that element at `i` |
| EditorHelpers.InterpolateState | src/js/components/Editor/EditorHelpers.ts:56-89 | `interpolateState(e, from, to)` appends to each frame of `[from, to)` the interpolated entry for its step and leaves every other frame unchanged |
| EditorHelpers.PushedIsInterpolated | src/js/components/Editor/EditorHelpers.ts:65-87 | the entry built from `stepKoef`, the step vectors and `step` is the element interpolated `step` frames into a span of `to - from` |
| EditorHelpers.LastKeyBefore | src/js/components/Editor/EditorHelpers.ts:94-109 | the index the scan holds in `statePrevFrameIndex`: the last keyframe of the id before `n`, with no keyframe between it and `n`, or none at all |
| EditorHelpers.NextKeyFrom | src/js/components/Editor/EditorHelpers.ts:96-105 | the next keyframe of the id at or after `n`, with none skipped, or none at all |
| EditorHelpers.SegmentClosed | src/js/components/Editor/EditorHelpers.ts:99-106 | inside a segment `[p, k)` between consecutive keyframes, the declarative pose is what `interpolateState(e, p, Cut(lastFrameIndex, k))` pushes |
| EditorHelpers.TailClosed | src/js/components/Editor/EditorHelpers.ts:112-122 | after the scan and the tail call, every frame holds exactly the declarative entry |
| EditorHelpers.RenderListMembers | src/js/components/Editor/EditorHelpers.ts:91-110 | an element is in frame `i`'s list if and only if some registry element is posed at `i` as that element |
| EditorHelpers.EntryKeepsRegistryFields | src/js/components/Editor/EditorHelpers.ts:78-80 | an entry keeps every non-geometry field of the registry element, and its `image` is `templates[templateId]?.url` |
| EditorHelpers.PoseKeepsId | src/js/components/Editor/EditorHelpers.ts:78-79 | an entry carries the id of the element it poses |
| EditorHelpers.AbsentBeforeFirstKeyframe | src/js/components/Editor/EditorHelpers.ts:94-108 | no frame up to and including `i` lists an element that has no keyframe at or before `i` |
| EditorHelpers.SegmentStartIsKeyframe | src/js/components/Editor/EditorHelpers.ts:62-87 | at a keyframe that starts a segment, the entry has the keyframe's position, scale and rotation, since the step there is 0 |
| EditorHelpers.PresenceInSegment | src/js/components/Editor/EditorHelpers.ts:77-105 | between consecutive keyframes `p < k`, frame `i` is listed if and only if `i < Cut(lastFrameIndex, k)` (the range is half-open) |
| EditorHelpers.LinearInterpolation | src/js/components/Editor/EditorHelpers.ts:62-87 | for keyframes `p < k` with no keyframe between and no truncation before `k`, frame `p + s` gets `prev + s (next - prev) / (k - p)` in position, scale and rotation |
| EditorHelpers.PoseInSegment | src/js/components/Editor/EditorHelpers.ts:62-87 | frame `p + s` of an untruncated segment is listed, with the `s`-th interpolation step from keyframe `p` toward keyframe `k` |
| EditorHelpers.InterpolatedGeometry | src/js/components/Editor/EditorHelpers.ts:65-87 | the entry's geometry is `s / span` of the way from the previous pose to the next |
| EditorHelpers.InterpolatedHold | src/js/components/Editor/EditorHelpers.ts:63-64 | interpolating from a pose toward itself holds that pose at every step |
| EditorHelpers.HeldAfterLastKeyframe | src/js/components/Editor/EditorHelpers.ts:63-122 | after the last keyframe `p`, frame `i` is listed if and only if `p` is not the final frame and `i < Cut(lastFrameIndex, frames.length)`; when listed, it has keyframe `p`'s geometry |
| EditorHelpers.FinalKeyframeNotShown | src/js/components/Editor/EditorHelpers.ts:77-115 | an element keyed on the final frame gets no entry in that frame |
| EditorHelpers.TruncatedFromLastFrameIndex | src/js/components/Editor/EditorHelpers.ts:101-119 | with a truthy `lastFrameIndex` L, the element is absent from every frame from L on |
| EditorHelpers.ZeroLastFrameIndexIsUnset | src/js/components/Editor/EditorHelpers.ts:101-117 | `lastFrameIndex` 0 places the element in the same frames, with the same entries, as an absent `lastFrameIndex` |
| EditorHelpers.RenderListFollowsRegistry | src/js/components/Editor/EditorHelpers.ts:77-91 | the ids of every frame's list are a subsequence of the registry's ids: registry order, each element at most once |
| EditorHelpers.RenderListDistinct | src/js/components/Editor/EditorHelpers.ts:77-91 | with distinct registry ids, no frame lists an id twice |
| EditorHelpers.BundledCatalog | src/js/components/Editor/EditorHelpers.ts:22-34 | the `reduce` gives one list per bundled category, made of the catalog's URLs in order; a template exists for exactly the bundled URLs, each with its URL as both id and url |
| EditorHelpers.LoadTemplates | src/js/components/Editor/EditorHelpers.ts:21-47 | the result fails exactly when some upload names an unknown category, naming the first such category; otherwise it is the bundled catalog with every upload merged in |
| EditorHelpers.AddUploads | src/js/components/Editor/EditorHelpers.ts:38-44 | the `forEach` writes each upload's template and appends it to its category, stopping at the first unknown category |
| EditorHelpers.FirstUnknown | src/js/components/Editor/EditorHelpers.ts:43 | the index at which `categories[category].push` throws: the first upload with a category that is not bundled |
| EditorHelpers.Overlay | src/js/components/Editor/EditorHelpers.ts:39-42 | the templates after the uploads are keyed by the bundled URLs plus the upload names |
| EditorHelpers.UploadStep | src/js/components/Editor/EditorHelpers.ts:39-43 | an upload to a known category writes its template under its name and appends it to the end of that category's list, leaving every other category as it was |
| EditorHelpers.LastUploadWins | src/js/components/Editor/EditorHelpers.ts:39-42 | the template named `n` is the last upload named `n`, which overrides any bundled image or earlier upload |
| EditorHelpers.BundledUnlessUploaded | src/js/components/Editor/EditorHelpers.ts:25-42 | a bundled image that no upload is named after keeps its path as its URL |
| EditorHelpers.UploadsListedInCategory | src/js/components/Editor/EditorHelpers.ts:24-43 | each category lists its bundled images in order and then exactly `UploadsOf` the category, its uploads in upload order; every upload of the category is there and every later entry is one of them |
| Editor.FramesCountIs25 | src/js/components/Editor/Editor.tsx:20-28 | `ANIMATION_SECONDS / ANIMATION_FRAME_SECONDS` is 25 frames |
| Editor.Editor.constructor | src/js/components/Editor/Editor.tsx:43-53 | the initial state is 25 empty frames, 25 empty rendered lists, an empty registry and nothing active, playing or recording; the invariant holds |
| Editor.NewElement | src/js/components/Editor/Editor.tsx:120-139 | a new element is 10 by 10 at the origin, with unit scale and no rotation; its animation speed is 1 for an effect and 0 otherwise; its text is non-empty exactly for speech |
| Editor.Editor.OnToolboxItemClick | src/js/components/Editor/Editor.tsx:120-144 | the new element is appended to the registry and keyed at the active frame, and the invariant and rendering are kept |
| Editor.Editor.AddScreenElement | src/js/components/Editor/Editor.tsx:187-193 | the element is appended to the registry and then keyed at the frame that was active |
| Editor.Editor.AddElementToFrame | src/js/components/Editor/Editor.tsx:255-265 | the frame gets key `id`, copied from the element's rendered pose there, or else from its registry entry; an id found in neither leaves the timeline unchanged (the corrected behaviour, see Findings); no other frame changes |
| Editor.FrameAfterAddAsWritten | src/js/components/Editor/Editor.tsx:255-265 | as written, the frame always gets key `id`, holding `{}` exactly when the id is neither rendered in the frame nor registered |
| Editor.RemovedActiveKeyedAsWritten | src/js/components/Editor/Editor.tsx:166-185 | after removing an element, which stays active, a right-click on any frame takes the add branch, and the as-written add keys `{}` under an id no registered element carries |
| Editor.RemovedIdUnregistered | src/js/components/Editor/Editor.tsx:170-173 | with distinct ids, the removed id is no longer in the registry |
| Editor.Editor.CalculateScreenElements | src/js/components/Editor/Editor.tsx:289-296 | the rendered lists become `Resolve` of the current registry and timeline, one list per frame; nothing else changes |
| Editor.KeyframeSource | src/js/components/Editor/Editor.tsx:257-259 | the rendered pose in that frame if the element is shown there, else the registry entry; it carries the id |
| Editor.Editor.RemoveElementFromFrame | src/js/components/Editor/Editor.tsx:267-276 | exactly key `id` of that frame is deleted |
| Editor.Editor.OnFrameRightClick | src/js/components/Editor/Editor.tsx:243-253 | without an active element nothing changes; otherwise the active element's keyframe at that frame is removed if present and added if absent; other frames are unchanged |
| Editor.Editor.RemoveElementFromScene | src/js/components/Editor/Editor.tsx:168-185 | the registry loses the entry of `id` and every frame loses key `id`; the invariant is kept |
| Editor.WithoutMembers | src/js/components/Editor/Editor.tsx:170-173 | with distinct ids, an entry survives the removal if and only if it carries another id |
| Editor.RegistryWithout | src/js/components/Editor/Editor.tsx:170-173 | the registry is one shorter exactly when `id` was registered, and it gains no entry |
| Editor.DropKey | src/js/components/Editor/Editor.tsx:174-179 | every frame loses key `id`, and every other key keeps its keyframe |
| Editor.WithoutKeepsInvariant | src/js/components/Editor/Editor.tsx:168-185 | removal keeps ids distinct, keyframes keyed by id, and every key registered |
| Editor.Editor.UpdateScreenElement | src/js/components/Editor/Editor.tsx:195-209 | only the active frame changes, with key `id` set to the element, and `id` becomes active |
| Editor.Editor.UpdateActiveElement | src/js/components/Editor/Editor.tsx:211-237 | an unregistered active id changes nothing; otherwise the props are merged into the registry entry and into every existing keyframe of that id, and editing ends |
| Editor.MergeIntoFrames | src/js/components/Editor/Editor.tsx:225-233 | no frame gains or loses a key; each keyframe of the id gets the props merged in; other keys are unchanged |
| Editor.Merge | src/js/components/Editor/Editor.tsx:220-223 | each submitted prop replaces its field, and every other field, geometry included, is kept |
| Editor.MergeKeepsPoses | src/js/components/Editor/Editor.tsx:225-233 | merging props changes no keyframe's position, scale or rotation |
| Editor.Editor.ChangeElementSortIndex | src/js/components/Editor/Editor.tsx:278-287 | the entries at `currentIndex` and `index` are exchanged; the registry is a permutation of the old one |
| Editor.SwapKeepsRegistry | src/js/components/Editor/Editor.tsx:283-284 | the exchange keeps the multiset of entries, the distinctness of ids, and the set of ids |
| Editor.Editor.OnScreenElementClick | src/js/components/Editor/Editor.tsx:163-164 | the clicked element becomes active; nothing else changes |
| Editor.Editor.DeactivateScreenElement | src/js/components/Editor/Editor.tsx:239 | no element is active; nothing else changes |
| Editor.Editor.OnFrameClick | src/js/components/Editor/Editor.tsx:241 | the clicked frame becomes active; nothing else changes |
| Editor.Editor.OnPlay | src/js/components/Editor/Editor.tsx:299-330 | `playing` flips; starting playback schedules a tick that captures `recording`, and stopping it cancels the tick |
| Editor.Editor.PlayTick | src/js/components/Editor/Editor.tsx:306-324 | while recording, the last frame stops playback and recording and finishes the record; otherwise the active frame steps to the next one and a new tick is scheduled |
| Editor.NextFrameIsSuccessorModCount | src/js/components/Editor/Editor.tsx:308-309 | the playback step is `(active + 1) mod frames.length` |
| Editor.Editor.BeginRecording | src/js/components/Editor/Editor.tsx:402 | frame 0 becomes active and recording is on; from a stopped state playback starts with a tick that captured `recording`, while during playback `onPlay` stops it and cancels the tick, leaving recording on with nothing scheduled |
| Editor.SpliceRemovesFound | src/js/components/Editor/Editor.tsx:170-173 | for a registered id, the splice as written is the intended removal |
| Editor.AbsentIdDuplicatesRegistry | src/js/components/Editor/Editor.tsx:170-173 | for an unregistered id, the splice as written gives the registry without its last entry followed by the whole registry |
| Canvas.Context.Do | src/js/components/Screen/helpers.ts:81 | each context call is appended to the log; only setting the font changes the font |
| Canvas.NetAfterFramed | src/js/components/Screen/helpers.ts:156-193 | translate, rotate, drawing calls, inverse rotate, inverse translate leave the net transform as it was |
| ScreenHelpers.Split | src/js/components/Screen/helpers.ts:38 | the split has one piece more than the text has separators, and no piece holds a separator |
| ScreenHelpers.SplitKeepsText | src/js/components/Screen/helpers.ts:38 | the pieces, concatenated, are the text without its separators |
| ScreenHelpers.SplitRoundTrip | src/js/components/Screen/helpers.ts:38 | the split breaks exactly at the separators: the pieces with the text's separators put back between them, in order, are the text |
| ScreenHelpers.SplitUnique | src/js/components/Screen/helpers.ts:38 | any separator-free pieces that rejoin to the text with its separators are the split, so the split is the only such division |
| ScreenHelpers.DrawText | src/js/components/Screen/helpers.ts:24-56 | the loop draws exactly the `fillText` calls of the greedy wrap, leaving the font as it was |
| ScreenHelpers.LinesKeepWords | src/js/components/Screen/helpers.ts:43-55 | the emitted lines, concatenated, are every word followed by one space, in order |
| ScreenHelpers.LineCount | src/js/components/Screen/helpers.ts:46-55 | the number of lines is the number of overflows plus one |
| ScreenHelpers.EmptyFirstLine | src/js/components/Screen/helpers.ts:39-47 | the first line is empty if and only if there are no words or the first word with its space is too wide |
| ScreenHelpers.LinesFit | src/js/components/Screen/helpers.ts:42-55 | every line fits the box unless it is a single word too wide for any line, and only the first line can be empty |
| ScreenHelpers.ThirdWordWraps | src/js/components/Screen/helpers.ts:42-55 | three words where the box holds the first two but not the third wrap into two lines |
| ScreenHelpers.LineTops | src/js/components/Screen/helpers.ts:40-55 | line `k` is drawn at `y + k * lineHeight` |
| ScreenHelpers.CornerRadii | src/js/components/Screen/helpers.ts:75-79 | the corner named by `speech.corner` has radius 0, the other three `width / 3`; with a non-zero width, a radius is 0 exactly at that corner |
| ScreenHelpers.TextPadding | src/js/components/Screen/helpers.ts:108-114 | the wrap width left after padding on both sides is 80% of the bubble width |
| ScreenHelpers.SpeechLayout | src/js/components/Screen/helpers.ts:73-116 | the font is set first and the rounded bubble is outlined before any text; the text is wrapped to `width - 2 * padding` and drawn from `(x + width/10, y + width/10)`, one line height per line |
| ScreenHelpers.DrawSpeech | src/js/components/Screen/helpers.ts:58-117 | draws the bubble and then the wrapped text, leaving the speech font set |
| ScreenHelpers.AnchorOffset | src/js/components/Screen/helpers.ts:136-138 | the anchor is off the canvas centre by `dimension * size * position / 10000`, and is the centre when the position is 0 |
| ScreenHelpers.AspectCorrection | src/js/components/Screen/helpers.ts:141-151 | no image leaves the size alone; an image at least as wide as the canvas ratio multiplies only the height by it; a narrower one divides only the width by it |
| ScreenHelpers.DrawnAspect | src/js/components/Screen/helpers.ts:141-154 | with an image, the drawn rectangle has the element's own aspect (times its scale), whatever the image's ratio |
| ScreenHelpers.BodyCases | src/js/components/Screen/helpers.ts:134-190 | a speech element draws its bubble; otherwise one image is drawn, from the repeated tile exactly when `repeatX != 1` or `repeatY != 1` |
| ScreenHelpers.ElementPlacement | src/js/components/Screen/helpers.ts:153-189 | the drawn rectangle is centred at the origin with size `canvasDim * corrected * 0.01 * scale`; an effect's tile is the image size times the repeat counts |
| ScreenHelpers.ElementKeepsTransform | src/js/components/Screen/helpers.ts:156-193 | the calls open with translate(x, y) and rotate(a) and close with rotate(-a) and translate(-x, -y); the net transform is unchanged |
| ScreenHelpers.DrawElement | src/js/components/Screen/helpers.ts:119-194 | the context log grows by exactly the element's calls |
| ScreenHelpers.DrawBody | src/js/components/Screen/helpers.ts:159-186 | between the transform and its inverse, the log grows by the speech bubble for a speech element and otherwise by one image (the tile for an effect); the font changes only for speech |
| ScreenCanvas.Draw | src/js/components/Screen/ScreenCanvas.tsx:14-25 | nothing happens without a canvas or an `onDraw`; otherwise the canvas is filled white and the counter starts at the number of elements |
| ScreenCanvas.DrawPass.constructor | src/js/components/Screen/ScreenCanvas.tsx:20-24 | the counter is the element count, every element included; the white fill is logged first; nothing is loaded and `onDraw` has not been called |
| ScreenCanvas.DrawPass.Load | src/js/components/Screen/ScreenCanvas.tsx:44-86 | one `onload` draws its element, decrements the counter and calls `onDraw` with the full log exactly when the last pending image arrives; the invariant shows `onDraw` fires once, only after every image, and never for zero elements |
| ScreenCanvas.PaintElement | src/js/components/Screen/ScreenCanvas.tsx:45-81 | the callback appends exactly the element's framed image draw |
| ScreenCanvas.WhiteFill | src/js/components/Screen/ScreenCanvas.tsx:23-24 | the white fill moves and rotates nothing |
| ScreenCanvas.ImageOpsKeepTransform | src/js/components/Screen/ScreenCanvas.tsx:55-81 | the callback translates, rotates, draws one image centred with the scaled size (tiled exactly for an effect), then undoes both; the net transform is unchanged |
| ScreenCanvas.ImageOpsAgreeWithDrawElement | src/js/components/Screen/ScreenCanvas.tsx:37-81 | for an element without speech, the callback draws exactly what `drawElement` draws |
| ScreenCanvas.LoadCounts | src/js/components/Screen/ScreenCanvas.tsx:83-85 | loading a new index grows the loaded set by one, and every index is loaded exactly when the set reaches the element count |
| Select.Options | src/js/components/Select/Select.tsx:51-54 | the empty option `{key: '', text: emptyItemText}` is prepended if and only if the select is not required |
| Select.Normalize | src/js/components/Select/Select.tsx:55-59 | an array is copied, a non-empty string is wrapped, and a falsy value becomes `[]` |
| Select.NewValue | src/js/components/Select/Select.tsx:93-97 | in multi mode a present key is removed and an absent one appended; in single mode the value is `[key]` |
| Select.Without | src/js/components/Select/Select.tsx:95 | the filter removes the key and changes nothing when the key is absent |
| Select.WithoutIsFilter | src/js/components/Select/Select.tsx:95 | the filter laws: a single entry is kept exactly when it is not the key, and filtering a concatenation concatenates the filters, so the other entries keep their order and repeats |
| Select.MultiSelectToggles | src/js/components/Select/Select.tsx:93-96 | in multi mode the key is in the new value if and only if it was not in the old one; every other key keeps its membership |
| Select.SelectTwiceRestores | src/js/components/Select/Select.tsx:94-96 | selecting an absent key twice restores the original value list |
| Select.Rows | src/js/components/Select/Select.tsx:110-129 | one row per option, in order, marked selected if and only if its key is in the value |
| Select.SelectedTextsMembers | src/js/components/Select/Select.tsx:109-115 | a text is selected if and only if some option with that text has its key in the value |
| Select.SingleSelectionText | src/js/components/Select/Select.tsx:97-131 | with distinct keys, a single selection shows exactly the chosen option's text |
| Select.Select.RenderItems | src/js/components/Select/Select.tsx:108-134 | the loop returns the rows and writes as `selectedText` the ", "-join of the selected texts in option order |
| Select.Select.GetState | src/js/components/Select/Select.tsx:44-67 | the state is the normalised value, the rows of the full option list, and closed |
| Select.Select.constructor | src/js/components/Select/Select.tsx:38-42 | the state is `getState(props)` |
| Select.Select.SelectKey | src/js/components/Select/Select.tsx:90-106 | the value becomes `NewValue`, the rows are re-rendered from the props' items, the list is open exactly in multi mode, and `onChange` receives the new value when given |
| Select.Select.Toggle | src/js/components/Select/Select.tsx:73-75 | the list is closed |
| Select.Select.HandleClickOutside | src/js/components/Select/Select.tsx:69-71 | a click outside closes the list |
| Select.Select.ToggleItems | src/js/components/Select/Select.tsx:136-137 | `isOpen` flips |
| Elements.Parse | src/js/elements.ts:13 | a match puts the file name back together as `./folder/name.ext`; `ext` is non-empty and `name` holds no `.` and no `/` |
| Elements.ParseGreedy | src/js/elements.ts:13 | every file name of the form `./F/N.E` with a non-empty `E` matches, with a folder at least as long as `F` |
| Elements.UrlIsFileName | src/js/elements.ts:13-19 | the URL is `/img/elements/` followed by the file name without its leading `./` |
| Elements.Step | src/js/elements.ts:15-20 | a file with an empty folder or name is skipped; otherwise its URL goes at the end of its folder's list |
| Elements.StepKeepsOtherFolders | src/js/elements.ts:17-20 | a file changes no folder but its own |
| Elements.GroupedByFolder | src/js/elements.ts:8-21 | each folder lists exactly the URLs of its kept files in enumeration order, and a folder is present exactly when it has one |
| Elements.GroupElements | src/js/elements.ts:8-21 | the loop builds the folder grouping; every file name must match, since reading `.groups` of a failed match throws |

## Left out

- Browser storage and I/O: `onSave`/`onLoad` (localStorage), the uploaded-file store behind `loadTemplates` (its answer is a parameter) and the `require.context` enumeration of bundled images (a list of file names is a parameter).
- GIF export: `onRecord` is modelled only as the state change it ends with (`BeginRecording`), and `saveRecord` only as a counter of finished records. The encoder and file picker are foreign calls.
- `setTimeout`/`clearInterval` in `onPlay`: the scheduled tick is a flag plus the `PlayTick` method, and the delay is not modelled.
- The fresh id of `onToolboxItemClick` (`uuid()`) is a parameter, required to be unregistered.
- React rendering: `renderElementContent`, `templatesByCategory`, `render`, and the `content` field of an element (left out of `Element`). The handlers `onEditElementStart`/`onEditElementEnd` only set `isElementEditing` and are not modelled. `onScreenElementRightClick` is `removeElementFromScene`.
- Editor.Editor.CalculateScreenElements: `Editor.tsx` calls the interpolator with two arguments, but the helper takes three. The model passes the catalog, kept as a field of the editor. With the two-argument call as written, reading `templates[element.templateId]` would throw.
- Editor.Editor.RemoveElementFromScene: the model uses the corrected splice, which leaves the registry alone for an unregistered id (see Findings).
- Editor.Editor.AddElementToFrame: an id that is neither rendered in the frame nor registered makes the source write `{}` as the keyframe. `onFrameRightClick` passes such an id after the active element was removed from the scene. The class uses the corrected behaviour, which writes nothing; the as-written frame is `FrameAfterAddAsWritten` (see Findings).
- Editor.Editor.ChangeElementSortIndex: requires a registered id and an index inside the registry. The source checks neither: with an unregistered id `currentIndex` is -1 and slot `index` becomes `undefined`, and an index past the end grows the array with a hole. These error paths are not modelled. `Toolbox.tsx`, the component handed this handler as `onChangeItemIndex`, is not part of this model.
- Editor.Editor.UpdateScreenElement: requires a registered element, since the screen only shows registered ones.
- Editor.Editor.OnFrameClick: requires an index inside the timeline, since the timeline only offers its own frames.
- Editor.Editor.PlayTick: the tick reads `frames.length` at tick time rather than when it was scheduled; the timeline always has 25 frames, so the two agree.
- `getFontHeight` and `measureText`: text measurement is the uninterpreted `measure` function, and the line height a function of the font size.
- Canvas path building in `drawSpeech` (the `moveTo`/`lineTo`/`quadraticCurveTo` outline) is one `RoundedRect` call carrying the four radii.
- `createPattern`/`OffscreenCanvas` are one `Tile` source carrying the image, its size times the repeat counts, and the `Math.random()` offset, which is a parameter `noise`.
- `Math.PI / 180` and trigonometry: rotation is an abstract angle, in the degrees the element stores.
- ScreenHelpers.DrawElement: requires a decoded image for an effect and for every element without a speech text. Without one the source throws: at `img.width` for an effect, and at `drawImage(undefined, …)` for any other non-speech element. These throws are not modelled. A positive canvas size is required only when an image is given, as the source divides by the canvas height only then.
- ScreenHelpers.DrawBody: has the same precondition as `drawElement`, for the same two throws.
- ScreenHelpers.DrawSpeech: the font assignment `` `${speech.size * scale.x}px sans-serif` `` is taken as always accepted. When the product is negative (or not a number), the string is not a valid CSS font. The canvas then ignores it and keeps its previous font for `measureText` and `getFontHeight`. The model measures and reports `FontPx(e)` in every case, and `Canvas.Context.Do` sets the font on every `SetFont` for the same reason.
- ScreenCanvas.DrawPass.Load: requires a positive canvas size and a positive image height, since the correction divides by them. It takes the decoded image as a parameter and does not model the URL requested.
- ScreenCanvas.DrawPass.Load: the source sets `image.src = idTemplate`, but no scene element has an `idTemplate` property (`types.d.ts` declares none, and neither `onToolboxItemClick` nor the interpolator sets one). As written, every image requests the URL `undefined`, which decodes to no image. No `onload` runs, so for a non-empty frame the counter never reaches zero and `onDraw` (the GIF encoder's `addFrame`) is never called. `DrawPass` models the evidently intended request of the element's `image` URL. The as-written behaviour is that no `Load` call ever happens and `onDrawCalls` stays `[]`, and the model does not capture it.
- ScreenCanvas.Draw: the counter counts every element, speech included, as the code does. Elements are drawn in the order their images load, so `Load` accepts any index not yet loaded and no drawing order is stated.
- `prepareElementImage`: an async browser API, not called by the modelled code.
- Select: `componentDidUpdate` is not modelled, because it compares `value` props by reference (`prevValue !== value`). The validation base class, `className`, and `value.join` in the input are presentation.
- Select.EmptyItem: a missing `emptyItemText` renders as nothing, so it is the empty text here.
- Elements: a folder named like a member of `Object.prototype` (`constructor`, `__proto__`) would read an inherited property of the catalog object and is not modelled.
- Floating point: all geometry is exact `real` arithmetic, not IEEE doubles.

## Findings

| source | as written | input that shows it | evidently intended | confidence | as-written member | corrected member |
|---|---|---|---|---|---|---|
| src/js/components/Editor/Editor.tsx:255-262 | `{ ...(activeFrame.find(byId) \|\| sceneElements.find(byId)) }` is stored under `id` even when both lookups fail | click element A, right-click it (`removeElementFromScene` keeps A active), then right-click any frame: A is keyed with `{}` though A is no longer registered | an id found nowhere writes no keyframe | not executed | Editor.RemovedActiveKeyedAsWritten | Editor.Editor.AddElementToFrame |
| src/js/components/Editor/Editor.tsx:170-173 | `slice(0, index).concat(slice(index + 1))` with `index = findIndex(...)`, which is -1 when the id is not registered | a registry `[a, b]` and an unregistered id: `slice(0, -1)` is `[a]` and `slice(0)` is `[a, b]`, giving `[a, a, b]` | an unregistered id leaves the registry unchanged | not executed | Editor.AbsentIdDuplicatesRegistry | Editor.RegistryWithout |
