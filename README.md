# Folk Devils presentation: a Dafny model of its core

This project models the core of a browser slide deck written in TypeScript and
JavaScript (React and three.js). It proves properties of the model with the
Dafny verifier.

The deck shows one slide at a time. A presentation provider holds the index of
the current slide, and the keyboard moves it. Each slide type is drawn by its
own layout: text only, two-column text, text with an image, and a 3D model.
The deck can be exported to PDF. Each slide is rasterised and placed on its
own page, and the file name is derived from the deck's title. The 3D viewer
folds and unfolds a carton. It records each part's rotation as loaded,
zeroes it, and restores it on fold. An older paper-airplane scene moves a
plane with the arrow keys and plays a folding clip.

Files and modules:

- `wrappers.dfy` (`Wrappers`): `Option`.
- `js_builtins.dfy` (`JsString`, `JsArray`): the JavaScript built-ins the
  code relies on. These are `split`, `join`, `toLowerCase`, the `\s`
  class, `toString`, `padStart`, and a stable sort by a numeric key.
- `slides.dfy` (`Slides`): the slide records of `src/types/slides.ts`.
- `presentation_context.dfy` (`PresentationContext`): the three index
  updaters as functions, and the provider as a class that applies them in
  place.
- `presentation.dfy` (`Presentation`): the key handler, the slide-type
  dispatch, and the keyboard-triggered export.
- `text_only_slide.dfy`, `two_column_text_slide.dfy`: the pure layout
  logic of those two slides.
- `pdf_generator.dfy` (`PdfGenerator`): `generatePDF` as methods with
  their loops. The file name is a pure function with lemmas.
- `slide_layout.dfy` (`SlideLayout`): the page label, the export button, and
  `handlePrint` as a class method that drives the provider.
- `model_viewer.dfy` (`ModelViewer`): the viewer's fold bookkeeping. It is a
  specification state machine plus a class whose methods are proved against
  it. The file also has the 16:9 fit, the colour grade and the load
  percentage.
- `carton.dfy` (`Carton`): the movement flags, the per-frame movement step
  and the fold toggle of the airplane scene. `Vector3` and
  `AnimationAction` are classes, so the aliasing of the movement block is
  kept as written.

Inputs the code takes from the world:

- The DOM query `.slide-content` is a function parameter (`dom`, `found`).
- The set of rasterisations that fail is a parameter (`rasterFails`).
- The frame time is a parameter (`delta`).

Effects on the world are recorded as event traces. These are the DOM
container, `html2canvas`, `jsPDF`, `setTimeout` and the status text.

## Model

| member | source | states |
|---|---|---|
| JsString.JoinSplit | src/components/presentation/slides/TwoColumnTextSlide.tsx:14 | joining the pieces of `split(sep)` with `sep` gives the text back |
| JsString.SplitPieces | src/components/presentation/slides/TwoColumnTextSlide.tsx:14 | the first piece of a split is a prefix of the text, and no piece contains the separator |
| JsString.SplitFirstCut | src/components/presentation/slides/TwoColumnTextSlide.tsx:14 | the first piece runs up to the leftmost occurrence of the separator; with one, the other pieces are the split of what follows it, and without one the piece is the whole text |
| JsString.SplitLeftmost | src/components/presentation/slides/TwoColumnTextSlide.tsx:14 | no occurrence of the separator starts inside any piece, and every piece but the last is followed by one: each cut is the leftmost one left ("axxxb" on "xx" gives "a" and "xb") |
| JsString.ReplaceJoin | src/components/presentation/slides/TwoColumnTextSlide.tsx:48 | joining pieces free of `c` with `c`, then replacing `c` by `d`, is joining them with `d` |
| JsString.LowerCaseIdempotent | src/components/presentation/slides/TwoColumnTextSlide.tsx:28 | (side fact) lower-casing twice is lower-casing once |
| JsString.LowerCharKeepsWhitespace | src/utils/pdfGenerator.ts:195 | (side fact) lower-casing neither creates nor removes `\s` characters |
| JsString.NatToStringDigits | src/components/presentation/SlideLayout.tsx:18 | `toString` of a natural number: NumDigits digits, no leading zero, reads back as the number |
| JsString.PadStart | src/components/presentation/SlideLayout.tsx:18 | the result is `len` long, or as long as `s` when `s` is already longer; it ends with `s`, and everything in front of `s` is the fill character |
| JsArray.SortBySorted | src/utils/pdfGenerator.ts:175 | the sort orders by key, keeps the length and is a permutation |
| JsArray.SortByAlreadySorted | src/components/presentation/SlideLayout.tsx:78 | a list already in key order is left exactly as it is |
| TextOnlySlide.TextAlignmentClass | src/components/presentation/slides/TextOnlySlide.tsx:11-18 | the class is always one of text-left, text-center, text-right |
| TextOnlySlide.VerticalAlignmentClass | src/components/presentation/slides/TextOnlySlide.tsx:20-27 | the class is always one of items-start, items-center, items-end |
| TextOnlySlide.AlignmentDefaults | src/components/presentation/slides/TextOnlySlide.tsx:11-27 | no text alignment means 'left' (text-left); no vertical alignment means 'center' (items-center) |
| TextOnlySlide.AlignmentTables | src/components/presentation/slides/TextOnlySlide.tsx:11-27 | center gives text-center, right gives text-right, top gives items-start, bottom gives items-end |
| TextOnlySlide.AlignmentClassesInjective | src/components/presentation/slides/TextOnlySlide.tsx:11-27 | the classes of two alignments are equal exactly when the alignments are |
| TwoColumnTextSlide.SourceText | src/components/presentation/slides/TwoColumnTextSlide.tsx:13 | a non-empty supportingText wins, else a non-empty body; the text is empty exactly when both are missing or empty |
| TwoColumnTextSlide.ParagraphsRoundTrip | src/components/presentation/slides/TwoColumnTextSlide.tsx:14 | at least one paragraph; no paragraph holds a blank line; joining with a blank line gives the text back; every cut is at the leftmost blank line left, so "a\n\n\nb" gives "a" and "\nb" |
| TwoColumnTextSlide.FragmentsFromLayout | src/components/presentation/slides/TwoColumnTextSlide.tsx:55-62 | from paragraph i on, paragraphs sit at even positions and separators at odd positions, 2(n-i)-1 blocks in all |
| TwoColumnTextSlide.RenderBodyLayout | src/components/presentation/slides/TwoColumnTextSlide.tsx:55-62 | the paragraphs in order with exactly one separator between neighbours and none after the last |
| TwoColumnTextSlide.RenderSeparators | src/components/presentation/slides/TwoColumnTextSlide.tsx:12-14 | the rendered body of a slide holds its source text's paragraphs in order, with one separator fewer than paragraphs |
| TwoColumnTextSlide.HeaderLines | src/components/presentation/slides/TwoColumnTextSlide.tsx:17 | line one is the header up to its first line break; line two is the rest with each further break turned into a space; no break gives an empty line two |
| TwoColumnTextSlide.FindColorConfig | src/components/presentation/slides/TwoColumnTextSlide.tsx:27-29 | None exactly when no entry matches case-insensitively; otherwise the first matching entry |
| TwoColumnTextSlide.ProcessText | src/components/presentation/slides/TwoColumnTextSlide.tsx:20-39 | no config gives one span in the default colour; with a config, one span per ' '-word holding the word plus a space, coloured by the first entry whose word matches case-insensitively, and in the default colour when none matches |
| TwoColumnTextSlide.ProcessTextKeepsText | src/components/presentation/slides/TwoColumnTextSlide.tsx:25-36 | the spans spell out the text, followed by one space when a config is present |
| TwoColumnTextSlide.WordColorCaseInsensitive | src/components/presentation/slides/TwoColumnTextSlide.tsx:27-29 | two words with the same lower-case form get the same colour |
| TwoColumnTextSlide.WordColorFirstMatch | src/components/presentation/slides/TwoColumnTextSlide.tsx:27-33 | a word takes the colour of the first entry that matches it |
| PresentationContext.NextIndex | src/context/PresentationContext.tsx:37-41 | the index moves up by one below the last slide, and stays otherwise |
| PresentationContext.PreviousIndex | src/context/PresentationContext.tsx:43-45 | the index moves down by one above 0, and stays otherwise |
| PresentationContext.GoToIndex | src/context/PresentationContext.tsx:47-51 | the index becomes `index` exactly when it is a slide position (or already equal); an out-of-range index is ignored |
| PresentationContext.UpdatersKeepIndexOk | src/context/PresentationContext.tsx:35-51 | each updater keeps the index non-negative and inside a non-empty deck |
| PresentationContext.RunKeepsIndexOk | src/context/PresentationContext.tsx:35-51 | any sequence of navigation commands keeps that invariant |
| PresentationContext.NextThenPrevious | src/context/PresentationContext.tsx:37-45 | below the last slide, next then previous returns to the same index |
| PresentationContext.NavigationAtEnds | src/context/PresentationContext.tsx:37-45 | next at the last slide and previous at the first change nothing |
| PresentationContext.EmptyDeckStaysAtZero | src/context/PresentationContext.tsx:35-57 | over an empty deck every command sequence leaves the index at 0 |
| PresentationContext.PresentationProvider.constructor | src/context/PresentationContext.tsx:35 | the provider starts at index 0 |
| PresentationContext.PresentationProvider.TotalSlides | src/context/PresentationContext.tsx:55 | the deck length |
| PresentationContext.PresentationProvider.CurrentSlide | src/context/PresentationContext.tsx:57 | the slide at the index when it is in range, and null exactly when it is not |
| PresentationContext.PresentationProvider.NextSlide | src/context/PresentationContext.tsx:37-41 | the new index is NextIndex of the old; the invariant holds |
| PresentationContext.PresentationProvider.PreviousSlide | src/context/PresentationContext.tsx:43-45 | the new index is PreviousIndex of the old; the invariant holds |
| PresentationContext.PresentationProvider.GoToSlide | src/context/PresentationContext.tsx:47-51 | the new index is GoToIndex of the old; the invariant holds |
| Presentation.HandleKeyPress | src/components/presentation/Presentation.tsx:35-53 | Command+Shift+'P' exports and prevents the default, and nothing else does; 'ArrowRight' or 'Space' moves on, 'ArrowLeft' moves back, any other key is ignored |
| Presentation.KeyNavigation | src/components/presentation/Presentation.tsx:37-52 | the export chord never navigates; the navigation keys apply the provider's updaters; other keys keep the index |
| Presentation.KeysKeepIndexOk | src/components/presentation/Presentation.tsx:44-52 | any key sequence keeps the provider's index invariant |
| Presentation.EmptyDeckIgnoresKeys | src/components/presentation/Presentation.tsx:44-52 | over an empty deck no key sequence moves the index off 0 |
| Presentation.RenderSlide | src/components/presentation/Presentation.tsx:59-100 | the frame carries the current index; each type tag selects its layout (both cover tags the cover, the two text-image tags with the image side), 'custom' renders nothing, and any tag outside the eight is "Unsupported slide type" |
| Presentation.Present | src/components/presentation/Presentation.tsx:102-110 | "No slides available" exactly when there is no current slide; otherwise the slide in its layout |
| Presentation.HandleGeneratePdf | src/components/presentation/Presentation.tsx:17-32 | generatePDF is called exactly when at least one slide element was found; its trace is the success or failure trace of the generator |
| PdfGenerator.ReplaceWhitespaceRuns | src/utils/pdfGenerator.ts:195 | the result is no longer than the input |
| PdfGenerator.ReplacedHasNoWhitespace | src/utils/pdfGenerator.ts:195 | no `\s` character survives the replacement |
| PdfGenerator.FilenameShape | src/utils/pdfGenerator.ts:195 | the file name has no whitespace and ends in ".pdf" |
| PdfGenerator.ReplaceWhitespaceRunsNoWhitespace | src/utils/pdfGenerator.ts:195 | a text without whitespace is left unchanged |
| PdfGenerator.Idempotent | src/utils/pdfGenerator.ts:195 | replacing whitespace runs twice is replacing them once |
| PdfGenerator.ReplaceRunBetween | src/utils/pdfGenerator.ts:195 | a whole run of whitespace between a word and the rest becomes exactly one '-' |
| PdfGenerator.FixtureFilename | src/utils/pdfGenerator.ts:195 | the deck title "Folk Devils Presentation" gives "folk-devils-presentation.pdf" |
| PdfGenerator.FirstFailure | src/utils/pdfGenerator.ts:169-172 | None exactly when no capture fails; otherwise the least failing slide index |
| PdfGenerator.CaptureSlides | src/utils/pdfGenerator.ts:168-172 | success exactly when no capture fails, with every slide captured in order; otherwise the loop stops at the first failure |
| PdfGenerator.AddPages | src/utils/pdfGenerator.ts:178-186 | page i holds exactly the full-page image of capture i; no captures leave jsPDF's one blank page |
| PdfGenerator.GeneratePdf | src/utils/pdfGenerator.ts:152-204 | success exactly when no capture fails; on success page i is slide i and the trace ends by removing the container and saving; on failure the trace ends at the failing capture |
| PdfGenerator.PagesEventsCounts | src/utils/pdfGenerator.ts:178-186 | n pages take n-1 `addPage` calls, and no save and no container removal |
| PdfGenerator.SuccessTraceCounts | src/utils/pdfGenerator.ts:178-197 | a successful run over n > 0 slides adds n-1 pages, saves exactly once, and saving is its last event |
| PdfGenerator.FailureTraceNeverSaves | src/utils/pdfGenerator.ts:162-203 | a failed run never saves and never removes the print container |
| SlideLayout.FormatPageNumberShape | src/components/presentation/SlideLayout.tsx:17-19 | 1..9 print as '0' and the digit; larger numbers print plainly; the label is max(2, digits) long, all digits, and reads back as the number |
| SlideLayout.PageLabelReadsBack | src/components/presentation/SlideLayout.tsx:126 | the label is two digit strings around " / " that read back as index + 1 and the total |
| SlideLayout.Button | src/components/presentation/SlideLayout.tsx:121-123 | disabled exactly when a status is shown; the caption is the status, or "Export PDF" when there is none |
| SlideLayout.FoundOrdered | src/components/presentation/SlideLayout.tsx:45-68 | the collected slides are in strictly increasing index order, every index is a slide position, and each element is the one the DOM showed |
| SlideLayout.FoundComplete | src/components/presentation/SlideLayout.tsx:45-68 | every slide whose element the DOM showed is collected |
| SlideLayout.SortKeepsFound | src/components/presentation/SlideLayout.tsx:77-78 | the index sort leaves the collected list as it is |
| SlideLayout.NothingFoundNoGenerate | src/components/presentation/SlideLayout.tsx:70-72 | when the DOM shows no slide the export fails and generatePDF is never called |
| SlideLayout.StatusesDisableButton | src/components/presentation/SlideLayout.tsx:25-104 | every status an export sets is non-empty, so the export button stays disabled until a clear |
| SlideLayout.SlideLayout.constructor | src/components/presentation/SlideLayout.tsx:23 | the status starts empty |
| SlideLayout.SlideLayout.ClearStatus | src/components/presentation/SlideLayout.tsx:97 | the delayed clear empties the status |
| SlideLayout.SlideLayout.CaptureLoop | src/components/presentation/SlideLayout.tsx:45-68 | the loop visits every slide, collects exactly the elements found, emits its events, and leaves the provider on the last slide |
| SlideLayout.SlideLayout.Generate | src/components/presentation/SlideLayout.tsx:74-83 | shows the generating status and calls generatePDF on the sorted elements, reporting whether it succeeded |
| SlideLayout.SlideLayout.FinishExport | src/components/presentation/SlideLayout.tsx:70-98 | nothing collected, or a failed PDF, ends in the error status with the index kept; success shows the success status and restores the original index |
| SlideLayout.SlideLayout.HandlePrint | src/components/presentation/SlideLayout.tsx:25-104 | the whole event trace of an export; success restores the slide the user was on; otherwise the error status and the last slide visited |
| ModelViewer.FitViewport | src/components/three/ModelViewer.tsx:140-156 | the size is 16:9, fits the window, and fills its width or its height |
| ModelViewer.FitViewportLargest | src/components/three/ModelViewer.tsx:143-152 | no 16:9 box inside the window is wider or taller than the fitted one |
| ModelViewer.ColorGradeIdentity | src/components/three/ModelViewer.tsx:171-175 | with saturation, contrast and brightness at 1 the shader leaves every colour as it is |
| ModelViewer.ColorGradeDesaturated | src/components/three/ModelViewer.tsx:227-233 | saturation 0 gives equal channels, and a gray colour is a fixed point |
| ModelViewer.Progress | src/components/three/ModelViewer.tsx:266-269 | percentage times total is loaded times 100; a total of 0 counts as 1 |
| ModelViewer.ProgressBounds | src/components/three/ModelViewer.tsx:267 | with loaded within a positive total the percentage is in [0, 100], and 100 at the end |
| ModelViewer.ProgressUnclamped | src/components/three/ModelViewer.tsx:267 | (example) with an unknown total the value is not clamped: 5 bytes read as 500 |
| ModelViewer.SnapshotRecords | src/components/three/ModelViewer.tsx:193-201 | loading records every mesh's rotation; the keys become the old keys plus the mesh ids; other entries stay |
| ModelViewer.LoadSnapshot | src/components/three/ModelViewer.tsx:180-261 | after a load the meshes are recorded and zeroed, the model is at its load pose, and fold state and camera are untouched |
| ModelViewer.ToggleNeedsModelAndCamera | src/components/three/ModelViewer.tsx:309-312 | without a model or a camera and controls, toggling does nothing; otherwise it flips isFolded |
| ModelViewer.FoldTargets | src/components/three/ModelViewer.tsx:360-396 | folding saves the camera pose, moves the model to the fold pose and each recorded mesh to its recorded rotation |
| ModelViewer.UnfoldTargets | src/components/three/ModelViewer.tsx:314-359 | unfolding moves the model to its load pose, every mesh to zero, and the camera and target back to the saved pose |
| ModelViewer.FoldOrbitUnfold | src/components/three/ModelViewer.tsx:309-397 | fold, orbit anywhere, unfold: the camera is back where it was before the fold, and the meshes are at zero |
| ModelViewer.FoldAfterLoadRestoresFile | src/components/three/ModelViewer.tsx:382-395 | right after a load, folding puts every mesh back at its rotation from the file |
| ModelViewer.TextureChangeThenToggleFolds | src/components/three/ModelViewer.tsx:46-48 | after a texture change the next toggle folds and saves the camera |
| ModelViewer.SnapshotAndZero | src/components/three/ModelViewer.tsx:193-201 | the traversal loop records the rotations as Snapshot says and zeroes the meshes |
| ModelViewer.ZeroAll | src/components/three/ModelViewer.tsx:349-359 | the unfold traversal turns every mesh, in order and with its id kept, to rotation (0, 0, 0) |
| ModelViewer.FoldAll | src/components/three/ModelViewer.tsx:382-395 | the fold traversal gives each mesh with a recorded rotation that rotation and leaves the others as they are |
| ModelViewer.DisposeAll | src/components/three/ModelViewer.tsx:247-255 | the meshes of the previous model are disposed, each once, in traversal order |
| ModelViewer.RemoveId | src/components/three/ModelViewer.tsx:256 | `scene.remove` leaves every other model and drops this one |
| ModelViewer.ModelViewer.constructor | src/components/three/ModelViewer.tsx:20-43 | not folded, no camera, the initial pose (4, 0, 0) looking at the origin, nothing recorded, loading at 0 |
| ModelViewer.ModelViewer.Mount | src/components/three/ModelViewer.tsx:50-97 | a new empty scene; camera and controls are created at the saved pose |
| ModelViewer.ModelViewer.TextureChanged | src/components/three/ModelViewer.tsx:46-48 | a texture change clears isFolded and nothing else |
| ModelViewer.ModelViewer.Orbit | src/components/three/ModelViewer.tsx:84-92 | dragging the controls changes only the camera pose |
| ModelViewer.ModelViewer.ReportProgress | src/components/three/ModelViewer.tsx:266-269 | the progress callback stores the percentage and changes nothing else |
| ModelViewer.ModelViewer.LoadModel | src/components/three/ModelViewer.tsx:180-265 | the new state is the Load transition; the previous model's meshes are disposed; the scene then holds exactly the new model; loading ends |
| ModelViewer.ModelViewer.ToggleFold | src/components/three/ModelViewer.tsx:309-397 | the new state is the Toggle transition; scene, disposal and loading are untouched |
| Carton.WithFlag | src/components/three/carton.js:313-319 | the named flag takes the value and every other flag is unchanged |
| Carton.KeyDirection | src/components/three/carton.js:279-311 | ArrowUp, ArrowDown, ArrowLeft and ArrowRight name forward, backward, left and right; every other key names none |
| Carton.Pressed | src/components/three/carton.js:279-294 | an arrow key sets exactly its own flag; any other key leaves all flags as they were |
| Carton.Released | src/components/three/carton.js:296-311 | an arrow key clears exactly its own flag; any other key leaves all flags as they were |
| Carton.PressThenRelease | src/components/three/carton.js:279-311 | press then release equals just releasing, release then press equals just pressing, and pressing twice equals pressing once |
| Carton.KeyFlags.constructor | src/components/three/carton.js:194-199 | all four flags start false |
| Carton.KeyFlags.SetFlag | src/components/three/carton.js:313-319 | the flags object becomes WithFlag of its old value |
| Carton.KeyFlags.HandleKeyDown | src/components/three/carton.js:279-294 | the flags object becomes Pressed of its old value |
| Carton.KeyFlags.HandleKeyUp | src/components/three/carton.js:296-311 | the flags object becomes Released of its old value |
| Carton.KeyFlags.HandleButtonPress | src/components/three/carton.js:313-315 | the button's direction is set and no other flag changes |
| Carton.KeyFlags.HandleButtonRelease | src/components/three/carton.js:317-319 | the button's direction is cleared and no other flag changes |
| Carton.TargetVelocity | src/components/three/carton.js:565-576 | right overrides left on x; forward gives z = -5; backward gives z = +5 only while the base z is below 0, and then it overrides forward; no flag gives 0 |
| Carton.Accelerate | src/components/three/carton.js:579-588 | the new velocity is v + (target - v) * rate * delta |
| Carton.AccelerateBetween | src/components/three/carton.js:579-588 | while rate * delta is at most 1 the new velocity lies between the old one and the target, and reaches it at exactly 1 |
| Carton.ClampAround | src/components/three/carton.js:595-610 | a clamp whose bounds lie around the value itself never changes it |
| Carton.MoveEffect | src/components/three/carton.js:551-616 | one step: the velocity update, x moved by the new velocity with no clamp, z limited to at most 0 only while backward is held and otherwise unclamped, height and wind offset kept |
| Carton.RightStep | src/components/three/carton.js:565-599 | with only right held, a 50 ms frame reaches full speed and adds 0.25 to x |
| Carton.MovesRight | src/components/three/carton.js:565-599 | with only right held, n frames of 50 ms move the plane n quarter units along x and keep the flags |
| Carton.MovesRightSpeed | src/components/three/carton.js:565-588 | with only right held, the plane is at full speed from the first frame on |
| Carton.RightArrowLeavesBounds | src/components/three/carton.js:555-610 | from the spawn point with right held, 8 frames reach the 2-unit edge at full speed, and every later frame is past it, the 9th at 2.25 |
| Carton.MoveBoundedStaysInBounds | src/components/three/carton.js:594-610 | the step with bounds around the spawn point always ends within 2 of it on x, and within the z bounds |
| Carton.MovesBoundedStayInBounds | src/components/three/carton.js:594-610 | every frame of a run of that step ends inside the bounds |
| Carton.BoundedStopsAtEdge | src/components/three/carton.js:591-599 | in the state of the 8th frame, where the written step leaves the bounds, the bounded step holds the plane at x = 2 |
| Carton.AnimationAction.Reset | src/components/three/carton.js:270 | `reset()` goes back to time 0, unpaused and enabled, keeping the time scale |
| Carton.AnimationAction.Play | src/components/three/carton.js:272 | `play()` sets the action playing and changes nothing else |
| Carton.Scene.constructor | src/components/three/carton.js:184-199 | no flags held, velocity 0, no model, no mixer, not folded |
| Carton.Scene.LoadPlane | src/components/three/carton.js:459-534 | the container is at (0, 0.4, 0) and the base is a separate copy of it; with a clip, the action waits paused at time 0, played once and clamped |
| Carton.Scene.Step | src/components/three/carton.js:551-616 | before load nothing moves; after load the new state is Move of the old, with the base read through its alias |
| Carton.Scene.MoveBase | src/components/three/carton.js:565-610 | the velocity eases toward the key target and the base moves by it, clamped through the alias; both equal what Move computes |
| Carton.Scene.HandleFoldToggle | src/components/three/carton.js:257-277 | without a mixer nothing changes; with one isFolded flips, even with no action. An action is set playing: from folded, at time scale -1 from time 40/30; from unfolded, reset with time scale 1 |

## Left out

- Rendering and asset I/O are not modelled. This covers the three.js scene,
  lights, renderer and orbit-controls setup. It also covers glTF and texture
  loading, the bounding-box centring and scaling, the render loops, and the
  unmount clean-up. These are engine calls and network I/O.
- The loader's error callback only logs, so it is not modelled. A load that
  never completes is a `LoadModel` that is never called.
- GSAP easing and the per-frame tween stream are not modelled. A tween is the
  assignment of its end value.
- `mixer.update(delta)`, which advances the folding clip each frame, is not
  modelled. `AnimationAction.Reset` and `AnimationAction.Play` model only the
  effects of three.js's `reset()` and `play()` that the scene relies on;
  three.js itself is not part of this model.
- The wind effect and the sky and light rotation of the airplane scene are
  sine-driven float animation, so they are not modelled. `Scene.Step` takes
  the wind offset as the difference between the container and the base.
- The loading-manager progress and the loading and preloader state of the
  airplane scene are not modelled. They are display state only.
- The on-screen fold and arrow buttons are reduced to their handlers. For the
  arrows these are `HandleButtonPress` and `HandleButtonRelease`.
- `cloneSlideForPrint`, `html2canvas` and `jsPDF` are not modelled in detail.
  A capture is a canvas tagged with its source element. A page is the list of
  images drawn on it. The print container is an event.
- The 300 ms waits, the console logging, and the stacking of the status-clear
  timers are left out. A scheduled clear is an event, and
  `SlideLayout.ClearStatus` is its callback.
- JsString.ToLowerCase: lower-cases the ASCII letters only, because full
  Unicode case mapping has no finite description here. `\s` is the complete
  ECMAScript whitespace set.
- The code has no re-entrancy guard on the fold toggle, no generation token
  on load callbacks, and no liveness check after unmount. None is modelled:
  a second toggle simply toggles again, and a late load callback runs in full.
  The model keeps a single scene, so a late `ModelViewer.ModelViewer.LoadModel` puts
  the model into the current scene. In the code the callback adds it to the scene
  its own mount effect created (ModelViewer.tsx:259), which after a remount is a
  stale scene, while `modelRef` is shared with the new mount.
- ModelViewer.Progress: follows the code, which computes `loaded / (total || 1) * 100`
  without clamping. A fraction clamped to [0, 1] is not what the code computes.
- ModelViewer.FitViewport: requires non-negative window dimensions, which a
  browser window always has.
- Presentation.HandleKeyPress: compares the key with the literal 'Space', as
  the code does. A browser reports the space bar as " ", so in practice
  only 'ArrowRight' moves on.
- Fold direction follows the code. Folding sends the meshes to the rotations
  recorded at load. Unfolding sends them to zero.
- Slide layouts other than text-only and two-column (cover, text with image,
  model) are recorded as the props they receive. Their markup is styling.
- Reals stand in for JavaScript's double-precision numbers. Rounding is not
  modelled.

## Findings

| source | as written | input that shows it | evidently intended | confidence | as-written member | corrected member |
|---|---|---|---|---|---|---|
| src/components/three/carton.js:555-610 | `initialPos` is the same vector as `initialPositionRef.current`, so the clamps read their bounds from the value just moved: `clamp(x, x - 2, x + 2)` and `clamp(z, z - 2, z)` never change anything | right arrow held from the spawn point in 50 ms frames: full speed after one frame, then +0.25 on x per frame; the 8th frame is at x = 2 and the 9th at 2.25 | the plane stays within 2 units of its spawn point on x, and forward travel on z stops 2 units ahead of it | medium (the block is labelled as a boundary clamp); not executed | Carton.RightArrowLeavesBounds | Carton.MoveBoundedStaysInBounds |

`Carton.Move` and `Carton.Scene.Step` model the block as written, aliasing
included. `Carton.MoveBounded` is the corrected step: it takes its bounds
around a fixed anchor, the spawn point. `Carton.MoveBoundedStaysInBounds` and
`Carton.MovesBoundedStayInBounds` prove that the bounds hold for it.
`Carton.Moves` repeats the written step for n frames, and `Carton.RightArrowLeavesBounds`
runs it from the spawn point past the edge. `Carton.BoundedStopsAtEdge` shows that the
corrected step stops at the edge in the state of the 8th frame, where the code as written
goes past it.
