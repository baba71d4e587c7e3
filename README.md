# CAD portfolio viewer: navigation cube click and project slider

This project models, in Dafny, the two pieces of input handling in the CAD
portfolio viewer that carry logic of their own.

- **The navigation cube's click handler** (`ViewCube`, `view_cube.dfy`). A
  click on the widget's canvas becomes normalised device coordinates (x from
  -1 at the left edge to +1 at the right; y from +1 at the top to -1 at the
  bottom, so the screen's vertical axis is inverted). A ray caster then
  intersects a ray through that point with the cube mesh, which is the first
  child of the cube group. If the first hit has a face, its normal, scaled by
  the fixed standoff 10, is emitted as the camera position, with the origin as
  the target. In every other case nothing is emitted. This includes a missing
  canvas, camera, scene or cube child, an empty hit list, and a first hit
  without a face. The ray caster is a function parameter that returns the
  ordered hit list. Coordinates are `real`s. An emission is an
  `Option<Viewpoint>`, so one click emits at most one event.
- **The project slider** (`ProjectSlider`, `project_slider.dfy`). Previous,
  Next and the dots each request an index. The application holds the index,
  which starts at 0, and sets it to whatever is requested. The model has the
  handlers as functions and a click-by-click step function with its fold
  `Run`. It proves the index invariant `0 <= index < n` over any click
  sequence. It also covers the derived display: the `k / n` counter, the
  progress fraction, the disabled buttons and the highlighted dot.

`options.dfy` holds the `Option` type both modules use.

## Model

| member | source | states |
|---|---|---|
| ViewCube.ViewpointForNormal | src/components/ViewCube.tsx:117-126 | The requested target is always the origin (0, 0, 0). |
| ViewCube.StandoffInverse | src/components/ViewCube.tsx:117-124 | Dividing the emitted position by the standoff 10 gives the face normal back. Its squared length is 100 times the normal's, so the camera sits on the normal's line. |
| ViewCube.ToNdc | src/components/ViewCube.tsx:101-103 | The click's normalised coordinates determine the pixel: the reference conversion back gives the pointer again. Its edges, range and orientation are proved in EdgesOfNdc, InsideIffInNdcSquare and NdcOrientation. |
| ViewCube.NdcRoundTrip | src/components/ViewCube.tsx:101-103 | The pixel-to-NDC conversion and the NDC-to-pixel reference conversion undo each other in both directions. So the conversion loses nothing and no two pixels share an NDC point. |
| ViewCube.EdgesOfNdc | src/components/ViewCube.tsx:102-103 | Every point of the left edge has x = -1 and of the right edge x = +1, whatever its height. Every point of the top edge has y = +1 and of the bottom edge y = -1, whatever its horizontal position. The vertical and horizontal mid-lines map to 0. |
| ViewCube.InsideIffInNdcSquare | src/components/ViewCube.tsx:101-103 | A pointer lies inside the bounding rectangle if and only if both NDC coordinates lie in [-1, 1]. |
| ViewCube.NdcOrientation | src/components/ViewCube.tsx:102-103 | Moving right strictly increases x. Moving down strictly decreases y, which is the inverted vertical axis. |
| ViewCube.MountedPicksCubeMesh | src/components/ViewCube.tsx:52-54 | Once set up, every reference is present and `children[0]` of the cube group is the cube mesh. The outline and the labels are never intersected. |
| ViewCube.PickTarget | src/components/ViewCube.tsx:108-109 | The object to intersect exists exactly when the cube group exists and has a child, and it is the group's first child. MountedPicksCubeMesh shows that it is the cube mesh once the set-up has run. |
| ViewCube.Intersections | src/components/ViewCube.tsx:98-111 | The ray caster is consulted exactly when the canvas, camera and scene are present and the cube child exists. It is asked about the pick target at the click's NDC point. |
| ViewCube.HandleClick | src/components/ViewCube.tsx:97-128 | An event is emitted if and only if every reference is present and the first hit has a face. Such an event is the viewpoint for the first hit's normal, and its target is the origin. |
| ViewCube.MissingRefNoEvent | src/components/ViewCube.tsx:98-109 | A missing canvas, camera, scene or cube child means no event. |
| ViewCube.NoFaceNoEvent | src/components/ViewCube.tsx:111-115 | An empty hit list, or a first hit without a face, means no event. |
| ViewCube.FirstHitDecides | src/components/ViewCube.tsx:113-114 | Hit lists with the same first hit give the same event, and so do two empty lists. Later hits are ignored. |
| ViewCube.NearestHitWins | src/components/ViewCube.tsx:111-114 | When the caster orders hits by distance, the emitted view is the normal of a nearest hit scaled by the standoff. |
| ViewCube.FaceViewRoundTrip | src/components/ViewCube.tsx:117-124 | For each of the six faces, the face can be read back from its outward normal scaled by any positive distance, and so from the emitted position. |
| ViewCube.OutwardNormalIsUnit | src/components/ViewCube.tsx:77-82 | Each face direction (front +z, back -z, left -x, right +x, top +y, bottom -y) is a unit vector along one axis and points at its own face. ClickOnFace and FaceViewsDistinct rely on it. |
| ViewCube.ClickOnFace | src/components/ViewCube.tsx:113-126 | Clicking a face emits its outward normal times 10, looking at the origin. The face can be recovered from the emitted position, and the position is exactly the standoff 10 from the origin. |
| ViewCube.FaceViewsDistinct | src/components/ViewCube.tsx:117-124 | Different faces request different viewpoints. |
| ViewCube.TopFaceScenario | src/components/ViewCube.tsx:117-126 | On the set-up widget, a first hit with normal (0, 1, 0) emits position (0, 10, 0) and target (0, 0, 0). |
| ProjectSlider.HandlePrevious | src/components/ProjectSlider.tsx:22-26 | A request is made exactly when the index is positive. The request is the index one lower and is never negative. |
| ProjectSlider.HandleNext | src/components/ProjectSlider.tsx:28-32 | A request is made exactly when index + 1 < n. The request is the index one higher and stays below n. With n = 0 it never fires for a non-negative index. |
| ProjectSlider.HandleDot | src/components/ProjectSlider.tsx:83-86 | Clicking dot i requests exactly index i, which is in range because dots are rendered only for the projects. |
| ProjectSlider.Request | src/components/ProjectSlider.tsx:37-86 | The wiring of the click handlers, at lines 38, 73 and 86. Dot i requests exactly i. Previous requests current - 1 exactly when current > 0. Next requests current + 1 exactly when current + 1 < n. |
| ProjectSlider.Step | src/App.tsx:84 | The setter takes the requested index when there is one, and otherwise the index is unchanged. StepPreservesRange proves that it stays in range. |
| ProjectSlider.Run | src/App.tsx:46-47 | The index after a sequence of clicks from the initial state is unchanged with no clicks. When the last click is on a dot, it is that dot's index, whatever came before. RunPreservesRange proves that it stays in range. |
| ProjectSlider.StepPreservesRange | src/components/ProjectSlider.tsx:22-32 | From a valid index, every request and the resulting index lie in [0, n). |
| ProjectSlider.RunPreservesRange | src/components/ProjectSlider.tsx:22-32 | From a valid index, any sequence of clicks keeps the index in [0, n). |
| ProjectSlider.ReachableIndexValid | src/App.tsx:46-47 | Starting from the initial index 0 with at least one project, every index reached is valid, and reading the current project never fails. |
| ProjectSlider.NextReaches | src/components/ProjectSlider.tsx:28-32 | Pressing Next k times from i reaches i + k while that stays below n. So every project can be reached from the first. |
| ProjectSlider.PreviousNextInverse | src/components/ProjectSlider.tsx:22-32 | Where they move, Next followed by Previous returns to the same index, and so does Previous followed by Next. |
| ProjectSlider.PreviousDisabled | src/components/ProjectSlider.tsx:39 | The Previous button (disabled at index 0) is disabled only when its handler would request nothing. DisabledMatchesGuard proves the converse for a valid index. |
| ProjectSlider.NextDisabled | src/components/ProjectSlider.tsx:74 | The Next button (disabled at index n - 1) is disabled only when its handler would request nothing. DisabledMatchesGuard proves the converse for a valid index. |
| ProjectSlider.DisabledMatchesGuard | src/components/ProjectSlider.tsx:39-74 | For a valid index, Previous is disabled (index == 0) if and only if its handler requests nothing. Next is disabled (index == n - 1) if and only if its handler requests nothing. |
| ProjectSlider.CounterFor | src/components/ProjectSlider.tsx:57-59 | The counter shows index + 1 over n. For a valid index the shown number lies in [1, n] and equals n exactly at the last project. |
| ProjectSlider.Progress | src/components/ProjectSlider.tsx:52 | The progress fraction times the number of projects is the number of projects up to and including the current one. ProgressBounds and ProgressIncreasing prove its range and growth. |
| ProjectSlider.ProgressBounds | src/components/ProjectSlider.tsx:49-53 | For a valid index the progress fraction (index + 1) / n lies in (0, 1]. It equals 1 exactly at the last index. |
| ProjectSlider.ProgressIncreasing | src/components/ProjectSlider.tsx:49-53 | The progress fraction grows strictly with the index. |
| ProjectSlider.Highlights | src/components/ProjectSlider.tsx:83-91 | There is one dot per project, and dot i is highlighted exactly when i is the current index. |
| ProjectSlider.ExactlyOneHighlighted | src/components/ProjectSlider.tsx:83-91 | Exactly one dot is highlighted when the index is valid, and none otherwise. |
| ProjectSlider.DotClickHighlightsDot | src/components/ProjectSlider.tsx:83-91 | After dot i is clicked, the index is i and dot i is the only highlighted dot. |
| ProjectSlider.CurrentProject | src/components/ProjectSlider.tsx:62-68 | The optional read of the current project succeeds exactly for an index in range, and it returns the project at the current index. |

## Left out

- Ray–mesh intersection (`Raycaster.setFromCamera`, `intersectObject`, src/components/ViewCube.tsx:105-111) belongs to the 3D library. It is a parameter that returns an ordered hit list. The widget's camera is fixed, so the camera is folded into that parameter.
- The widget's set-up, materials, sprite labels, renderer and animation loop (src/components/ViewCube.tsx:15-95) are WebGL and frame scheduling. Only the order of the cube group's children is kept (`BuiltCubeGroup`), because the handler picks `children[0]`. The bottom label reads "B", the same as the back label. This is visual only.
- Floating-point rounding is not modelled. The NDC conversion and the scaling are over the reals.
- ViewCube.HandleClick: requires a positive width and height whenever the references are present. A zero-size canvas would divide by zero, which gives Infinity or NaN in the source. The renderer sizes the canvas to 120 by 120 pixels (src/components/ViewCube.tsx:28).
- No camera transition, easing or orbit-target synchronisation is modelled. No file of the source implements one. src/App.tsx renders CADViewer and ProjectSlider but not ViewCube. src/components/CADViewer.tsx does not render it either, so nothing consumes `onViewChange`.
- src/components/CADViewer.tsx is not part of this model. It holds model loaders, staging and orbit controls from libraries.
- src/App.tsx is modelled only as the holder of the index. That means its initial value 0 (`InitialIndex`) and the setter applied by `Step`. Its sample data and layout are left out. React's re-rendering and state batching are treated as an immediate update.
- The counter and the progress width are modelled as numbers, not as the rendered text `k / n` and `p%`.
- ProjectSlider.Progress: requires at least one project. With an empty list the source divides by zero.
- ProjectSlider.HandleDot: requires the dot's index to be in range. Dots are rendered only for indices 0 to n - 1.
- Browsers deliver no click to a disabled button. The model applies the handler anyway. `DisabledMatchesGuard` shows this makes no difference for a valid index.
