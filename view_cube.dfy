/** The navigation cube's click handler: a click on the widget's canvas is
    turned into normalised device coordinates, a ray through that point is
    intersected with the cube mesh, and the first hit's face normal, scaled by
    a fixed standoff, is emitted as the requested camera position, looking at
    the origin. Arithmetic is over the reals; the ray caster is a parameter. */
module ViewCube {
  import opened Options

  // ---------------------------------------------------------------------
  // Vectors and viewpoints
  // ---------------------------------------------------------------------

  datatype Vec3 = Vec3(x: real, y: real, z: real)

  const Origin: Vec3 := Vec3(0.0, 0.0, 0.0)

  function Scale(v: Vec3, k: real): Vec3 {
    Vec3(v.x * k, v.y * k, v.z * k)
  }

  function NormSq(v: Vec3): real {
    v.x * v.x + v.y * v.y + v.z * v.z
  }

  /** What the handler passes to `onViewChange`: a camera position and the
      point the camera should look at. */
  datatype Viewpoint = Viewpoint(position: Vec3, target: Vec3)

  /** The fixed distance from the origin at which a canonical view is placed. */
  const Standoff: real := 10.0

  /** The viewpoint requested for a face normal: the normal scaled by the
      standoff, looking at the origin. */
  function ViewpointForNormal(normal: Vec3): (v: Viewpoint)
    ensures v.target == Origin
  {
    Viewpoint(Scale(normal, Standoff), Origin)
  }

  /** Dividing a requested position by the standoff gives the face normal
      back, and its squared length is the normal's times the square of the
      standoff: the camera is placed along the normal, at the standoff
      distance when the normal is a unit vector. */
  lemma StandoffInverse(normal: Vec3)
    ensures Scale(ViewpointForNormal(normal).position, 1.0 / Standoff) == normal
    ensures NormSq(ViewpointForNormal(normal).position) == Standoff * Standoff * NormSq(normal)
  {
  }

  // ---------------------------------------------------------------------
  // Pointer position to normalised device coordinates
  // ---------------------------------------------------------------------

  /** The canvas's bounding client rectangle. */
  datatype Rect = Rect(left: real, top: real, width: real, height: real)

  predicate ValidRect(r: Rect) {
    r.width > 0.0 && r.height > 0.0
  }

  datatype Pointer = Pointer(clientX: real, clientY: real)

  predicate Inside(p: Pointer, r: Rect) {
    && r.left <= p.clientX <= r.left + r.width
    && r.top <= p.clientY <= r.top + r.height
  }

  /** Normalised device coordinates: x grows to the right, y grows upwards. */
  datatype Ndc = Ndc(x: real, y: real)

  predicate InNdcSquare(n: Ndc) {
    -1.0 <= n.x <= 1.0 && -1.0 <= n.y <= 1.0
  }

  /** The click's normalised device coordinates; no information is lost,
      since FromNdc recovers the pixel. */
  function ToNdc(p: Pointer, r: Rect): (n: Ndc)
    requires ValidRect(r)
    ensures FromNdc(n, r) == p
  {
    DivMul(p.clientX - r.left, r.width);
    DivMul(p.clientY - r.top, r.height);
    Ndc(((p.clientX - r.left) / r.width) * 2.0 - 1.0,
        -((p.clientY - r.top) / r.height) * 2.0 + 1.0)
  }

  /** The pixel that a point of the NDC square stands for; the reference
      against which ToNdc is checked. */
  function FromNdc(n: Ndc, r: Rect): Pointer
    requires ValidRect(r)
  {
    Pointer(r.left + (n.x + 1.0) / 2.0 * r.width,
            r.top + (1.0 - n.y) / 2.0 * r.height)
  }

  lemma DivMul(a: real, w: real)
    requires w > 0.0
    ensures (a / w) * w == a
  {
  }

  lemma MulDiv(a: real, w: real)
    requires w > 0.0
    ensures (a * w) / w == a
  {
  }

  /** ToNdc and FromNdc undo each other in both directions. */
  lemma {:induction false} NdcRoundTrip(p: Pointer, n: Ndc, r: Rect)
    requires ValidRect(r)
    ensures FromNdc(ToNdc(p, r), r) == p
    ensures ToNdc(FromNdc(n, r), r) == n
  {
    DivMul(p.clientX - r.left, r.width);
    DivMul(p.clientY - r.top, r.height);
    MulDiv((n.x + 1.0) / 2.0, r.width);
    MulDiv((1.0 - n.y) / 2.0, r.height);
  }

  /** An offset of 0, w / 2 or w along a side of length w is the fraction
      0, 1/2 or 1 of it. */
  lemma AxisFraction(a: real, w: real)
    requires w > 0.0
    ensures a == 0.0 ==> a / w == 0.0
    ensures a == w / 2.0 ==> a / w == 0.5
    ensures a == w ==> a / w == 1.0
  {
    if a == w / 2.0 {
      DivMul(a, w);
      assert (a / w - 0.5) * w == 0.0;
    }
    if a == w {
      assert a / w == w / w;
    }
  }

  /** Every point of the left edge has x = -1 and of the right edge x = +1,
      whatever its height; every point of the top edge has y = +1 and of the
      bottom edge y = -1, so the screen's downward axis is inverted. The
      centre maps to (0, 0). */
  lemma EdgesOfNdc(p: Pointer, r: Rect)
    requires ValidRect(r)
    ensures p.clientX == r.left ==> ToNdc(p, r).x == -1.0
    ensures p.clientX == r.left + r.width ==> ToNdc(p, r).x == 1.0
    ensures p.clientX == r.left + r.width / 2.0 ==> ToNdc(p, r).x == 0.0
    ensures p.clientY == r.top ==> ToNdc(p, r).y == 1.0
    ensures p.clientY == r.top + r.height ==> ToNdc(p, r).y == -1.0
    ensures p.clientY == r.top + r.height / 2.0 ==> ToNdc(p, r).y == 0.0
  {
    AxisFraction(p.clientX - r.left, r.width);
    AxisFraction(p.clientY - r.top, r.height);
  }

  /** For positive w, a / w lies in [0, 1] exactly when a lies in [0, w]. */
  lemma UnitFraction(a: real, w: real)
    requires w > 0.0
    ensures 0.0 <= a / w <= 1.0 <==> 0.0 <= a <= w
  {
    DivMul(a, w);
    if 0.0 <= a / w <= 1.0 {
      assert (a / w) * w <= 1.0 * w;
    }
    if 0.0 <= a <= w {
      assert a / w <= w / w;
    }
  }

  /** A pointer lies inside the rectangle exactly when its normalised
      coordinates both lie in [-1, 1]. */
  lemma {:induction false} InsideIffInNdcSquare(p: Pointer, r: Rect)
    requires ValidRect(r)
    ensures Inside(p, r) <==> InNdcSquare(ToNdc(p, r))
  {
    UnitFraction(p.clientX - r.left, r.width);
    UnitFraction(p.clientY - r.top, r.height);
  }

  /** Moving the pointer right increases x; moving it down decreases y. */
  lemma {:induction false} NdcOrientation(p: Pointer, q: Pointer, r: Rect)
    requires ValidRect(r)
    ensures p.clientX < q.clientX ==> ToNdc(p, r).x < ToNdc(q, r).x
    ensures p.clientY < q.clientY ==> ToNdc(p, r).y > ToNdc(q, r).y
  {
    DivMul(p.clientX - r.left, r.width);
    DivMul(q.clientX - r.left, r.width);
    DivMul(p.clientY - r.top, r.height);
    DivMul(q.clientY - r.top, r.height);
    if p.clientX < q.clientX {
      assert (p.clientX - r.left) / r.width < (q.clientX - r.left) / r.width;
    }
    if p.clientY < q.clientY {
      assert (p.clientY - r.top) / r.height < (q.clientY - r.top) / r.height;
    }
  }

  // ---------------------------------------------------------------------
  // The widget's scene and the ray caster
  // ---------------------------------------------------------------------

  /** The objects the widget adds to its cube group. */
  datatype SceneObject = CubeMesh | EdgeOutline | FaceLabel(text: string)

  /** The cube group's children in the order the set-up adds them: the mesh,
      its edge outline, then the six labels (front, back, left, right, top,
      bottom; the bottom label also reads "B"). */
  const BuiltCubeGroup: seq<SceneObject> :=
    [CubeMesh, EdgeOutline,
     FaceLabel("F"), FaceLabel("B"), FaceLabel("L"),
     FaceLabel("R"), FaceLabel("T"), FaceLabel("B")]

  /** The references the handler reads. The canvas, camera and scene are
      either there or not; the cube group, when there, has its children. */
  datatype Widget = Widget(canvasMounted: bool, hasCamera: bool, hasScene: bool,
                           cubeGroup: Option<seq<SceneObject>>)

  /** The widget after its set-up has run. */
  const MountedWidget: Widget := Widget(true, true, true, Some(BuiltCubeGroup))

  predicate RefsReady(w: Widget) {
    w.canvasMounted && w.hasCamera && w.hasScene
  }

  /** `children[0]` of the cube group, when the group and that child exist. */
  function PickTarget(w: Widget): (r: Option<SceneObject>)
    ensures r.Some? <==> w.cubeGroup.Some? && |w.cubeGroup.value| > 0
    ensures r.Some? ==> r.value == w.cubeGroup.value[0]
  {
    match w.cubeGroup
    case None => None
    case Some(children) => if |children| > 0 then Some(children[0]) else None
  }

  /** Once set up, the object intersected is the cube mesh: neither the
      outline nor the labels can be picked. */
  lemma MountedPicksCubeMesh()
    ensures RefsReady(MountedWidget)
    ensures PickTarget(MountedWidget) == Some(CubeMesh)
  {
  }

  /** The face a hit struck, with its normal. */
  datatype HitFace = HitFace(normal: Vec3)

  /** One intersection reported by the ray caster. */
  datatype Hit = Hit(distance: real, face: Option<HitFace>)

  /** The ray caster: for a point of the NDC square (the widget's camera is
      fixed, so it is part of the caster) and an object, the ordered list of
      intersections. */
  type Raycaster = (Ndc, SceneObject) -> seq<Hit>

  predicate SortedByDistance(hits: seq<Hit>) {
    forall i, j :: 0 <= i < j < |hits| ==> hits[i].distance <= hits[j].distance
  }

  /** The hits the handler obtains, or None when it returns before casting
      because a reference is missing. */
  function Intersections(w: Widget, p: Pointer, rect: Rect, intersect: Raycaster): (r: Option<seq<Hit>>)
    requires RefsReady(w) ==> ValidRect(rect)
    ensures r.Some? <==> RefsReady(w) && PickTarget(w).Some?
    ensures r.Some? ==> r.value == intersect(ToNdc(p, rect), PickTarget(w).value)
  {
    if !RefsReady(w) then None
    else
      var ndc := ToNdc(p, rect);
      match PickTarget(w)
      case None => None
      case Some(cube) => Some(intersect(ndc, cube))
  }

  predicate FirstHitHasFace(hits: seq<Hit>) {
    |hits| > 0 && hits[0].face.Some?
  }

  /** The click handler: the viewpoint it emits, if any. An event is emitted
      exactly when every reference is present and the first hit has a face;
      it is then the viewpoint for that face's normal, looking at the origin. */
  function HandleClick(w: Widget, p: Pointer, rect: Rect, intersect: Raycaster): (r: Option<Viewpoint>)
    requires RefsReady(w) ==> ValidRect(rect)
    ensures r.Some? ==> r.value.target == Origin
    ensures r.Some? <==>
              Intersections(w, p, rect, intersect).Some? &&
              FirstHitHasFace(Intersections(w, p, rect, intersect).value)
    ensures r.Some? ==>
              r.value == ViewpointForNormal(Intersections(w, p, rect, intersect).value[0].face.value.normal)
  {
    match Intersections(w, p, rect, intersect)
    case None => None
    case Some(hits) =>
      if |hits| > 0 then
        match hits[0].face
        case None => None
        case Some(face) => Some(ViewpointForNormal(face.normal))
      else None
  }

  // ---------------------------------------------------------------------
  // Properties of the handler
  // ---------------------------------------------------------------------

  /** A missing canvas, camera, scene or cube child means no event. */
  lemma MissingRefNoEvent(w: Widget, p: Pointer, rect: Rect, intersect: Raycaster)
    requires RefsReady(w) ==> ValidRect(rect)
    requires !RefsReady(w) || PickTarget(w).None?
    ensures HandleClick(w, p, rect, intersect) == None
  {
  }

  /** An empty hit list, or a first hit without a face, means no event. */
  lemma NoFaceNoEvent(w: Widget, p: Pointer, rect: Rect, intersect: Raycaster, hits: seq<Hit>)
    requires RefsReady(w) ==> ValidRect(rect)
    requires Intersections(w, p, rect, intersect) == Some(hits)
    requires |hits| == 0 || hits[0].face.None?
    ensures HandleClick(w, p, rect, intersect) == None
  {
  }

  /** Only the first hit matters: two casters whose lists start with the
      same hit (or are both empty) lead to the same event, whatever follows. */
  lemma FirstHitDecides(w: Widget, p: Pointer, rect: Rect, c1: Raycaster, c2: Raycaster)
    requires RefsReady(w) && ValidRect(rect) && PickTarget(w).Some?
    requires var h1 := c1(ToNdc(p, rect), PickTarget(w).value);
             var h2 := c2(ToNdc(p, rect), PickTarget(w).value);
             (|h1| == 0 && |h2| == 0) || (|h1| > 0 && |h2| > 0 && h1[0] == h2[0])
    ensures HandleClick(w, p, rect, c1) == HandleClick(w, p, rect, c2)
  {
  }

  /** When the caster orders its hits by distance, the emitted position is
      the normal of a nearest hit scaled by the standoff. */
  lemma NearestHitWins(w: Widget, p: Pointer, rect: Rect, intersect: Raycaster, hits: seq<Hit>)
    requires RefsReady(w) ==> ValidRect(rect)
    requires Intersections(w, p, rect, intersect) == Some(hits)
    requires SortedByDistance(hits)
    requires HandleClick(w, p, rect, intersect).Some?
    ensures exists k :: 0 <= k < |hits| && hits[k].face.Some? &&
              HandleClick(w, p, rect, intersect).value == ViewpointForNormal(hits[k].face.value.normal) &&
              forall j :: 0 <= j < |hits| ==> hits[k].distance <= hits[j].distance
  {
    assert 0 < |hits| && hits[0].face.Some?;
    assert forall j :: 0 <= j < |hits| ==> hits[0].distance <= hits[j].distance by {
      forall j | 0 < j < |hits| ensures hits[0].distance <= hits[j].distance {
      }
    }
  }

  // ---------------------------------------------------------------------
  // The six faces
  // ---------------------------------------------------------------------

  datatype Face = Front | Back | Left | Right | Top | Bottom

  /** The outward unit normal of each face of the axis-aligned cube; the
      labels place front on +z, right on +x and top on +y. */
  function OutwardNormal(f: Face): Vec3 {
    match f
    case Front => Vec3(0.0, 0.0, 1.0)
    case Back => Vec3(0.0, 0.0, -1.0)
    case Left => Vec3(-1.0, 0.0, 0.0)
    case Right => Vec3(1.0, 0.0, 0.0)
    case Top => Vec3(0.0, 1.0, 0.0)
    case Bottom => Vec3(0.0, -1.0, 0.0)
  }

  /** The face whose outward normal points in the direction of a position
      on one of the axes, if any. */
  function FaceAt(position: Vec3): Option<Face> {
    var Vec3(x, y, z) := position;
    if x == 0.0 && y == 0.0 && z > 0.0 then Some(Front)
    else if x == 0.0 && y == 0.0 && z < 0.0 then Some(Back)
    else if x < 0.0 && y == 0.0 && z == 0.0 then Some(Left)
    else if x > 0.0 && y == 0.0 && z == 0.0 then Some(Right)
    else if x == 0.0 && y > 0.0 && z == 0.0 then Some(Top)
    else if x == 0.0 && y < 0.0 && z == 0.0 then Some(Bottom)
    else None
  }

  /** A face can be read back from its outward normal scaled by any positive
      distance, in particular by the standoff. */
  lemma FaceViewRoundTrip(f: Face, k: real)
    requires k > 0.0
    ensures FaceAt(Scale(OutwardNormal(f), k)) == Some(f)
  {
    match f
    case Front => assert Scale(Vec3(0.0, 0.0, 1.0), k) == Vec3(0.0, 0.0, k);
    case Back => assert Scale(Vec3(0.0, 0.0, -1.0), k) == Vec3(0.0, 0.0, -k);
    case Left => assert Scale(Vec3(-1.0, 0.0, 0.0), k) == Vec3(-k, 0.0, 0.0);
    case Right => assert Scale(Vec3(1.0, 0.0, 0.0), k) == Vec3(k, 0.0, 0.0);
    case Top => assert Scale(Vec3(0.0, 1.0, 0.0), k) == Vec3(0.0, k, 0.0);
    case Bottom => assert Scale(Vec3(0.0, -1.0, 0.0), k) == Vec3(0.0, -k, 0.0);
  }

  /** Every outward normal is a unit vector along one axis. */
  lemma OutwardNormalIsUnit(f: Face)
    ensures NormSq(OutwardNormal(f)) == 1.0
    ensures FaceAt(OutwardNormal(f)) == Some(f)
  {
    match f
    case Front =>
    case Back =>
    case Left =>
    case Right =>
    case Top =>
    case Bottom =>
  }

  /** Clicking a face emits the view along that face's outward normal at the
      standoff distance, looking at the origin; the face can be read back
      from the emitted position, so the six views are distinct. */
  lemma ClickOnFace(w: Widget, p: Pointer, rect: Rect, intersect: Raycaster, hits: seq<Hit>, f: Face)
    requires RefsReady(w) ==> ValidRect(rect)
    requires Intersections(w, p, rect, intersect) == Some(hits)
    requires |hits| > 0 && hits[0].face == Some(HitFace(OutwardNormal(f)))
    ensures HandleClick(w, p, rect, intersect) == Some(Viewpoint(Scale(OutwardNormal(f), Standoff), Origin))
    ensures FaceAt(HandleClick(w, p, rect, intersect).value.position) == Some(f)
    ensures NormSq(HandleClick(w, p, rect, intersect).value.position) == Standoff * Standoff
  {
    var v := ViewpointForNormal(OutwardNormal(f));
    assert HandleClick(w, p, rect, intersect) == Some(v);
    FaceViewRoundTrip(f, Standoff);
    StandoffInverse(OutwardNormal(f));
    OutwardNormalIsUnit(f);
  }

  /** Different faces give different viewpoints. */
  lemma FaceViewsDistinct(f: Face, g: Face)
    requires f != g
    ensures ViewpointForNormal(OutwardNormal(f)) != ViewpointForNormal(OutwardNormal(g))
  {
    StandoffInverse(OutwardNormal(f));
    StandoffInverse(OutwardNormal(g));
    OutwardNormalIsUnit(f);
    OutwardNormalIsUnit(g);
  }

  /** The top face, clicked on the set-up widget, requests (0, 10, 0)
      looking at (0, 0, 0). */
  lemma TopFaceScenario(p: Pointer, rect: Rect, intersect: Raycaster)
    requires ValidRect(rect)
    requires var hits := intersect(ToNdc(p, rect), CubeMesh);
             |hits| > 0 && hits[0].face == Some(HitFace(Vec3(0.0, 1.0, 0.0)))
    ensures HandleClick(MountedWidget, p, rect, intersect) ==
              Some(Viewpoint(Vec3(0.0, 10.0, 0.0), Vec3(0.0, 0.0, 0.0)))
  {
    MountedPicksCubeMesh();
  }
}
