/**
 * The 3D carton viewer (src/components/three/ModelViewer.tsx): the fold
 * bookkeeping around one loaded model, the 16:9 viewport fit, the colour
 * grade the injected shader applies, and the load percentage.
 *
 * three.js objects are values here. A mesh is known by a stable id (the JS
 * code keys its map by the mesh object), a GSAP tween is the assignment of
 * its end value, and the scene is the list of model ids added to it.
 * Arithmetic is over `real`.
 */
module ModelViewer {
  import opened Wrappers

  datatype Vec3 = Vec3(x: real, y: real, z: real)

  const Zero := Vec3(0.0, 0.0, 0.0)

  /** The model pose set at load and restored by unfolding. */
  const LoadPosition := Vec3(-2.464, 0.0, 5.315)
  const LoadRotation := Vec3(0.0, 1.56, 0.0)

  /** `foldedStateRef.current.position` / `.rotation`, which nothing reassigns. */
  const FoldPosition := Vec3(-4.844, 0.0, 0.835)
  const FoldRotation := Zero

  /** The camera position and the orbit controls' target. */
  datatype Pose = Pose(cameraPosition: Vec3, controlsTarget: Vec3)

  /** `initialStateRef`'s first value. */
  const InitialPose := Pose(Vec3(4.0, 0.0, 0.0), Zero)

  datatype MeshNode = MeshNode(id: nat, rotation: Vec3)

  /** A loaded glTF scene: its position, rotation and meshes in traversal order. */
  datatype SceneModel = SceneModel(id: nat, position: Vec3, rotation: Vec3, meshes: seq<MeshNode>)

  /** The meshes of one traversal are distinct objects. */
  predicate DistinctIds(ms: seq<MeshNode>) {
    forall i, j :: 0 <= i < j < |ms| ==> ms[i].id != ms[j].id
  }

  function MeshIds(ms: seq<MeshNode>): (ids: seq<nat>)
    ensures |ids| == |ms| && forall i :: 0 <= i < |ms| ==> ids[i] == ms[i].id
  {
    seq(|ms|, i requires 0 <= i < |ms| => ms[i].id)
  }

  // ---------------------------------------------------------------------------
  // Viewport fit and colour grade
  // ---------------------------------------------------------------------------

  datatype Size = Size(width: real, height: real)

  /**
   * `handleResize`: full width at 16:9, unless that is too tall, in which
   * case full height at 16:9. Window dimensions are never negative.
   */
  function FitViewport(parentWidth: real, parentHeight: real): (r: Size)
    requires parentWidth >= 0.0 && parentHeight >= 0.0
    ensures r.width == r.height * (16.0 / 9.0)
    ensures 0.0 <= r.width <= parentWidth && 0.0 <= r.height <= parentHeight
    ensures r.width == parentWidth || r.height == parentHeight
  {
    var width := parentWidth;
    var height := parentWidth * (9.0 / 16.0);
    if height > parentHeight then Size(parentHeight * (16.0 / 9.0), parentHeight)
    else Size(width, height)
  }

  /** The fitted size is the largest 16:9 box inside the viewport. */
  lemma FitViewportLargest(parentWidth: real, parentHeight: real, other: Size)
    requires parentWidth >= 0.0 && parentHeight >= 0.0
    requires other.width == other.height * (16.0 / 9.0)
    requires other.width <= parentWidth && other.height <= parentHeight
    ensures other.width <= FitViewport(parentWidth, parentHeight).width
    ensures other.height <= FitViewport(parentWidth, parentHeight).height
  {
  }

  datatype Rgb = Rgb(r: real, g: real, b: real)

  /** Luma weights of `dot(color, vec3(0.299, 0.587, 0.114))`. */
  function Gray(c: Rgb): real {
    0.299 * c.r + 0.587 * c.g + 0.114 * c.b
  }

  /** GLSL `mix(x, y, a)`. */
  function Mix(x: real, y: real, a: real): real {
    x * (1.0 - a) + y * a
  }

  /**
   * The shader's grade: scale by brightness, stretch about 0.5 by contrast,
   * then mix from gray towards the colour by saturation.
   */
  function ColorGrade(brightness: real, contrast: real, saturation: real, color: Rgb): Rgb {
    var c1 := Rgb(color.r * brightness, color.g * brightness, color.b * brightness);
    var c2 := Rgb((c1.r - 0.5) * contrast + 0.5, (c1.g - 0.5) * contrast + 0.5, (c1.b - 0.5) * contrast + 0.5);
    var gray := Gray(c2);
    Rgb(Mix(gray, c2.r, saturation), Mix(gray, c2.g, saturation), Mix(gray, c2.b, saturation))
  }

  /** `colorCorrection` is 1, 1, 1 in the component. */
  const Brightness := 1.0
  const Contrast := 1.0
  const Saturation := 1.0

  /** With the component's settings the grade is the identity. */
  lemma ColorGradeIdentity(color: Rgb)
    ensures ColorGrade(Brightness, Contrast, Saturation, color) == color
  {
  }

  /** Saturation 0 gives the gray of the contrast-adjusted colour on every channel, and gray is fixed. */
  lemma ColorGradeDesaturated(brightness: real, contrast: real, color: Rgb)
    ensures var c := ColorGrade(brightness, contrast, 0.0, color); c.r == c.g == c.b
    ensures var g := Rgb(Gray(color), Gray(color), Gray(color)); ColorGrade(1.0, 1.0, 0.0, g) == g
  {
  }

  // ---------------------------------------------------------------------------
  // Load progress
  // ---------------------------------------------------------------------------

  /** `(progress.loaded / (progress.total || 1)) * 100`. */
  function Progress(loaded: real, total: real): (p: real)
    ensures total != 0.0 ==> p * total == loaded * 100.0
    ensures total == 0.0 ==> p == loaded * 100.0
  {
    (loaded / (if total != 0.0 then total else 1.0)) * 100.0
  }

  /** With a known total and loaded bytes within it, the percentage is in [0, 100] and reaches 100 at the end. */
  lemma ProgressBounds(loaded: real, total: real)
    requires total > 0.0 && 0.0 <= loaded <= total
    ensures 0.0 <= Progress(loaded, total) <= 100.0
    ensures loaded == total ==> Progress(loaded, total) == 100.0
  {
  }

  /** With an unknown total (0) the value is not clamped: 5 bytes read as 500. */
  lemma ProgressUnclamped()
    ensures Progress(5.0, 0.0) == 500.0
  {
  }

  // ---------------------------------------------------------------------------
  // The fold bookkeeping as a state machine
  // ---------------------------------------------------------------------------

  /**
   * What the fold logic reads and writes: `isFolded`, whether camera and
   * controls exist, their pose, `initialStateRef`, the recorded mesh
   * rotations, and `modelRef`.
   */
  datatype ViewerState = ViewerState(
    isFolded: bool,
    hasCamera: bool,
    camera: Pose,
    saved: Pose,
    meshRotations: map<nat, Vec3>,
    model: Option<SceneModel>)

  const Initial := ViewerState(false, false, InitialPose, InitialPose, map[], None)

  /** Every mesh at rotation (0, 0, 0). */
  function ZeroMeshes(ms: seq<MeshNode>): seq<MeshNode> {
    seq(|ms|, i requires 0 <= i < |ms| => MeshNode(ms[i].id, Zero))
  }

  /** Each mesh with a recorded rotation takes it; the others keep theirs. */
  function FoldMeshes(ms: seq<MeshNode>, recorded: map<nat, Vec3>): seq<MeshNode> {
    seq(|ms|, i requires 0 <= i < |ms| =>
      if ms[i].id in recorded then MeshNode(ms[i].id, recorded[ms[i].id]) else ms[i])
  }

  /** `meshRotations.set(child, child.rotation)` for each mesh in traversal order. */
  function Snapshot(recorded: map<nat, Vec3>, ms: seq<MeshNode>): map<nat, Vec3>
    decreases |ms|
  {
    if |ms| == 0 then recorded
    else Snapshot(recorded, ms[..|ms| - 1])[ms[|ms| - 1].id := ms[|ms| - 1].rotation]
  }

  /** The mount effect: camera and controls are created at the saved pose. */
  function Mounted(s: ViewerState): ViewerState {
    s.(hasCamera := true, camera := s.saved)
  }

  /** The texture effect: `setIsFolded(false)`, and nothing else. */
  function TextureReset(s: ViewerState): ViewerState {
    s.(isFolded := false)
  }

  /** The user drags the orbit controls. */
  function Orbited(s: ViewerState, p: Pose): ViewerState {
    s.(camera := p)
  }

  /** The load callback: snapshot and zero the meshes, place the model, replace `modelRef`. */
  function Load(s: ViewerState, m: SceneModel): ViewerState {
    s.(meshRotations := Snapshot(s.meshRotations, m.meshes),
       model := Some(SceneModel(m.id, LoadPosition, LoadRotation, ZeroMeshes(m.meshes))))
  }

  /** `toggleFold`. */
  function Toggle(s: ViewerState): ViewerState {
    if s.model.None? || !s.hasCamera then s
    else
      var m := s.model.value;
      if s.isFolded then
        s.(isFolded := false,
           camera := s.saved,
           model := Some(SceneModel(m.id, LoadPosition, LoadRotation, ZeroMeshes(m.meshes))))
      else
        s.(isFolded := true,
           saved := s.camera,
           model := Some(SceneModel(m.id, FoldPosition, FoldRotation, FoldMeshes(m.meshes, s.meshRotations))))
  }

  /** The fold button's caption. */
  function FoldButtonLabel(isFolded: bool): string {
    if isFolded then "UNFOLD" else "FOLD"
  }

  /**
   * Loading records every mesh's rotation as it came from the file and
   * keeps the other entries; the keys are the old keys and the mesh ids.
   */
  lemma {:induction false} SnapshotRecords(recorded: map<nat, Vec3>, ms: seq<MeshNode>)
    requires DistinctIds(ms)
    ensures forall i :: 0 <= i < |ms| ==> ms[i].id in Snapshot(recorded, ms) && Snapshot(recorded, ms)[ms[i].id] == ms[i].rotation
    ensures forall k :: k in Snapshot(recorded, ms) <==> k in recorded || k in MeshIds(ms)
    ensures forall k :: k in recorded && k !in MeshIds(ms) ==> Snapshot(recorded, ms)[k] == recorded[k]
    decreases |ms|
  {
    if |ms| > 0 {
      var init := ms[..|ms| - 1];
      SnapshotRecords(recorded, init);
      assert MeshIds(ms) == MeshIds(init) + [ms[|ms| - 1].id];
    }
  }

  lemma LoadSnapshot(s: ViewerState, m: SceneModel)
    requires DistinctIds(m.meshes)
    ensures var t := Load(s, m);
      && (forall i :: 0 <= i < |m.meshes| ==>
            m.meshes[i].id in t.meshRotations && t.meshRotations[m.meshes[i].id] == m.meshes[i].rotation)
      && t.model.Some?
      && t.model.value.position == LoadPosition && t.model.value.rotation == LoadRotation
      && MeshIds(t.model.value.meshes) == MeshIds(m.meshes)
      && (forall i :: 0 <= i < |m.meshes| ==> t.model.value.meshes[i].rotation == Zero)
      && t.isFolded == s.isFolded && t.camera == s.camera && t.saved == s.saved
  {
    SnapshotRecords(s.meshRotations, m.meshes);
  }

  /** Toggling is a no-op while the model, or the camera and controls, are absent. */
  lemma ToggleNeedsModelAndCamera(s: ViewerState)
    ensures s.model.None? || !s.hasCamera ==> Toggle(s) == s
    ensures s.model.Some? && s.hasCamera ==> Toggle(s).isFolded == !s.isFolded
  {
  }

  /**
   * Folding saves the current camera pose, sends the model to the fold pose
   * and each recorded mesh to its recorded rotation; meshes without an entry
   * keep theirs, and the camera does not move.
   */
  lemma FoldTargets(s: ViewerState)
    requires s.model.Some? && s.hasCamera && !s.isFolded
    ensures var t := Toggle(s);
      && t.saved == s.camera && t.camera == s.camera
      && t.model.Some? && t.model.value.id == s.model.value.id
      && t.model.value.position == FoldPosition && t.model.value.rotation == FoldRotation
      && |t.model.value.meshes| == |s.model.value.meshes|
      && forall i :: 0 <= i < |s.model.value.meshes| ==>
        var mesh := s.model.value.meshes[i];
        t.model.value.meshes[i].id == mesh.id
        && t.model.value.meshes[i].rotation == (if mesh.id in s.meshRotations then s.meshRotations[mesh.id] else mesh.rotation)
  {
  }

  /**
   * Unfolding sends the model to the load pose and every mesh to (0, 0, 0),
   * and puts the camera and the controls' target back at the saved pose.
   */
  lemma UnfoldTargets(s: ViewerState)
    requires s.model.Some? && s.hasCamera && s.isFolded
    ensures var t := Toggle(s);
      && t.camera == s.saved && t.saved == s.saved
      && t.model.Some? && t.model.value.position == LoadPosition && t.model.value.rotation == LoadRotation
      && t.model.value.meshes == ZeroMeshes(s.model.value.meshes)
  {
  }

  /**
   * Fold, then any orbiting, then unfold: the meshes are at zero, the model
   * is at its load pose, and the camera is back at the pose it had just
   * before the fold.
   */
  lemma FoldOrbitUnfold(s: ViewerState, p: Pose)
    requires s.model.Some? && s.hasCamera && !s.isFolded
    ensures var t := Toggle(Orbited(Toggle(s), p));
      && !t.isFolded
      && t.camera == s.camera
      && t.model.Some? && t.model.value.position == LoadPosition && t.model.value.rotation == LoadRotation
      && forall i :: 0 <= i < |t.model.value.meshes| ==> t.model.value.meshes[i].rotation == Zero
  {
  }

  /** Right after a load, folding puts every mesh back at the rotation it had in the file. */
  lemma FoldAfterLoadRestoresFile(s: ViewerState, m: SceneModel)
    requires DistinctIds(m.meshes) && s.hasCamera && !s.isFolded
    ensures var t := Toggle(Load(s, m));
      t.model.Some? && t.model.value.meshes == m.meshes
  {
    SnapshotRecords(s.meshRotations, m.meshes);
    var t := Toggle(Load(s, m));
    assert forall i :: 0 <= i < |m.meshes| ==> t.model.value.meshes[i] == m.meshes[i];
  }

  /** After a texture change the next toggle folds (it saves the camera). */
  lemma TextureChangeThenToggleFolds(s: ViewerState)
    requires s.model.Some? && s.hasCamera
    ensures Toggle(TextureReset(s)).isFolded
    ensures Toggle(TextureReset(s)).saved == s.camera
  {
  }

  // ---------------------------------------------------------------------------
  // The mesh traversals
  // ---------------------------------------------------------------------------

  /** The load traversal: record each mesh's rotation, then set it to (0, 0, 0). */
  method SnapshotAndZero(recorded: map<nat, Vec3>, ms: seq<MeshNode>)
    returns (rotations: map<nat, Vec3>, meshes: seq<MeshNode>)
    ensures rotations == Snapshot(recorded, ms)
    ensures meshes == ZeroMeshes(ms)
  {
    rotations := recorded;
    meshes := ms;
    var i := 0;
    while i < |meshes|
      invariant 0 <= i <= |meshes| == |ms|
      invariant rotations == Snapshot(recorded, ms[..i])
      invariant meshes == ZeroMeshes(ms[..i]) + ms[i..]
    {
      assert ms[..i + 1][..i] == ms[..i];
      rotations := rotations[meshes[i].id := meshes[i].rotation];
      meshes := meshes[i := MeshNode(meshes[i].id, Zero)];
      assert ZeroMeshes(ms[..i + 1]) == ZeroMeshes(ms[..i]) + [MeshNode(ms[i].id, Zero)];
      i := i + 1;
    }
    assert ms[..i] == ms;
  }

  /** The unfold traversal: tween every mesh to (0, 0, 0). */
  method ZeroAll(ms: seq<MeshNode>) returns (meshes: seq<MeshNode>)
    ensures meshes == ZeroMeshes(ms)
  {
    meshes := ms;
    var i := 0;
    while i < |meshes|
      invariant 0 <= i <= |meshes| == |ms|
      invariant meshes == ZeroMeshes(ms[..i]) + ms[i..]
    {
      meshes := meshes[i := MeshNode(meshes[i].id, Zero)];
      assert ZeroMeshes(ms[..i + 1]) == ZeroMeshes(ms[..i]) + [MeshNode(ms[i].id, Zero)];
      i := i + 1;
    }
    assert ms[..i] == ms;
  }

  /** The fold traversal: tween each mesh with a recorded rotation to it. */
  method FoldAll(ms: seq<MeshNode>, recorded: map<nat, Vec3>) returns (meshes: seq<MeshNode>)
    ensures meshes == FoldMeshes(ms, recorded)
  {
    meshes := ms;
    var i := 0;
    while i < |meshes|
      invariant 0 <= i <= |meshes| == |ms|
      invariant forall k :: 0 <= k < i ==>
        meshes[k] == (if ms[k].id in recorded then MeshNode(ms[k].id, recorded[ms[k].id]) else ms[k])
      invariant meshes[i..] == ms[i..]
    {
      var mesh := meshes[i];
      assert mesh == ms[i] by { assert meshes[i..][0] == ms[i..][0]; }
      if mesh.id in recorded {
        meshes := meshes[i := MeshNode(mesh.id, recorded[mesh.id])];
      }
      i := i + 1;
    }
  }

  /** The disposal traversal of the previous model: the ids of its meshes, in order. */
  method DisposeAll(ms: seq<MeshNode>) returns (disposed: seq<nat>)
    ensures disposed == MeshIds(ms)
  {
    disposed := [];
    var j := 0;
    while j < |ms|
      invariant 0 <= j <= |ms|
      invariant disposed == MeshIds(ms[..j])
    {
      disposed := disposed + [ms[j].id];
      assert MeshIds(ms[..j + 1]) == MeshIds(ms[..j]) + [ms[j].id];
      j := j + 1;
    }
    assert ms[..j] == ms;
  }

  // ---------------------------------------------------------------------------
  // The component
  // ---------------------------------------------------------------------------

  class ModelViewer {
    var isFolded: bool
    var hasCamera: bool
    var camera: Pose
    var saved: Pose
    var meshRotations: map<nat, Vec3>
    var model: Option<SceneModel>
    /** The ids of the models in the current scene. */
    var sceneModels: seq<nat>
    /** The meshes whose geometry and material have been disposed, in order. */
    var disposedMeshes: seq<nat>
    var isLoading: bool
    var loadProgress: real

    function State(): ViewerState
      reads this
    {
      ViewerState(isFolded, hasCamera, camera, saved, meshRotations, model)
    }

    /** The scene holds nothing, or exactly the current model. */
    ghost predicate Valid()
      reads this
    {
      sceneModels == [] || (model.Some? && sceneModels == [model.value.id])
    }

    constructor ()
      ensures State() == Initial
      ensures sceneModels == [] && disposedMeshes == []
      ensures isLoading && loadProgress == 0.0
      ensures Valid()
    {
      isFolded := false;
      hasCamera := false;
      camera := InitialPose;
      saved := InitialPose;
      meshRotations := map[];
      model := None;
      sceneModels := [];
      disposedMeshes := [];
      isLoading := true;
      loadProgress := 0.0;
    }

    /** The mount effect: a new scene, and camera and controls at the saved pose. */
    method Mount()
      modifies this
      ensures State() == Mounted(old(State()))
      ensures sceneModels == []
      ensures disposedMeshes == old(disposedMeshes) && isLoading == old(isLoading) && loadProgress == old(loadProgress)
      ensures Valid()
    {
      sceneModels := [];
      camera := saved;
      hasCamera := true;
    }

    method TextureChanged()
      requires Valid()
      modifies this
      ensures Valid()
      ensures State() == TextureReset(old(State()))
      ensures sceneModels == old(sceneModels) && disposedMeshes == old(disposedMeshes)
      ensures isLoading == old(isLoading) && loadProgress == old(loadProgress)
    {
      isFolded := false;
    }

    method Orbit(p: Pose)
      requires Valid()
      modifies this
      ensures Valid()
      ensures State() == Orbited(old(State()), p)
      ensures sceneModels == old(sceneModels) && disposedMeshes == old(disposedMeshes)
      ensures isLoading == old(isLoading) && loadProgress == old(loadProgress)
    {
      camera := p;
    }

    /** The progress callback of the loader. */
    method ReportProgress(loaded: real, total: real)
      requires Valid()
      modifies this
      ensures Valid()
      ensures loadProgress == Progress(loaded, total)
      ensures State() == old(State()) && sceneModels == old(sceneModels)
      ensures disposedMeshes == old(disposedMeshes) && isLoading == old(isLoading)
    {
      loadProgress := Progress(loaded, total);
    }

    /**
     * The load callback. The traversal records each mesh's rotation and
     * zeroes it; the previous model's meshes are disposed and it leaves the
     * scene before the new one joins it.
     */
    method LoadModel(m: SceneModel)
      requires Valid()
      modifies this
      ensures State() == Load(old(State()), m)
      ensures disposedMeshes == old(disposedMeshes) + (if old(model).Some? then MeshIds(old(model).value.meshes) else [])
      ensures sceneModels == [m.id]
      ensures !isLoading && loadProgress == old(loadProgress)
      ensures Valid()
    {
      var meshes;
      meshRotations, meshes := SnapshotAndZero(meshRotations, m.meshes);
      var loaded := SceneModel(m.id, LoadPosition, LoadRotation, meshes);
      if model.Some? {
        var previous := model.value;
        var disposed := DisposeAll(previous.meshes);
        disposedMeshes := disposedMeshes + disposed;
        assert RemoveId([previous.id], previous.id) == [];
        sceneModels := RemoveId(sceneModels, previous.id);
      }
      sceneModels := sceneModels + [m.id];
      model := Some(loaded);
      isLoading := false;
    }

    /**
     * `toggleFold`. Fold: save the camera pose, then tween the model to the
     * fold pose and each recorded mesh to its recorded rotation. Unfold:
     * tween the model to the load pose, the camera and target to the saved
     * pose, and every mesh to zero.
     */
    method ToggleFold()
      requires Valid()
      modifies this
      ensures Valid()
      ensures State() == Toggle(old(State()))
      ensures sceneModels == old(sceneModels) && disposedMeshes == old(disposedMeshes)
      ensures isLoading == old(isLoading) && loadProgress == old(loadProgress)
    {
      if model.None? || !hasCamera {
        return;
      }
      var m := model.value;
      var was := isFolded;
      isFolded := !was;
      if was {
        camera := saved;
        var meshes := ZeroAll(m.meshes);
        model := Some(SceneModel(m.id, LoadPosition, LoadRotation, meshes));
      } else {
        saved := camera;
        var meshes := FoldAll(m.meshes, meshRotations);
        model := Some(SceneModel(m.id, FoldPosition, FoldRotation, meshes));
      }
    }
  }

  /** `scene.remove(object)`: drop every occurrence of the id. */
  function RemoveId(ids: seq<nat>, id: nat): (r: seq<nat>)
    ensures id !in r
    ensures forall k :: k in r <==> k in ids && k != id
    decreases |ids|
  {
    if |ids| == 0 then []
    else if ids[0] == id then RemoveId(ids[1..], id)
    else [ids[0]] + RemoveId(ids[1..], id)
  }
}
