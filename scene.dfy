/**
 * The editor state the shortcuts act on, as values: the scene's objects, the
 * selection, and what each shortcut does to them.  The class in Shortcuts
 * performs these changes step by step and is proved to end in the states
 * described here.
 */
module Scene {
  import opened Wrappers
  import Names

  /** An object's id is its position in the scene. */
  type ObjectId = nat

  /** Float vectors and quaternions are only ever compared for equality. */
  datatype Vector3 = Vector3(x: real, y: real, z: real)
  datatype Quaternion = Quaternion(x: real, y: real, z: real, w: real)

  /** The local position, rotation and scale of a transform. */
  datatype LocalTransform = LocalTransform(position: Vector3, rotation: Quaternion, scale: Vector3)

  /** Vector3.zero, Vector3.one and Quaternion.Euler(Vector3.zero). */
  const Zero := Vector3(0.0, 0.0, 0.0)
  const One := Vector3(1.0, 1.0, 1.0)
  const Identity := Quaternion(0.0, 0.0, 0.0, 1.0)

  /** The transform "Reset Transform" gives every selected object. */
  const ResetPose := LocalTransform(Zero, Identity, One)

  /** A game object: its name, its own active flag, its parent and its local transform. */
  datatype GameObject = GameObject(name: string, active: bool, parent: Option<ObjectId>, transform: LocalTransform)

  /** Every id in `ids` names an object of the scene. */
  predicate InScene(objs: seq<GameObject>, ids: seq<ObjectId>)
  {
    forall k :: 0 <= k < |ids| ==> ids[k] < |objs|
  }

  /** No id occurs twice. */
  predicate Distinct(ids: seq<ObjectId>)
  {
    forall a, b :: 0 <= a < b < |ids| ==> ids[a] != ids[b]
  }

  /** Every parent is an object of the scene. */
  predicate WellParented(objs: seq<GameObject>)
  {
    forall i :: 0 <= i < |objs| && objs[i].parent.Some? ==> objs[i].parent.value < |objs|
  }

  /** The scene after `f` has been applied to every object whose id is in `sel`. */
  function Update(objs: seq<GameObject>, sel: seq<ObjectId>, f: GameObject -> GameObject): seq<GameObject>
  {
    seq(|objs|, i requires 0 <= i < |objs| => if i in sel then f(objs[i]) else objs[i])
  }

  /** Applying `f` to one more id, not yet visited, extends the update by one object. */
  lemma UpdateStep(objs: seq<GameObject>, sel: seq<ObjectId>, i: nat, f: GameObject -> GameObject)
    requires i < |sel| && sel[i] < |objs| && sel[i] !in sel[..i]
    ensures Update(objs, sel[..i + 1], f) == Update(objs, sel[..i], f)[sel[i] := f(objs[sel[i]])]
  {
    assert sel[..i + 1] == sel[..i] + [sel[i]];
  }

  /** An update over no ids leaves the scene as it is. */
  lemma UpdateNothing(objs: seq<GameObject>, f: GameObject -> GameObject)
    ensures Update(objs, [], f) == objs
  {
  }

  // ---------------------------------------------------------------------------
  // Hide Selection
  // ---------------------------------------------------------------------------

  /** The number of active (shown) objects among `sel`. */
  function CountActive(objs: seq<GameObject>, sel: seq<ObjectId>): nat
    requires InScene(objs, sel)
  {
    if sel == [] then 0
    else CountActive(objs, sel[..|sel| - 1]) + (if objs[sel[|sel| - 1]].active then 1 else 0)
  }

  /** The number of inactive (hidden) objects among `sel`. */
  function CountInactive(objs: seq<GameObject>, sel: seq<ObjectId>): nat
    requires InScene(objs, sel)
  {
    if sel == [] then 0
    else CountInactive(objs, sel[..|sel| - 1]) + (if objs[sel[|sel| - 1]].active then 0 else 1)
  }

  /** Every selected object is counted exactly once, as shown or as hidden. */
  lemma {:induction false} CountsCoverSelection(objs: seq<GameObject>, sel: seq<ObjectId>)
    requires InScene(objs, sel)
    ensures CountActive(objs, sel) + CountInactive(objs, sel) == |sel|
  {
    if sel != [] {
      CountsCoverSelection(objs, sel[..|sel| - 1]);
    }
  }

  /** No hidden object is counted exactly when every selected object is active. */
  lemma {:induction false} NoHiddenIffAllActive(objs: seq<GameObject>, sel: seq<ObjectId>)
    requires InScene(objs, sel)
    ensures CountInactive(objs, sel) == 0 <==> forall k :: 0 <= k < |sel| ==> objs[sel[k]].active
  {
    if sel != [] {
      var init := sel[..|sel| - 1];
      NoHiddenIffAllActive(objs, init);
      assert forall k :: 0 <= k < |init| ==> init[k] == sel[k];
    }
  }

  /** The edit that sets an object's active flag. */
  function SetActive(flag: bool): GameObject -> GameObject
  {
    (o: GameObject) => o.(active := flag)
  }

  /**
   * The scene after "Hide Selection": with a selection, every selected object
   * gets one flag, true when some selected object was hidden.
   */
  function HideToggle(objs: seq<GameObject>, sel: seq<ObjectId>): (r: seq<GameObject>)
    requires InScene(objs, sel)
    ensures |r| == |objs|
  {
    var hidden := CountInactive(objs, sel);
    var shown := CountActive(objs, sel);
    if hidden == 0 && shown == 0 then objs
    else Update(objs, sel, SetActive(hidden != 0))
  }

  /** If some selected object is hidden, afterwards every selected object is shown. */
  lemma HideShowsAllWhenAnyHidden(objs: seq<GameObject>, sel: seq<ObjectId>, k: nat)
    requires InScene(objs, sel)
    requires k < |sel| && !objs[sel[k]].active
    ensures forall m :: 0 <= m < |sel| ==> HideToggle(objs, sel)[sel[m]].active
  {
    NoHiddenIffAllActive(objs, sel);
  }

  /** If every selected object is shown, afterwards all of them are hidden. */
  lemma HideHidesAllWhenAllShown(objs: seq<GameObject>, sel: seq<ObjectId>)
    requires InScene(objs, sel)
    requires forall k :: 0 <= k < |sel| ==> objs[sel[k]].active
    ensures forall m :: 0 <= m < |sel| ==> !HideToggle(objs, sel)[sel[m]].active
  {
    NoHiddenIffAllActive(objs, sel);
    CountsCoverSelection(objs, sel);
  }

  /**
   * "Hide Selection" changes nothing but active flags, changes no unselected
   * object, and on an empty selection changes nothing.
   */
  lemma HideTouchesOnlySelectedFlags(objs: seq<GameObject>, sel: seq<ObjectId>)
    requires InScene(objs, sel)
    ensures var r := HideToggle(objs, sel);
      && (sel == [] ==> r == objs)
      && (forall i :: 0 <= i < |objs| && i !in sel ==> r[i] == objs[i])
      && (forall i :: 0 <= i < |objs| ==> r[i] == objs[i].(active := r[i].active))
  {
  }

  /** On a selection that is all shown, hiding and then showing again restores the scene. */
  lemma HideTwiceRestores(objs: seq<GameObject>, sel: seq<ObjectId>)
    requires InScene(objs, sel)
    requires forall k :: 0 <= k < |sel| ==> objs[sel[k]].active
    ensures HideToggle(HideToggle(objs, sel), sel) == objs
  {
    if sel == [] {
      HideTouchesOnlySelectedFlags(objs, sel);
      return;
    }
    var once := HideToggle(objs, sel);
    HideHidesAllWhenAllShown(objs, sel);
    HideShowsAllWhenAnyHidden(once, sel, 0);
    HideTouchesOnlySelectedFlags(objs, sel);
    HideTouchesOnlySelectedFlags(once, sel);
    var twice := HideToggle(once, sel);
    forall i | 0 <= i < |objs|
      ensures twice[i] == objs[i]
    {
      if i in sel {
        var k :| 0 <= k < |sel| && sel[k] == i;
        assert objs[sel[k]].active && twice[sel[k]].active;
      }
    }
  }

  // ---------------------------------------------------------------------------
  // Reset Name and Remove Duplicated Name
  // ---------------------------------------------------------------------------

  /** The edit "Reset Name" makes to one object. */
  const Renamed: GameObject -> GameObject := (o: GameObject) => o.(name := Names.Rename(o.name))

  /** The edit "Remove Duplicated Name" makes to one object. */
  const Stripped: GameObject -> GameObject := (o: GameObject) => o.(name := Names.StripSerial(o.name))

  /** The selected ids, in order, whose names the expression matches (the `Where` filter). */
  function Matching(objs: seq<GameObject>, sel: seq<ObjectId>): (r: seq<ObjectId>)
    requires InScene(objs, sel)
    ensures |r| <= |sel|
    ensures forall k :: 0 <= k < |r| ==> r[k] in sel && r[k] < |objs| && Names.MatchesSerial(objs[r[k]].name)
  {
    if sel == [] then []
    else
      var last := sel[|sel| - 1];
      var init := Matching(objs, sel[..|sel| - 1]);
      if Names.MatchesSerial(objs[last].name) then init + [last] else init
  }

  /** `sub` is `s` with some elements left out and the rest kept in their order. */
  ghost predicate Subsequence<T>(sub: seq<T>, s: seq<T>)
    decreases |s|
  {
    sub == []
    || (s != [] && ((sub != [] && sub[|sub| - 1] == s[|s| - 1] && Subsequence(sub[..|sub| - 1], s[..|s| - 1]))
                    || Subsequence(sub, s[..|s| - 1])))
  }

  /** The filter keeps exactly the selected ids whose names match, without repeating any. */
  lemma {:induction false} MatchingKeepsMatches(objs: seq<GameObject>, sel: seq<ObjectId>)
    requires InScene(objs, sel)
    ensures InScene(objs, Matching(objs, sel))
    ensures forall id :: id in Matching(objs, sel) <==> id in sel && Names.MatchesSerial(objs[id].name)
    ensures Distinct(sel) ==> Distinct(Matching(objs, sel))
  {
    if sel != [] {
      var init := sel[..|sel| - 1];
      MatchingKeepsMatches(objs, init);
      assert sel == init + [sel[|sel| - 1]];
      assert forall id :: id in sel <==> id in init || id == sel[|sel| - 1];
    }
  }

  /** The filter keeps the matching ids in the order the selection lists them. */
  lemma {:induction false} MatchingKeepsOrder(objs: seq<GameObject>, sel: seq<ObjectId>)
    requires InScene(objs, sel)
    ensures Subsequence(Matching(objs, sel), sel)
  {
    if sel != [] {
      var init := sel[..|sel| - 1];
      MatchingKeepsOrder(objs, init);
      var r := Matching(objs, sel);
      if Names.MatchesSerial(objs[sel[|sel| - 1]].name) {
        assert r[..|r| - 1] == Matching(objs, init);
      }
    }
  }

  /**
   * Renaming only the matching objects, as the shortcut does, is the same as
   * applying the replacement to every selected object: it leaves the others' names as they are.
   */
  lemma StripMatchingOnly(objs: seq<GameObject>, sel: seq<ObjectId>)
    requires InScene(objs, sel)
    ensures Update(objs, Matching(objs, sel), Stripped) == Update(objs, sel, Stripped)
  {
    MatchingKeepsMatches(objs, sel);
    forall i | 0 <= i < |objs| && i in sel && !Names.MatchesSerial(objs[i].name)
      ensures Stripped(objs[i]) == objs[i]
    {
      Names.StripSerialKeepsPlainNames(objs[i].name);
    }
  }

  /**
   * "Remove Duplicated Name": a selected object's name changes exactly when it
   * holds a serial-number group, and then becomes the replacement's result;
   * nothing else changes.
   */
  lemma RemoveDuplicatedNameEffect(objs: seq<GameObject>, sel: seq<ObjectId>)
    requires InScene(objs, sel)
    ensures var r := Update(objs, sel, Stripped);
      && |r| == |objs|
      && (forall i :: 0 <= i < |objs| && i in sel ==> r[i].name == Names.StripSerial(objs[i].name))
      && (forall i :: 0 <= i < |objs| && i in sel ==> (r[i] != objs[i] <==> Names.MatchesSerial(objs[i].name)))
      && (forall i :: 0 <= i < |objs| ==> r[i] == objs[i].(name := r[i].name))
      && (forall i :: 0 <= i < |objs| && i !in sel ==> r[i] == objs[i])
  {
    forall i | 0 <= i < |objs|
      ensures Names.StripSerial(objs[i].name) != objs[i].name <==> Names.MatchesSerial(objs[i].name)
    {
      Names.StripSerialChangesIffMatch(objs[i].name);
    }
  }

  /** "Reset Name": every selected name is reset, and nothing else changes. */
  lemma ResetNameEffect(objs: seq<GameObject>, sel: seq<ObjectId>)
    requires InScene(objs, sel)
    ensures var r := Update(objs, sel, Renamed);
      && |r| == |objs|
      && (forall i :: 0 <= i < |objs| && i in sel ==> r[i].name == Names.Rename(objs[i].name))
      && (forall i :: 0 <= i < |objs| ==> r[i] == objs[i].(name := r[i].name))
      && (forall i :: 0 <= i < |objs| && i !in sel ==> r[i] == objs[i])
  {
  }

  // ---------------------------------------------------------------------------
  // Paste Transform Values and Reset Transform
  // ---------------------------------------------------------------------------

  /** The edit that gives an object the local transform `t`. */
  function SetTransform(t: LocalTransform): GameObject -> GameObject
  {
    (o: GameObject) => o.(transform := t)
  }

  /**
   * InternalZeroPosition, InternalZeroRotation and InternalZeroScale: each sets
   * one part of the local transform and keeps the rest of the object.
   */
  function ZeroPosition(o: GameObject): (r: GameObject)
    ensures r.transform.position == Zero
    ensures r.transform.rotation == o.transform.rotation && r.transform.scale == o.transform.scale
    ensures r == o.(transform := r.transform)
  {
    o.(transform := o.transform.(position := Zero))
  }

  function ZeroRotation(o: GameObject): (r: GameObject)
    ensures r.transform.rotation == Identity
    ensures r.transform.position == o.transform.position && r.transform.scale == o.transform.scale
    ensures r == o.(transform := r.transform)
  {
    o.(transform := o.transform.(rotation := Identity))
  }

  function ZeroScale(o: GameObject): (r: GameObject)
    ensures r.transform.scale == One
    ensures r.transform.position == o.transform.position && r.transform.rotation == o.transform.rotation
    ensures r == o.(transform := r.transform)
  {
    o.(transform := o.transform.(scale := One))
  }

  /** The three steps of "Reset Transform" together set the reset pose, whatever the transform was. */
  lemma ZeroStepsGiveResetPose(o: GameObject)
    ensures ZeroScale(ZeroRotation(ZeroPosition(o))) == SetTransform(ResetPose)(o)
  {
  }

  /**
   * Giving the selection one transform: every selected object ends with
   * exactly `t`, and nothing else about any object changes.
   */
  lemma BroadcastTransform(objs: seq<GameObject>, sel: seq<ObjectId>, t: LocalTransform)
    requires InScene(objs, sel)
    ensures var r := Update(objs, sel, SetTransform(t));
      && |r| == |objs|
      && (forall k :: 0 <= k < |sel| ==> r[sel[k]].transform == t)
      && (forall i :: 0 <= i < |objs| ==> r[i] == objs[i].(transform := r[i].transform))
      && (forall i :: 0 <= i < |objs| && i !in sel ==> r[i] == objs[i])
  {
  }

  // ---------------------------------------------------------------------------
  // Duplicate Without Serial Number
  // ---------------------------------------------------------------------------

  /**
   * What GameObject.Instantiate(original, parent) makes: a copy under `parent`
   * whose name has the host's "(Clone)" suffix.
   */
  function Instantiate(original: GameObject, parent: Option<ObjectId>): (r: GameObject)
    ensures r.parent == parent
    ensures r.active == original.active && r.transform == original.transform
    ensures |r.name| > |original.name|
  {
    original.(name := original.name + "(Clone)", parent := parent)
  }

  /** The clones of the selected objects, in selection order. */
  function Clones(objs: seq<GameObject>, sel: seq<ObjectId>): seq<GameObject>
    requires InScene(objs, sel)
  {
    seq(|sel|, k requires 0 <= k < |sel| => objs[sel[k]])
  }

  /** `count` consecutive ids from `first` on: the ids the new objects receive. */
  function FreshIds(first: nat, count: nat): seq<ObjectId>
  {
    seq(count, k requires 0 <= k < count => first + k)
  }

  /**
   * After "Duplicate Without Serial Number" the selection has its old length;
   * its k-th id is a new object with the name and parent of the k-th original;
   * the originals are unchanged; the new state is a well-formed one.
   */
  lemma DuplicateEffect(objs: seq<GameObject>, sel: seq<ObjectId>)
    requires InScene(objs, sel) && WellParented(objs)
    ensures var objs', sel' := objs + Clones(objs, sel), FreshIds(|objs|, |sel|);
      && |sel'| == |sel|
      && objs'[..|objs|] == objs
      && (forall k :: 0 <= k < |sel| ==> |objs| <= sel'[k] < |objs'|)
      && (forall k :: 0 <= k < |sel| ==> objs'[sel'[k]].name == objs[sel[k]].name)
      && (forall k :: 0 <= k < |sel| ==> objs'[sel'[k]].parent == objs[sel[k]].parent)
      && InScene(objs', sel') && Distinct(sel') && WellParented(objs')
  {
  }
}
