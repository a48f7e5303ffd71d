/**
 * The editor menu shortcuts: each is a validator that enables its menu entry
 * and an action that changes the editor state.  The state is the scene's
 * objects, the ordered selection, the one-slot transform clipboard of
 * "Copy/Paste Transform Values", and the play-mode flag.
 */
module Shortcuts {
  import opened Wrappers
  import opened Scene
  import Names

  class Editor {
    var objects: seq<GameObject>
    var selection: seq<ObjectId>
    var clipboard: Option<LocalTransform>
    var isPlaying: bool

    /** Selected ids name objects of the scene and are not repeated; parents exist. */
    ghost predicate Valid()
      reads this
    {
      WellParented(objects) && InScene(objects, selection) && Distinct(selection)
    }

    /** An editor over a given scene and selection; nothing has been copied yet. */
    constructor (objects0: seq<GameObject>, selection0: seq<ObjectId>, playing: bool)
      requires WellParented(objects0) && InScene(objects0, selection0) && Distinct(selection0)
      ensures Valid()
      ensures objects == objects0 && selection == selection0
      ensures clipboard == None && isPlaying == playing
    {
      objects := objects0;
      selection := selection0;
      clipboard := None;
      isPlaying := playing;
    }

    /**
     * The validator shared by Remove Duplicated Name, Duplicate and Deselect All.
     * An entry it disables is one whose action would change nothing.
     */
    predicate HasSelection()
      reads this
      ensures !HasSelection() ==> forall f :: Update(objects, selection, f) == objects
      ensures selection == [] ==> Matching(objects, selection) == [] && HideToggle(objects, selection) == objects
    {
      |selection| > 0
    }

    // -------------------------------------------------------------------------
    // Hide Selection
    // -------------------------------------------------------------------------

    /** The entry is enabled exactly when something is selected. */
    method ValidateHideSelection() returns (enabled: bool)
      requires Valid()
      ensures enabled <==> HasSelection()
    {
      var hidden, shown := 0, 0;
      var i := 0;
      while i < |selection|
        invariant 0 <= i <= |selection|
        invariant hidden + shown == i
      {
        if objects[selection[i]].active {
          shown := shown + 1;
        } else {
          hidden := hidden + 1;
        }
        i := i + 1;
      }
      enabled := hidden != 0 || shown != 0;
    }

    /** Show every selected object if one of them is hidden, else hide them all. */
    method HideSelection()
      requires Valid()
      modifies this`objects
      ensures Valid()
      ensures objects == HideToggle(old(objects), selection)
    {
      var hidden, shown := 0, 0;
      var i := 0;
      while i < |selection|
        invariant 0 <= i <= |selection|
        invariant hidden == CountInactive(objects, selection[..i])
        invariant shown == CountActive(objects, selection[..i])
      {
        assert selection[..i + 1][..i] == selection[..i];
        if objects[selection[i]].active {
          shown := shown + 1;
        } else {
          hidden := hidden + 1;
        }
        i := i + 1;
      }
      assert selection[..i] == selection;
      if hidden == 0 && shown == 0 {
        return;
      }
      var toggle := hidden != 0;
      i := 0;
      while i < |selection|
        invariant 0 <= i <= |selection|
        invariant objects == Update(old(objects), selection[..i], SetActive(toggle))
      {
        var id := selection[i];
        UpdateStep(old(objects), selection, i, SetActive(toggle));
        objects := objects[id := objects[id].(active := toggle)];
        i := i + 1;
      }
      assert selection[..i] == selection;
    }

    // -------------------------------------------------------------------------
    // Remove Duplicated Name
    // -------------------------------------------------------------------------

    /** The selected ids whose names hold a serial-number group, in selection order. */
    method SelectedMatches() returns (list: seq<ObjectId>)
      requires Valid()
      ensures list == Matching(objects, selection)
    {
      list := [];
      var i := 0;
      while i < |selection|
        invariant 0 <= i <= |selection|
        invariant list == Matching(objects, selection[..i])
      {
        assert selection[..i + 1][..i] == selection[..i];
        var n := selection[i];
        if Names.MatchesSerial(objects[n].name) {
          list := list + [n];
        }
        i := i + 1;
      }
      assert selection[..i] == selection;
    }

    /** Apply the serial-number replacement to the selected names it matches. */
    method RemoveDuplicatedName()
      requires Valid()
      modifies this`objects
      ensures Valid()
      ensures objects == Update(old(objects), selection, Stripped)
    {
      var list := SelectedMatches();
      MatchingKeepsMatches(objects, selection);
      StripMatchingOnly(objects, selection);
      if |list| == 0 {
        UpdateNothing(objects, Stripped);
        return;
      }
      var j := 0;
      while j < |list|
        invariant 0 <= j <= |list|
        invariant objects == Update(old(objects), list[..j], Stripped)
      {
        var n := list[j];
        UpdateStep(old(objects), list, j, Stripped);
        objects := objects[n := objects[n].(name := Names.StripSerial(objects[n].name))];
        j := j + 1;
      }
      assert list[..j] == list;
    }

    // -------------------------------------------------------------------------
    // Duplicate Without Serial Number
    // -------------------------------------------------------------------------

    /** Clone every selected object under its parent, keep its name, and select the clones. */
    method Duplicate()
      requires Valid()
      modifies this`objects, this`selection
      ensures Valid()
      ensures objects == old(objects) + Clones(old(objects), old(selection))
      ensures selection == FreshIds(|old(objects)|, |old(selection)|)
    {
      DuplicateEffect(objects, selection);
      var list: seq<ObjectId> := [];
      var i := 0;
      while i < |selection|
        invariant 0 <= i <= |selection|
        invariant selection == old(selection)
        invariant objects == old(objects) + Clones(old(objects), selection[..i])
        invariant list == FreshIds(|old(objects)|, i)
      {
        assert Clones(old(objects), selection[..i + 1])
          == Clones(old(objects), selection[..i]) + [old(objects)[selection[i]]];
        var n := objects[selection[i]];
        assert n == old(objects)[selection[i]];
        var clone := Instantiate(n, n.parent);
        clone := clone.(name := n.name);
        assert clone == n;
        objects := objects + [clone];
        list := list + [|objects| - 1];
        i := i + 1;
      }
      assert selection[..i] == selection;
      selection := list;
    }

    // -------------------------------------------------------------------------
    // Deselect All
    // -------------------------------------------------------------------------

    /** Empty the selection. */
    method Deselect()
      requires Valid()
      modifies this`selection
      ensures Valid()
      ensures selection == [] && !HasSelection()
    {
      selection := [];
    }

    // -------------------------------------------------------------------------
    // Copy/Paste Transform Values
    // -------------------------------------------------------------------------

    /** The copy entry is enabled when there is an active transform. */
    predicate CanCopy(active: Option<ObjectId>)
    {
      active.Some?
    }

    /**
     * Overwrite the slot with the active object's local position, rotation and
     * scale.  The entry runs only when `CanCopy` enables it.
     */
    method Copy(active: Option<ObjectId>)
      requires Valid() && CanCopy(active) && active.value < |objects|
      modifies this`clipboard
      ensures Valid()
      ensures clipboard == Some(objects[active.value].transform)
    {
      clipboard := Some(objects[active.value].transform);
    }

    /**
     * The paste entry is enabled when the slot is filled and something is
     * selected: enabled, Paste's precondition holds; disabled with a filled
     * slot, Paste would change nothing.
     */
    predicate CanPaste()
      reads this
      ensures CanPaste() ==> clipboard.Some?
      ensures !CanPaste() && clipboard.Some? ==> Update(objects, selection, SetTransform(clipboard.value)) == objects
    {
      clipboard.Some? && HasSelection()
    }

    /** Give every selected object the stored local position, rotation and scale. */
    method Paste()
      requires Valid() && clipboard.Some?
      modifies this`objects
      ensures Valid()
      ensures objects == Update(old(objects), selection, SetTransform(clipboard.value))
    {
      var data := clipboard.value;
      var i := 0;
      while i < |selection|
        invariant 0 <= i <= |selection|
        invariant objects == Update(old(objects), selection[..i], SetTransform(data))
      {
        var id := selection[i];
        UpdateStep(old(objects), selection, i, SetTransform(data));
        var t := objects[id].transform;
        t := t.(position := data.position);
        t := t.(rotation := data.rotation);
        t := t.(scale := data.scale);
        objects := objects[id := objects[id].(transform := t)];
        i := i + 1;
      }
      assert selection[..i] == selection;
    }

    // -------------------------------------------------------------------------
    // Reset Transform and Reset Name
    // -------------------------------------------------------------------------

    /** Zero the position, clear the rotation and set the scale to one on every selected object. */
    method ResetTransform()
      requires Valid()
      modifies this`objects
      ensures Valid()
      ensures objects == Update(old(objects), selection, SetTransform(ResetPose))
    {
      if |selection| < 1 {
        UpdateNothing(objects, SetTransform(ResetPose));
        return;
      }
      var i := 0;
      while i < |selection|
        invariant 0 <= i <= |selection|
        invariant objects == Update(old(objects), selection[..i], SetTransform(ResetPose))
      {
        var id := selection[i];
        UpdateStep(old(objects), selection, i, SetTransform(ResetPose));
        ZeroStepsGiveResetPose(objects[id]);
        objects := objects[id := ZeroPosition(objects[id])];
        objects := objects[id := ZeroRotation(objects[id])];
        objects := objects[id := ZeroScale(objects[id])];
        i := i + 1;
      }
      assert selection[..i] == selection;
    }

    /** Reset the name of every selected object. */
    method ResetName()
      requires Valid()
      modifies this`objects
      ensures Valid()
      ensures objects == Update(old(objects), selection, Renamed)
    {
      if |selection| < 1 {
        UpdateNothing(objects, Renamed);
        return;
      }
      var i := 0;
      while i < |selection|
        invariant 0 <= i <= |selection|
        invariant objects == Update(old(objects), selection[..i], Renamed)
      {
        var id := selection[i];
        UpdateStep(old(objects), selection, i, Renamed);
        objects := objects[id := objects[id].(name := Names.Rename(objects[id].name))];
        i := i + 1;
      }
      assert selection[..i] == selection;
    }

    // -------------------------------------------------------------------------
    // Run / Stop
    // -------------------------------------------------------------------------

    /** Run is enabled when not playing; exactly one of Run and Stop is enabled. */
    predicate CanRun()
      reads this
      ensures CanRun() <==> !CanStop()
    {
      !isPlaying
    }

    /** Stop is enabled while playing. */
    predicate CanStop()
      reads this
    {
      isPlaying
    }

    /** Enter play mode. */
    method Run()
      requires Valid()
      modifies this`isPlaying
      ensures Valid()
      ensures isPlaying && CanStop() && !CanRun()
    {
      isPlaying := true;
    }

    /** Leave play mode. */
    method Stop()
      requires Valid()
      modifies this`isPlaying
      ensures Valid()
      ensures !isPlaying && CanRun() && !CanStop()
    {
      isPlaying := false;
    }
  }
}
