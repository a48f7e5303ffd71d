# AlexShortcuts: selection and name shortcuts

`AlexShortcuts` is a set of Unity Editor menu shortcuts. Each shortcut has a
validator that enables its menu entry and an action that the host calls when
the entry is chosen. This project models the shortcuts that only work on the
editor's own state:

- the scene's objects, each with a name, an own `active` flag, a parent and a
  local transform (position, rotation, scale);
- the ordered selection of object ids;
- the one-slot clipboard of "Copy/Paste Transform Values";
- the play-mode flag.

The model has three layers:

- `names.dfy` (module `Names`) holds the two pure name computations as string
  functions:
  - `Rename` is the cut that "Reset Name" applies.
  - `StripSerial` spells out the replacement of `(.*)(\([0-9]*\))` by `$1`
    that "Remove Duplicated Name" applies.
- `scene.dfy` (module `Scene`) describes each action's effect as a function of
  the old scene and selection. `Update(objs, sel, f)` applies the edit `f` to
  every selected object. The lemmas state what each shortcut promises.
- `shortcuts.dfy` (module `Shortcuts`) is the class `Editor`. Its fields are
  the four parts of the state. Its methods run the source's loops over the
  selection, and each method is proved to reach the state that `Scene`
  describes.

Object ids are positions in `objects`. A clone made by "Duplicate Without
Serial Number" gets the next free position. `Editor.Valid()` requires that
selected ids exist and are not repeated (Unity's selection never lists an
object twice) and that every parent exists.

The validators are predicates of `Editor`:

- `HasSelection` stands for `CanRemove`, `CanDuplicate` and `CanDeselect`, which
  all test for a non-empty selection.
- `CanCopy` tests for an active transform.
- `CanPaste` tests for a filled slot and a non-empty selection.
- `CanRun` is `!isPlaying` and `CanStop` is `isPlaying`.
- `ValidateHideSelection` is a method, because the source counts shown and
  hidden objects in a loop before it answers.

Two behaviours follow the code rather than what the shortcut names suggest:

- "Reset Name" cuts the name at its first `(` (line 671). It does not remove
  only the parenthesised span, so "Cube (1) (2)" becomes "Cube ", not
  "Cube  (2)".
- The serial-number replacement removes the last `(digits)` group of each line,
  wherever it sits, and keeps the text after it. `.` does not match a newline
  and `Regex.Replace` rewrites every match, so a name with several lines loses
  one group per line. Zero digits also match: "a()" becomes "a".

## Model

| member | source | states |
|---|---|---|
| `Names.IndexOf` | Assets/Plugins/AlexShortcuts.cs:667-668 | -1 exactly when the character is absent; otherwise the position of its first occurrence |
| `Names.Rename` | Assets/Plugins/AlexShortcuts.cs:665-673 | the new name is a prefix of the old one; when it differs, it ends just before a `(` of the old name and holds neither `(` nor `)` |
| `Names.RenameCutsAtFirstParen` | Assets/Plugins/AlexShortcuts.cs:665-673 | when the first `(` precedes the first `)`, the new name is the prefix before that first `(` |
| `Names.RenameKeepsOtherNames` | Assets/Plugins/AlexShortcuts.cs:665-673 | in every other case (no `(`, no `)`, or a `)` first) the name is unchanged |
| `Names.RenameKeepsPrefix` | Assets/Plugins/AlexShortcuts.cs:665-673 | a parenthesis-free prefix, then `(`, then a rest holding `)` resets to the prefix |
| `Names.RenameIdempotent` | Assets/Plugins/AlexShortcuts.cs:665-673 | resetting a name twice gives the same result as resetting it once |
| `Names.RenameExampleCube` | Assets/Plugins/AlexShortcuts.cs:671 | "Cube (1) (2)" becomes "Cube " |
| `Names.RenameExampleCloseFirst` | Assets/Plugins/AlexShortcuts.cs:669 | ")a(b)" is kept, because its first `)` precedes its first `(` |
| `Names.DigitsEnd` | Assets/Plugins/AlexShortcuts.cs:411 | the end of the run of `[0-9]` characters starting at a position |
| `Names.GroupAt` | Assets/Plugins/AlexShortcuts.cs:411 | returns the length of the `\([0-9]*\)` group at a position when there is one, and only then |
| `Names.LastGroupBefore` | Assets/Plugins/AlexShortcuts.cs:411 | finds the last group start before a bound (the group greedy `.*` leaves to the second capture), or reports that there is none |
| `Names.MatchesSerial` | Assets/Plugins/AlexShortcuts.cs:417 | `Regex.IsMatch` holds exactly when the name contains a `(digits)` group |
| `Names.StripLine` | Assets/Plugins/AlexShortcuts.cs:425 | on one line, the replacement keeps or shortens the text, never lengthens it |
| `Names.StripSerial` | Assets/Plugins/AlexShortcuts.cs:425 | the replacement, applied line by line, never lengthens a name |
| `Names.StripSerialKeepsPlainNames` | Assets/Plugins/AlexShortcuts.cs:425 | a name without a group is unchanged by the replacement |
| `Names.StripSerialRemovesLastGroup` | Assets/Plugins/AlexShortcuts.cs:411-425 | on a one-line name, the last group is removed and all other characters stay in order |
| `Names.StripSerialShortens` | Assets/Plugins/AlexShortcuts.cs:425 | the replacement never lengthens a name, and shortens it exactly when the name holds a group |
| `Names.StripSerialChangesIffMatch` | Assets/Plugins/AlexShortcuts.cs:416-426 | the replacement changes a name exactly when the `Where` filter selects it |
| `Names.StripSerialDropsTrailingGroup` | Assets/Plugins/AlexShortcuts.cs:425 | a one-line name ending in `(digits)` loses exactly that group |
| `Names.StripSerialExamples` | Assets/Plugins/AlexShortcuts.cs:425 | "foo (3)" becomes "foo "; "Cube (1) (2)" becomes "Cube (1) " |
| `Scene.CountsCoverSelection` | Assets/Plugins/AlexShortcuts.cs:100-111 | shown plus hidden equals the selection length |
| `Scene.NoHiddenIffAllActive` | Assets/Plugins/AlexShortcuts.cs:117-131 | the hidden count is zero exactly when every selected object is active |
| `Scene.HideToggle` | Assets/Plugins/AlexShortcuts.cs:114-136 | the toggle keeps the number of objects |
| `Scene.HideShowsAllWhenAnyHidden` | Assets/Plugins/AlexShortcuts.cs:128-135 | if any selected object is inactive, afterwards every selected object is active |
| `Scene.HideHidesAllWhenAllShown` | Assets/Plugins/AlexShortcuts.cs:128-135 | if every selected object is active, afterwards all are inactive |
| `Scene.HideTouchesOnlySelectedFlags` | Assets/Plugins/AlexShortcuts.cs:128-135 | an empty selection changes nothing; unselected objects are untouched; only `active` flags change |
| `Scene.HideTwiceRestores` | Assets/Plugins/AlexShortcuts.cs:114-136 | on an all-active selection, empty or not, toggling twice restores the scene |
| `Scene.Matching` | Assets/Plugins/AlexShortcuts.cs:416-418 | the filter's result is no longer than the selection; each id in it is selected and names an object whose name matches |
| `Scene.MatchingKeepsMatches` | Assets/Plugins/AlexShortcuts.cs:416-418 | the filter keeps exactly the selected ids whose names match, with no repeats |
| `Scene.MatchingKeepsOrder` | Assets/Plugins/AlexShortcuts.cs:416-418 | the filter keeps the matching ids in selection order (an in-order subsequence of the selection) |
| `Scene.StripMatchingOnly` | Assets/Plugins/AlexShortcuts.cs:416-426 | rewriting only the filtered objects equals applying the replacement to the whole selection |
| `Scene.RemoveDuplicatedNameEffect` | Assets/Plugins/AlexShortcuts.cs:414-427 | each selected name becomes the replacement's result and changes iff it matches; nothing else changes |
| `Scene.ResetNameEffect` | Assets/Plugins/AlexShortcuts.cs:652-673 | each selected name becomes `Rename` of the old name; nothing else changes |
| `Scene.ZeroPosition` | Assets/Plugins/AlexShortcuts.cs:675-678 | the local position becomes zero; rotation, scale and the rest of the object are kept |
| `Scene.ZeroRotation` | Assets/Plugins/AlexShortcuts.cs:680-683 | the local rotation becomes the identity; position, scale and the rest of the object are kept |
| `Scene.ZeroScale` | Assets/Plugins/AlexShortcuts.cs:685-688 | the local scale becomes one; position, rotation and the rest of the object are kept |
| `Scene.ZeroStepsGiveResetPose` | Assets/Plugins/AlexShortcuts.cs:675-688 | the three zeroing steps together give position zero, identity rotation and scale one, whatever the start |
| `Scene.BroadcastTransform` | Assets/Plugins/AlexShortcuts.cs:559-566 | every selected object gets exactly the given transform; names, flags, parents and unselected objects are unchanged |
| `Scene.Instantiate` | Assets/Plugins/AlexShortcuts.cs:485 | the clone sits under the given parent, keeps the original's `active` flag and transform, and its name is longer than the original's (the host's suffix) |
| `Scene.DuplicateEffect` | Assets/Plugins/AlexShortcuts.cs:479-493 | the new selection has the old length; its k-th id is a new object with the k-th original's name and parent; originals are unchanged; the state stays well formed |
| `Shortcuts.Editor.constructor` | Assets/Plugins/AlexShortcuts.cs:542 | a fresh editor has an empty transform slot |
| `Shortcuts.Editor.HasSelection` | Assets/Plugins/AlexShortcuts.cs:429-434 | the test `CanRemove`, `CanDuplicate` and `CanDeselect` share: when it disables an entry, no per-object edit of the selection changes the scene, the name filter finds nothing and the hide toggle changes nothing |
| `Shortcuts.Editor.ValidateHideSelection` | Assets/Plugins/AlexShortcuts.cs:97-112 | enabled exactly when the selection is non-empty |
| `Shortcuts.Editor.HideSelection` | Assets/Plugins/AlexShortcuts.cs:114-136 | the new scene is `HideToggle` of the old one; the selection is unchanged |
| `Shortcuts.Editor.SelectedMatches` | Assets/Plugins/AlexShortcuts.cs:416-418 | the filter loop collects exactly the `Matching` ids of the selection and changes nothing |
| `Shortcuts.Editor.RemoveDuplicatedName` | Assets/Plugins/AlexShortcuts.cs:414-427 | the new scene is the replacement applied to every selected name |
| `Shortcuts.Editor.Duplicate` | Assets/Plugins/AlexShortcuts.cs:479-493 | the clones are appended in selection order, and the selection becomes their fresh ids |
| `Shortcuts.Editor.Deselect` | Assets/Plugins/AlexShortcuts.cs:508-511 | the selection is empty afterwards |
| `Shortcuts.Editor.Copy` | Assets/Plugins/AlexShortcuts.cs:544-554 | runs only when `CanCopy` holds (an object is active); the slot is overwritten with that object's position, rotation and scale; the editor stays valid |
| `Shortcuts.Editor.CanPaste` | Assets/Plugins/AlexShortcuts.cs:569-574 | when enabled, the slot is filled, which is what Paste needs; when disabled with a filled slot, Paste would change nothing |
| `Shortcuts.Editor.Paste` | Assets/Plugins/AlexShortcuts.cs:556-567 | every selected object gets the stored transform; nothing else changes |
| `Shortcuts.Editor.ResetTransform` | Assets/Plugins/AlexShortcuts.cs:638-650 | every selected object gets the reset pose; an empty selection changes nothing |
| `Shortcuts.Editor.ResetName` | Assets/Plugins/AlexShortcuts.cs:652-663 | every selected name is reset; an empty selection changes nothing |
| `Shortcuts.Editor.CanRun` | Assets/Plugins/AlexShortcuts.cs:355-371 | Run is enabled exactly when Stop (`CanStop`, the play flag) is not |
| `Shortcuts.Editor.Run` | Assets/Plugins/AlexShortcuts.cs:349-353 | afterwards the editor is playing, so Stop is enabled and Run is not; the editor stays valid |
| `Shortcuts.Editor.Stop` | Assets/Plugins/AlexShortcuts.cs:361-365 | afterwards the editor is not playing, so Run is enabled and Stop is not; the editor stays valid |

## Left out

- Console clearing (`ClearConsole`, `ClearConsole2`): these are reflection calls into editor-internal types.
- `CreateImage` and `CheckSelection`: they depend on Canvas components and host object creation.
- `FindSourceAsset`: it depends on prefab and asset-database lookups.
- The view-direction toggles and `ToggleOrthogonal`: they use float quaternion and dot-product arithmetic and scene-view camera calls.
- Inspector lock, `LockInspector` and `ToggleDebugMode`: these are reflection and host tracker state.
- `InvertActiveGameObject`: it only runs another host menu item.
- `ChangeSibiling`: it shifts a sibling index without bounds handling, so the out-of-range behaviour belongs to the host.
- Undo recording and `Debug.Log` have no effect on the modelled state. The hotkey syntax in the menu strings is parsed by the host.
- `Shortcuts.Editor.Duplicate`: `GameObject.Instantiate` also clones the object's children. The model copies only the object record, and it assumes the host's "(Clone)" name suffix. Unity's instance ids are arbitrary unique integers; the model uses the next free positions instead.
- `Shortcuts.Editor.Copy`: `Selection.activeTransform` is host state. It is passed in as a parameter, so `Copy` and `CanCopy` take the active object id as an option. The source throws when no transform is active; `Copy` requires `CanCopy`, which excludes that case, as the validator keeps the entry disabled then. The model also requires the active object to be in the scene.
- `Shortcuts.Editor.Paste`: it requires a filled slot. The source dereferences the slot without a check and relies on `CanPaste` to keep the entry disabled otherwise.
- `Shortcuts.Editor.Deselect`: `Selection.objects` may also hold assets. The model's selection holds only scene objects.
- Transforms hold `real` components and are only compared for equality. `Quaternion.Euler(Vector3.zero)` is taken to be the identity quaternion (0, 0, 0, 1).
- `Names.IndexOf`: `string.IndexOf(string)` compares in a culture-sensitive way. The model compares characters exactly (ordinally).
- Setting `EditorApplication.isPlaying` starts or stops play mode later, inside the host. The model keeps only the flag. In particular `Run` keeps the transform slot, while the host may clear the static slot when entering play mode reloads the scripts.
