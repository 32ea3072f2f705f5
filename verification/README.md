# Edit-subset-mode toolbar: mode switching and the subset combo

A Dafny model of the logic inside glue's "Subset Update Mode" toolbar
(`glue/app/qt/edit_subset_mode_toolbar.py`). The toolbar lets the user pick
which subset is being edited and which combination mode (replace, or, and,
xor, and-not) new selections use. Two pieces of it carry logic of their own
once the Qt widgets are abstracted away, and both are modelled:

1. **Mode switching** (`edit_modes.dfy`, `mode_switch.dfy`). There are five
   modes, each with a toolbar action. Each action's short label is derived
   from its caption: the first word, lower-cased, with the `&` mnemonic
   marker removed. So the labels are `replace`, `or`, `and`, `xor` and `not`.
   `set_mode` accepts a label or a mode. It saves the current mode as a
   backup, but only when no backup is held yet, and then triggers the
   mode's action. `unset_mode` triggers the backed-up mode once and clears
   the backup. The state is the mode in force plus the optional backup.
   A Python exception does not undo earlier assignments, so `SetMode`
   returns the state after the call together with the error it raised:
   - an unknown label raises before anything changes;
   - a non-string value with no action raises after the backup is saved.

   The central invariant is `RestorePoint`: the backup if one is held,
   otherwise the mode in force. Every `set_mode` call keeps it. `unset_mode`
   puts it in force and clears the backup.
2. **The "Active Subset" combo** (`subset_combo.dfy`). This part is pure
   functions over the subset groups and the edit target, which is the list
   of subsets being edited.
   - The combo entries are the group labels in order, followed by one
     `Create subset` entry that carries no subset.
   - The selected entry depends on the edit target:
     - several subsets: a temporary `Multiple subsets` entry is put first
       and selected;
     - one subset: its first position in the list is selected;
     - no subset: `Create subset` is selected.
   - Picking an entry maps it back to an edit target. An entry with no
     subset gives the empty target; a subset entry gives a target holding
     only that subset.

`options.dfy` holds the Option type that stands for Python's `None`.

Where the code and its documentation differ, the model follows the code:
- `set_mode`'s docstring names the modes `Or, Not, And, Xor, Replace`, but
  the lookup is exact and case-sensitive, so only the lower-case labels are
  accepted (`DocumentedNamesAreNotLabels`).
- A failing `set_mode` leaves the state unchanged only when the argument
  is a string. A non-string argument with no action raises only after the
  backup has been written (`SetMode`).

## Model

| member | source | states |
|---|---|---|
| EditModes.FirstWord | glue/app/qt/edit_subset_mode_toolbar.py:140 | `split()[0]` gives no word (the indexing fails) exactly when the caption is all whitespace; otherwise the word is non-empty and free of whitespace, where whitespace is exactly what Python's `str.isspace` accepts |
| EditModes.FirstWordIsLeadingWord | glue/app/qt/edit_subset_mode_toolbar.py:140 | the word is the stretch of the caption after its leading whitespace, ending at the next whitespace or at the end |
| EditModes.Lower | glue/app/qt/edit_subset_mode_toolbar.py:140 | `lower()` keeps the length and lower-cases each character in place |
| EditModes.DropAmpersands | glue/app/qt/edit_subset_mode_toolbar.py:140 | `replace('&', '')` leaves no `&` and keeps every other character with its multiplicity; text without `&` is unchanged |
| EditModes.DropAmpersandsAppend | glue/app/qt/edit_subset_mode_toolbar.py:140 | removing ampersands from a concatenation concatenates the two results, so the order of the kept characters is preserved |
| EditModes.DropAmpersandsChar | glue/app/qt/edit_subset_mode_toolbar.py:140 | a single `&` is removed and any other single character is kept; with DropAmpersandsAppend this fixes the result for every string |
| EditModes.DeriveLabel | glue/app/qt/edit_subset_mode_toolbar.py:140 | no label exactly when the caption is all whitespace; otherwise the label holds no `&`, no whitespace and no upper-case ASCII letter |
| EditModes.LabelOfWordIsPlain | glue/app/qt/edit_subset_mode_toolbar.py:140 | lower-casing a whitespace-free word and removing its ampersands leaves no whitespace and no upper-case ASCII letter |
| EditModes.CaptionLabel | glue/app/qt/edit_subset_mode_toolbar.py:140 | a caption whose first word is `&` followed by a word derives that word lower-cased |
| EditModes.CaptionDerivesLabel | glue/app/qt/edit_subset_mode_toolbar.py:140-153 | each of the five captions (`&Replace Mode` … `&Not Mode`) derives the reference label of its mode, so `&Not Mode` gives `not` |
| EditModes.Registrations | glue/app/qt/edit_subset_mode_toolbar.py:140-141 | one (label, mode) entry per action in order, or failure exactly when some caption has no word |
| EditModes.Register | glue/app/qt/edit_subset_mode_toolbar.py:141 | the table holds exactly the registered labels, and a label maps to the mode of its last registration |
| EditModes.BuildLabelTable | glue/app/qt/edit_subset_mode_toolbar.py:139-141 | a table is built exactly when every caption has a word, its keys are exactly the labels derived from the captions, and each label maps to the mode of the last action that derives it |
| EditModes.BuildLabelTableOfMatchingCaptions | glue/app/qt/edit_subset_mode_toolbar.py:139-141 | when every caption derives its mode's label and no mode repeats, each label maps to its own action's mode and no other key exists |
| EditModes.LabelTableOfWellFormed | glue/app/qt/edit_subset_mode_toolbar.py:139-141 | when the actions also cover every mode, the table's keys are exactly the five labels and each maps back to its mode |
| EditModes.ActionsWellFormed | glue/app/qt/edit_subset_mode_toolbar.py:143-153 | the toolbar's five actions derive the reference labels, give no mode twice and cover every mode |
| EditModes.ActionIndex | glue/app/qt/edit_subset_mode_toolbar.py:139 | every mode has exactly one action, the one that `_modes[mode]` returns |
| EditModes.LabelTable | glue/app/qt/edit_subset_mode_toolbar.py:143-153 | the label table maps exactly `replace`, `or`, `and`, `xor`, `not` to Replace, Or, And, Xor, AndNot |
| EditModes.LookupLabel | glue/app/qt/edit_subset_mode_toolbar.py:164-168 | a string finds mode m exactly when it equals m's label; any other string finds nothing |
| EditModes.DocumentedNamesAreNotLabels | glue/app/qt/edit_subset_mode_toolbar.py:160-166 | the capitalised names of the docstring (`Replace`, `Or`, `And`, `Xor`, `Not`) are all rejected |
| EditModes.AndNotIsReachedByNot | glue/app/qt/edit_subset_mode_toolbar.py:152-153 | `not` selects AndNot and `andnot` selects nothing |
| ModeSwitch.Init | glue/app/qt/edit_subset_mode_toolbar.py:37-39 | after construction the session's mode is in force and an immediate `unset_mode` changes nothing |
| ModeSwitch.Trigger | glue/app/qt/edit_subset_mode_toolbar.py:131-136 | triggering a mode's action puts exactly that mode in force and leaves the backup alone |
| ModeSwitch.SaveBackup | glue/app/qt/edit_subset_mode_toolbar.py:170 | `backup or current` keeps a held backup, otherwise saves the mode in force; the restore point is unchanged |
| ModeSwitch.SetMode | glue/app/qt/edit_subset_mode_toolbar.py:159-171 | succeeds exactly for a known label or a mode; an unknown label raises and changes nothing; an unregistered key raises after saving the backup; on success the requested mode is in force; past the lookup the backup is the restore point from before the call, which no call moves |
| ModeSwitch.UnsetMode | glue/app/qt/edit_subset_mode_toolbar.py:173-178 | puts the restore point in force and clears the backup; a no-op when no backup is held |
| ModeSwitch.SetModesKeepRestorePoint | glue/app/qt/edit_subset_mode_toolbar.py:159-171 | no sequence of `set_mode` calls, failing or not, moves the mode that `unset_mode` will restore |
| ModeSwitch.SetModesStickyBackup | glue/app/qt/edit_subset_mode_toolbar.py:170 | a held backup survives any sequence of `set_mode` calls; once a call gets past the label lookup, the backup is the mode in force before the sequence |
| ModeSwitch.SetTwiceKeepsFirstBackup | glue/app/qt/edit_subset_mode_toolbar.py:170-171 | `set_mode(a)` then `set_mode(b)`: b is in force and the backup is the mode from before a |
| ModeSwitch.SetModesThenUnsetRestores | glue/app/qt/edit_subset_mode_toolbar.py:159-178 | any sequence of `set_mode` calls followed by `unset_mode` restores the earlier mode and clears the backup; a second `unset_mode` changes nothing |
| ModeSwitch.UnsetModeIdempotent | glue/app/qt/edit_subset_mode_toolbar.py:173-178 | `unset_mode` twice is the same as once |
| SubsetCombo.SubsetEntries | glue/app/qt/edit_subset_mode_toolbar.py:62 | one entry per subset group, in order, showing its label and carrying the group |
| SubsetCombo.ComboItems | glue/app/qt/edit_subset_mode_toolbar.py:62-63 | the subset entries followed by exactly one `Create subset` entry; length is the number of subsets plus one, and only the last entry carries no subset |
| SubsetCombo.IndexOf | glue/app/qt/edit_subset_mode_toolbar.py:122 | `list.index` finds the first position holding the subset, and fails exactly when the subset is absent |
| SubsetCombo.OnEditSubsetModeChange | glue/app/qt/edit_subset_mode_toolbar.py:112-126 | several targets: `Multiple subsets` goes in front of the shown entries and is selected; one target: the entries are rebuilt and its first position is selected, or ValueError when it is not listed; no target: the `Create subset` entry is selected |
| SubsetCombo.UpdateSubsetCombo | glue/app/qt/edit_subset_mode_toolbar.py:62-79 | several targets: `Multiple subsets` in front of the rebuilt entries, selected; no target: the rebuilt entries with `Create subset` (index equal to the number of subsets) selected; one target: the rebuilt entries, with ValueError exactly when the subset is not listed and otherwise its first position selected |
| SubsetCombo.OnSubsetComboChange | glue/app/qt/edit_subset_mode_toolbar.py:89-94 | picking an entry yields at most one target: empty exactly when the entry carries no subset, otherwise that subset |
| SubsetCombo.PickThenRefreshSelectsSameEntry | glue/app/qt/edit_subset_mode_toolbar.py:89-126 | with distinct subsets, picking any entry and refreshing from the resulting target selects the same entry again |
| SubsetCombo.RefreshThenPickGivesSameTarget | glue/app/qt/edit_subset_mode_toolbar.py:89-126 | refreshing from a target of at most one listed subset and picking the selected entry gives back that target |
| SubsetCombo.PickingMultipleEntryClearsTarget | glue/app/qt/edit_subset_mode_toolbar.py:89-118 | picking the temporary `Multiple subsets` entry empties the edit target |
| SubsetCombo.RepeatedNotificationsStackMultipleEntry | glue/app/qt/edit_subset_mode_toolbar.py:114-118 | two change notifications with several targets and no refresh between them show `Multiple subsets` twice |

## Left out

- Widget construction, spacers, text labels, icon sizes and `layer_icon` (lines 18-34, 41-46, 73-75) are left out. They render the UI and carry no logic.
- Hub subscriptions and `_update_mode` (lines 48-49, 155-157) are left out. They are event-bus wiring.
- The boolean semantics of the modes are left out. They live in `glue.core.edit_subset_mode`, which is not part of this model, so modes are opaque values.
- `blockSignals` toggling is left out. It only stops Qt signal loops.
- `avoid_circular` (from `glue.utils`, not part of this model) is left out. The model assumes it stops the nested `_update_subset_combo` call at line 120 from calling `_on_edit_subset_mode_change` again. This is why `UpdateSubsetCombo` is `OnEditSubsetModeChange` applied to freshly built entries.
- SubsetCombo.OnSubsetComboChange: returns only the new edit target. The refresh at line 99 runs inside the guard, so the index it leaves selected is chosen by `update_combobox`, whose internals are not part of this model.
- `update_combobox` is modelled only through the entry list it is given.
- EditModes.Lower: only ASCII letters are lower-cased. Python's `str.lower` also handles other scripts, but the captions are ASCII constants.
- Python 2/3 string types (`string_types`) are all represented by `ModeArg.Named`.
- `backup or current` is modelled as "keep the backup if one is held". This assumes mode values are truthy, which mode classes are.
- A mode in force that is outside the five modes (assigned to the session object by other code) is not modelled. `ModeArg.Unregistered` stands for every non-string argument that has no action.
- ModeSwitch.SetMode: an unhashable argument such as a list is a `ModeArg.Unregistered` with the same state effect (backup written, mode unchanged), but Python raises `TypeError` for it, not the `KeyError` the model reports as `MissingAction`; the model does not distinguish hashable from unhashable values.
- Subset groups are compared by an identity number and a label. This stands for Python object identity in `list.index`.
- A ValueError from `list.index` propagates to the caller after the combo has been rebuilt. The model keeps the rebuilt entries (`ComboSync.NotInList`) and not the exception's further propagation.
