/**
 * The "Active Subset" combo box of the toolbar, as pure functions over the
 * data collection's subset groups and the edit target (the list of subsets
 * currently being edited).
 *
 * The combo lists one entry per subset group, labelled with the group's
 * label and carrying the group, then a final "Create subset" entry that
 * carries nothing. When more than one subset is targeted, a temporary
 * "Multiple subsets" entry, also carrying nothing, is put in front.
 */
module SubsetCombo {
  import opened Options

  /** A subset group of the data collection: an identity and its label. */
  datatype SubsetGroup = SubsetGroup(id: nat, name: string)

  /** One combo entry: the text shown and the subset it carries, if any. */
  datatype ComboItem = ComboItem(text: string, data: Option<SubsetGroup>)

  const CreateSubsetText: string := "Create subset"
  const MultipleSubsetsText: string := "Multiple subsets"

  /** The trailing entry that carries no subset. */
  const CreateEntry: ComboItem := ComboItem(CreateSubsetText, None)

  /** The temporary entry shown when several subsets are targeted. */
  const MultipleEntry: ComboItem := ComboItem(MultipleSubsetsText, None)

  /** One entry per subset group, in order. */
  function SubsetEntries(subsets: seq<SubsetGroup>): (items: seq<ComboItem>)
    ensures |items| == |subsets|
    ensures forall i :: 0 <= i < |subsets| ==> items[i] == ComboItem(subsets[i].name, Some(subsets[i]))
  {
    if subsets == [] then [] else [ComboItem(subsets[0].name, Some(subsets[0]))] + SubsetEntries(subsets[1..])
  }

  /**
   * The combo contents for a subset list: the subset labels in order, then
   * exactly one "Create subset" entry, the only one that carries no subset.
   */
  function ComboItems(subsets: seq<SubsetGroup>): (items: seq<ComboItem>)
    ensures |items| == |subsets| + 1
    ensures forall i :: 0 <= i < |subsets| ==> items[i].text == subsets[i].name && items[i].data == Some(subsets[i])
    ensures items[|subsets|] == CreateEntry
    ensures forall i :: 0 <= i < |items| ==> (items[i].data.None? <==> i == |subsets|)
  {
    SubsetEntries(subsets) + [CreateEntry]
  }

  /** `xs.index(x)`: the position of the first occurrence of `x`, or None (ValueError). */
  function IndexOf(xs: seq<SubsetGroup>, x: SubsetGroup): (r: Option<nat>)
    ensures r.None? <==> x !in xs
    ensures r.Some? ==> r.value < |xs| && xs[r.value] == x
    ensures r.Some? ==> forall j :: 0 <= j < r.value ==> xs[j] != x
  {
    if xs == [] then None
    else if xs[0] == x then Some(0)
    else match IndexOf(xs[1..], x)
      case None => None
      case Some(i) => Some(i + 1)
  }

  /** No subset group appears twice. */
  predicate Distinct(xs: seq<SubsetGroup>) {
    forall i, j :: 0 <= i < j < |xs| ==> xs[i] != xs[j]
  }

  /**
   * The combo after a synchronisation: its entries and selected index, or,
   * when the single targeted subset is not in the subset list, the entries
   * as refreshed before `list.index` raised ValueError.
   */
  datatype ComboSync = Synced(items: seq<ComboItem>, index: nat) | NotInList(items: seq<ComboItem>)

  /**
   * Bringing the combo in line with the edit target, given the entries it
   * shows. More than one target puts "Multiple subsets" in front of the
   * shown entries and selects it. Otherwise the entries are rebuilt from
   * the subset list and the single target's position, or the last entry
   * ("Create subset") when there is no target, is selected.
   */
  function OnEditSubsetModeChange(shown: seq<ComboItem>, subsets: seq<SubsetGroup>, target: seq<SubsetGroup>): (r: ComboSync)
    ensures |target| > 1 ==> r == Synced([MultipleEntry] + shown, 0)
    ensures |target| <= 1 ==> r.items == ComboItems(subsets)
    ensures |target| == 0 ==> r.Synced? && r.index == |subsets| && r.items[r.index] == CreateEntry
    ensures |target| == 1 ==> (r.Synced? <==> target[0] in subsets)
    ensures |target| == 1 && r.Synced? ==>
      && r.index < |subsets|
      && r.items[r.index].data == Some(target[0])
      && forall j :: 0 <= j < r.index ==> subsets[j] != target[0]
  {
    if |target| > 1 then Synced([MultipleEntry] + shown, 0)
    else
      var items := ComboItems(subsets);
      if |target| == 1 then
        match IndexOf(subsets, target[0])
        case None => NotInList(items)
        case Some(i) => Synced(items, i)
      else Synced(items, |items| - 1)
  }

  /**
   * A full refresh: the entries are set from the subset list and then
   * synchronised with the edit target.
   */
  function UpdateSubsetCombo(subsets: seq<SubsetGroup>, target: seq<SubsetGroup>): (r: ComboSync)
    ensures |target| > 1 ==> r == Synced([MultipleEntry] + ComboItems(subsets), 0)
    ensures |target| == 0 ==> r == Synced(ComboItems(subsets), |subsets|)
    ensures |target| == 1 ==> r.items == ComboItems(subsets)
    ensures |target| == 1 ==> (r.Synced? <==> target[0] in subsets)
    ensures |target| == 1 && r.Synced? ==>
      && r.index < |subsets|
      && subsets[r.index] == target[0]
      && forall j :: 0 <= j < r.index ==> subsets[j] != target[0]
    ensures r.Synced? ==> r.index < |r.items|
  {
    OnEditSubsetModeChange(ComboItems(subsets), subsets, target)
  }

  /** `currentData()`: the subset the entry at `index` carries; None off the list. */
  function CurrentData(items: seq<ComboItem>, index: int): Option<SubsetGroup> {
    if 0 <= index < |items| then items[index].data else None
  }

  /**
   * The edit target after the user picks the entry at `index`: empty for an
   * entry carrying no subset, otherwise that one subset.
   */
  function OnSubsetComboChange(items: seq<ComboItem>, index: int): (target: seq<SubsetGroup>)
    ensures |target| <= 1
    ensures target == [] <==> CurrentData(items, index).None?
    ensures 0 <= index < |items| && items[index].data.Some? ==> target == [items[index].data.value]
  {
    match CurrentData(items, index)
    case None => []
    case Some(subset) => [subset]
  }

  /**
   * Picking any entry of a freshly built combo and refreshing from the
   * resulting edit target selects the same entry again, provided no subset
   * group is listed twice.
   */
  lemma PickThenRefreshSelectsSameEntry(subsets: seq<SubsetGroup>, index: nat)
    requires Distinct(subsets)
    requires index <= |subsets|
    ensures UpdateSubsetCombo(subsets, OnSubsetComboChange(ComboItems(subsets), index)) == Synced(ComboItems(subsets), index)
  {
  }

  /**
   * Refreshing from an edit target of at most one listed subset and then
   * picking the selected entry gives back the same edit target.
   */
  lemma RefreshThenPickGivesSameTarget(subsets: seq<SubsetGroup>, target: seq<SubsetGroup>)
    requires |target| <= 1
    requires forall k :: 0 <= k < |target| ==> target[k] in subsets
    ensures UpdateSubsetCombo(subsets, target).Synced?
    ensures OnSubsetComboChange(UpdateSubsetCombo(subsets, target).items, UpdateSubsetCombo(subsets, target).index) == target
  {
  }

  /**
   * Picking the temporary "Multiple subsets" entry empties the edit target,
   * since that entry carries no subset.
   */
  lemma PickingMultipleEntryClearsTarget(subsets: seq<SubsetGroup>, target: seq<SubsetGroup>)
    requires |target| > 1
    ensures var r := UpdateSubsetCombo(subsets, target);
      r.items[r.index] == MultipleEntry && OnSubsetComboChange(r.items, r.index) == []
  {
  }

  /**
   * A change notification with several subsets targeted puts "Multiple
   * subsets" in front of whatever the combo shows, so two notifications
   * without a refresh in between show the entry twice.
   */
  lemma RepeatedNotificationsStackMultipleEntry(subsets: seq<SubsetGroup>, target: seq<SubsetGroup>)
    requires |target| > 1
    ensures var first := UpdateSubsetCombo(subsets, target);
      var second := OnEditSubsetModeChange(first.items, subsets, target);
      second.items[..2] == [MultipleEntry, MultipleEntry] && |second.items| == |subsets| + 3
  {
  }
}
