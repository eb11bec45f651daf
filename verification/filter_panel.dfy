/** The filter panel of the equipment indicator page: a draft list of
    filters the user edits, the list last applied to the table, and whether
    the panel is shown. Filter ids come from the clock and are parameters;
    the panel's animation flag and its timers are left out, and the panel
    hiding that `removeFilter` defers to a timer is applied at once. */
module FilterPanel {
  import Seqs

  datatype FilterSpec = FilterSpec(id: string, field: string, operator: string, value: string)

  /** The keys of a filter, all of which `updateFilter` may set. */
  datatype FilterKey = Id | Field | Operator | Value

  datatype Panel = Panel(draft: seq<FilterSpec>, applied: seq<FilterSpec>, visible: bool)

  /** The page's initial state: no filters, panel shown. */
  const Initial := Panel([], [], true)

  /** The filter `addFilter` appends. */
  function NewFilter(id: string): FilterSpec
  {
    FilterSpec(id, "nombre", "contains", "")
  }

  /** `addFilter`: a new empty filter at the end, and the panel shown. */
  function AddFilter(p: Panel, newId: string): Panel
  {
    p.(draft := p.draft + [NewFilter(newId)], visible := true)
  }

  function OtherId(id: string): FilterSpec -> bool
  {
    (f: FilterSpec) => f.id != id
  }

  /** `removeFilter`: drops the filters with the id; the panel is hidden
      when the draft had exactly one filter before the call. */
  function RemoveFilter(p: Panel, id: string): Panel
  {
    p.(draft := Seqs.Filter(p.draft, OtherId(id)),
       visible := if |p.draft| == 1 then false else p.visible)
  }

  /** `clearAllFilters`. */
  function ClearAll(p: Panel): Panel
  {
    Panel([], [], false)
  }

  /** `applyFilters`: the draft becomes the applied list; the panel hides. */
  function Apply(p: Panel): Panel
  {
    p.(applied := p.draft, visible := false)
  }

  /** `removeAppliedFilter`. */
  function RemoveApplied(p: Panel, id: string): Panel
  {
    p.(applied := Seqs.Filter(p.applied, OtherId(id)))
  }

  /** `{ ...filter, [key]: value }`. */
  function SetKey(f: FilterSpec, key: FilterKey, value: string): FilterSpec
  {
    match key
    case Id => f.(id := value)
    case Field => f.(field := value)
    case Operator => f.(operator := value)
    case Value => f.(value := value)
  }

  function Updater(id: string, key: FilterKey, value: string): FilterSpec -> FilterSpec
  {
    (f: FilterSpec) => if f.id == id then SetKey(f, key, value) else f
  }

  /** `updateFilter`: every draft filter with the id gets the key set. */
  function UpdateFilter(p: Panel, id: string, key: FilterKey, value: string): Panel
  {
    p.(draft := Seqs.Map(p.draft, Updater(id, key, value)))
  }

  /** The value a key reads. */
  function Get(f: FilterSpec, key: FilterKey): string
  {
    match key
    case Id => f.id
    case Field => f.field
    case Operator => f.operator
    case Value => f.value
  }

  /** Setting a key makes it read the new value and leaves the other keys
      alone. */
  lemma SetKeyGet(f: FilterSpec, key: FilterKey, value: string, other: FilterKey)
    ensures Get(SetKey(f, key, value), key) == value
    ensures other != key ==> Get(SetKey(f, key, value), other) == Get(f, other)
  {
  }

  /** Adding puts one new empty filter after the existing ones and shows
      the panel; the applied list is untouched. */
  lemma AddFilterShape(p: Panel, newId: string)
    ensures |AddFilter(p, newId).draft| == |p.draft| + 1
    ensures AddFilter(p, newId).draft[..|p.draft|] == p.draft
    ensures AddFilter(p, newId).draft[|p.draft|] == FilterSpec(newId, "nombre", "contains", "")
    ensures AddFilter(p, newId).visible && AddFilter(p, newId).applied == p.applied
  {
  }

  /** Removal leaves no filter with the id and keeps exactly the other
      ones, each once and in their old order; the panel is hidden exactly
      when the draft had one filter, even when that filter has another id. */
  lemma RemoveFilterSpec(p: Panel, id: string)
    ensures forall k :: 0 <= k < |RemoveFilter(p, id).draft| ==> RemoveFilter(p, id).draft[k].id != id
    ensures forall i :: 0 <= i < |p.draft| && p.draft[i].id != id ==> p.draft[i] in RemoveFilter(p, id).draft
    ensures var pos := Seqs.Positions(p.draft, OtherId(id));
      && |pos| == |RemoveFilter(p, id).draft|
      && Seqs.ExactPositions(p.draft, OtherId(id), pos)
      && forall k :: 0 <= k < |pos| ==> RemoveFilter(p, id).draft[k] == p.draft[pos[k]]
    ensures RemoveFilter(p, id).visible <==> p.visible && |p.draft| != 1
    ensures RemoveFilter(p, id).applied == p.applied
  {
    Seqs.FilterSatisfies(p.draft, OtherId(id));
    Seqs.FilterKeeps(p.draft, OtherId(id));
    Seqs.FilterIsOrderedSelection(p.draft, OtherId(id));
  }

  /** Removing a filter just added under a fresh id gives back the old
      draft. */
  lemma RemoveUndoesAdd(p: Panel, newId: string)
    requires forall k :: 0 <= k < |p.draft| ==> p.draft[k].id != newId
    ensures RemoveFilter(AddFilter(p, newId), newId).draft == p.draft
    ensures RemoveFilter(AddFilter(p, newId), newId).visible <==> p.draft != []
  {
    Seqs.FilterAppend(p.draft, [NewFilter(newId)], OtherId(newId));
    Seqs.FilterAllOrNone(p.draft, OtherId(newId));
    assert Seqs.Filter([NewFilter(newId)], OtherId(newId)) == [];
  }

  /** Updating keeps the length and order; a filter with the id reads the
      new value under the key and keeps its other keys; every other filter
      is unchanged. */
  lemma UpdateFilterSpec(p: Panel, id: string, key: FilterKey, value: string)
    ensures |UpdateFilter(p, id, key, value).draft| == |p.draft|
    ensures forall k :: 0 <= k < |p.draft| && p.draft[k].id == id ==>
      && Get(UpdateFilter(p, id, key, value).draft[k], key) == value
      && forall other :: other != key ==> Get(UpdateFilter(p, id, key, value).draft[k], other) == Get(p.draft[k], other)
    ensures forall k :: 0 <= k < |p.draft| && p.draft[k].id != id ==> UpdateFilter(p, id, key, value).draft[k] == p.draft[k]
    ensures UpdateFilter(p, id, key, value).applied == p.applied
    ensures UpdateFilter(p, id, key, value).visible == p.visible
  {
  }

  /** Updating any key but the id keeps every filter's id. */
  lemma UpdateKeepsIds(p: Panel, id: string, key: FilterKey, value: string)
    requires key != Id
    ensures forall k :: 0 <= k < |p.draft| ==> UpdateFilter(p, id, key, value).draft[k].id == p.draft[k].id
  {
  }

  /** Applying copies the draft and hides the panel; removing an applied
      filter never touches the draft. */
  lemma ApplySpec(p: Panel, id: string)
    ensures Apply(p).applied == p.draft && Apply(p).draft == p.draft && !Apply(p).visible
    ensures RemoveApplied(Apply(p), id).draft == p.draft
    ensures forall k :: 0 <= k < |RemoveApplied(p, id).applied| ==> RemoveApplied(p, id).applied[k].id != id
  {
    Seqs.FilterSatisfies(p.applied, OtherId(id));
  }

  /** Removing an applied filter leaves no applied filter with the id and
      keeps exactly the other applied ones, each once and in their old
      order; the draft and the panel's visibility are untouched. */
  lemma RemoveAppliedSpec(p: Panel, id: string)
    ensures RemoveApplied(p, id).draft == p.draft
    ensures RemoveApplied(p, id).visible == p.visible
    ensures forall k :: 0 <= k < |RemoveApplied(p, id).applied| ==> RemoveApplied(p, id).applied[k].id != id
    ensures var pos := Seqs.Positions(p.applied, OtherId(id));
      && |pos| == |RemoveApplied(p, id).applied|
      && Seqs.ExactPositions(p.applied, OtherId(id), pos)
      && forall k :: 0 <= k < |pos| ==> RemoveApplied(p, id).applied[k] == p.applied[pos[k]]
  {
    Seqs.FilterSatisfies(p.applied, OtherId(id));
    Seqs.FilterIsOrderedSelection(p.applied, OtherId(id));
  }

  /** Clearing empties both lists and hides the panel, whatever the state;
      applying afterwards applies nothing. */
  lemma ClearAllSpec(p: Panel)
    ensures ClearAll(p).draft == [] && ClearAll(p).applied == [] && !ClearAll(p).visible
    ensures Apply(ClearAll(p)) == ClearAll(p)
  {
  }
}
