/** The to-do list of the pending-tasks page: items added at the front from
    a trimmed input, toggled, removed, and cleared once completed. Item
    identifiers come from the clock and a random source and are therefore
    parameters. */
module TodoList {
  import opened Text
  import Seqs

  datatype TodoItem = TodoItem(id: string, text: string, completed: bool)

  /** The list and the text typed in its input box. */
  datatype TodoState = TodoState(items: seq<TodoItem>, input: string)

  predicate Pending(i: TodoItem)
  {
    !i.completed
  }

  /** `remaining`: how many items are not completed. */
  function Remaining(items: seq<TodoItem>): nat
  {
    Seqs.Count(items, Pending)
  }

  /** `handleAdd`: a blank input changes nothing (the input is not cleared
      either); otherwise a new uncompleted item with the trimmed text goes
      to the front and the input is cleared. */
  function Add(st: TodoState, newId: string): TodoState
  {
    var trimmed := Trim(st.input);
    if trimmed == [] then st
    else TodoState([TodoItem(newId, trimmed, false)] + st.items, "")
  }

  /** `handleKeyDown`: Enter adds, any other key does nothing. */
  function KeyDown(st: TodoState, key: string, newId: string): TodoState
  {
    if key == "Enter" then Add(st, newId) else st
  }

  /** Flips the completion of an item when it has the given id. */
  function Toggler(id: string): TodoItem -> TodoItem
  {
    (i: TodoItem) => if i.id == id then i.(completed := !i.completed) else i
  }

  /** `handleToggle`: every item with the id has its completion flipped. */
  function Toggle(items: seq<TodoItem>, id: string): seq<TodoItem>
  {
    Seqs.Map(items, Toggler(id))
  }

  function OtherId(id: string): TodoItem -> bool
  {
    (i: TodoItem) => i.id != id
  }

  /** `handleRemove`: the items whose id differs from the given one. */
  function Remove(items: seq<TodoItem>, id: string): seq<TodoItem>
  {
    Seqs.Filter(items, OtherId(id))
  }

  /** `handleClearCompleted`: the items not yet completed. */
  function ClearCompleted(items: seq<TodoItem>): seq<TodoItem>
  {
    Seqs.Filter(items, Pending)
  }

  /** A blank input leaves the whole state as it was. */
  lemma AddBlankIsNoOp(st: TodoState, newId: string)
    requires Blank(st.input)
    ensures Add(st, newId) == st
  {
  }

  /** A non-blank input puts exactly one new pending item in front of the
      old list, with a non-blank text that has no surrounding whitespace,
      and one more item remains to do. */
  lemma AddPrepends(st: TodoState, newId: string)
    requires !Blank(st.input)
    ensures var r := Add(st, newId);
      && |r.items| == |st.items| + 1
      && r.items[1..] == st.items
      && r.items[0].id == newId && !r.items[0].completed
      && r.items[0].text == Trim(st.input)
      && Trimmed(r.items[0].text) && !Blank(r.items[0].text)
      && r.input == ""
      && Remaining(r.items) == Remaining(st.items) + 1
  {
    var r := Add(st, newId);
    TrimShape(st.input);
    TrimmedNotBlank(Trim(st.input));
    assert r.items[1..] == st.items;
  }

  /** Enter with a non-blank input adds one pending item in front of the
      list and clears the input; Enter with a blank input and every other
      key leave the state as it was. */
  lemma KeyDownSpec(st: TodoState, key: string, newId: string)
    ensures key != "Enter" ==> KeyDown(st, key, newId) == st
    ensures key == "Enter" && Blank(st.input) ==> KeyDown(st, key, newId) == st
    ensures key == "Enter" && !Blank(st.input) ==>
      && KeyDown(st, key, newId).items[1..] == st.items
      && |KeyDown(st, key, newId).items| == |st.items| + 1
      && KeyDown(st, key, newId).items[0].id == newId
      && !KeyDown(st, key, newId).items[0].completed
      && KeyDown(st, key, newId).items[0].text == Trim(st.input)
      && KeyDown(st, key, newId).input == ""
  {
    if key == "Enter" {
      if Blank(st.input) {
        AddBlankIsNoOp(st, newId);
      } else {
        AddPrepends(st, newId);
      }
    }
  }

  /** Toggling keeps the length, the order, every id and text, and flips
      the completion of exactly the items with the id. */
  lemma ToggleShape(items: seq<TodoItem>, id: string)
    ensures |Toggle(items, id)| == |items|
    ensures forall k :: 0 <= k < |items| ==>
      && Toggle(items, id)[k].id == items[k].id
      && Toggle(items, id)[k].text == items[k].text
      && (Toggle(items, id)[k].completed != items[k].completed <==> items[k].id == id)
  {
  }

  /** Toggling the same id twice restores the list. */
  lemma ToggleTwice(items: seq<TodoItem>, id: string)
    ensures Toggle(Toggle(items, id), id) == items
  {
    var t := Toggle(Toggle(items, id), id);
    assert forall k :: 0 <= k < |items| ==> t[k] == items[k];
  }

  /** After removal no item has the id, and the remaining list is exactly
      the items with another id, each once and in their old order. */
  lemma RemoveDropsExactlyId(items: seq<TodoItem>, id: string)
    ensures forall k :: 0 <= k < |Remove(items, id)| ==> Remove(items, id)[k].id != id
    ensures forall i :: 0 <= i < |items| && items[i].id != id ==> items[i] in Remove(items, id)
    ensures |Remove(items, id)| <= |items|
    ensures var pos := Seqs.Positions(items, OtherId(id));
      && |pos| == |Remove(items, id)|
      && Seqs.ExactPositions(items, OtherId(id), pos)
      && forall k :: 0 <= k < |pos| ==> Remove(items, id)[k] == items[pos[k]]
  {
    Seqs.FilterSatisfies(items, OtherId(id));
    Seqs.FilterKeeps(items, OtherId(id));
    Seqs.FilterIsOrderedSelection(items, OtherId(id));
  }

  /** Removing the id of an item just added, when no older item had it,
      gives back the old list. */
  lemma RemoveUndoesAdd(st: TodoState, newId: string)
    requires !Blank(st.input)
    requires forall k :: 0 <= k < |st.items| ==> st.items[k].id != newId
    ensures Remove(Add(st, newId).items, newId) == st.items
  {
    var added := Add(st, newId).items;
    assert added == [TodoItem(newId, Trim(st.input), false)] + st.items;
    assert added[1..] == st.items;
    Seqs.FilterAllOrNone(st.items, OtherId(newId));
  }

  /** Clearing keeps exactly the pending items, each once and in their old
      order, after which everything left remains to do; clearing twice
      clears nothing more. */
  lemma ClearCompletedShape(items: seq<TodoItem>)
    ensures forall k :: 0 <= k < |ClearCompleted(items)| ==> !ClearCompleted(items)[k].completed
    ensures Remaining(ClearCompleted(items)) == |ClearCompleted(items)| == Remaining(items)
    ensures ClearCompleted(ClearCompleted(items)) == ClearCompleted(items)
    ensures var pos := Seqs.Positions(items, Pending);
      && |pos| == |ClearCompleted(items)|
      && Seqs.ExactPositions(items, Pending, pos)
      && forall k :: 0 <= k < |pos| ==> ClearCompleted(items)[k] == items[pos[k]]
  {
    Seqs.FilterSatisfies(items, Pending);
    Seqs.FilterAllOrNone(ClearCompleted(items), Pending);
    Seqs.FilterIsOrderedSelection(items, Pending);
  }

  predicate Done(i: TodoItem)
  {
    i.completed
  }

  /** The pending and the completed items make up the list. */
  lemma {:induction false} RemainingPlusCompleted(items: seq<TodoItem>)
    ensures Remaining(items) + Seqs.Count(items, Done) == |items|
  {
    if items != [] {
      RemainingPlusCompleted(items[1..]);
    }
  }

  /** Clearing the completed items removes exactly the completed ones. */
  lemma ClearCompletedCount(items: seq<TodoItem>)
    ensures |items| - |ClearCompleted(items)| == Seqs.Count(items, Done)
  {
    RemainingPlusCompleted(items);
  }
}
