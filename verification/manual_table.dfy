/** The manually entered table of the inventory page and its pure handlers:
    editing a cell, inserting a row after another (`handleAddRow`), the
    serials fed to the comparison, duplicate detection
    (`serialesDuplicados`) and submission (`handleEnviar`). */
module ManualTable {
  import opened Wrappers
  import opened Text
  import Seqs
  import Inventory
  import opened Serials
  import opened Comparison
  import opened Statistics

  /** One row of the manual table. */
  datatype InventoryRow = InventoryRow(id: string, serial: string, note: string)

  /** The editable columns of a row. */
  datatype Field = SerialField | NoteField

  /** `{ ...row, [field]: value }`. */
  function SetField(row: InventoryRow, field: Field, value: string): InventoryRow
  {
    match field
    case SerialField => row.(serial := value)
    case NoteField => row.(note := value)
  }

  /** `handleCellChange`: every row with the id gets the new value. */
  function UpdateCell(rows: seq<InventoryRow>, id: string, field: Field, value: string): seq<InventoryRow>
  {
    Seqs.Map(rows, (row: InventoryRow) => if row.id == id then SetField(row, field, value) else row)
  }

  /** A row with the given id, as a `findIndex` callback. */
  function HasId(id: string): InventoryRow -> bool
  {
    (row: InventoryRow) => row.id == id
  }

  /** The row `handleAddRow` creates. */
  function BlankRow(id: string): InventoryRow
  {
    InventoryRow(id, "", "")
  }

  /** Where `handleAddRow` puts the new row: just after the first row with
      id `afterId`, or at the end when `afterId` is absent, empty or
      unknown. */
  function InsertPosition(rows: seq<InventoryRow>, afterId: Option<string>): (r: nat)
    ensures r <= |rows|
  {
    if afterId.None? || afterId.value == [] then |rows|
    else match Seqs.FindIndex(rows, HasId(afterId.value), 0)
      case None => |rows|
      case Some(i) => i + 1
  }

  /** `handleAddRow` with the fresh id as a parameter. */
  function AddRow(rows: seq<InventoryRow>, afterId: Option<string>, newId: string): seq<InventoryRow>
  {
    var pos := InsertPosition(rows, afterId);
    rows[..pos] + [BlankRow(newId)] + rows[pos..]
  }

  /** `rows.map(r => r.serial.trim()).filter(s => s !== "")`. */
  function ManualSerials(rows: seq<InventoryRow>): seq<string>
  {
    Seqs.Filter(Seqs.Map(rows, (row: InventoryRow) => Trim(row.serial)), NonEmpty)
  }

  /** A non-empty string. */
  predicate NonEmpty(s: string)
  {
    s != []
  }

  // ---------------------------------------------------------------------
  // Editing and inserting
  // ---------------------------------------------------------------------

  /** Editing a cell changes the named field of the rows with that id and
      nothing else. */
  lemma UpdateCellLocal(rows: seq<InventoryRow>, id: string, field: Field, value: string, i: nat)
    requires i < |rows|
    ensures |UpdateCell(rows, id, field, value)| == |rows|
    ensures rows[i].id != id ==> UpdateCell(rows, id, field, value)[i] == rows[i]
    ensures rows[i].id == id ==>
      var r := UpdateCell(rows, id, field, value)[i];
      && r.id == id
      && (if field == SerialField then r.serial == value && r.note == rows[i].note
          else r.note == value && r.serial == rows[i].serial)
  {
  }

  /** The new row goes right after the first row with id `afterId`, or at
      the end when there is no such row. */
  lemma InsertPositionSpec(rows: seq<InventoryRow>, afterId: Option<string>)
    ensures var pos := InsertPosition(rows, afterId);
      if afterId.Some? && afterId.value != [] && exists i :: 0 <= i < |rows| && rows[i].id == afterId.value then
        0 < pos && rows[pos - 1].id == afterId.value && forall i :: 0 <= i < pos - 1 ==> rows[i].id != afterId.value
      else pos == |rows|
  {
    if afterId.Some? && afterId.value != [] {
      Seqs.FindIndexFirst(rows, HasId(afterId.value), 0);
    }
  }

  /** Inserting adds exactly one blank row with the new id at the insertion
      position and keeps every other row, in order. */
  lemma AddRowShape(rows: seq<InventoryRow>, afterId: Option<string>, newId: string)
    ensures var pos := InsertPosition(rows, afterId);
      var r := AddRow(rows, afterId, newId);
      && |r| == |rows| + 1
      && r[pos] == BlankRow(newId)
      && (forall i :: 0 <= i < pos ==> r[i] == rows[i])
      && (forall i :: pos <= i < |rows| ==> r[i + 1] == rows[i])
  {
  }

  /** Removing the inserted row gives the table back. */
  lemma AddRowUndone(rows: seq<InventoryRow>, afterId: Option<string>, newId: string)
    ensures var pos := InsertPosition(rows, afterId);
      var r := AddRow(rows, afterId, newId);
      r[..pos] + r[pos + 1..] == rows
  {
    var pos := InsertPosition(rows, afterId);
    var r := AddRow(rows, afterId, newId);
    assert r[..pos] == rows[..pos];
    assert r[pos + 1..] == rows[pos..];
  }

  // ---------------------------------------------------------------------
  // The serials fed to the comparison
  // ---------------------------------------------------------------------

  /** The manual serials are the trimmed serials of the non-blank rows, in
      row order, with nothing else. */
  lemma ManualSerialsSpec(rows: seq<InventoryRow>)
    ensures var trimmed := Seqs.Map(rows, (row: InventoryRow) => Trim(row.serial));
      var pos := Seqs.Positions(trimmed, NonEmpty);
      && |ManualSerials(rows)| == |pos|
      && Seqs.ExactPositions(trimmed, NonEmpty, pos)
      && forall k :: 0 <= k < |pos| ==> ManualSerials(rows)[k] == Trim(rows[pos[k]].serial)
  {
    var trimmed := Seqs.Map(rows, (row: InventoryRow) => Trim(row.serial));
    Seqs.FilterIsOrderedSelection(trimmed, NonEmpty);
  }

  /** Every manual serial is trimmed and non-empty. */
  lemma ManualSerialsTrimmed(rows: seq<InventoryRow>)
    ensures forall k :: 0 <= k < |ManualSerials(rows)| ==>
      ManualSerials(rows)[k] != [] && Trimmed(ManualSerials(rows)[k])
  {
    var trimmed := Seqs.Map(rows, (row: InventoryRow) => Trim(row.serial));
    Seqs.FilterIsOrderedSelection(trimmed, NonEmpty);
    var pos := Seqs.Positions(trimmed, NonEmpty);
    forall k | 0 <= k < |ManualSerials(rows)|
      ensures ManualSerials(rows)[k] != [] && Trimmed(ManualSerials(rows)[k])
    {
      TrimShape(rows[pos[k]].serial);
    }
  }

  /** There are no manual serials exactly when every row's serial is
      blank. */
  lemma NoManualSerialsIffAllBlank(rows: seq<InventoryRow>)
    ensures ManualSerials(rows) == [] <==> forall i :: 0 <= i < |rows| ==> Blank(rows[i].serial)
  {
    var trimmed := Seqs.Map(rows, (row: InventoryRow) => Trim(row.serial));
    Seqs.FilterIsOrderedSelection(trimmed, NonEmpty);
    Seqs.FilterAllOrNone(trimmed, NonEmpty);
    if ManualSerials(rows) == [] {
      forall i | 0 <= i < |rows|
        ensures Blank(rows[i].serial)
      {
        assert !NonEmpty(trimmed[i]);
      }
    }
  }

  // ---------------------------------------------------------------------
  // Duplicate detection
  // ---------------------------------------------------------------------

  /** The `Map<string, number>` of `serialesDuplicados`: its keys in
      insertion order, and the count of each. */
  datatype Tally = Tally(order: seq<string>, counts: map<string, nat>)

  /** `counts.set(key, (counts.get(key) || 0) + 1)`. */
  function Bump(t: Tally, key: string): Tally
  {
    if key in t.counts then Tally(t.order, t.counts[key := t.counts[key] + 1])
    else Tally(t.order + [key], t.counts[key := 1])
  }

  /** `counts.get(key) || 0`. */
  function CountOf(counts: map<string, nat>, key: string): nat
  {
    if key in counts then counts[key] else 0
  }

  /** The tally after every key has been counted, in order. */
  function TallyAll(keys: seq<string>): Tally
    decreases |keys|
  {
    if keys == [] then Tally([], map[])
    else Bump(TallyAll(keys[..|keys| - 1]), keys[|keys| - 1])
  }

  /** Equality with `k`, as a filter callback. */
  function Is(k: string): string -> bool
  {
    (s: string) => s == k
  }

  /** The tally lists each key once, holds exactly the keys seen, and
      counts each as often as it occurs. */
  ghost predicate Tallies(t: Tally, keys: seq<string>)
  {
    && (forall a, b :: 0 <= a < b < |t.order| ==> t.order[a] != t.order[b])
    && (forall k :: k in t.counts <==> k in t.order)
    && (forall k :: k in t.counts <==> k in keys)
    && (forall k :: k in t.counts ==> t.counts[k] == Seqs.Count(keys, Is(k)))
  }

  /** The index of the first `k` in `keys`, or `|keys|` when there is
      none. */
  function FirstAt(keys: seq<string>, k: string): nat
    decreases |keys|
  {
    if keys == [] then 0
    else if keys[0] == k then 0
    else 1 + FirstAt(keys[1..], k)
  }

  /** `FirstAt` is the first occurrence, and lies inside `keys` exactly
      when `k` occurs. */
  lemma {:induction false} FirstAtSpec(keys: seq<string>, k: string)
    ensures FirstAt(keys, k) <= |keys|
    ensures FirstAt(keys, k) < |keys| <==> k in keys
    ensures FirstAt(keys, k) < |keys| ==> keys[FirstAt(keys, k)] == k
    ensures forall j :: 0 <= j < FirstAt(keys, k) && j < |keys| ==> keys[j] != k
    decreases |keys|
  {
    if keys != [] && keys[0] != k {
      FirstAtSpec(keys[1..], k);
      assert forall j :: 0 < j < |keys| ==> keys[j] == keys[1..][j - 1];
      assert k in keys ==> k in keys[1..];
    }
  }

  /** Appending a key does not move the first occurrence of a key already
      present, and a key not yet present is first seen at the end or later. */
  lemma {:induction false} FirstAtAppend(keys: seq<string>, x: string, k: string)
    ensures k in keys ==> FirstAt(keys + [x], k) == FirstAt(keys, k)
    ensures k !in keys ==> FirstAt(keys + [x], k) >= |keys|
    decreases |keys|
  {
    if keys != [] {
      assert (keys + [x])[0] == keys[0];
      assert (keys + [x])[1..] == keys[1..] + [x];
      FirstAtAppend(keys[1..], x, k);
      assert k in keys && keys[0] != k ==> k in keys[1..];
    }
  }

  /** The tally's insertion order is the order in which the keys are
      first seen. */
  ghost predicate FirstSeenOrder(order: seq<string>, keys: seq<string>)
  {
    forall a, b :: 0 <= a < b < |order| ==> FirstAt(keys, order[a]) < FirstAt(keys, order[b])
  }

  /** Counting the keys one at a time gives the true counts, and lists the
      keys in the order they are first seen. */
  lemma {:induction false} TallyAllCounts(keys: seq<string>)
    ensures Tallies(TallyAll(keys), keys)
    ensures FirstSeenOrder(TallyAll(keys).order, keys)
    decreases |keys|
  {
    if keys != [] {
      var init := keys[..|keys| - 1];
      var x := keys[|keys| - 1];
      TallyAllCounts(init);
      assert keys == init + [x];
      BumpTallies(TallyAll(init), init, x);
      BumpOrder(TallyAll(init), init, x);
    }
  }

  /** Counting one more key keeps the order first-seen. */
  lemma BumpOrder(t: Tally, keys: seq<string>, x: string)
    requires Tallies(t, keys)
    requires FirstSeenOrder(t.order, keys)
    ensures FirstSeenOrder(Bump(t, x).order, keys + [x])
  {
    BumpKeys(t, x);
    var o := Bump(t, x).order;
    forall a | 0 <= a < |t.order|
      ensures FirstAt(keys + [x], t.order[a]) == FirstAt(keys, t.order[a]) < |keys|
    {
      FirstAtAppend(keys, x, t.order[a]);
      FirstAtSpec(keys, t.order[a]);
    }
    if x !in t.counts {
      FirstAtAppend(keys, x, x);
      forall a, b | 0 <= a < b < |o|
        ensures FirstAt(keys + [x], o[a]) < FirstAt(keys + [x], o[b])
      {
        assert o[a] == t.order[a];
        if b < |t.order| {
          assert o[b] == t.order[b];
        }
      }
    }
  }

  /** Counting one more key keeps the tally exact. */
  lemma BumpTallies(t: Tally, keys: seq<string>, x: string)
    requires Tallies(t, keys)
    ensures Tallies(Bump(t, x), keys + [x])
  {
    forall k
      ensures Seqs.Count(keys + [x], Is(k)) == Seqs.Count(keys, Is(k)) + (if x == k then 1 else 0)
    {
      Seqs.FilterAppend(keys, [x], Is(k));
    }
    if x !in t.counts {
      Seqs.FilterAllOrNone(keys, Is(x));
    }
    BumpKeys(t, x);
  }

  /** Counting a new key appends it to the insertion order; counting a known
      one keeps the order. */
  lemma BumpKeys(t: Tally, x: string)
    requires forall a, b :: 0 <= a < b < |t.order| ==> t.order[a] != t.order[b]
    requires forall k :: k in t.counts <==> k in t.order
    ensures forall a, b :: 0 <= a < b < |Bump(t, x).order| ==> Bump(t, x).order[a] != Bump(t, x).order[b]
    ensures forall k :: k in Bump(t, x).counts <==> k in Bump(t, x).order
    ensures x !in t.counts ==> Bump(t, x).order == t.order + [x]
    ensures x in t.counts ==> Bump(t, x).order == t.order
  {
  }

  /** One reported duplicate: the first spelling of the serial, and how many
      times it occurs, ignoring case. */
  datatype Duplicate = Duplicate(serial: string, count: nat)

  /** A key counted more than once. */
  function Repeated(counts: map<string, nat>): string -> bool
  {
    (k: string) => k in counts && counts[k] > 1
  }

  /** A serial whose lower-case form is `key`, as a `find` callback. */
  function LowerIs(key: string): string -> bool
  {
    (s: string) => Lower(s) == key
  }

  /** `serialOriginal || serialLower`: the first serial spelled like `key`
      up to case, or `key` itself. */
  function Original(serials: seq<string>, key: string): string
  {
    match Seqs.FindIndex(serials, LowerIs(key), 0)
    case Some(i) => serials[i]
    case None => key
  }

  /** `serialesDuplicados`: the trimmed, non-empty serials counted by their
      lower-case form; every key counted more than once, in first-seen
      order, with its first spelling. */
  function Duplicates(rows: seq<InventoryRow>): seq<Duplicate>
  {
    var serials := ManualSerials(rows);
    var t := TallyAll(Seqs.Map(serials, Lower));
    Seqs.Map(Seqs.Filter(t.order, Repeated(t.counts)), (k: string) => Duplicate(Original(serials, k), CountOf(t.counts, k)))
  }

  /** How many manual serials have the lower-case form `key`. */
  function Occurrences(rows: seq<InventoryRow>, key: string): nat
  {
    Seqs.Count(Seqs.Map(ManualSerials(rows), Lower), Is(key))
  }

  /** Each reported duplicate is a manual serial, the first one with its
      lower-case form, and occurs (ignoring case) more than once, exactly
      as often as reported. */
  lemma DuplicatesSound(rows: seq<InventoryRow>, d: nat)
    requires d < |Duplicates(rows)|
    ensures var dup := Duplicates(rows)[d];
      var serials := ManualSerials(rows);
      && dup.count == Occurrences(rows, Lower(dup.serial)) && dup.count > 1
      && exists j :: 0 <= j < |serials| && serials[j] == dup.serial
           && forall l :: 0 <= l < j ==> Lower(serials[l]) != Lower(dup.serial)
  {
    var serials := ManualSerials(rows);
    var keys := Seqs.Map(serials, Lower);
    var t := TallyAll(keys);
    TallyAllCounts(keys);
    var reps := Seqs.Filter(t.order, Repeated(t.counts));
    Seqs.FilterSatisfies(t.order, Repeated(t.counts));
    var k := reps[d];
    assert k in keys;
    Seqs.FindIndexFirst(serials, LowerIs(k), 0);
    var i :| 0 <= i < |keys| && keys[i] == k;
    assert LowerIs(k)(serials[i]);
    var j := Seqs.FindIndex(serials, LowerIs(k), 0).value;
    assert Duplicates(rows)[d] == Duplicate(serials[j], t.counts[k]);
    assert Lower(serials[j]) == k;
  }

  /** A lower-case form that occurs more than once is a repeated key of
      the tally. */
  lemma RepeatedKeyInTally(rows: seq<InventoryRow>, key: string)
    requires Occurrences(rows, key) > 1
    ensures var t := TallyAll(Seqs.Map(ManualSerials(rows), Lower));
      key in t.order && Repeated(t.counts)(key)
  {
    var keys := Seqs.Map(ManualSerials(rows), Lower);
    TallyAllCounts(keys);
    if key !in keys {
      Seqs.FilterAllOrNone(keys, Is(key));
    }
  }

  /** Every lower-case form that occurs more than once is reported. */
  lemma DuplicatesComplete(rows: seq<InventoryRow>, key: string)
    requires Occurrences(rows, key) > 1
    ensures exists d :: 0 <= d < |Duplicates(rows)| && Lower(Duplicates(rows)[d].serial) == key
  {
    var t := TallyAll(Seqs.Map(ManualSerials(rows), Lower));
    RepeatedKeyInTally(rows, key);
    var a :| 0 <= a < |t.order| && t.order[a] == key;
    Seqs.FilterIsOrderedSelection(t.order, Repeated(t.counts));
    var pos := Seqs.Positions(t.order, Repeated(t.counts));
    assert a in pos;
    var d :| 0 <= d < |pos| && pos[d] == a;
    KeyOfDuplicate(rows, d);
  }

  /** No lower-case form is reported twice. */
  lemma DuplicatesDistinct(rows: seq<InventoryRow>, d: nat, e: nat)
    requires d < e < |Duplicates(rows)|
    ensures Lower(Duplicates(rows)[d].serial) != Lower(Duplicates(rows)[e].serial)
  {
    var serials := ManualSerials(rows);
    var keys := Seqs.Map(serials, Lower);
    var t := TallyAll(keys);
    TallyAllCounts(keys);
    Seqs.FilterIsOrderedSelection(t.order, Repeated(t.counts));
    var pos := Seqs.Positions(t.order, Repeated(t.counts));
    DuplicatesSound(rows, d);
    DuplicatesSound(rows, e);
    var reps := Seqs.Filter(t.order, Repeated(t.counts));
    assert reps[d] == t.order[pos[d]] && reps[e] == t.order[pos[e]];
    assert pos[d] < pos[e];
    KeyOfDuplicate(rows, d);
    KeyOfDuplicate(rows, e);
  }

  /** The duplicates are reported in the order their lower-case forms are
      first seen among the manual serials. */
  lemma DuplicatesInFirstSeenOrder(rows: seq<InventoryRow>, d: nat, e: nat)
    requires d < e < |Duplicates(rows)|
    ensures var keys := Seqs.Map(ManualSerials(rows), Lower);
      FirstAt(keys, Lower(Duplicates(rows)[d].serial)) < FirstAt(keys, Lower(Duplicates(rows)[e].serial))
  {
    var keys := Seqs.Map(ManualSerials(rows), Lower);
    var t := TallyAll(keys);
    TallyAllCounts(keys);
    Seqs.FilterIsOrderedSelection(t.order, Repeated(t.counts));
    var pos := Seqs.Positions(t.order, Repeated(t.counts));
    var reps := Seqs.Filter(t.order, Repeated(t.counts));
    assert reps[d] == t.order[pos[d]] && reps[e] == t.order[pos[e]];
    assert pos[d] < pos[e];
    KeyOfDuplicate(rows, d);
    KeyOfDuplicate(rows, e);
  }

  /** The lower-case form of the d-th reported serial is the d-th repeated
      key of the tally, whose order is the first-seen order. */
  lemma KeyOfDuplicate(rows: seq<InventoryRow>, d: nat)
    requires d < |Duplicates(rows)|
    ensures var serials := ManualSerials(rows);
      var t := TallyAll(Seqs.Map(serials, Lower));
      && Lower(Duplicates(rows)[d].serial) == Seqs.Filter(t.order, Repeated(t.counts))[d]
      && FirstSeenOrder(t.order, Seqs.Map(serials, Lower))
  {
    var serials := ManualSerials(rows);
    var keys := Seqs.Map(serials, Lower);
    var t := TallyAll(keys);
    TallyAllCounts(keys);
    Seqs.FilterSatisfies(t.order, Repeated(t.counts));
    var k := Seqs.Filter(t.order, Repeated(t.counts))[d];
    assert k in keys;
    var i :| 0 <= i < |keys| && keys[i] == k;
    assert LowerIs(k)(serials[i]);
    Seqs.FindIndexFirst(serials, LowerIs(k), 0);
  }
}
