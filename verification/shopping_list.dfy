/** The page: the rendered rows of the item list, the edit-mode flag, the
    item input, the clear/filter controls, and the event handlers that move
    them and the stored item list from one state to the next. */
module ShoppingList {
  import opened Text
  import opened Lists
  import opened Storage

  /** One `li` of the item list: its text, whether it carries the
      `edit-mode` class, and whether the filter currently shows it. */
  datatype Row = Row(text: string, editMode: bool, visible: bool)

  /** What a submit reports: the item was added, or one of the two alerts. */
  datatype SubmitOutcome = Added | EmptyItem | AlreadyExists(item: string)

  /** The row addItemToDOM creates: not marked, and shown (it has no inline
      display style, whatever the filter holds). */
  function NewRow(text: string): Row {
    Row(text, false, true)
  }

  /** The text of every row, in order. */
  function Texts(rows: seq<Row>): (r: seq<string>)
    ensures |r| == |rows|
    ensures forall i :: 0 <= i < |rows| ==> r[i] == rows[i].text
  {
    seq(|rows|, i requires 0 <= i < |rows| => rows[i].text)
  }

  /** The rows addItemToDOM appends for a list of items, one per item. */
  function NewRows(items: seq<string>): (r: seq<Row>)
    ensures |r| == |items|
    ensures forall i :: 0 <= i < |items| ==> r[i] == NewRow(items[i])
  {
    seq(|items|, i requires 0 <= i < |items| => NewRow(items[i]))
  }

  /** The rows left after `li.remove()` on row `i`. */
  function RemoveAt(rows: seq<Row>, i: nat): (r: seq<Row>)
    requires i < |rows|
    ensures |r| == |rows| - 1
    ensures forall k :: 0 <= k < i ==> r[k] == rows[k]
    ensures forall k :: i <= k < |r| ==> r[k] == rows[k + 1]
  {
    rows[..i] + rows[i + 1..]
  }

  /** At most one row carries the `edit-mode` class. */
  predicate AtMostOneMarked(rows: seq<Row>) {
    forall i, j :: 0 <= i < j < |rows| && rows[i].editMode ==> !rows[j].editMode
  }

  /** Some row carries the `edit-mode` class. */
  predicate SomeMarked(rows: seq<Row>) {
    exists i :: 0 <= i < |rows| && rows[i].editMode
  }

  /** `itemList.querySelector(".edit-mode")`: the first marked row, or -1
      for null. */
  function MarkedIndex(rows: seq<Row>): (r: int)
    ensures r == -1 <==> !SomeMarked(rows)
    ensures r != -1 ==> 0 <= r < |rows| && rows[r].editMode
    ensures r != -1 ==> forall k :: 0 <= k < r ==> !rows[k].editMode
  {
    if rows == [] then -1
    else if rows[0].editMode then 0
    else
      var r := MarkedIndex(rows[1..]);
      if r == -1 then -1 else r + 1
  }

  /** The per-row test of filterItems: the lower-cased text contains the
      lower-cased filter (`indexOf` finds it). */
  function ItemMatches(itemText: string, filterText: string): (b: bool)
    ensures b <==> Contains(Lower(itemText), Lower(filterText))
  {
    IndexOf(Lower(itemText), Lower(filterText)) != -1
  }

  /** The empty filter shows every row. */
  lemma EmptyFilterMatchesAll(itemText: string)
    ensures ItemMatches(itemText, "")
  {
    assert Lower("") == "";
    IndexOfEmpty(Lower(itemText));
  }

  /** The test ignores the case of the filter and of the row text. */
  lemma MatchIgnoresCase(itemText: string, filterText: string)
    ensures ItemMatches(itemText, filterText) == ItemMatches(itemText, Lower(filterText))
    ensures ItemMatches(itemText, filterText) == ItemMatches(Lower(itemText), filterText)
  {
    LowerIdempotent(filterText);
    LowerIdempotent(itemText);
  }

  /** A row whose text contains the filter verbatim is shown. */
  lemma SubstringMatches(itemText: string, filterText: string)
    requires Contains(itemText, filterText)
    ensures ItemMatches(itemText, filterText)
  {
    ContainsLower(itemText, filterText);
  }

  lemma TextsAppend(rows: seq<Row>, row: Row)
    ensures Texts(rows + [row]) == Texts(rows) + [row.text]
  {
    assert forall k :: 0 <= k < |rows| ==> (rows + [row])[k] == rows[k];
  }

  lemma TextsRemoveAt(rows: seq<Row>, i: nat)
    requires i < |rows|
    ensures Texts(RemoveAt(rows, i)) == Texts(rows)[..i] + Texts(rows)[i + 1..]
  {
  }

  /** While the stored list has no duplicates and the rows mirror it,
      removing one row and every stored copy of its text keeps the mirror. */
  lemma RemoveRowKeepsMirror(rows: seq<Row>, items: seq<string>, i: nat)
    requires Texts(rows) == items && NoDup(items) && i < |rows|
    ensures Texts(RemoveAt(rows, i)) == Without(items, rows[i].text)
    ensures NoDup(Without(items, rows[i].text))
  {
    TextsRemoveAt(rows, i);
    WithoutUnique(items, i);
    NoDupWithout(items, rows[i].text);
  }

  /** The sharp edge of removal: when two rows show the same text, removing
      one of them deletes every stored copy, so the other row is still on the
      page but no longer in storage. */
  lemma RemoveDuplicateRowDesyncs(rows: seq<Row>, items: seq<string>, i: nat, j: nat)
    requires Texts(rows) == items && i < |rows| && j < |rows| && i != j
    requires rows[i].text == rows[j].text
    ensures rows[i].text in Texts(RemoveAt(rows, i))
    ensures rows[i].text !in Without(items, rows[i].text)
    ensures Texts(RemoveAt(rows, i)) != Without(items, rows[i].text)
  {
    var r := RemoveAt(rows, i);
    var j' := if j < i then j else j - 1;
    assert r[j'] == rows[j];
    assert Texts(r)[j'] == rows[i].text;
  }

  /** The sharp edge of editing: the edit path skips the duplicate check, so
      the stored list stays free of duplicates exactly when the new text is
      the edited one or was not stored before. */
  lemma EditPathDuplicates(items: seq<string>, edited: string, newItem: string)
    requires NoDup(items)
    ensures NoDup(Without(items, edited) + [newItem]) <==> newItem == edited || newItem !in items
  {
    NoDupWithout(items, edited);
    NoDupAppend(Without(items, edited), newItem);
    WithoutMembers(items, edited, newItem);
  }

  class Page {
    /** The `li` children of the item list, in order. */
    var rows: seq<Row>
    /** The global `editing` flag. */
    var editing: bool
    /** The value of the item input. */
    var input: string
    /** Whether the clear button and the filter input are displayed. */
    var controlsVisible: bool
    /** Local storage. */
    const store: ItemStore

    /** The state every handler keeps: at most one row is marked, and while
        editing that row exists. */
    ghost predicate Valid()
      reads this
    {
      AtMostOneMarked(rows) && (editing ==> SomeMarked(rows))
    }

    /** The rows show the stored list, text for text and in order. */
    ghost predicate Mirrored()
      reads this, store
    {
      Texts(rows) == store.GetItemsFromStorage()
    }

    /** The stored list holds no name twice. */
    ghost predicate Unique()
      reads store
    {
      NoDup(store.GetItemsFromStorage())
    }

    /** init(): the script starts with an empty item list and `editing`
        false, then runs resetUI. */
    constructor Init(store: ItemStore)
      ensures Valid() && this.store == store
      ensures rows == [] && !editing && input == "" && !controlsVisible
    {
      this.store := store;
      rows := [];
      editing := false;
      new;
      ResetUI();
    }

    /** resetUI: clear the input, show the controls exactly when there is at
        least one row (hidden rows count), and leave edit mode. Marks on the
        rows are left as they are. */
    method ResetUI()
      requires AtMostOneMarked(rows)
      modifies this
      ensures Valid()
      ensures rows == old(rows) && input == "" && !editing
      ensures controlsVisible <==> |rows| > 0
    {
      input := "";
      var count := |rows|;
      if count == 0 {
        controlsVisible := false;
      } else {
        controlsVisible := true;
      }
      editing := false;
    }

    /** displayItems: append one row per stored item, then resetUI. */
    method DisplayItems()
      requires Valid()
      modifies this
      ensures Valid()
      ensures rows == old(rows) + NewRows(store.GetItemsFromStorage())
      ensures Texts(rows) == Texts(old(rows)) + store.GetItemsFromStorage()
      ensures old(rows) == [] ==> Mirrored()
      ensures !editing && input == "" && (controlsVisible <==> |rows| > 0)
    {
      var itemsFromStorage := store.GetItemsFromStorage();
      var k := 0;
      while k < |itemsFromStorage|
        invariant 0 <= k <= |itemsFromStorage|
        invariant rows == old(rows) + NewRows(itemsFromStorage[..k])
      {
        assert NewRows(itemsFromStorage[..k + 1]) == NewRows(itemsFromStorage[..k]) + [NewRow(itemsFromStorage[k])];
        rows := rows + [NewRow(itemsFromStorage[k])];
        k := k + 1;
      }
      assert itemsFromStorage[..k] == itemsFromStorage;
      ResetUI();
      assert Texts(rows) == Texts(old(rows)) + itemsFromStorage;
    }

    /** onAddItemSubmit: reject empty input; outside edit mode reject a name
        already stored; in edit mode drop the marked row and every stored copy
        of its text instead. Then append the input as a new row and as a new
        stored entry, and resetUI. */
    method OnAddItemSubmit() returns (outcome: SubmitOutcome)
      requires Valid()
      modifies this, store
      ensures Valid()
      ensures old(input) == "" ==> outcome == EmptyItem
      ensures old(input) != "" && !old(editing) && old(store.CheckIfItemExists(input)) ==>
                outcome == AlreadyExists(old(input))
      ensures outcome == Added <==>
                old(input) != "" && (old(editing) || !old(store.CheckIfItemExists(input)))
      ensures outcome != Added ==> unchanged(this) && unchanged(store)
      ensures outcome == Added && !old(editing) ==>
                && rows == old(rows) + [NewRow(old(input))]
                && store.GetItemsFromStorage() == old(store.GetItemsFromStorage()) + [old(input)]
      ensures outcome == Added && old(editing) ==>
                && 0 <= MarkedIndex(old(rows)) < |old(rows)|
                && rows == RemoveAt(old(rows), MarkedIndex(old(rows))) + [NewRow(old(input))]
                && store.GetItemsFromStorage() ==
                   Without(old(store.GetItemsFromStorage()), old(rows)[MarkedIndex(old(rows))].text) + [old(input)]
                && !SomeMarked(rows)
      ensures outcome == Added ==> store.entries == old(store.entries)[ITEMS_KEY := store.GetItemsFromStorage()]
      ensures outcome == Added ==> !editing && input == "" && (controlsVisible <==> |rows| > 0)
      ensures old(Mirrored() && Unique()) ==> Mirrored()
      ensures old(Mirrored() && Unique()) && !old(editing) ==> Unique()
      ensures old(Mirrored() && Unique()) && old(editing) && outcome == Added ==>
                (Unique() <==> old(input) == old(rows)[MarkedIndex(old(rows))].text
                               || old(input) !in old(store.GetItemsFromStorage()))
    {
      var newItem := input;
      if newItem == "" {
        return EmptyItem;
      }
      ghost var items := store.GetItemsFromStorage();
      ghost var before := rows;
      if editing {
        ghost var editedText := rows[MarkedIndex(rows)].text;
        RemoveEditedItem();
        if NoDup(items) {
          EditPathDuplicates(items, editedText, newItem);
        }
      } else {
        if store.CheckIfItemExists(newItem) {
          return AlreadyExists(newItem);
        }
        if NoDup(items) {
          NoDupAppend(items, newItem);
        }
      }
      AddItemToDOM(newItem);
      store.AddItemToStorage(newItem);
      ResetUI();
      input := "";
      outcome := Added;
    }

    /** The edit branch of onAddItemSubmit: drop every stored copy of the
        marked row's text, then remove that row (which takes its mark with it). */
    method RemoveEditedItem()
      requires Valid() && editing
      modifies this`rows, store
      ensures 0 <= MarkedIndex(old(rows)) < |old(rows)|
      ensures rows == RemoveAt(old(rows), MarkedIndex(old(rows)))
      ensures store.GetItemsFromStorage() ==
                Without(old(store.GetItemsFromStorage()), old(rows)[MarkedIndex(old(rows))].text)
      ensures store.entries == old(store.entries)[ITEMS_KEY := store.GetItemsFromStorage()]
      ensures AtMostOneMarked(rows) && !SomeMarked(rows)
      ensures old(Mirrored() && Unique()) ==> Mirrored() && Unique()
    {
      ghost var items := store.GetItemsFromStorage();
      ghost var before := rows;
      var editedItem := MarkedIndex(rows);
      var editedText := rows[editedItem].text;
      store.RemoveItemFromStorage(editedText);
      rows := RemoveAt(rows, editedItem);
      if Texts(before) == items && NoDup(items) {
        RemoveRowKeepsMirror(before, items, editedItem);
      }
    }

    /** addItemToDOM: append a new, shown, unmarked row for the item. */
    method AddItemToDOM(newItem: string)
      modifies this`rows
      ensures rows == old(rows) + [NewRow(newItem)]
      ensures Texts(rows) == Texts(old(rows)) + [newItem]
      ensures AtMostOneMarked(old(rows)) ==> AtMostOneMarked(rows)
      ensures SomeMarked(rows) <==> SomeMarked(old(rows))
    {
      TextsAppend(rows, NewRow(newItem));
      rows := rows + [NewRow(newItem)];
      assert forall k :: 0 <= k < |old(rows)| ==> rows[k] == old(rows)[k];
    }

    /** setItemToEdit: set `editing`, take the mark off every row, mark the
        clicked row and copy its text into the input. */
    method SetItemToEdit(i: nat)
      requires Valid() && i < |rows|
      modifies this
      ensures Valid() && editing && input == old(rows[i].text)
      ensures |rows| == |old(rows)|
      ensures forall k :: 0 <= k < |rows| ==> rows[k] == old(rows[k]).(editMode := k == i)
      ensures MarkedIndex(rows) == i
      ensures controlsVisible == old(controlsVisible)
      ensures old(Mirrored()) ==> Mirrored()
    {
      editing := true;
      var k := 0;
      while k < |rows|
        invariant 0 <= k <= |rows| == |old(rows)|
        invariant forall m :: 0 <= m < |rows| ==>
                    rows[m] == if m < k then old(rows[m]).(editMode := false) else old(rows[m])
        invariant editing && controlsVisible == old(controlsVisible)
      {
        rows := rows[k := rows[k].(editMode := false)];
        k := k + 1;
      }
      rows := rows[i := rows[i].(editMode := true)];
      input := rows[i].text;
      assert Texts(rows) == Texts(old(rows));
    }

    /** removeItem: when the user confirms, remove the row, drop every stored
        entry equal to its text, and resetUI; otherwise nothing happens. */
    method RemoveItem(i: nat, confirmed: bool)
      requires Valid() && i < |rows|
      modifies this, store
      ensures Valid()
      ensures !confirmed ==> unchanged(this) && unchanged(store)
      ensures confirmed ==>
                && rows == RemoveAt(old(rows), i)
                && store.GetItemsFromStorage() == Without(old(store.GetItemsFromStorage()), old(rows[i].text))
                && store.entries == old(store.entries)[ITEMS_KEY := store.GetItemsFromStorage()]
                && !editing && input == "" && (controlsVisible <==> |rows| > 0)
      ensures old(Mirrored() && Unique()) ==> Mirrored() && Unique()
    {
      if confirmed {
        ghost var items := store.GetItemsFromStorage();
        ghost var before := rows;
        var itemText := rows[i].text;
        rows := RemoveAt(rows, i);
        store.RemoveItemFromStorage(itemText);
        if Texts(before) == items && NoDup(items) {
          RemoveRowKeepsMirror(before, items, i);
        }
        ResetUI();
      }
    }

    /** clearItems: remove the first row until there is none, delete the
        stored list, and resetUI. */
    method ClearItems()
      requires Valid()
      modifies this, store
      ensures Valid()
      ensures rows == [] && !editing && input == "" && !controlsVisible
      ensures store.entries == old(store.entries) - {ITEMS_KEY}
      ensures store.GetItemsFromStorage() == []
      ensures Mirrored() && Unique()
    {
      while |rows| > 0
        invariant |rows| <= |old(rows)|
        invariant rows == old(rows)[|old(rows)| - |rows|..]
        invariant unchanged(store)
        decreases |rows|
      {
        rows := rows[1..];
      }
      store.RemoveItems();
      ResetUI();
    }

    /** filterItems: show exactly the rows whose lower-cased text contains
        the lower-cased filter text, and hide the others. */
    method FilterItems(filterText: string)
      requires Valid()
      modifies this
      ensures Valid()
      ensures |rows| == |old(rows)|
      ensures forall k :: 0 <= k < |rows| ==>
                rows[k] == old(rows[k]).(visible := ItemMatches(old(rows[k]).text, filterText))
      ensures forall k :: 0 <= k < |rows| ==>
                (rows[k].visible <==> Contains(Lower(rows[k].text), Lower(filterText)))
      ensures editing == old(editing) && input == old(input) && controlsVisible == old(controlsVisible)
      ensures old(Mirrored()) ==> Mirrored()
    {
      var lowered := Lower(filterText);
      var k := 0;
      while k < |rows|
        invariant 0 <= k <= |rows| == |old(rows)|
        invariant forall m :: 0 <= m < |rows| ==>
                    rows[m] == if m < k then old(rows[m]).(visible := ItemMatches(old(rows[m]).text, filterText))
                               else old(rows[m])
        invariant editing == old(editing) && input == old(input) && controlsVisible == old(controlsVisible)
      {
        var itemName := Lower(rows[k].text);
        if IndexOf(itemName, lowered) != -1 {
          rows := rows[k := rows[k].(visible := true)];
        } else {
          rows := rows[k := rows[k].(visible := false)];
        }
        k := k + 1;
      }
      assert Texts(rows) == Texts(old(rows));
      if old(editing) {
        var m :| 0 <= m < |old(rows)| && old(rows[m]).editMode;
        assert rows[m].editMode;
      }
    }
  }
}
