/** Walkthroughs of the page on concrete input: each method calls the
    handlers in order, starting from an empty local storage, and its asserts
    state what the handlers' contracts give. */
module Scenarios {
  import opened Storage
  import opened ShoppingList

  /** Adding one item shows one row and the controls. */
  method AddOne() {
    var store := new ItemStore.Empty();
    var page := new Page.Init(store);
    page.DisplayItems();
    page.input := "Milk";
    var outcome := page.OnAddItemSubmit();
    assert outcome == Added;
    assert store.GetItemsFromStorage() == ["Milk"];
    assert |page.rows| == 1 && page.controlsVisible;
  }

  /** Editing "Milk" into "Oat Milk" drops it and appends the new text. */
  method EditOne() {
    var store := new ItemStore.Empty();
    var page := new Page.Init(store);
    page.input := "Milk";
    var outcome := page.OnAddItemSubmit();
    page.input := "Eggs";
    outcome := page.OnAddItemSubmit();
    assert store.GetItemsFromStorage() == ["Milk", "Eggs"];
    page.SetItemToEdit(0);
    assert page.input == "Milk";
    page.input := "Oat Milk";
    outcome := page.OnAddItemSubmit();
    assert outcome == Added && !page.editing;
    assert store.GetItemsFromStorage() == ["Eggs", "Oat Milk"];
    assert Texts(page.rows) == ["Eggs", "Oat Milk"];
  }

  /** Clearing empties the rows and the storage and hides the controls. */
  method ClearAll() {
    var store := new ItemStore.Empty();
    var page := new Page.Init(store);
    page.input := "Milk";
    var outcome := page.OnAddItemSubmit();
    page.ClearItems();
    assert store.GetItemsFromStorage() == [] && page.rows == [] && !page.controlsVisible;
  }

  /** A second "Milk" is refused and the stored list is unchanged. */
  method AddTwice() {
    var store := new ItemStore.Empty();
    var page := new Page.Init(store);
    page.input := "Milk";
    var outcome := page.OnAddItemSubmit();
    page.input := "Milk";
    outcome := page.OnAddItemSubmit();
    assert outcome == AlreadyExists("Milk");
    assert store.GetItemsFromStorage() == ["Milk"];
  }

  /** Editing "Eggs" into "Milk" stores "Milk" twice; removing one of the two
      rows then deletes both stored copies while one row stays on the page. */
  method EditIntoDuplicate() {
    var store := new ItemStore.Empty();
    var page := new Page.Init(store);
    page.input := "Milk";
    var outcome := page.OnAddItemSubmit();
    page.input := "Eggs";
    outcome := page.OnAddItemSubmit();
    assert store.GetItemsFromStorage() == ["Milk", "Eggs"];
    assert page.rows == [NewRow("Milk"), NewRow("Eggs")];
    page.SetItemToEdit(1);
    assert page.rows == [NewRow("Milk"), NewRow("Eggs").(editMode := true)];
    page.input := "Milk";
    outcome := page.OnAddItemSubmit();
    assert outcome == Added;
    assert store.GetItemsFromStorage() == ["Milk", "Milk"];
    assert page.rows == [NewRow("Milk"), NewRow("Milk")];
    page.RemoveItem(0, true);
    assert Texts(page.rows) == ["Milk"];
    assert store.GetItemsFromStorage() == [];
  }

  /** Filtering with "MI" shows "Milk" and hides "Eggs". */
  method FilterOne() {
    var store := new ItemStore.Empty();
    var page := new Page.Init(store);
    page.input := "Milk";
    var outcome := page.OnAddItemSubmit();
    page.input := "Eggs";
    outcome := page.OnAddItemSubmit();
    page.FilterItems("MI");
    assert page.rows[0].visible;
    assert !page.rows[1].visible;
  }
}
