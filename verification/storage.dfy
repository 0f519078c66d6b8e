/** The item list kept in the browser's local storage. The store is a map
    from keys to the list each key holds (the JSON text under the key is
    represented by the list it encodes); the shopping list uses one key. */
module Storage {
  import opened Lists

  /** The one key the shopping list persists its items under. */
  const ITEMS_KEY: string := "items"

  class ItemStore {
    /** The contents of local storage, key by key. */
    var entries: map<string, seq<string>>

    /** An empty local storage. */
    constructor Empty()
      ensures entries == map[]
    {
      entries := map[];
    }

    /** getItemsFromStorage: the stored list, or the empty list when the
        key has never been written or has been removed. */
    function GetItemsFromStorage(): (items: seq<string>)
      reads this
      ensures ITEMS_KEY !in entries ==> items == []
      ensures ITEMS_KEY in entries ==> items == entries[ITEMS_KEY]
    {
      if ITEMS_KEY in entries then entries[ITEMS_KEY] else []
    }

    /** checkIfItemExists: exact, case-sensitive membership in the stored list. */
    function CheckIfItemExists(item: string): (b: bool)
      reads this
      ensures b <==> exists k :: 0 <= k < |GetItemsFromStorage()| && GetItemsFromStorage()[k] == item
    {
      Includes(GetItemsFromStorage(), item)
    }

    /** addItemToStorage: read the list, push the item, write the list back. */
    method AddItemToStorage(item: string)
      modifies this
      ensures entries == old(entries)[ITEMS_KEY := old(GetItemsFromStorage()) + [item]]
      ensures GetItemsFromStorage() == old(GetItemsFromStorage()) + [item]
      ensures CheckIfItemExists(item)
    {
      var items := GetItemsFromStorage();
      items := items + [item];
      entries := entries[ITEMS_KEY := items];
      assert GetItemsFromStorage()[|items| - 1] == item;
    }

    /** removeItemFromStorage: read the list, drop every entry equal to the
        name, write the list back (the key is written even when it was absent). */
    method RemoveItemFromStorage(itemName: string)
      modifies this
      ensures entries == old(entries)[ITEMS_KEY := Without(old(GetItemsFromStorage()), itemName)]
      ensures GetItemsFromStorage() == Without(old(GetItemsFromStorage()), itemName)
      ensures !CheckIfItemExists(itemName)
    {
      var items := GetItemsFromStorage();
      items := Without(items, itemName);
      entries := entries[ITEMS_KEY := items];
    }

    /** localStorage.removeItem for the items key: the key is deleted and
        every other key is kept. */
    method RemoveItems()
      modifies this
      ensures entries == old(entries) - {ITEMS_KEY}
      ensures ITEMS_KEY !in entries && GetItemsFromStorage() == []
    {
      entries := entries - {ITEMS_KEY};
    }
  }
}
