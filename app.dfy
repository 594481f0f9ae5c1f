/** The list component as the script runs it: one object holding the storage
    slot, the rendered rows, the input field, the global `isEditMode` flag and
    the display state of the Clear All button and the filter field. Every
    handler updates these fields in place and is proved to leave exactly the
    page its function in `Screen` describes. */
module App {
  import opened Strings
  import opened Storage
  import opened Screen

  class ShoppingList {
    var slot: Slot          // local storage under the key 'items'
    var rows: seq<Row>      // the `li` children of the item list
    var input: string       // the value of the item input
    var isEditMode: bool
    var clearShown: bool    // the Clear All button's display
    var filterShown: bool   // the filter field's display

    /** The whole state as a page value. */
    function View(): Page
      reads this
    {
      Page(slot, rows, input, isEditMode, clearShown, filterShown)
    }

    /** The script's top level: the globals, then `init`'s `checkUI`. */
    constructor (stored: Slot)
      ensures View() == Initial(stored)
    {
      slot := stored;
      rows := [];
      input := "";
      isEditMode := false;
      clearShown, filterShown := false, false;
    }

    method CheckUI()
      modifies this
      ensures View() == Screen.CheckUI(old(View()))
    {
      if |rows| == 0 {
        clearShown := false;
        filterShown := false;
      } else {
        clearShown := true;
        filterShown := true;
      }
    }

    /** `addItemToDOM`: a new, displayed row at the end of the list. */
    method AddItemToDOM(item: string)
      modifies this
      ensures View() == old(View()).(rows := old(rows) + [NewRow(item)])
    {
      rows := rows + [NewRow(item)];
    }

    /** `addItemToStorage`: read the list, push `item`, write it back. */
    method AddItemToStorage(item: string)
      modifies this
      ensures View() == old(View()).(slot := Stored(Load(old(slot)) + [item]))
      ensures Load(slot) == Load(old(slot)) + [item]
    {
      var items := Load(slot);
      items := items + [item];
      slot := Stored(items);
    }

    /** `removeItemFromStorage`: read the list, filter out `item`, write it back. */
    method RemoveItemFromStorage(item: string)
      modifies this
      ensures View() == old(View()).(slot := Stored(Without(Load(old(slot)), item)))
      ensures item !in Load(slot)
    {
      var items := Load(slot);
      items := Without(items, item);
      slot := Stored(items);
    }

    /** `displayItems`: one row per stored name, in stored order, then `checkUI`. */
    method DisplayItems()
      modifies this
      ensures View() == Display(old(View()))
    {
      var items := Load(slot);
      var i := 0;
      while i < |items|
        invariant 0 <= i <= |items|
        invariant View() == old(View()).(rows := old(rows) + Render(items[..i]))
      {
        AddItemToDOM(items[i]);
        assert Render(items[..i + 1]) == Render(items[..i]) + [NewRow(items[i])];
        i := i + 1;
      }
      assert items[..i] == items;
      CheckUI();
    }

    /** `onAddItemSubmit`: reject empty input, otherwise add the item to the
        rows and to storage and clear the input. */
    method OnAddItemSubmit()
      modifies this
      ensures View() == Submit(old(View()))
    {
      var newItem := input;
      if newItem == "" {
        return;
      }
      AddItemToDOM(newItem);
      AddItemToStorage(newItem);
      input := "";
      CheckUI();
    }

    /** `onClickItem`: a click on the remove icon of the `k`-th row removes it
        (then `checkUI`); any other click on it selects it for edit. */
    method OnClickItem(k: nat, onRemoveIcon: bool, confirmed: bool)
      requires k < |rows|
      modifies this
      ensures View() == Click(old(View()), k, onRemoveIcon, confirmed)
    {
      if onRemoveIcon {
        RemoveItem(k, confirmed);
        CheckUI();
      } else {
        SetItemToEdit(k);
      }
    }

    /** `setItemToEdit`: enter edit mode, clear every row's edit mark, mark
        the `k`-th row and copy its text into the input. */
    method SetItemToEdit(k: nat)
      requires k < |rows|
      modifies this
      ensures View() == SetToEdit(old(View()), k)
    {
      isEditMode := true;
      var i := 0;
      while i < |rows|
        invariant 0 <= i <= |rows| == |old(rows)|
        invariant forall j :: 0 <= j < i ==> rows[j] == old(rows)[j].(editing := false)
        invariant forall j :: i <= j < |rows| ==> rows[j] == old(rows)[j]
        invariant slot == old(slot) && input == old(input) && isEditMode
        invariant clearShown == old(clearShown) && filterShown == old(filterShown)
      {
        rows := rows[i := rows[i].(editing := false)];
        i := i + 1;
      }
      rows := rows[k := rows[k].(editing := true)];
      input := rows[k].text;
    }

    /** `removeItem`: when confirmed, remove the `k`-th row, then every stored
        entry equal to its text, then `checkUI`. */
    method RemoveItem(k: nat, confirmed: bool)
      requires k < |rows|
      modifies this
      ensures View() == Remove(old(View()), k, confirmed)
    {
      if confirmed {
        var item := rows[k];
        rows := rows[..k] + rows[k + 1..];
        RemoveItemFromStorage(item.text);
        CheckUI();
      }
    }

    /** `clearItems`: when confirmed, remove the first row until none is left,
        delete the key, then `checkUI`. */
    method ClearItems(confirmed: bool)
      modifies this
      ensures View() == Clear(old(View()), confirmed)
    {
      if confirmed {
        while |rows| > 0
          invariant View() == old(View()).(rows := rows)
          decreases |rows|
        {
          rows := rows[1..];
        }
        slot := Absent;
        CheckUI();
      }
    }

    /** `filterItems`: lower-case the query once, then display each row whose
        lower-cased text contains it and hide the others. */
    method FilterItems(query: string)
      modifies this
      ensures View() == Filter(old(View()), query)
    {
      var text := ToLower(query);
      var i := 0;
      while i < |rows|
        invariant 0 <= i <= |rows| == |old(rows)|
        invariant forall j :: 0 <= j < i ==> rows[j] == FilterRow(old(rows)[j], query)
        invariant forall j :: i <= j < |rows| ==> rows[j] == old(rows)[j]
        invariant View() == old(View()).(rows := rows)
      {
        var itemName := ToLower(rows[i].text);
        if IndexOf(itemName, text) != -1 {
          rows := rows[i := rows[i].(shown := true)];
        } else {
          rows := rows[i := rows[i].(shown := false)];
        }
        i := i + 1;
      }
    }
  }
}
