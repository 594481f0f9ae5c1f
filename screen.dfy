/** The page as a value: the storage slot, the rendered rows of the item list,
    the input field, the edit-mode flag and the visibility of the Clear All
    button and the filter field. Each event handler of the list has a function
    here giving the page it leaves behind; the lemmas state what the handlers
    promise and which invariant they keep. */
module Screen {
  import opened Strings
  import opened Storage

  /** One `li` of the item list: its text, whether it is displayed (the
      filter's `style.display`) and whether it carries the `edit-mode` class. */
  datatype Row = Row(text: string, shown: bool, editing: bool)

  datatype Page = Page(
    slot: Slot,
    rows: seq<Row>,
    input: string,
    editMode: bool,
    clearShown: bool,
    filterShown: bool)

  /** The texts of the rendered rows, in display order. */
  function Texts(rows: seq<Row>): seq<string>
  {
    seq(|rows|, i requires 0 <= i < |rows| => rows[i].text)
  }

  /** The rendered list shows exactly what storage holds. */
  ghost predicate Synced(p: Page)
  {
    Texts(p.rows) == Load(p.slot)
  }

  /** The row `addItemToDOM` appends: displayed and not marked for edit. */
  function NewRow(item: string): Row
  {
    Row(item, true, false)
  }

  /** The rows rendered for a list of names, one per name, in order. */
  function Render(items: seq<string>): seq<Row>
  {
    seq(|items|, i requires 0 <= i < |items| => NewRow(items[i]))
  }

  /** `checkUI`: both controls displayed iff at least one row is rendered. */
  function CheckUI(p: Page): (r: Page)
    ensures r.clearShown <==> |r.rows| > 0
    ensures r.filterShown <==> |r.rows| > 0
    ensures r.(clearShown := p.clearShown, filterShown := p.filterShown) == p
  {
    p.(clearShown := |p.rows| > 0, filterShown := |p.rows| > 0)
  }

  /** The page when the script starts: no rows, empty input, add mode, and the
      controls set by the `checkUI` call of `init`. */
  function Initial(slot: Slot): (r: Page)
    ensures r.slot == slot && r.rows == [] && r.input == ""
    ensures !r.editMode && !r.clearShown && !r.filterShown
  {
    CheckUI(Page(slot, [], "", false, false, false))
  }

  /** `displayItems`: one row appended per stored name, then `checkUI`. */
  function Display(p: Page): (r: Page)
    ensures |r.rows| == |p.rows| + |Load(p.slot)| && r.rows[..|p.rows|] == p.rows
    ensures Texts(r.rows) == Texts(p.rows) + Load(p.slot)
    ensures forall i :: |p.rows| <= i < |r.rows| ==> r.rows[i].shown && !r.rows[i].editing
    ensures r.clearShown <==> |r.rows| > 0
    ensures r.filterShown <==> |r.rows| > 0
    ensures r.slot == p.slot && r.input == p.input && r.editMode == p.editMode
  {
    CheckUI(p.(rows := p.rows + Render(Load(p.slot))))
  }

  /** A page load: the script starts over on whatever storage holds. */
  function Reload(p: Page): (r: Page)
    ensures Texts(r.rows) == Load(p.slot) && Synced(r)
    ensures r.input == "" && !r.editMode
  {
    Display(Initial(p.slot))
  }

  /** `onAddItemSubmit`: empty input is rejected (the alert changes nothing);
      otherwise the input is appended to the rows and to storage and cleared.
      The edit-mode flag is not consulted. */
  function Submit(p: Page): (r: Page)
    ensures r.editMode == p.editMode
    ensures p.input == "" ==> r == p
    ensures p.input != "" ==>
      && |r.rows| == |p.rows| + 1
      && r.rows[..|p.rows|] == p.rows
      && r.rows[|p.rows|] == NewRow(p.input)
      && Load(r.slot) == Load(p.slot) + [p.input]
      && r.input == ""
  {
    if p.input == "" then p
    else CheckUI(p.(rows := p.rows + [NewRow(p.input)],
                    slot := Stored(Load(p.slot) + [p.input]),
                    input := ""))
  }

  /** `removeItem` on the `k`-th row: when confirmed, that one row is removed
      and every stored entry equal to its text is filtered out. */
  function Remove(p: Page, k: nat, confirmed: bool): (r: Page)
    requires k < |p.rows|
    ensures !confirmed ==> r == p
    ensures confirmed ==>
      && |r.rows| == |p.rows| - 1
      && (forall i :: 0 <= i < k ==> r.rows[i] == p.rows[i])
      && (forall i :: k <= i < |r.rows| ==> r.rows[i] == p.rows[i + 1])
      && r.slot == Stored(Without(Load(p.slot), p.rows[k].text))
      && p.rows[k].text !in Load(r.slot)
      && (r.clearShown <==> |p.rows| > 1) && (r.filterShown <==> |p.rows| > 1)
      && r.input == p.input && r.editMode == p.editMode
  {
    if !confirmed then p
    else CheckUI(p.(rows := p.rows[..k] + p.rows[k + 1..],
                    slot := Stored(Without(Load(p.slot), p.rows[k].text))))
  }

  /** `setItemToEdit` on the `k`-th row. */
  function SetToEdit(p: Page, k: nat): (r: Page)
    requires k < |p.rows|
    ensures r.editMode && r.input == p.rows[k].text
    ensures |r.rows| == |p.rows|
    ensures forall i :: 0 <= i < |p.rows| ==>
      r.rows[i] == p.rows[i].(editing := i == k)
    ensures r.(rows := p.rows, input := p.input, editMode := p.editMode) == p
  {
    p.(editMode := true,
       rows := seq(|p.rows|, i requires 0 <= i < |p.rows| => p.rows[i].(editing := i == k)),
       input := p.rows[k].text)
  }

  /** `onClickItem`, with the clicked element already resolved to the `k`-th
      row and to whether the click landed on its remove icon. */
  function Click(p: Page, k: nat, onRemoveIcon: bool, confirmed: bool): (r: Page)
    requires k < |p.rows|
    ensures onRemoveIcon ==>
      && r.rows == Remove(p, k, confirmed).rows
      && r.slot == Remove(p, k, confirmed).slot
      && (r.clearShown <==> |r.rows| > 0) && (r.filterShown <==> |r.rows| > 0)
      && r.input == p.input && r.editMode == p.editMode
    ensures !onRemoveIcon ==>
      && r.editMode && r.input == p.rows[k].text
      && |r.rows| == |p.rows|
      && (forall i :: 0 <= i < |p.rows| ==> r.rows[i] == p.rows[i].(editing := i == k))
      && r.slot == p.slot && r.clearShown == p.clearShown && r.filterShown == p.filterShown
  {
    if onRemoveIcon then CheckUI(Remove(p, k, confirmed)) else SetToEdit(p, k)
  }

  /** `clearItems`: when confirmed, every row is removed and the key is deleted. */
  function Clear(p: Page, confirmed: bool): (r: Page)
    ensures !confirmed ==> r == p
    ensures confirmed ==>
      && r.rows == [] && r.slot == Absent && Load(r.slot) == []
      && !r.clearShown && !r.filterShown
      && r.input == p.input && r.editMode == p.editMode
  {
    if !confirmed then p
    else CheckUI(p.(rows := [], slot := Absent))
  }

  /** The test of `filterItems`: the lower-cased query occurs in the
      lower-cased row text. */
  function Matches(text: string, query: string): (r: bool)
    ensures r <==> Contains(ToLower(text), ToLower(query))
  {
    IndexOf(ToLower(text), ToLower(query)) != -1
  }

  /** One row after `filterItems`. */
  function FilterRow(row: Row, query: string): Row
  {
    row.(shown := Matches(row.text, query))
  }

  /** `filterItems`: every row displayed or hidden by the match test. */
  function Filter(p: Page, query: string): (r: Page)
    ensures |r.rows| == |p.rows|
    ensures forall i :: 0 <= i < |p.rows| ==>
      && (r.rows[i].shown <==> Matches(p.rows[i].text, query))
      && r.rows[i].text == p.rows[i].text
      && r.rows[i].editing == p.rows[i].editing
    ensures r.(rows := p.rows) == p
  {
    p.(rows := seq(|p.rows|, i requires 0 <= i < |p.rows| => FilterRow(p.rows[i], query)))
  }

  // ---------------------------------------------------------------------------
  // What the handlers promise

  lemma TextsAppend(rows: seq<Row>, more: seq<Row>)
    ensures Texts(rows + more) == Texts(rows) + Texts(more)
  {
  }

  /** Rendering a list and reading the texts back gives that list. */
  lemma TextsOfRender(items: seq<string>)
    ensures Texts(Render(items)) == items
  {
  }

  /** Loading the page on an empty list shows exactly the stored names, all
      displayed, none marked for edit, and the page is then in sync. */
  lemma DisplayRendersStorage(p: Page)
    requires p.rows == []
    ensures Texts(Display(p).rows) == Load(p.slot)
    ensures forall i :: 0 <= i < |Display(p).rows| ==>
      Display(p).rows[i].shown && !Display(p).rows[i].editing
    ensures Synced(Display(p))
    ensures Display(p).clearShown <==> Load(p.slot) != []
  {
    assert Display(p).rows == Render(Load(p.slot));
  }

  /** Submitting an empty input changes nothing. */
  lemma SubmitEmptyIsNoOp(p: Page)
    requires p.input == ""
    ensures Submit(p) == p
  {
  }

  /** Submitting a non-empty input appends exactly one row and one stored
      entry with that text, clears the input, shows the controls and keeps
      every earlier row and entry. */
  lemma SubmitAppends(p: Page)
    requires p.input != ""
    ensures Texts(Submit(p).rows) == Texts(p.rows) + [p.input]
    ensures Submit(p).rows[..|p.rows|] == p.rows
    ensures Submit(p).rows[|p.rows|] == NewRow(p.input)
    ensures Load(Submit(p).slot) == Load(p.slot) + [p.input]
    ensures Submit(p).input == ""
    ensures Submit(p).editMode == p.editMode
    ensures Submit(p).clearShown && Submit(p).filterShown
  {
    TextsAppend(p.rows, [NewRow(p.input)]);
  }

  /** The edit-mode flag makes no difference to a submit: it neither reads nor
      resets it. */
  lemma SubmitIgnoresEditMode(p: Page, mode: bool)
    ensures Submit(p.(editMode := mode)) == Submit(p).(editMode := mode)
  {
  }

  /** A submit keeps the page in sync, duplicates or not. */
  lemma SubmitKeepsSynced(p: Page)
    requires Synced(p)
    ensures Synced(Submit(p))
  {
    if p.input != "" {
      SubmitAppends(p);
    }
  }

  /** After a submit and a page load, the rows are the earlier stored names
      followed by the submitted one. */
  lemma ReloadAfterSubmit(p: Page)
    requires p.input != ""
    ensures Texts(Reload(Submit(p)).rows) == Load(p.slot) + [p.input]
  {
    DisplayRendersStorage(Initial(Submit(p).slot));
  }

  /** A declined removal changes nothing; a confirmed one removes exactly the
      clicked row, and storage keeps every other entry, in order, while no
      entry equal to the row's text is left. */
  lemma RemoveDropsRowAndEveryCopy(p: Page, k: nat, confirmed: bool)
    requires k < |p.rows|
    ensures !confirmed ==> Remove(p, k, confirmed) == p
    ensures confirmed ==>
      && Remove(p, k, confirmed).rows == p.rows[..k] + p.rows[k + 1..]
      && |Remove(p, k, confirmed).rows| == |p.rows| - 1
      && (forall i :: 0 <= i < k ==> Remove(p, k, confirmed).rows[i] == p.rows[i])
      && (forall i :: k <= i < |p.rows| - 1 ==> Remove(p, k, confirmed).rows[i] == p.rows[i + 1])
      && Texts(Remove(p, k, confirmed).rows) == Texts(p.rows)[..k] + Texts(p.rows)[k + 1..]
      && (Remove(p, k, confirmed).clearShown <==> |p.rows| > 1)
      && (Remove(p, k, confirmed).filterShown <==> |p.rows| > 1)
      && p.rows[k].text !in Load(Remove(p, k, confirmed).slot)
      && multiset(Load(Remove(p, k, confirmed).slot)) == multiset(Load(p.slot))[p.rows[k].text := 0]
      && IsSubsequence(Load(Remove(p, k, confirmed).slot), Load(p.slot))
      && (p.rows[k].text !in Load(p.slot) ==> Load(Remove(p, k, confirmed).slot) == Load(p.slot))
  {
    if confirmed {
      WithoutCounts(Load(p.slot), p.rows[k].text);
      WithoutKeepsOrder(Load(p.slot), p.rows[k].text);
      assert p.rows == p.rows[..k] + p.rows[k..];
      TextsAppend(p.rows[..k], p.rows[k + 1..]);
      if p.rows[k].text !in Load(p.slot) {
        WithoutAbsent(Load(p.slot), p.rows[k].text);
      }
    }
  }

  /** With no name stored twice, a removal keeps the page in sync. */
  lemma RemoveKeepsSynced(p: Page, k: nat, confirmed: bool)
    requires k < |p.rows| && Synced(p) && NoDuplicates(Load(p.slot))
    ensures Synced(Remove(p, k, confirmed))
    ensures NoDuplicates(Load(Remove(p, k, confirmed).slot))
  {
    if confirmed {
      var r := Remove(p, k, confirmed);
      assert r.rows == p.rows[..k] + p.rows[k + 1..];
      TextsAppend(p.rows[..k], p.rows[k + 1..]);
      var s := Load(p.slot);
      assert s[k] == p.rows[k].text;
      WithoutUnique(s, k);
      var t := s[..k] + s[k + 1..];
      forall i, j | 0 <= i < j < |t| ensures t[i] != t[j] {
        var i' := if i < k then i else i + 1;
        var j' := if j < k then j else j + 1;
        assert t[i] == s[i'] && t[j] == s[j'];
      }
    }
  }

  /** With a name stored twice, removing one of its rows drops both stored
      entries while one row stays on screen: the page falls out of sync. */
  lemma RemoveWithDuplicateLosesSync()
    ensures var p := Page(Stored(["Milk", "Milk"]), [NewRow("Milk"), NewRow("Milk")], "", false, true, true);
      && Synced(p)
      && Texts(Remove(p, 0, true).rows) == ["Milk"]
      && Load(Remove(p, 0, true).slot) == []
      && !Synced(Remove(p, 0, true))
  {
    var p := Page(Stored(["Milk", "Milk"]), [NewRow("Milk"), NewRow("Milk")], "", false, true, true);
    assert Texts(p.rows) == ["Milk", "Milk"];
    var items: seq<string> := ["Milk", "Milk"];
    assert Without(items[1..], "Milk") == [] by {
      assert items[1..][1..] == [];
    }
    assert Without(items, "Milk") == [];
    assert Remove(p, 0, true).rows == [NewRow("Milk")];
  }

  /** A declined clear changes nothing; a confirmed one leaves no rows, deletes
      the key so that a later load reads the empty list, and hides both controls. */
  lemma ClearEmptiesEverything(p: Page, confirmed: bool)
    ensures !confirmed ==> Clear(p, confirmed) == p
    ensures confirmed ==>
      && Clear(p, confirmed).rows == []
      && Clear(p, confirmed).slot == Absent
      && Load(Clear(p, confirmed).slot) == []
      && !Clear(p, confirmed).clearShown && !Clear(p, confirmed).filterShown
      && Clear(p, confirmed).input == p.input && Clear(p, confirmed).editMode == p.editMode
      && Reload(Clear(p, confirmed)).rows == []
  {
  }

  /** A clear keeps the page in sync. */
  lemma ClearKeepsSynced(p: Page, confirmed: bool)
    requires Synced(p)
    ensures Synced(Clear(p, confirmed))
  {
  }

  /** After filtering, a row is displayed iff the lower-cased query is a
      substring of its lower-cased text; texts, edit marks, storage and every
      other part of the page are untouched. */
  lemma FilterShowsIff(p: Page, query: string)
    ensures |Filter(p, query).rows| == |p.rows|
    ensures forall i :: 0 <= i < |p.rows| ==>
      && (Filter(p, query).rows[i].shown <==> Contains(ToLower(p.rows[i].text), ToLower(query)))
      && Filter(p, query).rows[i].text == p.rows[i].text
      && Filter(p, query).rows[i].editing == p.rows[i].editing
    ensures Filter(p, query).(rows := p.rows) == p
    ensures Texts(Filter(p, query).rows) == Texts(p.rows)
  {
  }

  /** The empty query displays every row. */
  lemma FilterEmptyShowsAll(p: Page)
    ensures forall i :: 0 <= i < |Filter(p, "").rows| ==> Filter(p, "").rows[i].shown
  {
    forall i | 0 <= i < |p.rows| ensures Filter(p, "").rows[i].shown {
      EmptyNeedleFoundAtStart(ToLower(p.rows[i].text));
    }
  }

  /** Filtering ignores case: a query matches exactly as its lower-cased form does. */
  lemma FilterIgnoresCase(p: Page, query: string)
    ensures Filter(p, query) == Filter(p, ToLower(query))
  {
    ToLowerIdempotent(query);
  }

  /** A filter keeps the page in sync. */
  lemma FilterKeepsSynced(p: Page, query: string)
    requires Synced(p)
    ensures Synced(Filter(p, query))
  {
    FilterShowsIff(p, query);
  }

  /** After `setItemToEdit` the page is in edit mode, exactly the clicked row
      carries the edit mark (any earlier mark is cleared), the input holds that
      row's text, and texts, display flags and storage are untouched. */
  lemma SetToEditMarksOnlyClicked(p: Page, k: nat)
    requires k < |p.rows|
    ensures SetToEdit(p, k).editMode
    ensures |SetToEdit(p, k).rows| == |p.rows|
    ensures forall i :: 0 <= i < |p.rows| ==>
      && (SetToEdit(p, k).rows[i].editing <==> i == k)
      && SetToEdit(p, k).rows[i].text == p.rows[i].text
      && SetToEdit(p, k).rows[i].shown == p.rows[i].shown
    ensures SetToEdit(p, k).input == p.rows[k].text
    ensures SetToEdit(p, k).slot == p.slot
    ensures Texts(SetToEdit(p, k).rows) == Texts(p.rows)
  {
  }

  /** Selecting a second row moves the edit mark: only the latest row has it. */
  lemma SecondSelectionMovesMark(p: Page, j: nat, k: nat)
    requires j < |p.rows| && k < |p.rows| && j != k
    ensures !SetToEdit(SetToEdit(p, j), k).rows[j].editing
    ensures SetToEdit(SetToEdit(p, j), k).rows[k].editing
    ensures SetToEdit(SetToEdit(p, j), k).input == p.rows[k].text
  {
  }

  /** The match test on the texts "Milk" and "Eggs": "egg" matches only
      "Eggs", "xyz" matches neither. */
  lemma MilkAndEggsMatches()
    ensures !Matches("Milk", "egg") && Matches("Eggs", "egg")
    ensures !Matches("Milk", "xyz") && !Matches("Eggs", "xyz")
  {
    assert ToLower("egg") == "egg" && ToLower("xyz") == "xyz";
    assert ToLower("Milk") == "milk" && ToLower("Eggs") == "eggs";
    assert OccursAt("eggs", "egg", 0);
    assert !OccursAt("milk", "egg", 0) && !OccursAt("milk", "egg", 1);
    assert !OccursAt("milk", "xyz", 0) && !OccursAt("milk", "xyz", 1);
    assert !OccursAt("eggs", "xyz", 0) && !OccursAt("eggs", "xyz", 1);
  }

  /** On the rows "Milk" and "Eggs", the query "egg" displays only "Eggs",
      the empty query displays both and "xyz" displays neither. */
  lemma FilterMilkAndEggs(p: Page)
    requires Texts(p.rows) == ["Milk", "Eggs"]
    ensures var r := Filter(p, "egg").rows; !r[0].shown && r[1].shown
    ensures var r := Filter(p, "").rows; r[0].shown && r[1].shown
    ensures var r := Filter(p, "xyz").rows; !r[0].shown && !r[1].shown
  {
    assert |p.rows| == |Texts(p.rows)| == 2;
    assert p.rows[0].text == Texts(p.rows)[0] == "Milk";
    assert p.rows[1].text == Texts(p.rows)[1] == "Eggs";
    MilkAndEggsMatches();
    FilterEmptyShowsAll(p);
  }

  /** With no name stored twice, every click on a row keeps the page in sync. */
  lemma ClickKeepsSynced(p: Page, k: nat, onRemoveIcon: bool, confirmed: bool)
    requires k < |p.rows| && Synced(p) && NoDuplicates(Load(p.slot))
    ensures Synced(Click(p, k, onRemoveIcon, confirmed))
  {
    if onRemoveIcon {
      RemoveKeepsSynced(p, k, confirmed);
    } else {
      SetToEditMarksOnlyClicked(p, k);
    }
  }
}
