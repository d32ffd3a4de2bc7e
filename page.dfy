// The blog index page's state and its edit-mode handlers. Each React state
// variable of the component is a field; each handler is a method that
// changes exactly the fields its setters touch.
module BlogPage {
  import opened Text
  import opened Posts
  import opened Grouping
  import opened Editing

  /** The toast a handler raises, if any. */
  datatype Notice = NoNotice | Info(text: string) | Error(text: string)

  /** How the call to the repository writer ended; the writer itself is not modelled. */
  datatype SaveOutcome = Succeeded | Threw(message: string)

  /** The arguments of the call `saveBlogEdits(items, editableItems, categoryList)`. */
  datatype WriteCall = WriteCall(original: seq<Post>, edited: seq<Post>, categories: seq<string>)

  /** What a click on the save button led to. */
  datatype SaveResult =
    | KeyRequested                              // not signed in: the key-file picker opens
    | NoChanges(notice: Notice)                 // nothing was removed from the draft; only a notice
    | Saved(call: WriteCall)                    // the writer was called so and succeeded
    | Failed(call: WriteCall, notice: Notice)   // the writer was called so and threw

  /** `error?.message || 'Save failed'`. */
  function FailureNotice(message: string): (n: Notice)
    ensures n.Error? && n.text != []
    ensures message != [] ==> n.text == message
    ensures message == [] ==> n.text == "Save failed"
  {
    Error(if message == [] then "Save failed" else message)
  }

  class Page {
    var items: seq<Post>            // the published index
    var editMode: bool
    var draft: seq<Post>            // `editableItems`
    var selection: set<string>      // `selectedSlugs`
    var displayMode: DisplayMode
    var categoryModalOpen: bool
    var categoryList: seq<string>
    var newCategory: string

    /** The page once the index and the category list have loaded. */
    constructor(loaded: seq<Post>, categories: seq<string>)
      ensures items == loaded && draft == loaded
      ensures !editMode && selection == {} && displayMode == Year
      ensures !categoryModalOpen && categoryList == categories && newCategory == []
    {
      items := loaded;
      editMode := false;
      draft := loaded;
      selection := {};
      displayMode := Year;
      categoryModalOpen := false;
      categoryList := categories;
      newCategory := [];
    }

    /** `displayItems`: the draft while editing, the published index otherwise. */
    function DisplayItems(): seq<Post>
      reads this`editMode, this`draft, this`items
    {
      if editMode then draft else items
    }

    /** The grouped view the page renders. */
    function View(): GroupView
      reads this`editMode, this`draft, this`items, this`displayMode, this`categoryList
    {
      Grouped(DisplayItems(), displayMode, categoryList)
    }

    method SetDisplayMode(mode: DisplayMode)
      modifies this`displayMode
      ensures displayMode == mode
    {
      displayMode := mode;
    }

    /**
     * Entering edit mode starts the draft from the published index; leaving
     * it also discards the draft and clears the selection.
     */
    method ToggleEditMode()
      modifies this`editMode, this`draft, this`selection
      ensures editMode == !old(editMode)
      ensures draft == items
      ensures selection == if old(editMode) then {} else old(selection)
    {
      if editMode {
        editMode := false;
        draft := items;
        selection := {};
      } else {
        draft := items;
        editMode := true;
      }
    }

    method ToggleSelect(slug: string)
      modifies this`selection
      ensures selection == Toggled(old(selection), slug)
    {
      selection := Toggled(selection, slug);
    }

    /** A click on a post selects or deselects it while editing and does nothing otherwise. */
    method ItemClick(slug: string)
      modifies this`selection
      ensures selection == if editMode then Toggled(old(selection), slug) else old(selection)
    {
      if !editMode {
        return;
      }
      ToggleSelect(slug);
    }

    /** Selects exactly the slugs of the draft. */
    method SelectAll()
      modifies this`selection
      ensures forall s :: s in selection <==> HasSlug(draft, s)
    {
      selection := Slugs(draft);
    }

    /**
     * Selects every post of the bucket `key` of the rendered view, or
     * deselects them all when all are already selected; a key the view
     * does not have changes nothing.
     */
    method SelectGroup(key: string)
      modifies this`selection
      ensures key !in View().groups ==> selection == old(selection)
      ensures key in View().groups ==> selection == GroupToggled(old(selection), View().groups[key].items)
    {
      var view := ComputeGroups(DisplayItems(), displayMode, categoryList);
      ghost var before := View();
      assert view == before;
      if key !in view.groups {
        return;
      }
      var group := view.groups[key];
      var allSelected := AllSelected(group.items, selection);
      selection := ApplyGroupSelection(selection, group.items, allSelected);
      assert View() == before;
    }

    method DeselectAll()
      modifies this`selection
      ensures selection == {}
    {
      selection := {};
    }

    /**
     * With nothing selected only a notice is raised; otherwise the selected
     * posts leave the draft (the rest keep their order) and the selection
     * is cleared.
     */
    method DeleteSelected() returns (notice: Notice)
      modifies this`draft, this`selection
      ensures old(selection) == {} ==> notice == Info("Please select articles to delete") && draft == old(draft) && selection == {}
      ensures old(selection) != {} ==> notice == NoNotice && draft == Remaining(old(draft), old(selection)) && selection == {}
    {
      if |selection| == 0 {
        notice := Info("Please select articles to delete");
        return;
      }
      draft := Remaining(draft, selection);
      selection := {};
      notice := NoNotice;
    }

    method SetNewCategory(value: string)
      modifies this`newCategory
      ensures newCategory == value
    {
      newCategory := value;
    }

    method SetCategoryModalOpen(open: bool)
      modifies this`categoryModalOpen
      ensures categoryModalOpen == open
    {
      categoryModalOpen := open;
    }

    /**
     * A blank name raises a notice and keeps the input; any other name is
     * trimmed, appended unless already listed, and the input is cleared.
     */
    method AddCategory() returns (notice: Notice)
      modifies this`categoryList, this`newCategory
      ensures categoryList == AddedCategory(old(categoryList), old(newCategory))
      ensures Trim(old(newCategory)) == [] ==> notice == Info("Please enter a category name") && newCategory == old(newCategory)
      ensures Trim(old(newCategory)) != [] ==> notice == NoNotice && newCategory == []
    {
      var value := Trim(newCategory);
      if value == [] {
        notice := Info("Please enter a category name");
        return;
      }
      categoryList := if value in categoryList then categoryList else categoryList + [value];
      newCategory := [];
      notice := NoNotice;
    }

    /**
     * Saving diffs the draft against the published index. Without removals
     * only a notice is raised; otherwise the writer is given the index, the
     * draft and the category list. A successful write leaves edit mode,
     * clears the selection and closes the category dialog; a failed one
     * raises its message and changes nothing.
     */
    method Save(outcome: SaveOutcome) returns (result: SaveResult)
      modifies this`editMode, this`selection, this`categoryModalOpen
      ensures var removed := old(RemovedSlugs(items, draft));
        && (removed == [] ==> result == NoChanges(Info("No changes to save")) && unchanged(this))
        && (removed != [] && outcome.Succeeded? ==>
              result == Saved(WriteCall(items, draft, categoryList))
              && !editMode && selection == {} && !categoryModalOpen)
        && (removed != [] && outcome.Threw? ==>
              result == Failed(WriteCall(items, draft, categoryList), FailureNotice(outcome.message))
              && unchanged(this))
    {
      var removed := RemovedSlugs(items, draft);
      if removed == [] {
        return NoChanges(Info("No changes to save"));
      }
      var call := WriteCall(items, draft, categoryList);
      match outcome
      case Succeeded =>
        editMode := false;
        selection := {};
        categoryModalOpen := false;
        result := Saved(call);
      case Threw(message) =>
        result := Failed(call, FailureNotice(message));
    }

    /** Without a key the click only asks for one; with a key it saves. */
    method SaveClick(isAuth: bool, outcome: SaveOutcome) returns (result: SaveResult)
      modifies this`editMode, this`selection, this`categoryModalOpen
      ensures !isAuth ==> result == KeyRequested && unchanged(this)
      ensures isAuth ==> var removed := old(RemovedSlugs(items, draft));
        && (removed == [] ==> result == NoChanges(Info("No changes to save")) && unchanged(this))
        && (removed != [] && outcome.Succeeded? ==>
              result == Saved(WriteCall(items, draft, categoryList))
              && !editMode && selection == {} && !categoryModalOpen)
        && (removed != [] && outcome.Threw? ==>
              result == Failed(WriteCall(items, draft, categoryList), FailureNotice(outcome.message))
              && unchanged(this))
    {
      if !isAuth {
        return KeyRequested;
      }
      result := Save(outcome);
    }
  }

  /**
   * After deleting a selection from an unedited draft, the save goes ahead
   * exactly when at least one post of the index was selected (the removed
   * slugs themselves are those of `DeleteThenDiff`).
   */
  lemma DeleteThenSave(items: seq<Post>, sel: set<string>)
    ensures RemovedSlugs(items, Remaining(items, sel)) == [] <==> forall i :: 0 <= i < |items| ==> items[i].slug !in sel
  {
    DeleteThenDiff(items, sel);
    SelectedSlugsEmptyIff(items, sel);
  }
}
