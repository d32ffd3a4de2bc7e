// The value-level operations behind the page's edit mode: the selection
// set, the draft filter of a delete, the removed-slug diff of a save, and
// adding a category name.
module Editing {
  import opened Text
  import opened Posts

  // ---------------------------------------------------------------------
  // Selection
  // ---------------------------------------------------------------------

  /** `posts.some(p => p.slug === slug)`. */
  predicate HasSlug(posts: seq<Post>, slug: string)
  {
    exists i :: 0 <= i < |posts| && posts[i].slug == slug
  }

  /** `new Set(posts.map(p => p.slug))`. */
  function Slugs(posts: seq<Post>): (r: set<string>)
    ensures forall s :: s in r <==> HasSlug(posts, s)
  {
    set i | 0 <= i < |posts| :: posts[i].slug
  }

  lemma SlugsStep(posts: seq<Post>, p: Post)
    ensures Slugs(posts + [p]) == Slugs(posts) + {p.slug}
  {
    assert forall i :: 0 <= i < |posts| ==> (posts + [p])[i] == posts[i];
    assert (posts + [p])[|posts|] == p;
  }

  /** The setter of `toggleSelect`: `slug` changes membership and nothing else does. */
  function Toggled(sel: set<string>, slug: string): (r: set<string>)
    ensures slug in r <==> slug !in sel
    ensures forall s :: s != slug ==> (s in r <==> s in sel)
  {
    if slug in sel then sel - {slug} else sel + {slug}
  }

  /** Toggling the same slug twice restores the selection. */
  lemma ToggleTwice(sel: set<string>, slug: string)
    ensures Toggled(Toggled(sel, slug), slug) == sel
  {
  }

  /** `group.items.every(item => selectedSlugs.has(item.slug))`. */
  predicate AllSelected(items: seq<Post>, sel: set<string>)
  {
    forall i :: 0 <= i < |items| ==> items[i].slug in sel
  }

  /**
   * The setter of `handleSelectGroup`: copy the set, then walk the group's
   * posts deleting (when all were selected) or adding each slug.
   */
  method ApplyGroupSelection(prev: set<string>, items: seq<Post>, allSelected: bool) returns (next: set<string>)
    ensures next == if allSelected then prev - Slugs(items) else prev + Slugs(items)
    ensures forall s :: s !in Slugs(items) ==> (s in next <==> s in prev)
  {
    next := prev;
    for i := 0 to |items|
      invariant next == if allSelected then prev - Slugs(items[..i]) else prev + Slugs(items[..i])
    {
      SlugsStep(items[..i], items[i]);
      assert items[..i + 1] == items[..i] + [items[i]];
      if allSelected {
        next := next - {items[i].slug};
      } else {
        next := next + {items[i].slug};
      }
    }
    assert items[..|items|] == items;
  }

  /** What one click on a group's select button does to the selection. */
  function GroupToggled(sel: set<string>, items: seq<Post>): set<string>
  {
    if AllSelected(items, sel) then sel - Slugs(items) else sel + Slugs(items)
  }

  /**
   * Clicking a group twice: a fully selected group is deselected and then
   * selected again, any other group is selected and then deselected, which
   * leaves none of its slugs selected. An empty group counts as fully
   * selected, and clicking it changes nothing.
   */
  lemma GroupToggledTwice(sel: set<string>, items: seq<Post>)
    ensures GroupToggled(GroupToggled(sel, items), items)
      == if AllSelected(items, sel) then sel else sel - Slugs(items)
  {
    var once := GroupToggled(sel, items);
    if items == [] {
      assert Slugs(items) == {};
    } else if AllSelected(items, sel) {
      assert items[0].slug in Slugs(items);
      assert !AllSelected(items, once);
      assert Slugs(items) <= sel;
    } else {
      assert AllSelected(items, once);
    }
  }

  // ---------------------------------------------------------------------
  // Delete and save
  // ---------------------------------------------------------------------

  /** `a` can be obtained from `b` by dropping elements, keeping the order. */
  predicate IsSubsequence(a: seq<Post>, b: seq<Post>)
  {
    if a == [] then true
    else if b == [] then false
    else if a[0] == b[0] then IsSubsequence(a[1..], b[1..])
    else IsSubsequence(a, b[1..])
  }

  /** The delete filter `prev.filter(item => !selectedSlugs.has(item.slug))`. */
  function Remaining(draft: seq<Post>, sel: set<string>): (r: seq<Post>)
    ensures forall p :: p in r <==> p in draft && p.slug !in sel
    ensures forall p :: multiset(r)[p] == if p.slug in sel then 0 else multiset(draft)[p]
    ensures IsSubsequence(r, draft)
  {
    if draft == [] then []
    else
      var rest := Remaining(draft[1..], sel);
      assert multiset(draft) == multiset{draft[0]} + multiset(draft[1..]) by {
        assert draft == [draft[0]] + draft[1..];
      }
      if draft[0].slug in sel then
        assert rest != [] ==> rest[0] != draft[0] by {
          if rest != [] {
            assert rest[0] in rest;
          }
        }
        rest
      else [draft[0]] + rest
  }

  /**
   * `items.filter(item => !editableItems.some(e => e.slug === item.slug)).map(item => item.slug)`:
   * the slugs of the original posts that no longer appear in the draft, in original order.
   */
  function RemovedSlugs(original: seq<Post>, draft: seq<Post>): (r: seq<string>)
    ensures |r| <= |original|
    ensures forall s :: s in r <==> HasSlug(original, s) && !HasSlug(draft, s)
    ensures r == [] <==> forall i :: 0 <= i < |original| ==> HasSlug(draft, original[i].slug)
  {
    if original == [] then []
    else
      var rest := RemovedSlugs(original[1..], draft);
      assert forall s :: HasSlug(original, s) <==> original[0].slug == s || HasSlug(original[1..], s) by {
        forall s | HasSlug(original, s) ensures original[0].slug == s || HasSlug(original[1..], s) {
          var i :| 0 <= i < |original| && original[i].slug == s;
          if i > 0 {
            assert original[1..][i - 1].slug == s;
          }
        }
        forall s | HasSlug(original[1..], s) ensures HasSlug(original, s) {
          var i :| 0 <= i < |original[1..]| && original[1..][i].slug == s;
          assert original[i + 1].slug == s;
        }
      }
      assert (forall i :: 0 <= i < |original| ==> HasSlug(draft, original[i].slug))
        <==> HasSlug(draft, original[0].slug) && forall i :: 0 <= i < |original[1..]| ==> HasSlug(draft, original[1..][i].slug) by {
        if forall i :: 0 <= i < |original[1..]| ==> HasSlug(draft, original[1..][i].slug) {
          forall i | 1 <= i < |original| ensures HasSlug(draft, original[i].slug) {
            assert original[i] == original[1..][i - 1];
          }
        }
      }
      (if HasSlug(draft, original[0].slug) then [] else [original[0].slug]) + rest
  }

  /** The slugs of the posts of `posts` that are selected, in order. */
  function SelectedSlugs(posts: seq<Post>, sel: set<string>): seq<string>
  {
    if posts == [] then []
    else (if posts[0].slug in sel then [posts[0].slug] else []) + SelectedSlugs(posts[1..], sel)
  }

  /**
   * The removed slugs in full: one per original post whose slug the draft
   * lacks, in original order (the `filter` then `map` of the save).
   */
  lemma {:induction false} RemovedSlugsInOrder(original: seq<Post>, draft: seq<Post>)
    ensures RemovedSlugs(original, draft) == SelectedSlugs(original, Slugs(original) - Slugs(draft))
  {
    if original != [] {
      RemovedSlugsInOrder(original[1..], draft);
      SelectedSlugsAgree(original[1..], Slugs(original[1..]) - Slugs(draft), Slugs(original) - Slugs(draft));
    }
  }

  /** Which posts are selected depends only on the selection's verdict on their own slugs. */
  lemma {:induction false} SelectedSlugsAgree(posts: seq<Post>, a: set<string>, b: set<string>)
    requires forall i :: 0 <= i < |posts| ==> (posts[i].slug in a <==> posts[i].slug in b)
    ensures SelectedSlugs(posts, a) == SelectedSlugs(posts, b)
  {
    if posts != [] {
      assert forall i :: 1 <= i < |posts| ==> posts[i] == posts[1..][i - 1];
      SelectedSlugsAgree(posts[1..], a, b);
    }
  }

  lemma {:induction false} SelectedSlugsEmptyIff(posts: seq<Post>, sel: set<string>)
    ensures SelectedSlugs(posts, sel) == [] <==> forall i :: 0 <= i < |posts| ==> posts[i].slug !in sel
  {
    if posts != [] {
      SelectedSlugsEmptyIff(posts[1..], sel);
      assert forall i :: 1 <= i < |posts| ==> posts[i] == posts[1..][i - 1];
    }
  }

  lemma {:induction false} RemovedSlugsAre(original: seq<Post>, draft: seq<Post>, sel: set<string>)
    requires forall i :: 0 <= i < |original| && original[i].slug !in sel ==> HasSlug(draft, original[i].slug)
    requires forall i :: 0 <= i < |draft| ==> draft[i].slug !in sel
    ensures RemovedSlugs(original, draft) == SelectedSlugs(original, sel)
  {
    if original != [] {
      forall i | 0 <= i < |original[1..]| && original[1..][i].slug !in sel
        ensures HasSlug(draft, original[1..][i].slug)
      {
        assert original[1..][i] == original[i + 1];
      }
      RemovedSlugsAre(original[1..], draft, sel);
    }
  }

  /**
   * Deleting the selection and then diffing for a save gives exactly the selected
   * slugs of the index, in index order, as removed.
   */
  lemma DeleteThenDiff(original: seq<Post>, sel: set<string>)
    ensures RemovedSlugs(original, Remaining(original, sel)) == SelectedSlugs(original, sel)
  {
    var draft := Remaining(original, sel);
    forall i | 0 <= i < |original| && original[i].slug !in sel ensures HasSlug(draft, original[i].slug) {
      assert original[i] in draft;
      var j :| 0 <= j < |draft| && draft[j] == original[i];
    }
    forall i | 0 <= i < |draft| ensures draft[i].slug !in sel {
      assert draft[i] in draft;
    }
    RemovedSlugsAre(original, draft, sel);
  }

  // ---------------------------------------------------------------------
  // Categories
  // ---------------------------------------------------------------------

  /**
   * `handleAddCategory` on the list: trim the input; an empty name changes
   * nothing, a name already present changes nothing, a new one is appended.
   */
  function AddedCategory(list: seq<string>, input: string): (r: seq<string>)
    ensures r == list || r == list + [Trim(input)]
    ensures r != list <==> Trim(input) != [] && Trim(input) !in list
    ensures Trim(input) != [] ==> Trim(input) in r
    ensures forall c :: c in r <==> c in list || (c == Trim(input) && c != [])
  {
    var name := Trim(input);
    if name == [] then list
    else if name in list then list
    else list + [name]
  }

  /** Adding a category never introduces a duplicate, and adding the same name again changes nothing. */
  lemma AddedCategoryKeepsDistinct(list: seq<string>, input: string)
    ensures NoDuplicates(list) ==> NoDuplicates(AddedCategory(list, input))
    ensures AddedCategory(AddedCategory(list, input), input) == AddedCategory(list, input)
  {
    var r := AddedCategory(list, input);
    if NoDuplicates(list) && r != list {
      forall i, j | 0 <= i < j < |r| ensures r[i] != r[j] {
        if j == |list| {
          assert r[i] == list[i];
        }
      }
    }
  }
}
