# Blog index page: grouping and edit mode

This project models the blog index page (`src/app/blog/page.tsx`). The
page lists the published posts grouped into buckets: by day, week, month,
year, or category. The week is the locale week number dayjs reports, paired
with the calendar year of the date. In edit mode the author selects posts,
deletes them from a draft, adds category names, and saves. A save goes ahead
only when some post of the index is missing from the draft; it then hands the
index, the draft and the category list to the repository writer.

The model has three parts:

- The value computations are functions. These are the newest-first sort,
  the per-mode bucket key and label, the key comparator, the selection
  setters, the delete filter, the removed-slug diff, and the category append.
- The two steps that mutate as they go are methods with loop invariants.
  One is the `reduce` that fills the bucket object; the other is the
  `forEach` that edits a copy of the selection set.
- The component's React state is the class `BlogPage.Page`. It has one
  field per `useState` and one method per handler.

The modules are:

- `Text`: JavaScript `trim`, dayjs/`padStart` zero padding, `split('-W')`,
  `Number` on digit strings, and a lexicographic order in place of
  `localeCompare`.
- `Posts`: the post record and the stable newest-first sort.
- `GroupKeys`: the key and label of a post under each display mode, and the
  parse of a week key back into numbers.
- `KeyOrder`: the key comparator, with proofs that it is a strict weak order,
  and the key sort.
- `Grouping`: the `useMemo` (sort, reduce into buckets, order keys,
  `getGroupLabel`) and the partition facts about its result.
- `GroupOrder`: the order of the displayed buckets, stated per display mode.
- `Editing`: selection, delete, removed-slug diff, category append.
- `BlogPage`: the page state and its handlers.

## Model

| member | source | states |
|---|---|---|
| Text.StrLess | src/app/blog/page.tsx:116 | code-point lexicographic order, standing for `localeCompare` (defined by recursion; its properties follow) |
| Text.StrLessIrreflexive | src/app/blog/page.tsx:107 | no key compares before itself |
| Text.StrLessTransitive | src/app/blog/page.tsx:107 | the string order used for keys is transitive |
| Text.StrLessTotal | src/app/blog/page.tsx:116 | two different keys are always ordered one way or the other |
| Text.StrLessAsymmetric | src/app/blog/page.tsx:116 | never both `a` before `b` and `b` before `a` |
| Text.SkipSpaceFrom | src/app/blog/page.tsx:198 | the scan stops at the first non-space at or after its start, having passed only white space |
| Text.SkipSpaceBefore | src/app/blog/page.tsx:198 | the backward scan stops just after the last non-space before its start, having passed only white space |
| Text.Trim | src/app/blog/page.tsx:198 | `trim()`: drop leading and trailing white space (defined from TrimStart and TrimEnd; the Trim lemmas state its properties) |
| Text.TrimStart | src/app/blog/page.tsx:198 | the result is a suffix of the input, everything dropped is white space, and it does not start with white space |
| Text.TrimEnd | src/app/blog/page.tsx:198 | the result is a prefix of the input, everything dropped is white space, and it does not end with white space |
| Text.TrimIsSlice | src/app/blog/page.tsx:198 | `trim` returns a contiguous slice of the input |
| Text.TrimDropsOnlySpace | src/app/blog/page.tsx:198 | everything `trim` cuts off on either side is white space |
| Text.TrimHasNoOuterSpace | src/app/blog/page.tsx:198 | a trimmed name neither starts nor ends with white space |
| Text.TrimEndKeepsFirst | src/app/blog/page.tsx:198 | trimming the end of a string that starts with a non-space leaves it non-empty |
| Text.TrimEmptyIff | src/app/blog/page.tsx:198-199 | a category name is rejected exactly when the input is all white space |
| Text.TrimIdempotent | src/app/blog/page.tsx:198 | trimming twice is trimming once |
| Text.DigitChar | src/app/blog/page.tsx:78 | a digit below ten becomes a decimal digit character |
| Text.DigitValue | src/app/blog/page.tsx:111 | a digit character reads as a number below ten |
| Text.Digits | src/app/blog/page.tsx:79 | `toString()` of a number is a non-empty digit string that reads back as that number and has no leading zero (only 0 itself is "0") |
| Text.Zeros | src/app/blog/page.tsx:78 | the padding is exactly `k` zero characters |
| Text.Pad | src/app/blog/page.tsx:78 | `padStart(width, '0')` gives a digit string that reads back as the number and is exactly `width` characters long, or the number's own length when that is longer |
| Text.ZerosValue | src/app/blog/page.tsx:111 | a run of zeros reads as 0 |
| Text.LeadingZeros | src/app/blog/page.tsx:111 | leading zeros do not change the number `Number` reads |
| Text.DigitsFit | src/app/blog/page.tsx:78 | a number below 10^k has at most k decimal digits |
| Text.PadWidth | src/app/blog/page.tsx:78 | a number below 10^width pads to exactly `width` characters |
| Text.ValueBelow | src/app/blog/page.tsx:116 | k digits denote a number below 10^k |
| Text.ValueFront | src/app/blog/page.tsx:116 | read from the front, the first of k digits counts 10^(k-1) times |
| Text.StrLessDigits | src/app/blog/page.tsx:116 | on digit strings of one length, string order is numeric order, in both directions |
| Text.StrLessAfterPrefix | src/app/blog/page.tsx:116 | strings led by prefixes of one length compare by the prefixes first, then by the rest |
| Text.PadOrder | src/app/blog/page.tsx:116 | two numbers padded to a width they fit compare, and are equal, exactly as the numbers are |
| Text.PaddedThen | src/app/blog/page.tsx:116 | a string led by a padded number compares by the number, then by the rest; equality likewise |
| Text.SeparatorThen | src/app/blog/page.tsx:116 | a common separator in front changes neither string order nor equality |
| Text.ToNumber | src/app/blog/page.tsx:111 | a string reads as a number exactly when it is a non-empty run of digits |
| Text.Split | src/app/blog/page.tsx:111 | `split` returns at least one part |
| Text.SplitNoSeparator | src/app/blog/page.tsx:111 | a string without the separator splits into itself alone |
| Text.SplitJoined | src/app/blog/page.tsx:111 | two digit strings joined by `-W` split back into the two strings |
| Posts.DatedAt | src/app/blog/page.tsx:59 | the posts of one date are exactly the input's posts with that timestamp, no more of them than the input has |
| Posts.InsertByDate | src/app/blog/page.tsx:59 | one insertion step of the sort: a post goes before the first post not newer than it |
| Posts.SortByDateDesc | src/app/blog/page.tsx:59 | the sort by descending timestamp, by insertion (its properties are SortByDateDescCorrect and SortByDateDescStable) |
| Posts.InsertByDatePermutes | src/app/blog/page.tsx:59 | one insertion step adds exactly the new post |
| Posts.InsertByDateSorted | src/app/blog/page.tsx:59 | inserting into a newest-first list keeps it newest first |
| Posts.InsertByDateStable | src/app/blog/page.tsx:59 | an inserted post goes before the posts of its own date that were already there |
| Posts.SortByDateDescCorrect | src/app/blog/page.tsx:59 | the sort is newest first and a permutation of the input |
| Posts.SortByDateDescStable | src/app/blog/page.tsx:59 | posts with the same date keep their input order |
| GroupKeys.KeyOf | src/app/blog/page.tsx:67-90 | the bucket key of a post under each display mode |
| GroupKeys.LabelOf | src/app/blog/page.tsx:67-90 | the bucket label: the week label in week mode, the key itself in every other mode |
| GroupKeys.YearKey | src/app/blog/page.tsx:87 | `format('YYYY')`: the year padded to four digits |
| GroupKeys.MonthKey | src/app/blog/page.tsx:82 | `format('YYYY-MM')`: padded year and month joined by a dash |
| GroupKeys.DayKey | src/app/blog/page.tsx:73 | `format('YYYY-MM-DD')`: padded year, month and day joined by dashes |
| GroupKeys.WeekKey | src/app/blog/page.tsx:78 | the padded calendar year, `-W`, and the week padded to two digits |
| GroupKeys.WeekLabel | src/app/blog/page.tsx:79 | `Week `, the unpadded week number, `, ` and the padded year |
| GroupKeys.WeekParts | src/app/blog/page.tsx:111-112 | `split('-W').map(Number)` on a key: the year and week it spells, or nothing when a part is missing or is not a non-empty digit string (see the `Text.ToNumber` line under Left out for how JavaScript reads such parts) |
| GroupKeys.CategoryKey | src/app/blog/page.tsx:68-70 | the category key is never empty; it is "Uncategorized" exactly for a missing, empty or literally "Uncategorized" category; otherwise it is the category |
| GroupKeys.WeekKeyRoundTrip | src/app/blog/page.tsx:76-114 | splitting a week key at `-W` and reading both parts gives back the year and the week |
| GroupKeys.WeekKeyInjective | src/app/blog/page.tsx:78 | different (year, week) pairs get different week keys |
| GroupKeys.LabelNonEmpty | src/app/blog/page.tsx:67-90 | every label is non-empty, whatever the display mode |
| GroupKeys.LabelDeterminedByKey | src/app/blog/page.tsx:67-95 | posts that share a key share a label, so the label kept by the bucket does not depend on which post opened it |
| GroupKeys.YearKeyOrder | src/app/blog/page.tsx:87 | for four-digit years, year keys compare as the years do and are equal exactly for equal years |
| GroupKeys.MonthKeyOrder | src/app/blog/page.tsx:82 | month keys compare as (year, month) pairs do and are equal exactly for equal pairs |
| GroupKeys.MonthKeyLength | src/app/blog/page.tsx:82 | a month key of a four-digit year is seven characters long |
| GroupKeys.DayKeyOrder | src/app/blog/page.tsx:73 | day keys compare as (year, month, day) triples do and are equal exactly for equal triples |
| KeyOrder.Before | src/app/blog/page.tsx:101-117 | the comparator as a strict order: category rank then alphabetical, week rank descending, or descending string order |
| KeyOrder.RankBefore | src/app/blog/page.tsx:104-106 | `aOrder - bOrder < 0`: a listed category before every unlisted one, listed ones by index |
| KeyOrder.WeekRank | src/app/blog/page.tsx:111-114 | the (year, week) pair the week comparator reads off a key |
| KeyOrder.InsertKey | src/app/blog/page.tsx:101 | one insertion step of the key sort |
| KeyOrder.OrderKeys | src/app/blog/page.tsx:101 | the key sort, by insertion (its properties are OrderKeysCorrect and StrictlySortedUnique) |
| KeyOrder.CategoryRank | src/app/blog/page.tsx:103-105 | a key is ranked exactly when it is in the category list, at the last index holding it (later map entries win) |
| KeyOrder.BeforeIrreflexive | src/app/blog/page.tsx:101-117 | the comparator never puts a key before itself |
| KeyOrder.BeforeAsymmetric | src/app/blog/page.tsx:101-117 | the comparator never orders two keys both ways |
| KeyOrder.BeforeTransitive | src/app/blog/page.tsx:101-117 | the comparator is transitive in every mode |
| KeyOrder.BeforeTotal | src/app/blog/page.tsx:101-117 | outside week mode, and in week mode for keys with different numbers, two different keys are ordered |
| KeyOrder.NotBeforeTransitive | src/app/blog/page.tsx:101-117 | "not after" is transitive, so the comparator is consistent for the sort |
| KeyOrder.InsertKeyPermutes | src/app/blog/page.tsx:101 | one insertion step of the key sort adds exactly the new key |
| KeyOrder.InsertKeySorted | src/app/blog/page.tsx:101 | one insertion step keeps the keys in comparator order |
| KeyOrder.OrderKeysCorrect | src/app/blog/page.tsx:101-117 | the sorted keys are a permutation of the bucket keys, in comparator order |
| KeyOrder.SortedDistinctIsStrict | src/app/blog/page.tsx:101-117 | sorted distinct keys, pairwise comparable, are strictly increasing |
| KeyOrder.DistinctCount | src/app/blog/page.tsx:101 | a key listed without repeats occurs at most once |
| KeyOrder.CountDistinct | src/app/blog/page.tsx:101 | a key list where each key occurs at most once has no repeats |
| KeyOrder.OrderKeysKeepsKeys | src/app/blog/page.tsx:101-117 | sorting the bucket keys keeps exactly those keys and creates no repeats |
| KeyOrder.StrictlySortedUnique | src/app/blog/page.tsx:101 | the displayed key order does not depend on the order `Object.keys` lists the buckets in |
| Grouping.Grouped | src/app/blog/page.tsx:58-124 | the `useMemo`: sort the posts, bucket them by key, order the keys |
| Grouping.FirstKeys | src/app/blog/page.tsx:101 | `Object.keys(grouped)`: the bucket keys in the order their first post was seen, the accumulator's insertion order, apart from integer-like keys (see Left out) |
| Grouping.Accumulate | src/app/blog/page.tsx:92-96 | one reduce step: open the bucket with the post's label if it is new, then push the post |
| Grouping.Reduce | src/app/blog/page.tsx:61-98 | the reduce as a left fold of Accumulate from the empty object |
| Grouping.GroupLabel | src/app/blog/page.tsx:122 | the stored label of a bucket, or the key itself when there is no bucket or its label is empty |
| Grouping.GroupPosts | src/app/blog/page.tsx:61-99 | the reduce loop builds the fold `Reduce` of the callback over the sorted posts, and lists the keys in first-seen order |
| Grouping.AddPost | src/app/blog/page.tsx:62-96 | the callback opens the post's bucket with the post's label only when the key is new, and then pushes the post onto it |
| Grouping.ReduceKeys | src/app/blog/page.tsx:92-93 | the reduce opens a bucket for exactly the keys of the posts |
| Grouping.ReduceIsGroupMap | src/app/blog/page.tsx:61-99 | for every key the reduce holds the posts with that key, in order, labelled by the first of them, and holds nothing else |
| Grouping.ComputeGroups | src/app/blog/page.tsx:58-124 | the memo's result is the grouped view of the displayed posts |
| Grouping.BucketStep | src/app/blog/page.tsx:95 | appending a post extends exactly its own key's bucket |
| Grouping.BucketMembers | src/app/blog/page.tsx:92-95 | a bucket holds exactly the posts with its key |
| Grouping.BucketEmptyIff | src/app/blog/page.tsx:92-95 | a bucket is empty exactly when no post has its key |
| Grouping.KeySetStep | src/app/blog/page.tsx:92-93 | a new post adds its key to the key set |
| Grouping.KeySetMembers | src/app/blog/page.tsx:92-93 | the key set is exactly the keys of the posts |
| Grouping.FirstKeysMatchKeySet | src/app/blog/page.tsx:92-93 | the accumulator lists every key once |
| Grouping.GroupOfStep | src/app/blog/page.tsx:92-95 | one reduce step leaves other buckets alone and appends to (or opens) its own |
| Grouping.ReduceStep | src/app/blog/page.tsx:92-96 | one callback step turns the buckets of a prefix into the buckets of the prefix with one more post |
| Grouping.GroupMapExt | src/app/blog/page.tsx:92-96 | an accumulator with the right keys and buckets is the specified one |
| Grouping.BucketNewestFirst | src/app/blog/page.tsx:59-95 | a bucket taken from a newest-first list is newest first |
| Grouping.ConcatBucketsStep | src/app/blog/page.tsx:95 | appending a post adds it once to the concatenated buckets |
| Grouping.ConcatBucketsPermutes | src/app/blog/page.tsx:92-95 | the buckets of all keys together hold every post exactly once |
| Grouping.EmptyBuckets | src/app/blog/page.tsx:98 | with no posts every bucket is empty |
| Grouping.FlattenIsConcat | src/app/blog/page.tsx:119-121 | reading the buckets in key order gives the concatenated buckets |
| Grouping.SortedKeySet | src/app/blog/page.tsx:59 | sorting does not change the set of keys |
| Grouping.GroupedKeys | src/app/blog/page.tsx:101-121 | the displayed keys are exactly the bucket keys, without repeats, and the buckets are exactly the keys of the posts |
| Grouping.GroupedBuckets | src/app/blog/page.tsx:92-95 | every post is in the bucket of its key and in no other, and no bucket is empty |
| Grouping.BucketOfPermutation | src/app/blog/page.tsx:59-98 | the bucket of a key, built over the sorted posts, holds exactly the input posts with that key and is not empty |
| Grouping.GroupedPartition | src/app/blog/page.tsx:58-124 | the buckets in display order hold exactly the displayed posts, each as many times as it occurs |
| Grouping.GroupedNewestFirst | src/app/blog/page.tsx:59-95 | inside every bucket the posts are newest first |
| Grouping.GroupedLabels | src/app/blog/page.tsx:92-93 | a bucket's label is non-empty and is the label of each of its posts |
| Grouping.GroupLabelCorrect | src/app/blog/page.tsx:122 | `getGroupLabel` returns a bucket's label and falls back to the key for unknown keys |
| GroupOrder.WeekKeyParses | src/app/blog/page.tsx:76-114 | the week comparator reads a post's own year and week off its key |
| GroupOrder.WeekRanksDistinct | src/app/blog/page.tsx:111-114 | no two week buckets tie in the week comparator |
| GroupOrder.GroupedKeysStrictlySorted | src/app/blog/page.tsx:101-117 | each displayed key comes strictly before every key after it |
| GroupOrder.CategoryKeysOrdered | src/app/blog/page.tsx:102-107 | listed categories come before unlisted ones, listed ones in list order, unlisted ones alphabetically |
| GroupOrder.WeekKeysOrdered | src/app/blog/page.tsx:110-114 | week buckets go by year, newest first, then by week, newest first |
| GroupOrder.DateKeysDescending | src/app/blog/page.tsx:116 | day, month and year keys are in descending string order |
| GroupOrder.DateKeysChronological | src/app/blog/page.tsx:116 | in day, month and year modes the posts of an earlier bucket are from a later day, month or year than those of any later bucket (dates with four-digit years) |
| Editing.Slugs | src/app/blog/page.tsx:151 | the selection built from a list of posts holds exactly their slugs |
| Editing.SlugsStep | src/app/blog/page.tsx:164-166 | one more post adds its slug to the slug set |
| Editing.Toggled | src/app/blog/page.tsx:141-146 | toggling flips the slug's membership and leaves every other slug alone |
| Editing.ToggleTwice | src/app/blog/page.tsx:141-146 | toggling the same slug twice restores the selection |
| Editing.ApplyGroupSelection | src/app/blog/page.tsx:162-168 | the loop removes every group slug when all were selected and adds them all otherwise; other slugs keep their state |
| Editing.HasSlug | src/app/blog/page.tsx:208 | `posts.some(p => p.slug === slug)` |
| Editing.AllSelected | src/app/blog/page.tsx:160 | `group.items.every(item => selectedSlugs.has(item.slug))` |
| Editing.GroupToggled | src/app/blog/page.tsx:155-168 | a group click: remove the group's slugs when all are selected, otherwise add them |
| Editing.GroupToggledTwice | src/app/blog/page.tsx:155-171 | clicking a group twice restores a fully selected group and leaves any other group fully deselected; an empty group changes nothing |
| Editing.Remaining | src/app/blog/page.tsx:193 | the draft keeps exactly the unselected posts, each as often as before, in their order |
| Editing.RemovedSlugs | src/app/blog/page.tsx:208 | the removed slugs are exactly the original slugs missing from the draft, no more of them than there are original posts; there are none exactly when every original slug is still in the draft |
| Editing.RemovedSlugsInOrder | src/app/blog/page.tsx:208 | the removed slugs in full: one per original post whose slug the draft lacks, in original order |
| Editing.SelectedSlugs | src/app/blog/page.tsx:208 | the slugs of the posts whose slug is in a given set, one per post, in order: the filter-then-map shape of the diff |
| Editing.SelectedSlugsEmptyIff | src/app/blog/page.tsx:208-213 | no selected slugs exactly when no post is selected |
| Editing.RemovedSlugsAre | src/app/blog/page.tsx:208 | with a draft that keeps exactly the unselected slugs, the removed slugs are the selected ones in original order |
| Editing.DeleteThenDiff | src/app/blog/page.tsx:188-213 | deleting the selection and then diffing reports the selected slugs, in index order |
| Editing.AddedCategory | src/app/blog/page.tsx:197-205 | the list gains the trimmed name at its end exactly when that name is non-empty and new; nothing else changes |
| Editing.AddedCategoryKeepsDistinct | src/app/blog/page.tsx:202 | adding never creates a duplicate, and adding the same input again changes nothing |
| BlogPage.FailureNotice | src/app/blog/page.tsx:223 | a failed save shows the error's message, or "Save failed" when it has none |
| BlogPage.Page.constructor | src/app/blog/page.tsx:36-54 | the loaded page is out of edit mode in year mode, with the draft equal to the index and nothing selected |
| BlogPage.Page.DisplayItems | src/app/blog/page.tsx:56 | the draft while editing, the published index otherwise |
| BlogPage.Page.View | src/app/blog/page.tsx:58-124 | the grouped view of the displayed posts under the current mode and category list |
| BlogPage.Page.SetDisplayMode | src/app/blog/page.tsx:41 | the display mode becomes the one chosen |
| BlogPage.Page.ToggleEditMode | src/app/blog/page.tsx:129-138 | edit mode flips and the draft restarts from the index; leaving edit mode also clears the selection |
| BlogPage.Page.ToggleSelect | src/app/blog/page.tsx:140-147 | the selection becomes the toggled selection |
| BlogPage.Page.ItemClick | src/app/blog/page.tsx:178-186 | a click toggles the post only in edit mode |
| BlogPage.Page.SelectAll | src/app/blog/page.tsx:150-152 | the selection becomes exactly the draft's slugs |
| BlogPage.Page.SelectGroup | src/app/blog/page.tsx:155-171 | an unknown bucket key changes nothing; otherwise the bucket's slugs are all removed if all were selected, else all added |
| BlogPage.Page.DeselectAll | src/app/blog/page.tsx:174-176 | the selection becomes empty |
| BlogPage.Page.DeleteSelected | src/app/blog/page.tsx:188-195 | with nothing selected only a notice is shown; otherwise the draft loses the selected posts and the selection is cleared |
| BlogPage.Page.SetNewCategory | src/app/blog/page.tsx:44 | the category input holds the typed value |
| BlogPage.Page.SetCategoryModalOpen | src/app/blog/page.tsx:42 | the category dialog is open or closed as asked |
| BlogPage.Page.AddCategory | src/app/blog/page.tsx:197-205 | a blank name shows a notice and keeps the input; any other name updates the list as `AddedCategory` does and clears the input |
| BlogPage.Page.Save | src/app/blog/page.tsx:207-227 | no removed slugs: only the "No changes to save" notice; otherwise the writer gets the index, the draft and the category list; on success edit mode ends, the selection clears and the dialog closes; on failure nothing changes and the error notice is returned |
| BlogPage.Page.SaveClick | src/app/blog/page.tsx:229-235 | without a key the click only requests one and changes nothing; with a key it has exactly the three outcomes of a save |
| BlogPage.DeleteThenSave | src/app/blog/page.tsx:188-213 | after deleting a selection from the unedited index, the save stops at "No changes to save" exactly when none of the index was selected |

## Left out

- Calendar arithmetic. dayjs and its `weekOfYear` plugin are not modelled. A post carries its timestamp and the year, month, day and locale week that dayjs would read from its date. Date strings that do not parse, which give `NaN` timestamps, are not modelled.
- `localeCompare` is modelled as plain code-point lexicographic order. Locale collation rules are not modelled.
- `Number.MAX_SAFE_INTEGER` is not used as a rank. An unlisted category gets the rank `Unlisted`, which sorts after every listed position, exactly as the sentinel does for lists shorter than 2^53.
- GroupOrder.DateKeysChronological: only dates with years below 10000 and two-digit months and days are covered. A five-digit year makes the key longer, and string order then no longer follows the calendar.
- Grouping.AddPost: the accumulator is a plain object, so `acc[key]` also finds the properties every object inherits. For a category named `constructor`, `toString`, `valueOf`, `hasOwnProperty`, `__proto__` or another `Object.prototype` member, `!acc[key]` is false, no bucket is opened, and `acc[key].items.push` throws a TypeError, so the whole grouping throws. The model uses a map and opens an ordinary bucket for such a name.
- `KeyOrder.WeekRank`: a week key whose parts are not both non-empty digit strings ranks as (0, 0). JavaScript would instead compare `NaN` for a missing part, 0 for an empty one, and the number for signed or decimal text. Every key the page itself builds parses (`GroupKeys.WeekKeyRoundTrip`), so the difference cannot show.
- `Text.ToNumber` reads non-empty digit strings only and gives None for every other string. JavaScript `Number` gives 0 for the empty string and also reads signs, decimal points, exponents, hexadecimal and surrounding white space; the pieces of the week keys the page builds are never of those kinds.
- `Object.keys` lists integer-like keys (such as a year bucket "2024") in numeric order before the other keys. The model lists the keys in first-seen order instead. `KeyOrder.StrictlySortedUnique` shows that the sorted order does not depend on this.
- The data hooks (`useBlogIndex`, `useCategories`, `useReadArticles`, `useAuthStore`, `useConfigStore`) are not modelled. The constructor takes the loaded index and category list instead.
- The two `useEffect` re-syncs (lines 46-54) are not modelled. The model does not copy a changed index into the draft outside edit mode. When edit mode ends, including after a successful save, the effect copies the current index into the draft; the model leaves the draft as it was.
- `saveBlogEdits` is not modelled. `Save` states the arguments it is called with (the index, the draft and the category list) and takes its outcome, success or an error with a message, as an input.
- The `saving` flag, the toast calls and `console.error` are not modelled. The toasts are returned as `Notice` values instead.
- The private-key import (`handlePrivateKeySelection`, `readFileAsText`, `setPrivateKey`) is not modelled. Without a key, `SaveClick` only reports that the key picker opens.
- The rendering is not modelled: JSX, animation, `ANIMATION_DELAY`/`INIT_DELAY`, and `src/consts.ts`.
- React's batching of state updates is not modelled. Each handler is one atomic method, so the `selectedSlugs` captured by `handleSelectGroup` is the same set its setter receives as `prev`.
