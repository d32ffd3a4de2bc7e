// The order in which the page lists its buckets, stated per display mode
// on the result of the grouping.
module GroupOrder {
  import opened Text
  import opened Posts
  import opened GroupKeys
  import opened KeyOrder
  import opened Grouping

  /** In week mode a bucket key spells the year and week of the posts in that bucket. */
  lemma WeekKeyParses(p: Post, k: string)
    requires KeyOf(p, Week) == k
    ensures WeekRank(k) == (p.date.year, p.date.week)
  {
    assert k == WeekKey(p.date.year, p.date.week);
    WeekKeyRoundTrip(p.date.year, p.date.week);
  }

  /** Different week-mode bucket keys parse to different (year, week) pairs. */
  lemma WeekRanksDistinct(items: seq<Post>, cats: seq<string>, a: string, b: string)
    requires a in Grouped(items, Week, cats).groups && b in Grouped(items, Week, cats).groups
    requires a != b
    ensures WeekRank(a) != WeekRank(b)
  {
    var key := KeyFn(Week);
    GroupedKeys(items, Week, cats);
    KeySetMembers(items, key);
    assert a in KeySet(items, key) && b in KeySet(items, key);
    var p :| p in items && key(p) == a;
    var q :| q in items && key(q) == b;
    WeekKeyParses(p, a);
    WeekKeyParses(q, b);
    assert a == WeekKey(p.date.year, p.date.week) && b == WeekKey(q.date.year, q.date.week);
  }

  /** The comparator puts every displayed key strictly before the keys that follow it. */
  lemma GroupedKeysStrictlySorted(items: seq<Post>, mode: DisplayMode, cats: seq<string>)
    ensures StrictlySorted(mode, cats, Grouped(items, mode, cats).keys)
  {
    var view := Grouped(items, mode, cats);
    var sorted := SortByDateDesc(items);
    OrderKeysCorrect(mode, cats, FirstKeys(sorted, KeyFn(mode)));
    GroupedKeys(items, mode, cats);
    if mode == Week {
      forall i, j | 0 <= i < j < |view.keys| ensures WeekRank(view.keys[i]) != WeekRank(view.keys[j]) {
        WeekRanksDistinct(items, cats, view.keys[i], view.keys[j]);
      }
    }
    SortedDistinctIsStrict(mode, cats, view.keys);
  }

  /**
   * Category mode: a category of the list comes before any category not in
   * it, listed categories follow their (last) position in the list, and
   * unlisted ones follow each other alphabetically.
   */
  lemma CategoryKeysOrdered(items: seq<Post>, cats: seq<string>, i: nat, j: nat)
    requires i < j < |Grouped(items, Category, cats).keys|
    ensures var a, b := Grouped(items, Category, cats).keys[i], Grouped(items, Category, cats).keys[j];
      && !(a !in cats && b in cats)
      && (a in cats && b in cats ==> CategoryRank(cats, a).index < CategoryRank(cats, b).index)
      && (a !in cats && b !in cats ==> StrLess(a, b))
  {
    var keys := Grouped(items, Category, cats).keys;
    GroupedKeysStrictlySorted(items, Category, cats);
    GroupedKeys(items, Category, cats);
    assert Before(Category, cats, keys[i], keys[j]);
  }

  /**
   * Week mode: the posts of an earlier bucket are from a later year, or from
   * the same year and a later week, than the posts of any later bucket.
   */
  lemma WeekKeysOrdered(items: seq<Post>, cats: seq<string>, i: nat, j: nat, p: Post, q: Post)
    requires i < j < |Grouped(items, Week, cats).keys|
    requires KeyOf(p, Week) == Grouped(items, Week, cats).keys[i]
    requires KeyOf(q, Week) == Grouped(items, Week, cats).keys[j]
    ensures p.date.year > q.date.year || (p.date.year == q.date.year && p.date.week > q.date.week)
  {
    var keys := Grouped(items, Week, cats).keys;
    GroupedKeysStrictlySorted(items, Week, cats);
    WeekKeyParses(p, keys[i]);
    WeekKeyParses(q, keys[j]);
    assert Before(Week, cats, keys[i], keys[j]);
  }

  /** Day, month and year modes: the keys are listed in descending string order. */
  lemma DateKeysDescending(items: seq<Post>, mode: DisplayMode, cats: seq<string>, i: nat, j: nat)
    requires mode == Day || mode == Month || mode == Year
    requires i < j < |Grouped(items, mode, cats).keys|
    ensures StrLess(Grouped(items, mode, cats).keys[j], Grouped(items, mode, cats).keys[i])
  {
    GroupedKeysStrictlySorted(items, mode, cats);
  }

  /**
   * Day, month and year modes, for dates with four-digit years: the posts of
   * an earlier bucket are from a later day, month or year than the posts of
   * any later bucket, so descending string order is reverse chronological.
   */
  lemma DateKeysChronological(items: seq<Post>, mode: DisplayMode, cats: seq<string>, i: nat, j: nat, p: Post, q: Post)
    requires mode == Day || mode == Month || mode == Year
    requires i < j < |Grouped(items, mode, cats).keys|
    requires FitsKey(p.date) && FitsKey(q.date)
    requires KeyOf(p, mode) == Grouped(items, mode, cats).keys[i]
    requires KeyOf(q, mode) == Grouped(items, mode, cats).keys[j]
    ensures LaterThan(mode, p.date, q.date)
  {
    DateKeysDescending(items, mode, cats, i, j);
    match mode
    case Day => DayKeyOrder(p.date, q.date);
    case Month => MonthKeyOrder(p.date, q.date);
    case Year => YearKeyOrder(p.date, q.date);
  }
}
