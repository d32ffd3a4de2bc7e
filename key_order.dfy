// The order of the bucket keys (`Object.keys(grouped).sort(...)`): by
// position in the category list in category mode, by year and then week
// (both newest first) in week mode, and by descending string order in the
// day, month and year modes.
module KeyOrder {
  import opened Text
  import opened Posts
  import opened GroupKeys

  /** Where a key sits in the category list; `Unlisted` replaces the `Number.MAX_SAFE_INTEGER` sentinel. */
  datatype Rank = Listed(index: nat) | Unlisted

  /**
   * `new Map(categoryList.map((c, index) => [c, index])).get(k)`: a later
   * entry overwrites an earlier one, so a repeated name ranks at its last index.
   */
  function CategoryRank(list: seq<string>, k: string): (r: Rank)
    ensures r.Listed? <==> k in list
    ensures r.Listed? ==> r.index < |list| && list[r.index] == k
    ensures r.Listed? ==> forall j :: r.index < j < |list| ==> list[j] != k
  {
    if list == [] then Unlisted
    else if list[|list| - 1] == k then Listed(|list| - 1)
    else CategoryRank(list[..|list| - 1], k)
  }

  /** `aOrder - bOrder < 0`. */
  predicate RankBefore(a: Rank, b: Rank)
  {
    a.Listed? && (b.Unlisted? || a.index < b.index)
  }

  /** The numbers the week comparator reads from a key; a key that does not parse counts as (0, 0). */
  function WeekRank(k: string): (nat, nat)
  {
    match WeekParts(k)
    case Some(p) => p
    case None => (0, 0)
  }

  /** The comparator's answer is negative: key `a` is listed before key `b`. */
  predicate Before(mode: DisplayMode, cats: seq<string>, a: string, b: string)
  {
    match mode
    case Category =>
      var ra, rb := CategoryRank(cats, a), CategoryRank(cats, b);
      if ra != rb then RankBefore(ra, rb) else StrLess(a, b)
    case Week =>
      var (ya, wa) := WeekRank(a);
      var (yb, wb) := WeekRank(b);
      ya > yb || (ya == yb && wa > wb)
    case _ => StrLess(b, a)
  }

  lemma BeforeIrreflexive(mode: DisplayMode, cats: seq<string>, a: string)
    ensures !Before(mode, cats, a, a)
  {
    StrLessIrreflexive(a);
  }

  lemma BeforeAsymmetric(mode: DisplayMode, cats: seq<string>, a: string, b: string)
    requires Before(mode, cats, a, b)
    ensures !Before(mode, cats, b, a)
  {
    match mode
    case Category =>
      if CategoryRank(cats, a) == CategoryRank(cats, b) {
        StrLessAsymmetric(a, b);
      }
    case Week =>
    case _ =>
      StrLessAsymmetric(b, a);
  }

  lemma BeforeTransitive(mode: DisplayMode, cats: seq<string>, a: string, b: string, c: string)
    requires Before(mode, cats, a, b) && Before(mode, cats, b, c)
    ensures Before(mode, cats, a, c)
  {
    match mode
    case Category =>
      var ra, rb, rc := CategoryRank(cats, a), CategoryRank(cats, b), CategoryRank(cats, c);
      if ra == rb && rb == rc {
        StrLessTransitive(a, b, c);
      }
    case Week =>
    case _ =>
      StrLessTransitive(c, b, a);
  }

  /** Outside week mode any two different keys are ordered, so the comparator never reports a tie. */
  lemma BeforeTotal(mode: DisplayMode, cats: seq<string>, a: string, b: string)
    requires a != b
    requires mode == Week ==> WeekRank(a) != WeekRank(b)
    ensures Before(mode, cats, a, b) || Before(mode, cats, b, a)
  {
    match mode
    case Category =>
      var ra, rb := CategoryRank(cats, a), CategoryRank(cats, b);
      if ra == rb {
        StrLessTotal(a, b);
      }
    case Week =>
    case _ =>
      StrLessTotal(a, b);
  }

  /** "Not after" is transitive: the comparator is a consistent (strict weak) order for the sort. */
  lemma NotBeforeTransitive(mode: DisplayMode, cats: seq<string>, a: string, b: string, c: string)
    requires !Before(mode, cats, b, a) && !Before(mode, cats, c, b)
    ensures !Before(mode, cats, c, a)
  {
    if mode == Week {
    } else if a != b && b != c && Before(mode, cats, c, a) {
      BeforeTotal(mode, cats, a, b);
      BeforeTotal(mode, cats, b, c);
      BeforeTransitive(mode, cats, a, b, c);
      BeforeAsymmetric(mode, cats, a, c);
    }
  }

  // ---------------------------------------------------------------------
  // Sorting the keys
  // ---------------------------------------------------------------------

  predicate Sorted(mode: DisplayMode, cats: seq<string>, s: seq<string>)
  {
    forall i, j :: 0 <= i < j < |s| ==> !Before(mode, cats, s[j], s[i])
  }

  predicate StrictlySorted(mode: DisplayMode, cats: seq<string>, s: seq<string>)
  {
    forall i, j :: 0 <= i < j < |s| ==> Before(mode, cats, s[i], s[j])
  }

  function InsertKey(mode: DisplayMode, cats: seq<string>, k: string, s: seq<string>): seq<string>
  {
    if s == [] then [k]
    else if Before(mode, cats, s[0], k) then [s[0]] + InsertKey(mode, cats, k, s[1..])
    else [k] + s
  }

  /** `Array.prototype.sort` with the key comparator. */
  function OrderKeys(mode: DisplayMode, cats: seq<string>, keys: seq<string>): seq<string>
  {
    if keys == [] then [] else InsertKey(mode, cats, keys[0], OrderKeys(mode, cats, keys[1..]))
  }

  lemma {:induction false} InsertKeyPermutes(mode: DisplayMode, cats: seq<string>, k: string, s: seq<string>)
    ensures multiset(InsertKey(mode, cats, k, s)) == multiset(s) + multiset{k}
  {
    if s != [] && Before(mode, cats, s[0], k) {
      InsertKeyPermutes(mode, cats, k, s[1..]);
      assert s == [s[0]] + s[1..];
    }
  }

  lemma {:induction false} InsertKeySorted(mode: DisplayMode, cats: seq<string>, k: string, s: seq<string>)
    requires Sorted(mode, cats, s)
    ensures Sorted(mode, cats, InsertKey(mode, cats, k, s))
  {
    if s == [] {
    } else if Before(mode, cats, s[0], k) {
      var rest := InsertKey(mode, cats, k, s[1..]);
      InsertKeySorted(mode, cats, k, s[1..]);
      InsertKeyPermutes(mode, cats, k, s[1..]);
      forall j | 0 <= j < |rest| ensures !Before(mode, cats, rest[j], s[0]) {
        assert rest[j] in multiset(rest);
        if rest[j] == k {
          BeforeAsymmetric(mode, cats, s[0], k);
        } else {
          assert rest[j] in s[1..];
        }
      }
    } else {
      forall j | 0 <= j < |s| ensures !Before(mode, cats, s[j], k) {
        if j > 0 {
          NotBeforeTransitive(mode, cats, k, s[0], s[j]);
        }
      }
      assert InsertKey(mode, cats, k, s) == [k] + s;
    }
  }

  /** The key sort only reorders its input and leaves it in comparator order. */
  lemma {:induction false} OrderKeysCorrect(mode: DisplayMode, cats: seq<string>, keys: seq<string>)
    ensures multiset(OrderKeys(mode, cats, keys)) == multiset(keys)
    ensures Sorted(mode, cats, OrderKeys(mode, cats, keys))
  {
    if keys != [] {
      OrderKeysCorrect(mode, cats, keys[1..]);
      InsertKeyPermutes(mode, cats, keys[0], OrderKeys(mode, cats, keys[1..]));
      InsertKeySorted(mode, cats, keys[0], OrderKeys(mode, cats, keys[1..]));
      assert keys == [keys[0]] + keys[1..];
    }
  }

  /** Sorted keys without repeats, any two of them ordered by the comparator, are strictly increasing. */
  lemma SortedDistinctIsStrict(mode: DisplayMode, cats: seq<string>, s: seq<string>)
    requires Sorted(mode, cats, s) && NoDuplicates(s)
    requires mode == Week ==> forall i, j :: 0 <= i < j < |s| ==> WeekRank(s[i]) != WeekRank(s[j])
    ensures StrictlySorted(mode, cats, s)
  {
    forall i, j | 0 <= i < j < |s| ensures Before(mode, cats, s[i], s[j]) {
      BeforeTotal(mode, cats, s[i], s[j]);
    }
  }

  /**
   * Two strictly increasing arrangements of the same keys are the same
   * sequence: the sorted key list does not depend on the order in which
   * `Object.keys` listed the buckets.
   */
  lemma {:induction false} StrictlySortedUnique(mode: DisplayMode, cats: seq<string>, s: seq<string>, t: seq<string>)
    requires StrictlySorted(mode, cats, s) && StrictlySorted(mode, cats, t)
    requires forall k :: k in s <==> k in t
    ensures s == t
  {
    if s != [] {
      assert s[0] in t;
    }
    if t != [] {
      assert t[0] in s;
    }
    if s != [] && t != [] {
      var m :| 0 <= m < |s| && s[m] == t[0];
      var n :| 0 <= n < |t| && t[n] == s[0];
      if m > 0 {
        assert Before(mode, cats, s[0], t[0]);
        if n > 0 {
          BeforeAsymmetric(mode, cats, t[0], s[0]);
        } else {
          BeforeIrreflexive(mode, cats, s[0]);
        }
      }
      assert s[0] == t[0];
      forall k ensures k in s[1..] <==> k in t[1..] {
        if k in s[1..] {
          var i :| 1 <= i < |s| && s[i] == k;
          assert Before(mode, cats, s[0], k);
          BeforeIrreflexive(mode, cats, k);
          assert k in t;
        }
        if k in t[1..] {
          var i :| 1 <= i < |t| && t[i] == k;
          assert Before(mode, cats, t[0], k);
          BeforeIrreflexive(mode, cats, k);
          assert k in s;
        }
      }
      StrictlySortedUnique(mode, cats, s[1..], t[1..]);
      assert s == [s[0]] + s[1..] && t == [t[0]] + t[1..];
    }
  }

  /** A key list without repeats has every key at most once in its multiset. */
  lemma {:induction false} DistinctCount(s: seq<string>, k: string)
    requires NoDuplicates(s)
    ensures multiset(s)[k] <= 1
  {
    if s != [] {
      DistinctCount(s[1..], k);
      assert s == [s[0]] + s[1..];
    }
  }

  /** A key list whose multiset holds every key at most once has no repeats. */
  lemma {:induction false} CountDistinct(s: seq<string>)
    requires forall k :: multiset(s)[k] <= 1
    ensures NoDuplicates(s)
  {
    if s != [] {
      assert s == [s[0]] + s[1..];
      assert multiset(s)[s[0]] == multiset(s[1..])[s[0]] + 1;
      forall k ensures multiset(s[1..])[k] <= 1 {
        assert multiset(s)[k] >= multiset(s[1..])[k];
      }
      CountDistinct(s[1..]);
      assert s[0] !in s[1..];
    }
  }

  /** Sorting keeps exactly the keys it was given and introduces no repeats. */
  lemma OrderKeysKeepsKeys(mode: DisplayMode, cats: seq<string>, keys: seq<string>)
    requires NoDuplicates(keys)
    ensures forall k :: k in OrderKeys(mode, cats, keys) <==> k in keys
    ensures NoDuplicates(OrderKeys(mode, cats, keys))
  {
    var sorted := OrderKeys(mode, cats, keys);
    OrderKeysCorrect(mode, cats, keys);
    forall k ensures k in sorted <==> k in keys {
      assert k in sorted <==> k in multiset(sorted);
      assert k in keys <==> k in multiset(keys);
    }
    forall k ensures multiset(sorted)[k] <= 1 {
      DistinctCount(keys, k);
    }
    CountDistinct(sorted);
  }
}
