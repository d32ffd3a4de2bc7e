// The post records the blog index supplies, the display modes, and the
// newest-first ordering the page applies before grouping
// (`[...displayItems].sort((a, b) => b.date - a.date)`).
module Posts {
  import opened Text

  /** The calendar fields dayjs reads off a post's date; `week` is dayjs' locale week-of-year. */
  datatype CalendarDate = CalendarDate(year: nat, month: nat, day: nat, week: nat)

  /** One entry of the blog index; `time` is the date as a timestamp, `category` may be missing. */
  datatype Post = Post(slug: string, time: int, date: CalendarDate, category: Option<string>)

  datatype DisplayMode = Day | Week | Month | Year | Category

  // ---------------------------------------------------------------------
  // Newest-first sort
  // ---------------------------------------------------------------------

  predicate NewestFirst(s: seq<Post>)
  {
    forall i, j :: 0 <= i < j < |s| ==> s[i].time >= s[j].time
  }

  /** The posts of `s` dated exactly `t`, in their order in `s`. */
  function DatedAt(s: seq<Post>, t: int): (r: seq<Post>)
    ensures |r| <= |s|
    ensures forall p :: p in r <==> p in s && p.time == t
  {
    if s == [] then []
    else (if s[0].time == t then [s[0]] else []) + DatedAt(s[1..], t)
  }

  /** Places `p` before the first post of `s` that is not newer than it. */
  function InsertByDate(p: Post, s: seq<Post>): (r: seq<Post>)
  {
    if s == [] then [p]
    else if p.time >= s[0].time then [p] + s
    else [s[0]] + InsertByDate(p, s[1..])
  }

  /** The page's sort: newest first, posts with equal dates in input order (a stable sort). */
  function SortByDateDesc(s: seq<Post>): (r: seq<Post>)
  {
    if s == [] then [] else InsertByDate(s[0], SortByDateDesc(s[1..]))
  }

  lemma {:induction false} InsertByDatePermutes(p: Post, s: seq<Post>)
    ensures multiset(InsertByDate(p, s)) == multiset(s) + multiset{p}
  {
    if s != [] && p.time < s[0].time {
      var rest := InsertByDate(p, s[1..]);
      InsertByDatePermutes(p, s[1..]);
      assert InsertByDate(p, s) == [s[0]] + rest;
      assert s == [s[0]] + s[1..];
      assert multiset(s) == multiset{s[0]} + multiset(s[1..]);
    } else {
      assert InsertByDate(p, s) == [p] + s;
    }
  }

  lemma {:induction false} InsertByDateSorted(p: Post, s: seq<Post>)
    requires NewestFirst(s)
    ensures NewestFirst(InsertByDate(p, s))
  {
    if s != [] && p.time < s[0].time {
      var rest := InsertByDate(p, s[1..]);
      var r := [s[0]] + rest;
      assert InsertByDate(p, s) == r;
      InsertByDateSorted(p, s[1..]);
      InsertByDatePermutes(p, s[1..]);
      forall k | 0 <= k < |rest| ensures s[0].time >= rest[k].time {
        assert rest[k] in multiset(rest);
        if rest[k] != p {
          assert rest[k] in multiset(s[1..]);
          var m :| 0 <= m < |s[1..]| && s[1..][m] == rest[k];
          assert s[m + 1] == rest[k];
        }
      }
      forall i, j | 0 <= i < j < |r| ensures r[i].time >= r[j].time {
        assert r[j] == rest[j - 1];
        if i > 0 {
          assert r[i] == rest[i - 1];
        }
      }
    } else {
      var r := [p] + s;
      assert InsertByDate(p, s) == r;
      forall i, j | 0 <= i < j < |r| ensures r[i].time >= r[j].time {
        assert r[j] == s[j - 1];
        if i > 0 {
          assert r[i] == s[i - 1];
        }
      }
    }
  }

  lemma {:induction false} InsertByDateStable(p: Post, s: seq<Post>, t: int)
    ensures DatedAt(InsertByDate(p, s), t) == (if p.time == t then [p] else []) + DatedAt(s, t)
  {
    if s != [] && p.time < s[0].time {
      var rest := InsertByDate(p, s[1..]);
      var r := [s[0]] + rest;
      InsertByDateStable(p, s[1..], t);
      assert InsertByDate(p, s) == r;
      assert r[0] == s[0] && r[1..] == rest;
      if s[0].time == t {
        assert p.time != t;
        assert DatedAt(r, t) == [s[0]] + DatedAt(rest, t);
        assert DatedAt(s, t) == [s[0]] + DatedAt(s[1..], t);
      } else {
        assert DatedAt(r, t) == DatedAt(rest, t);
        assert DatedAt(s, t) == DatedAt(s[1..], t);
      }
    } else {
      var r := [p] + s;
      assert InsertByDate(p, s) == r;
      assert r[0] == p && r[1..] == s;
    }
  }

  /** The sort puts the newest post first and only reorders: it is a permutation of its input. */
  lemma {:induction false} SortByDateDescCorrect(s: seq<Post>)
    ensures NewestFirst(SortByDateDesc(s))
    ensures multiset(SortByDateDesc(s)) == multiset(s)
  {
    if s != [] {
      SortByDateDescCorrect(s[1..]);
      InsertByDateSorted(s[0], SortByDateDesc(s[1..]));
      InsertByDatePermutes(s[0], SortByDateDesc(s[1..]));
      assert s == [s[0]] + s[1..];
    }
  }

  /** The sort is stable: posts sharing a date keep their input order. */
  lemma {:induction false} SortByDateDescStable(s: seq<Post>, t: int)
    ensures DatedAt(SortByDateDesc(s), t) == DatedAt(s, t)
  {
    if s != [] {
      SortByDateDescStable(s[1..], t);
      SortByDateDescCorrect(s[1..]);
      InsertByDateStable(s[0], SortByDateDesc(s[1..]), t);
    }
  }
}
