// The page's `useMemo`: sort the displayed posts newest first, append each
// one to the bucket of its key (creating the bucket with that post's label
// the first time the key is seen), then order the bucket keys.
module Grouping {
  import opened Text
  import opened Posts
  import opened GroupKeys
  import opened KeyOrder

  datatype Group = Group(items: seq<Post>, caption: string)

  /** `{ groupedItems, groupKeys }`: the buckets by key, and the keys in display order. */
  datatype GroupView = GroupView(groups: map<string, Group>, keys: seq<string>)

  // ---------------------------------------------------------------------
  // Specification of the accumulator, for any key and label function
  // ---------------------------------------------------------------------

  /** The key function of a display mode. */
  function KeyFn(mode: DisplayMode): Post -> string
  {
    p => KeyOf(p, mode)
  }

  /** The label function of a display mode. */
  function LabelFn(mode: DisplayMode): Post -> string
  {
    p => LabelOf(p, mode)
  }

  /** The keys of the posts in `s`. */
  function KeySet(s: seq<Post>, key: Post -> string): set<string>
  {
    if s == [] then {} else KeySet(s[..|s| - 1], key) + {key(s[|s| - 1])}
  }

  /** The posts of `s` whose key is `k`, in their order in `s`. */
  function Bucket(s: seq<Post>, key: Post -> string, k: string): seq<Post>
  {
    if s == [] then []
    else Bucket(s[..|s| - 1], key, k) + (if key(s[|s| - 1]) == k then [s[|s| - 1]] else [])
  }

  /** The keys of `s` in order of first appearance: the insertion order of the accumulator object. */
  function FirstKeys(s: seq<Post>, key: Post -> string): seq<string>
  {
    if s == [] then []
    else
      var f := FirstKeys(s[..|s| - 1], key);
      if key(s[|s| - 1]) in f then f else f + [key(s[|s| - 1])]
  }

  /** The bucket for `k`, labelled by the post that opened it. */
  function GroupOf(s: seq<Post>, key: Post -> string, labelOf: Post -> string, k: string): Group
  {
    var b := Bucket(s, key, k);
    Group(b, if b == [] then k else labelOf(b[0]))
  }

  function GroupMap(s: seq<Post>, key: Post -> string, labelOf: Post -> string): map<string, Group>
  {
    map k | k in KeySet(s, key) :: GroupOf(s, key, labelOf, k)
  }

  /** What the `useMemo` computes from the displayed posts, the mode and the category list. */
  function Grouped(items: seq<Post>, mode: DisplayMode, cats: seq<string>): GroupView
  {
    var sorted := SortByDateDesc(items);
    GroupView(GroupMap(sorted, KeyFn(mode), LabelFn(mode)), OrderKeys(mode, cats, FirstKeys(sorted, KeyFn(mode))))
  }

  /** `getGroupLabel`: `grouped[key]?.label || key` (the label is the `caption` field). */
  function GroupLabel(view: GroupView, key: string): string
  {
    if key in view.groups && view.groups[key].caption != [] then view.groups[key].caption else key
  }

  /** The bucket contents in display order, one bucket after the other. */
  function Flatten(view: GroupView): seq<Post>
  {
    FlattenKeys(view.groups, view.keys)
  }

  function FlattenKeys(groups: map<string, Group>, keys: seq<string>): seq<Post>
  {
    if keys == [] then []
    else (if keys[0] in groups then groups[keys[0]].items else []) + FlattenKeys(groups, keys[1..])
  }

  // ---------------------------------------------------------------------
  // The reduce, as the loop it is
  // ---------------------------------------------------------------------

  /**
   * `sorted.reduce((acc, item) => { ...; if (!acc[key]) acc[key] = { items: [], label };
   * acc[key].items.push(item); return acc }, {})`, returning the accumulator
   * and its keys in insertion order.
   */
  method GroupPosts(sorted: seq<Post>, mode: DisplayMode) returns (groups: map<string, Group>, order: seq<string>)
    ensures groups == Reduce(sorted, KeyFn(mode), LabelFn(mode))
    ensures order == FirstKeys(sorted, KeyFn(mode))
  {
    ghost var key, labelOf := KeyFn(mode), LabelFn(mode);
    groups, order := map[], [];
    for i := 0 to |sorted|
      invariant groups == Reduce(sorted[..i], key, labelOf)
      invariant order == FirstKeys(sorted[..i], key)
    {
      var p := sorted[i];
      assert sorted[..i + 1][..i] == sorted[..i];
      assert key(p) == KeyOf(p, mode) && labelOf(p) == LabelOf(p, mode);
      ReduceKeys(sorted[..i], key, labelOf);
      FirstKeysMatchKeySet(sorted[..i], key);
      groups, order := AddPost(groups, order, p, mode);
    }
    assert sorted[..|sorted|] == sorted;
  }

  /**
   * The reduce callback for one post: open the post's bucket with its label
   * when the key is new (recording the key), then push the post.
   */
  method AddPost(acc: map<string, Group>, order: seq<string>, p: Post, mode: DisplayMode)
    returns (acc': map<string, Group>, order': seq<string>)
    ensures acc' == Accumulate(acc, KeyOf(p, mode), p, LabelOf(p, mode))
    ensures order' == if KeyOf(p, mode) in acc then order else order + [KeyOf(p, mode)]
  {
    var k := KeyOf(p, mode);
    acc', order' := acc, order;
    if k !in acc' {
      acc' := acc'[k := Group([], LabelOf(p, mode))];
      order' := order' + [k];
    }
    acc' := acc'[k := Group(acc'[k].items + [p], acc'[k].caption)];
  }

  /** The whole `useMemo`: sort, group, order the keys. */
  method ComputeGroups(items: seq<Post>, mode: DisplayMode, cats: seq<string>) returns (view: GroupView)
    ensures view == Grouped(items, mode, cats)
  {
    var sorted := SortByDateDesc(items);
    var groups, order := GroupPosts(sorted, mode);
    ReduceIsGroupMap(sorted, KeyFn(mode), LabelFn(mode));
    view := GroupView(groups, OrderKeys(mode, cats, order));
  }

  // ---------------------------------------------------------------------
  // Facts about buckets
  // ---------------------------------------------------------------------

  lemma BucketStep(s: seq<Post>, p: Post, key: Post -> string, k: string)
    ensures Bucket(s + [p], key, k) == Bucket(s, key, k) + (if key(p) == k then [p] else [])
  {
    assert (s + [p])[..|s + [p]| - 1] == s;
  }

  lemma {:induction false} BucketMembers(s: seq<Post>, key: Post -> string, k: string)
    ensures forall p :: p in Bucket(s, key, k) <==> p in s && key(p) == k
  {
    if s != [] {
      BucketMembers(s[..|s| - 1], key, k);
      assert s == s[..|s| - 1] + [s[|s| - 1]];
    }
  }

  lemma BucketEmptyIff(s: seq<Post>, key: Post -> string, k: string)
    ensures Bucket(s, key, k) == [] <==> k !in KeySet(s, key)
  {
    BucketMembers(s, key, k);
    KeySetMembers(s, key);
    if k in KeySet(s, key) {
      var p :| p in s && key(p) == k;
      assert p in Bucket(s, key, k);
    }
  }

  lemma KeySetStep(s: seq<Post>, p: Post, key: Post -> string)
    ensures KeySet(s + [p], key) == KeySet(s, key) + {key(p)}
  {
    assert (s + [p])[..|s + [p]| - 1] == s;
  }

  lemma {:induction false} KeySetMembers(s: seq<Post>, key: Post -> string)
    ensures forall k :: k in KeySet(s, key) <==> exists p :: p in s && key(p) == k
  {
    if s != [] {
      KeySetMembers(s[..|s| - 1], key);
      assert s == s[..|s| - 1] + [s[|s| - 1]];
    }
  }

  lemma {:induction false} FirstKeysMatchKeySet(s: seq<Post>, key: Post -> string)
    ensures forall k :: k in FirstKeys(s, key) <==> k in KeySet(s, key)
    ensures NoDuplicates(FirstKeys(s, key))
  {
    if s != [] {
      var s' := s[..|s| - 1];
      FirstKeysMatchKeySet(s', key);
      KeySetStep(s', s[|s| - 1], key);
      assert s == s' + [s[|s| - 1]];
    }
  }

  /** One step of the reduce for one key: the post lands in its key's bucket, opening it if it is new. */
  lemma GroupOfStep(s: seq<Post>, p: Post, key: Post -> string, labelOf: Post -> string, j: string)
    ensures GroupOf(s + [p], key, labelOf, j) ==
      if key(p) != j then GroupOf(s, key, labelOf, j)
      else if j in KeySet(s, key) then Group(GroupOf(s, key, labelOf, j).items + [p], GroupOf(s, key, labelOf, j).caption)
      else Group([p], labelOf(p))
  {
    BucketStep(s, p, key, j);
    BucketEmptyIff(s, key, j);
  }

  /**
   * One call of the reduce callback: open the bucket `k` with `caption`
   * unless it exists, then push `p` onto it.
   */
  function Accumulate(g: map<string, Group>, k: string, p: Post, caption: string): map<string, Group>
  {
    var g1 := if k !in g then g[k := Group([], caption)] else g;
    g1[k := Group(g1[k].items + [p], g1[k].caption)]
  }

  /** The reduce itself: `Accumulate` folded over `s` from the left, starting from `{}`. */
  function Reduce(s: seq<Post>, key: Post -> string, labelOf: Post -> string): map<string, Group>
  {
    if s == [] then map[]
    else
      var last := s[|s| - 1];
      Accumulate(Reduce(s[..|s| - 1], key, labelOf), key(last), last, labelOf(last))
  }

  /** The reduce callback turns the buckets of a prefix into the buckets of the prefix extended by one post. */
  lemma ReduceStep(prefix: seq<Post>, p: Post, key: Post -> string, labelOf: Post -> string)
    ensures Accumulate(GroupMap(prefix, key, labelOf), key(p), p, labelOf(p)) == GroupMap(prefix + [p], key, labelOf)
  {
    var g := Accumulate(GroupMap(prefix, key, labelOf), key(p), p, labelOf(p));
    KeySetStep(prefix, p, key);
    forall j | j in g ensures g[j] == GroupOf(prefix + [p], key, labelOf, j) {
      GroupOfStep(prefix, p, key, labelOf, j);
    }
    GroupMapExt(g, prefix + [p], key, labelOf);
  }

  /** The reduce opens a bucket for exactly the keys of the posts. */
  lemma {:induction false} ReduceKeys(s: seq<Post>, key: Post -> string, labelOf: Post -> string)
    ensures Reduce(s, key, labelOf).Keys == KeySet(s, key)
  {
    if s != [] {
      ReduceKeys(s[..|s| - 1], key, labelOf);
    }
  }

  /**
   * What the reduce builds: for every key of the posts, the posts with that
   * key in order, labelled by the first of them, and nothing else.
   */
  lemma {:induction false} ReduceIsGroupMap(s: seq<Post>, key: Post -> string, labelOf: Post -> string)
    ensures Reduce(s, key, labelOf) == GroupMap(s, key, labelOf)
  {
    if s == [] {
      assert GroupMap(s, key, labelOf) == map[];
    } else {
      var s', last := s[..|s| - 1], s[|s| - 1];
      ReduceIsGroupMap(s', key, labelOf);
      ReduceStep(s', last, key, labelOf);
      assert s == s' + [last];
    }
  }

  /** A map with the keys of `s` holding each key's bucket is the accumulator of `s`. */
  lemma GroupMapExt(g: map<string, Group>, s: seq<Post>, key: Post -> string, labelOf: Post -> string)
    requires g.Keys == KeySet(s, key)
    requires forall j :: j in g ==> g[j] == GroupOf(s, key, labelOf, j)
    ensures g == GroupMap(s, key, labelOf)
  {
  }

  lemma {:induction false} BucketNewestFirst(s: seq<Post>, key: Post -> string, k: string)
    requires NewestFirst(s)
    ensures NewestFirst(Bucket(s, key, k))
  {
    if s != [] {
      var s' := s[..|s| - 1];
      var last := s[|s| - 1];
      BucketNewestFirst(s', key, k);
      BucketMembers(s', key, k);
      var b := Bucket(s', key, k);
      forall i | 0 <= i < |b| ensures b[i].time >= last.time {
        assert b[i] in s';
      }
    }
  }

  function ConcatBuckets(s: seq<Post>, key: Post -> string, keys: seq<string>): seq<Post>
  {
    if keys == [] then [] else Bucket(s, key, keys[0]) + ConcatBuckets(s, key, keys[1..])
  }

  lemma {:induction false} ConcatBucketsStep(s: seq<Post>, p: Post, key: Post -> string, keys: seq<string>)
    requires NoDuplicates(keys)
    ensures multiset(ConcatBuckets(s + [p], key, keys))
      == multiset(ConcatBuckets(s, key, keys)) + (if key(p) in keys then multiset{p} else multiset{})
  {
    if keys != [] {
      var k, rest := keys[0], keys[1..];
      forall i, j | 0 <= i < j < |rest| ensures rest[i] != rest[j] {
        assert rest[i] == keys[i + 1] && rest[j] == keys[j + 1];
      }
      ConcatBucketsStep(s, p, key, rest);
      BucketStep(s, p, key, k);
      var x: multiset<Post> := if key(p) == k then multiset{p} else multiset{};
      var y: multiset<Post> := if key(p) in rest then multiset{p} else multiset{};
      assert x + y == if key(p) in keys then multiset{p} else multiset{} by {
        if key(p) == k {
          forall i | 0 <= i < |rest| ensures rest[i] != k {
            assert rest[i] == keys[i + 1];
          }
        }
        assert key(p) in keys <==> key(p) == k || key(p) in rest;
      }
      assert ConcatBuckets(s + [p], key, keys) == Bucket(s + [p], key, k) + ConcatBuckets(s + [p], key, rest);
      assert ConcatBuckets(s, key, keys) == Bucket(s, key, k) + ConcatBuckets(s, key, rest);
      SumOfSteps(multiset(Bucket(s, key, k)), multiset(ConcatBuckets(s, key, rest)), x, y);
    }
  }

  lemma SumOfSteps(b: multiset<Post>, c: multiset<Post>, x: multiset<Post>, y: multiset<Post>)
    ensures (b + x) + (c + y) == (b + c) + (x + y)
  {
  }

  /** Concatenating the buckets of every key, each once, gives back exactly the posts. */
  lemma {:induction false} ConcatBucketsPermutes(s: seq<Post>, key: Post -> string, keys: seq<string>)
    requires NoDuplicates(keys)
    requires forall p :: p in s ==> key(p) in keys
    ensures multiset(ConcatBuckets(s, key, keys)) == multiset(s)
  {
    if s == [] {
      EmptyBuckets(key, keys);
    } else {
      var s' := s[..|s| - 1];
      assert s == s' + [s[|s| - 1]];
      ConcatBucketsPermutes(s', key, keys);
      ConcatBucketsStep(s', s[|s| - 1], key, keys);
    }
  }

  lemma {:induction false} EmptyBuckets(key: Post -> string, keys: seq<string>)
    ensures ConcatBuckets([], key, keys) == []
  {
    if keys != [] {
      EmptyBuckets(key, keys[1..]);
    }
  }

  lemma {:induction false} FlattenIsConcat(s: seq<Post>, key: Post -> string, labelOf: Post -> string, keys: seq<string>)
    requires forall k :: k in keys ==> k in KeySet(s, key)
    ensures FlattenKeys(GroupMap(s, key, labelOf), keys) == ConcatBuckets(s, key, keys)
  {
    if keys != [] {
      FlattenIsConcat(s, key, labelOf, keys[1..]);
    }
  }

  // ---------------------------------------------------------------------
  // What the grouping guarantees
  // ---------------------------------------------------------------------

  lemma SortedKeySet(items: seq<Post>, key: Post -> string)
    ensures KeySet(SortByDateDesc(items), key) == KeySet(items, key)
  {
    var sorted := SortByDateDesc(items);
    SortByDateDescCorrect(items);
    KeySetMembers(sorted, key);
    KeySetMembers(items, key);
    assert forall p :: p in sorted <==> p in multiset(sorted);
    assert forall p :: p in items <==> p in multiset(items);
  }

  /** The ordered keys list every bucket exactly once, and the buckets are those of the posts' keys. */
  lemma GroupedKeys(items: seq<Post>, mode: DisplayMode, cats: seq<string>)
    ensures var view := Grouped(items, mode, cats);
      && view.groups.Keys == KeySet(items, KeyFn(mode))
      && (forall k :: k in view.keys <==> k in view.groups)
      && NoDuplicates(view.keys)
  {
    var sorted := SortByDateDesc(items);
    SortedKeySet(items, KeyFn(mode));
    FirstKeysMatchKeySet(sorted, KeyFn(mode));
    OrderKeysKeepsKeys(mode, cats, FirstKeys(sorted, KeyFn(mode)));
  }

  /** A post is in the bucket of its own key and of no other, and no bucket is empty. */
  lemma GroupedBuckets(items: seq<Post>, mode: DisplayMode, cats: seq<string>)
    ensures var view := Grouped(items, mode, cats);
      && (forall k, p :: k in view.groups ==>
            (p in view.groups[k].items <==> p in items && KeyOf(p, mode) == k))
      && (forall k :: k in view.groups ==> view.groups[k].items != [])
  {
    var view := Grouped(items, mode, cats);
    var sorted := SortByDateDesc(items);
    var key := KeyFn(mode);
    SortByDateDescCorrect(items);
    forall k | k in view.groups
      ensures forall p :: p in view.groups[k].items <==> p in items && key(p) == k
      ensures view.groups[k].items != []
    {
      BucketOfPermutation(items, sorted, key, k);
    }
  }

  /** The bucket of a key of a reordering of `items` holds exactly the posts of `items` with that key. */
  lemma BucketOfPermutation(items: seq<Post>, sorted: seq<Post>, key: Post -> string, k: string)
    requires multiset(sorted) == multiset(items)
    requires k in KeySet(sorted, key)
    ensures forall p :: p in Bucket(sorted, key, k) <==> p in items && key(p) == k
    ensures Bucket(sorted, key, k) != []
  {
    BucketMembers(sorted, key, k);
    BucketEmptyIff(sorted, key, k);
    assert forall p :: p in sorted <==> p in multiset(sorted);
  }

  /**
   * The buckets laid end to end in display order hold exactly the posts,
   * each as often as it was given: nothing is lost or duplicated.
   */
  lemma GroupedPartition(items: seq<Post>, mode: DisplayMode, cats: seq<string>)
    ensures multiset(Flatten(Grouped(items, mode, cats))) == multiset(items)
  {
    var view := Grouped(items, mode, cats);
    var sorted := SortByDateDesc(items);
    var key := KeyFn(mode);
    SortByDateDescCorrect(items);
    SortedKeySet(items, key);
    GroupedKeys(items, mode, cats);
    FlattenIsConcat(sorted, key, LabelFn(mode), view.keys);
    KeySetMembers(sorted, key);
    forall p | p in sorted ensures key(p) in view.keys {
      assert key(p) in KeySet(sorted, key);
    }
    ConcatBucketsPermutes(sorted, key, view.keys);
  }

  /** Inside every bucket the posts stay newest first. */
  lemma GroupedNewestFirst(items: seq<Post>, mode: DisplayMode, cats: seq<string>, k: string)
    requires k in Grouped(items, mode, cats).groups
    ensures NewestFirst(Grouped(items, mode, cats).groups[k].items)
  {
    SortByDateDescCorrect(items);
    BucketNewestFirst(SortByDateDesc(items), KeyFn(mode), k);
  }

  /** Every post in a bucket carries the bucket's label, and the label is never empty. */
  lemma GroupedLabels(items: seq<Post>, mode: DisplayMode, cats: seq<string>, k: string)
    requires k in Grouped(items, mode, cats).groups
    ensures var g := Grouped(items, mode, cats).groups[k];
      g.caption != [] && forall p :: p in g.items ==> LabelOf(p, mode) == g.caption
  {
    var sorted := SortByDateDesc(items);
    var key := KeyFn(mode);
    var b := Bucket(sorted, key, k);
    BucketEmptyIff(sorted, key, k);
    BucketMembers(sorted, key, k);
    LabelNonEmpty(b[0], mode);
    forall p | p in b ensures LabelOf(p, mode) == LabelOf(b[0], mode) {
      assert key(p) == k && key(b[0]) == k;
      assert KeyOf(p, mode) == KeyOf(b[0], mode);
      LabelDeterminedByKey(p, b[0], mode);
    }
  }

  /** `getGroupLabel` gives a bucket's stored label, and the key itself for anything else. */
  lemma GroupLabelCorrect(items: seq<Post>, mode: DisplayMode, cats: seq<string>, key: string)
    ensures var view := Grouped(items, mode, cats);
      GroupLabel(view, key) == if key in view.groups then view.groups[key].caption else key
  {
    var view := Grouped(items, mode, cats);
    if key in view.groups {
      GroupedLabels(items, mode, cats, key);
    }
  }
}
