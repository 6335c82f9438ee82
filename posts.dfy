/**
 * The local post store of lib/posts.ts. The whole post list lives under one key,
 * "bulletin-board-posts"; every operation reads it, transforms it and writes it back.
 * Reading recovers from an absent slot (it writes an empty list) and from text that does not
 * parse (it returns an empty list and writes nothing).
 */
module Posts {
  import opened Optional
  import opened Strings
  import opened Calendar
  import opened Storage
  import Analytics

  /** What the post slot holds. `Absent` is what `!posts` catches: no key, or the empty string. */
  datatype Slot = Absent | Holds(posts: seq<Post>) | Malformed

  function SlotIn(items: map<string, Value>): Slot {
    if PostsKey !in items then Absent
    else match items[PostsKey]
      case PostList(ps) => Holds(ps)
      case Text(s) => if s == [] then Absent else Malformed
      case _ => Malformed
  }

  function PostSlot(ls: LocalStorage): Slot
    reads ls
  {
    SlotIn(ls.items)
  }

  /** A write that leaves the post key alone leaves the post slot as it was. */
  lemma SlotUntouched(before: map<string, Value>, after: map<string, Value>, touched: set<string>)
    requires Agree(before, after, touched) && PostsKey !in touched
    ensures SlotIn(after) == SlotIn(before)
  {
    assert PostsKey in before <==> PostsKey in after;
  }

  /** `getDefaultPosts()` */
  function DefaultPosts(): (ps: seq<Post>)
    ensures |ps| == 0
  {
    []
  }

  /** The list `getPosts()` returns in the current state. */
  function ReadPosts(ls: LocalStorage): seq<Post>
    reads ls
  {
    if ls.hasWindow && PostSlot(ls).Holds? then PostSlot(ls).posts else DefaultPosts()
  }

  /** `getPosts()`: the stored list. Outside a browser, and when the slot does not parse, it is the empty list
      and nothing is written; an absent or empty slot is first initialised to the empty list. */
  method GetPosts(ls: LocalStorage) returns (ps: seq<Post>)
    requires ls.Valid()
    modifies ls
    ensures ls.Valid()
    ensures ps == old(ReadPosts(ls))
    ensures old(PostSlot(ls)).Holds? && ls.hasWindow ==> ps == old(PostSlot(ls)).posts
    ensures !(old(PostSlot(ls)).Holds? && ls.hasWindow) ==> ps == []
    ensures ls.hasWindow && old(PostSlot(ls)) == Absent ==>
              PostSlot(ls) == Holds([]) && ls.items == old(ls.items)[PostsKey := PostList([])]
              && ls.keys == WithKey(old(ls.keys), PostsKey)
    ensures !(ls.hasWindow && old(PostSlot(ls)) == Absent) ==> ls.items == old(ls.items) && ls.keys == old(ls.keys)
    ensures ReadPosts(ls) == ps
  {
    if !ls.hasWindow {
      return DefaultPosts();
    }
    var stored := ls.GetItem(PostsKey);
    if stored.None? || stored.value == Text([]) {
      var defaults := DefaultPosts();
      ls.SetItem(PostsKey, PostList(defaults));
      return defaults;
    }
    match stored.value
    case PostList(posts) =>
      return posts;
    case _ =>
      // JSON.parse threw
      return DefaultPosts();
  }

  /** `savePosts(ps)`: in a browser, stores `ps`, which the next read returns; outside one, writes nothing. */
  method SavePosts(ls: LocalStorage, ps: seq<Post>)
    requires ls.Valid()
    modifies ls
    ensures ls.Valid()
    ensures ls.hasWindow ==> ls.items == old(ls.items)[PostsKey := PostList(ps)]
    ensures ls.hasWindow ==> ls.keys == WithKey(old(ls.keys), PostsKey)
    ensures !ls.hasWindow ==> ls.items == old(ls.items) && ls.keys == old(ls.keys)
    ensures old(ls.keys) <= ls.keys
    ensures ReadPosts(ls) == if ls.hasWindow then ps else []
  {
    if ls.hasWindow {
      ls.SetItem(PostsKey, PostList(ps));
    }
  }

  /** What the post form passes to `addPost`: title, content and author, and no popularity flag. */
  datatype Draft = Draft(title: string, content: string, author: string, isPopular: Option<bool>)

  /** The form only submits a content and an author that are non-empty after trimming, and it passes the trimmed text. */
  predicate FormChecked(d: Draft) {
    d.content != [] && IsTrimmed(d.content) && d.author != [] && IsTrimmed(d.author)
  }

  /** The form's own check and trimming produce drafts that meet FormChecked. */
  lemma FormCheckSuffices(title: string, content: string, author: string)
    requires Trim(content) != [] && Trim(author) != []
    ensures FormChecked(Draft(title, Trim(content), Trim(author), None))
  {
    TrimIsTrimmed(content);
    TrimIsTrimmed(author);
  }

  /** Every post has a non-empty trimmed content and author. */
  predicate AllFormChecked(ps: seq<Post>) {
    forall p :: p in ps ==> p.content != [] && IsTrimmed(p.content) && p.author != [] && IsTrimmed(p.author)
  }

  /** Strictly newest first, and each post's id is its creation instant: what adding posts at increasing instants builds. */
  predicate Chronological(ps: seq<Post>) {
    && (forall i, j :: 0 <= i < j < |ps| ==> ps[i].createdAt > ps[j].createdAt)
    && (forall p :: p in ps ==> p.id == p.createdAt)
  }

  predicate AllBefore(ps: seq<Post>, now: int) {
    forall p :: p in ps ==> p.createdAt < now
  }

  /** A post from a checked form keeps a list of such posts so when put in front. */
  lemma PrependKeepsFormChecked(p: Post, ps: seq<Post>)
    requires AllFormChecked(ps)
    requires p.content != [] && IsTrimmed(p.content) && p.author != [] && IsTrimmed(p.author)
    ensures AllFormChecked([p] + ps)
  {
  }

  /** In a chronological list no two posts share an id. */
  lemma ChronologicalIdsUnique(ps: seq<Post>)
    requires Chronological(ps)
    ensures forall i, j :: 0 <= i < j < |ps| ==> ps[i].id != ps[j].id
  {
    forall i, j | 0 <= i < j < |ps|
      ensures ps[i].id != ps[j].id
    {
      assert ps[i] in ps && ps[j] in ps;
    }
  }

  /** A post stamped later than every listed post keeps the list chronological when put in front. */
  lemma PrependKeepsChronological(p: Post, ps: seq<Post>)
    requires Chronological(ps) && AllBefore(ps, p.createdAt) && p.id == p.createdAt
    ensures Chronological([p] + ps)
  {
    var qs := [p] + ps;
    forall i, j | 0 <= i < j < |qs|
      ensures qs[i].createdAt > qs[j].createdAt
    {
      assert qs[j] == ps[j - 1];
      if i > 0 {
        assert qs[i] == ps[i - 1];
      } else {
        assert ps[j - 1] in ps;
      }
    }
  }

  /** `ps` without the posts whose id is `id`, the rest in their order (the source's `filter`). */
  function WithoutId(ps: seq<Post>, id: int): (r: seq<Post>)
    ensures forall p :: p in r <==> p in ps && p.id != id
  {
    if ps == [] then []
    else if ps[0].id == id then WithoutId(ps[1..], id)
    else [ps[0]] + WithoutId(ps[1..], id)
  }

  /** Each post whose id is not `id` is kept as many times as it occurred; each post whose id is `id` is gone. */
  lemma {:induction false} WithoutIdCounts(ps: seq<Post>, id: int)
    ensures forall p :: multiset(WithoutId(ps, id))[p] == if p.id == id then 0 else multiset(ps)[p]
  {
    if ps != [] {
      WithoutIdCounts(ps[1..], id);
      assert ps == [ps[0]] + ps[1..];
    }
  }

  /** Filtering a concatenation filters each part: the kept posts stay in their relative order. */
  lemma {:induction false} WithoutIdConcat(a: seq<Post>, b: seq<Post>, id: int)
    ensures WithoutId(a + b, id) == WithoutId(a, id) + WithoutId(b, id)
  {
    if a == [] {
      assert a + b == b;
    } else {
      assert (a + b)[1..] == a[1..] + b;
      WithoutIdConcat(a[1..], b, id);
      if a[0].id != id {
        assert [a[0]] + WithoutId(a[1..], id) + WithoutId(b, id) == [a[0]] + (WithoutId(a[1..], id) + WithoutId(b, id));
      }
    }
  }

  /** Deleting an id no post has changes nothing. */
  lemma {:induction false} WithoutAbsentId(ps: seq<Post>, id: int)
    requires forall p :: p in ps ==> p.id != id
    ensures WithoutId(ps, id) == ps
  {
    if ps != [] {
      WithoutAbsentId(ps[1..], id);
    }
  }

  /** Deleting the same id twice is deleting it once. */
  lemma WithoutIdIdempotent(ps: seq<Post>, id: int)
    ensures WithoutId(WithoutId(ps, id), id) == WithoutId(ps, id)
  {
    WithoutAbsentId(WithoutId(ps, id), id);
  }

  /** Deleting keeps a chronological list chronological. */
  lemma {:induction false} WithoutIdKeepsChronological(ps: seq<Post>, id: int)
    requires Chronological(ps)
    ensures Chronological(WithoutId(ps, id))
  {
    if ps != [] {
      var rest := ps[1..];
      assert Chronological(rest);
      WithoutIdKeepsChronological(rest, id);
      if ps[0].id != id {
        assert AllBefore(WithoutId(rest, id), ps[0].createdAt) by {
          forall q | q in WithoutId(rest, id)
            ensures q.createdAt < ps[0].createdAt
          {
            var j :| 0 <= j < |rest| && rest[j] == q;
            assert ps[j + 1] == q;
          }
        }
        PrependKeepsChronological(ps[0], WithoutId(rest, id));
      }
    }
  }

  /** The store half of `addPost`: reads the list, puts `p` in front and saves it. Only the post slot is written. */
  method PrependPost(ls: LocalStorage, p: Post) returns (posts: seq<Post>)
    requires ls.Valid()
    modifies ls
    ensures ls.Valid()
    ensures posts == old(ReadPosts(ls))
    ensures ls.hasWindow ==> PostSlot(ls) == Holds([p] + posts)
    ensures ls.hasWindow ==> Agree(old(ls.items), ls.items, {PostsKey})
    ensures ls.hasWindow ==> ls.keys == WithKey(old(ls.keys), PostsKey)
    ensures !ls.hasWindow ==> ls.items == old(ls.items) && ls.keys == old(ls.keys)
    ensures old(ls.keys) <= ls.keys
  {
    posts := GetPosts(ls);
    ghost var keys1 := ls.keys;
    SavePosts(ls, [p] + posts);
    assert old(ls.keys) <= ls.keys by {
      assert old(ls.keys) <= keys1 <= ls.keys;
    }
  }

  /** `addPost(d)`: stamps a new post with id and creation instant `now`, no replies and one view, puts it in
      front of the current list (a slot that does not parse is dropped), saves, and records `d.author` as
      today's user and visitor. No other key is written. */
  method AddPost(ls: LocalStorage, d: Draft, now: Millis) returns (p: Post)
    requires ls.Valid()
    modifies ls
    ensures ls.Valid()
    ensures p.id == now && p.createdAt == now
    ensures p.title == d.title && p.content == d.content && p.author == d.author && p.isPopular == d.isPopular
    ensures p.replies == Some(0) && p.views == Some(1)
    ensures ls.hasWindow ==> PostSlot(ls) == Holds([p] + old(ReadPosts(ls)))
    ensures ls.hasWindow ==> Analytics.TodayActivity(ls, now) == Analytics.WithUser(old(Analytics.TodayActivity(ls, now)), d.author)
    ensures ls.hasWindow ==> Agree(old(ls.items), ls.items, {PostsKey, ActivityKey(Analytics.TodayKey(now))})
    ensures ls.hasWindow ==> ls.keys == WithKey(WithKey(old(ls.keys), PostsKey), ActivityKey(Analytics.TodayKey(now)))
    ensures !ls.hasWindow ==> ls.items == old(ls.items) && ls.keys == old(ls.keys)
    ensures old(ls.keys) <= ls.keys
    ensures old(Chronological(ReadPosts(ls)) && AllBefore(ReadPosts(ls), now)) ==> Chronological(ReadPosts(ls))
    ensures old(AllFormChecked(ReadPosts(ls))) && FormChecked(d) ==> AllFormChecked(ReadPosts(ls))
  {
    ghost var today := ActivityKey(Analytics.TodayKey(now));
    p := Post(now, d.title, d.content, d.author, now, Some(0), Some(1), d.isPopular);
    var posts := PrependPost(ls, p);
    ghost var keys1, items1 := ls.keys, ls.items;
    assert ls.GetItem(today) == old(ls.GetItem(today));
    assert Analytics.TodayActivity(ls, now) == old(Analytics.TodayActivity(ls, now));
    Analytics.RecordUserActivity(ls, d.author, now);
    assert old(ls.keys) <= ls.keys by {
      assert old(ls.keys) <= keys1 <= ls.keys;
    }
    if ls.hasWindow {
      SlotUntouched(items1, ls.items, {today});
      if Chronological(posts) && AllBefore(posts, now) {
        PrependKeepsChronological(p, posts);
      }
      if AllFormChecked(posts) && FormChecked(d) {
        PrependKeepsFormChecked(p, posts);
      }
    }
  }

  /** `deletePost(id)`: removes every post whose id is `id` and keeps the others in their order; a slot that
      does not parse is replaced by the empty list. No other key is written. */
  method DeletePost(ls: LocalStorage, id: int)
    requires ls.Valid()
    modifies ls
    ensures ls.Valid()
    ensures ls.hasWindow ==> PostSlot(ls) == Holds(WithoutId(old(ReadPosts(ls)), id))
    ensures ls.hasWindow ==> Agree(old(ls.items), ls.items, {PostsKey})
    ensures ls.hasWindow ==> ls.keys == WithKey(old(ls.keys), PostsKey)
    ensures !ls.hasWindow ==> ls.items == old(ls.items) && ls.keys == old(ls.keys)
    ensures old(ls.keys) <= ls.keys
    ensures old(Chronological(ReadPosts(ls))) ==> Chronological(ReadPosts(ls))
  {
    var posts := GetPosts(ls);
    var updated := WithoutId(posts, id);
    SavePosts(ls, updated);
    if ls.hasWindow && Chronological(posts) {
      WithoutIdKeepsChronological(posts, id);
    }
  }

  /** `deleteAllPosts()`: in a browser, stores the empty list; after it every read gives the empty list. */
  method DeleteAllPosts(ls: LocalStorage)
    requires ls.Valid()
    modifies ls
    ensures ls.Valid()
    ensures ReadPosts(ls) == []
    ensures ls.hasWindow ==> ls.items == old(ls.items)[PostsKey := PostList([])]
    ensures ls.hasWindow ==> ls.keys == WithKey(old(ls.keys), PostsKey)
    ensures !ls.hasWindow ==> ls.items == old(ls.items) && ls.keys == old(ls.keys)
    ensures old(ls.keys) <= ls.keys
  {
    if ls.hasWindow {
      ls.SetItem(PostsKey, PostList([]));
    }
  }
}
