/**
 * The browser's localStorage as the three stores share it: an ordered set of string keys,
 * each holding one stored value. The model keeps a stored string as what it decodes to,
 * and `Valid()` says that every key the stores read holds the kind of value its reader expects.
 */
module Storage {
  import opened Optional
  import opened Strings

  /** A post (lib/posts.ts); `createdAt` is the instant in milliseconds since the epoch. */
  datatype Post = Post(
    id: int,
    title: string,
    content: string,
    author: string,
    createdAt: int,
    replies: Option<int>,
    views: Option<int>,
    isPopular: Option<bool>)

  /** A stored string, by what it denotes. */
  datatype Value =
    | Text(s: string)                     // a plain string (the admin keys)
    | PostList(posts: seq<Post>)          // the JSON text of a post array
    | DayRecord(date: string, users: Option<set<string>>, visitors: Option<set<string>>)
                                          // the JSON text of a day's activity; a missing array is None
    | Unparsable                          // text that JSON.parse rejects

  const PostsKey: string := "bulletin-board-posts"
  const PasswordKey: string := "admin-password"
  const LoggedInKey: string := "admin-logged-in"
  const ActivityPrefix: string := "activity-"

  predicate IsActivityKey(k: string) {
    StartsWith(k, ActivityPrefix)
  }

  /** The key under which the activity of the day named `date` is kept. */
  function ActivityKey(date: string): (k: string)
    ensures IsActivityKey(k) && k[|ActivityPrefix|..] == date
    ensures k != PostsKey && k != PasswordKey && k != LoggedInKey
  {
    StartsWithConcat(ActivityPrefix, date);
    var k := ActivityPrefix + date;
    assert k[0] != PostsKey[0] && k[1] != PasswordKey[1] && k[1] != LoggedInKey[1];
    k
  }

  /** Value `v` is of the kind the reader of key `k` expects. The post key may also hold the empty string,
      which `getPosts` treats like a missing key. */
  predicate Fits(k: string, v: Value) {
    if k == PostsKey then v.PostList? || v.Unparsable? || v == Text([])
    else if k == PasswordKey || k == LoggedInKey then v.Text?
    else if IsActivityKey(k) then v.DayRecord? || v.Unparsable?
    else true
  }

  predicate Distinct(keys: seq<string>) {
    forall i, j :: 0 <= i < j < |keys| ==> keys[i] != keys[j]
  }

  /** `keys` without `k`, the rest in their order. */
  function Erase(keys: seq<string>, k: string): (r: seq<string>)
    ensures forall x :: x in r <==> x in keys && x != k
    ensures Distinct(keys) ==> Distinct(r)
  {
    if keys == [] then []
    else if keys[0] == k then Erase(keys[1..], k)
    else
      assert Distinct(keys) ==> keys[0] !in keys[1..] && Distinct(keys[1..]);
      [keys[0]] + Erase(keys[1..], k)
  }

  /** The key order after `setItem(k, _)`: a key already present keeps its place, a new key goes last. */
  function WithKey(keys: seq<string>, k: string): (r: seq<string>)
    ensures k in r && keys <= r
    ensures forall x :: x in r <==> x in keys || x == k
    ensures Distinct(keys) ==> Distinct(r)
  {
    if k in keys then keys else keys + [k]
  }

  /** In a list of distinct keys, erasing the key at index `i` closes the gap: later keys move down by one. */
  lemma {:induction false} EraseAt(keys: seq<string>, i: int)
    requires Distinct(keys) && 0 <= i < |keys|
    ensures Erase(keys, keys[i]) == keys[..i] + keys[i + 1..]
  {
    if i == 0 {
      assert keys[0] !in keys[1..];
      EraseAbsent(keys[1..], keys[0]);
    } else {
      assert Distinct(keys[1..]);
      EraseAt(keys[1..], i - 1);
      assert keys[1..][i - 1] == keys[i];
      assert keys[1..][..i - 1] + keys[1..][i..] == keys[1..i] + keys[i + 1..];
      assert keys[..i] == [keys[0]] + keys[1..i];
    }
  }

  lemma {:induction false} EraseAbsent(keys: seq<string>, k: string)
    requires k !in keys
    ensures Erase(keys, k) == keys
  {
    if keys != [] {
      EraseAbsent(keys[1..], k);
    }
  }

  /** `before` and `after` agree on every key outside `touched`: present in both or in neither, with the same value. */
  ghost predicate Agree(before: map<string, Value>, after: map<string, Value>, touched: set<string>) {
    forall k :: k !in touched ==> (k in before <==> k in after) && (k in before ==> before[k] == after[k])
  }

  class LocalStorage {
    /** Whether the code runs in a browser (`typeof window !== "undefined"`); without one there is no localStorage. */
    const hasWindow: bool
    /** The keys in the order `key(i)` enumerates them. */
    var keys: seq<string>
    var items: map<string, Value>

    ghost predicate Valid()
      reads this
    {
      && Distinct(keys)
      && (forall k :: k in items <==> k in keys)
      && (forall k :: k in items ==> Fits(k, items[k]))
    }

    /** Empty storage, in a browser or not. */
    constructor (hasWindow: bool)
      ensures Valid() && this.hasWindow == hasWindow
      ensures keys == [] && items == map[]
    {
      this.hasWindow := hasWindow;
      keys := [];
      items := map[];
    }

    /** `localStorage.length` */
    function Length(): nat
      reads this
    {
      |keys|
    }

    /** `localStorage.key(i)`: None where JavaScript gives null. */
    function Key(i: int): Option<string>
      reads this
    {
      if 0 <= i < |keys| then Some(keys[i]) else None
    }

    /** `localStorage.getItem(k)` */
    function GetItem(k: string): Option<Value>
      reads this
    {
      if k in items then Some(items[k]) else None
    }

    /** `localStorage.setItem(k, v)`: a new key goes after the existing ones. */
    method SetItem(k: string, v: Value)
      requires Valid() && hasWindow && Fits(k, v)
      modifies this
      ensures Valid()
      ensures items == old(items)[k := v]
      ensures keys == WithKey(old(keys), k)
    {
      if k !in items {
        keys := keys + [k];
      }
      items := items[k := v];
    }

    /** `localStorage.removeItem(k)`: the keys after `k` move down by one. */
    method RemoveItem(k: string)
      requires Valid() && hasWindow
      modifies this
      ensures Valid()
      ensures items == old(items) - {k}
      ensures keys == Erase(old(keys), k)
    {
      keys := Erase(keys, k);
      items := items - {k};
    }
  }
}
