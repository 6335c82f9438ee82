/**
 * Whole sessions against one browser's storage, built from the store operations: what a visitor and an
 * admin see after a sequence of calls.
 */
module Scenarios {
  import opened Optional
  import opened Calendar
  import opened Storage
  import opened Admin
  import opened Analytics
  import opened Posts

  /** `addPost` in a browser, seen from the post list only. */
  method Publish(ls: LocalStorage, d: Draft, now: Millis) returns (p: Post)
    requires ls.Valid() && ls.hasWindow
    modifies ls
    ensures ls.Valid()
    ensures p.id == now && p.createdAt == now && p.content == d.content
    ensures ReadPosts(ls) == [p] + old(ReadPosts(ls))
  {
    p := AddPost(ls, d, now);
  }

  /** Two posts added one after the other are listed newest first. */
  method TwoPostsNewestFirst(d1: Draft, d2: Draft, t1: Millis, t2: Millis) returns (listed: seq<Post>)
    ensures |listed| == 2 && listed[0].content == d2.content && listed[1].content == d1.content
    ensures listed[0].createdAt == t2 && listed[1].createdAt == t1
  {
    var ls := new LocalStorage(true);
    var a := Publish(ls, d1, t1);
    ghost var first := ReadPosts(ls);
    assert first == [a];
    var b := Publish(ls, d2, t2);
    listed := GetPosts(ls);
    assert listed == [b] + first;
  }

  /** On fresh storage the default password logs in; once a new password is set the default no longer does and
      the new one does; logging out ends the session and clearing the board leaves an empty list. */
  method AdminSession(pw: string) returns (first: Option<bool>, stale: Option<bool>, renewed: Option<bool>, after: bool, cleared: seq<Post>)
    requires pw != [] && pw != DefaultAdminPassword
    ensures first == Some(true) && stale == Some(false) && renewed == Some(true) && !after
    ensures cleared == []
  {
    var ls := new LocalStorage(true);
    first := AdminLogin(ls, DefaultAdminPassword);
    AdminLogout(ls);
    SetAdminPassword(ls, pw);
    stale := AdminLogin(ls, DefaultAdminPassword);
    renewed := AdminLogin(ls, pw);
    AdminLogout(ls);
    after := IsAdminLoggedIn(ls);
    DeleteAllPosts(ls);
    cleared := GetPosts(ls);
  }

  /** Two posts added at the same instant get the same id, so deleting one of them deletes both. */
  method SameInstantDelete(d1: Draft, d2: Draft, now: Millis) returns (before: seq<Post>, after: seq<Post>)
    ensures |before| == 2 && before[0].id == before[1].id
    ensures after == []
  {
    var ls := new LocalStorage(true);
    var a := Publish(ls, d1, now);
    ghost var first := ReadPosts(ls);
    assert first == [a];
    var b := Publish(ls, d2, now);
    before := GetPosts(ls);
    assert before == [b] + first;
    DeletePost(ls, now);
    after := GetPosts(ls);
    assert WithoutId(first, now) == [];
    assert WithoutId(before, now) == WithoutId(first, now);
  }

  /** One author posting twice on a day counts once among that day's posting users and active users. */
  method SameAuthorTwice(d1: Draft, d2: Draft, now: Millis) returns (posting: nat, active: nat)
    requires d1.author == d2.author
    ensures posting == 1 && active == 1
  {
    var ls := new LocalStorage(true);
    assert TodayActivity(ls, now).users == {} && TodayActivity(ls, now).visitors == {};
    var a := AddPost(ls, d1, now);
    var b := AddPost(ls, d2, now);
    posting := TodayPostingUsers(ls, now);
    active := TodayActiveUsers(ls, now);
    assert TodayActivity(ls, now).users == {d1.author};
  }
}
