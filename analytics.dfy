/**
 * The daily activity recorder of lib/analytics.ts. Each UTC day has one record under
 * "activity-YYYY-MM-DD" holding two sets of names: users (authors who posted that day) and
 * visitors (authors and anonymous browser fingerprints). A cleanup sweep deletes old records.
 */
module Analytics {
  import opened Optional
  import opened Strings
  import opened Calendar
  import opened Storage

  /** The in-memory form of a day's record: the day's name and its two sets. */
  datatype Activity = Activity(date: string, users: set<string>, visitors: set<string>)

  /** `getTodayKey()`: the UTC date of `now` as "YYYY-MM-DD". */
  function TodayKey(now: Millis): (key: string)
    ensures |key| == 10
  {
    IsoDate(DayOf(now))
  }

  /** Reading today's key back as a date gives the day of `now`. */
  lemma TodayKeyNamesToday(now: Millis)
    ensures |TodayKey(now)| == 10 && ParseIsoDate(TodayKey(now)) == Some(DayOf(now))
  {
    ParseIsoDateRoundTrip(DayOf(now));
  }

  /** `getTodayActivity()`: today's record; an absent or unreadable record, or no browser, reads as two empty sets,
      and an array missing from the record reads as an empty set. */
  function TodayActivity(ls: LocalStorage, now: Millis): (a: Activity)
    reads ls
    ensures a.date == TodayKey(now)
    ensures (!ls.hasWindow || ActivityKey(TodayKey(now)) !in ls.items || !ls.items[ActivityKey(TodayKey(now))].DayRecord?)
      ==> a.users == {} && a.visitors == {}
  {
    var today := TodayKey(now);
    if !ls.hasWindow then Activity(today, {}, {})
    else match ls.GetItem(ActivityKey(today))
      case Some(DayRecord(_, users, visitors)) => Activity(today, users.GetOr({}), visitors.GetOr({}))
      case _ => Activity(today, {}, {})
  }

  /** `saveActivity(a)`: writes `a` under the key of its day; reading that day back gives `a`'s sets. */
  method SaveActivity(ls: LocalStorage, a: Activity)
    requires ls.Valid()
    modifies ls
    ensures ls.Valid()
    ensures ls.hasWindow ==> ls.items == old(ls.items)[ActivityKey(a.date) := DayRecord(a.date, Some(a.users), Some(a.visitors))]
    ensures ls.hasWindow ==> ls.keys == WithKey(old(ls.keys), ActivityKey(a.date))
    ensures !ls.hasWindow ==> ls.items == old(ls.items) && ls.keys == old(ls.keys)
    ensures old(ls.keys) <= ls.keys
    ensures forall now: Millis :: ls.hasWindow && TodayKey(now) == a.date ==> TodayActivity(ls, now) == a
  {
    if !ls.hasWindow {
      return;
    }
    ls.SetItem(ActivityKey(a.date), DayRecord(a.date, Some(a.users), Some(a.visitors)));
  }

  /** A day's record after `name` posted: the name joins both sets. */
  function WithUser(a: Activity, name: string): Activity {
    a.(users := a.users + {name}, visitors := a.visitors + {name})
  }

  /** A day's record after an anonymous visit: the fingerprint joins the visitors only. */
  function WithVisitor(a: Activity, fingerprint: string): Activity {
    a.(visitors := a.visitors + {fingerprint})
  }

  /** Recording a name grows each set by one exactly when the name is new to it, and recording it again changes nothing. */
  lemma WithUserCounts(a: Activity, name: string)
    ensures |WithUser(a, name).users| == |a.users| + (if name in a.users then 0 else 1)
    ensures |WithUser(a, name).visitors| == |a.visitors| + (if name in a.visitors then 0 else 1)
    ensures WithUser(WithUser(a, name), name) == WithUser(a, name)
  {
    if name in a.users {
      assert a.users + {name} == a.users;
    }
    if name in a.visitors {
      assert a.visitors + {name} == a.visitors;
    }
  }

  /** `recordUserActivity(name)`: adds `name` to today's users and visitors and writes no other key. */
  method RecordUserActivity(ls: LocalStorage, name: string, now: Millis)
    requires ls.Valid()
    modifies ls
    ensures ls.Valid()
    ensures ls.hasWindow ==> TodayActivity(ls, now) == WithUser(old(TodayActivity(ls, now)), name)
    ensures ls.hasWindow ==> Agree(old(ls.items), ls.items, {ActivityKey(TodayKey(now))})
    ensures ls.hasWindow ==> ls.keys == WithKey(old(ls.keys), ActivityKey(TodayKey(now)))
    ensures !ls.hasWindow ==> ls.items == old(ls.items) && ls.keys == old(ls.keys)
    ensures old(ls.keys) <= ls.keys
  {
    var activity := TodayActivity(ls, now);
    activity := WithUser(activity, name);
    SaveActivity(ls, activity);
  }

  /** `recordVisitor()`: adds this browser's fingerprint to today's visitors; today's users stay as they were.
      `traits` stands for the joined browser properties the fingerprint is computed from. */
  method RecordVisitor(ls: LocalStorage, now: Millis, traits: seq<CodeUnit>)
    requires ls.Valid()
    modifies ls
    ensures ls.Valid()
    ensures ls.hasWindow ==> TodayActivity(ls, now) == WithVisitor(old(TodayActivity(ls, now)), VisitorId(HashOf(traits)))
    ensures ls.hasWindow ==> Agree(old(ls.items), ls.items, {ActivityKey(TodayKey(now))})
    ensures ls.hasWindow ==> ls.keys == WithKey(old(ls.keys), ActivityKey(TodayKey(now)))
    ensures !ls.hasWindow ==> ls.items == old(ls.items) && ls.keys == old(ls.keys)
    ensures old(ls.keys) <= ls.keys
  {
    var activity := TodayActivity(ls, now);
    var fingerprint := GenerateFingerprint(ls.hasWindow, traits);
    activity := WithVisitor(activity, fingerprint);
    SaveActivity(ls, activity);
  }

  /** `getTodayActiveUsers()`: how many distinct visitors today has. */
  function TodayActiveUsers(ls: LocalStorage, now: Millis): nat
    reads ls
  {
    |TodayActivity(ls, now).visitors|
  }

  /** `getTodayPostingUsers()`: how many distinct authors posted today. */
  function TodayPostingUsers(ls: LocalStorage, now: Millis): nat
    reads ls
  {
    |TodayActivity(ls, now).users|
  }

  lemma {:induction false} SubsetSize(a: set<string>, b: set<string>)
    requires a <= b
    ensures |a| <= |b|
    decreases a
  {
    if a != {} {
      var x :| x in a;
      SubsetSize(a - {x}, b - {x});
    }
  }

  /** Every author recordUserActivity adds is also a visitor, so while today's users are among today's
      visitors the posting count is at most the active count, and recording either kind of activity keeps it so. */
  lemma PostingUsersWithinActive(ls: LocalStorage, now: Millis)
    requires TodayActivity(ls, now).users <= TodayActivity(ls, now).visitors
    ensures TodayPostingUsers(ls, now) <= TodayActiveUsers(ls, now)
    ensures forall name :: WithUser(TodayActivity(ls, now), name).users <= WithUser(TodayActivity(ls, now), name).visitors
    ensures forall f :: WithVisitor(TodayActivity(ls, now), f).users <= WithVisitor(TodayActivity(ls, now), f).visitors
  {
    SubsetSize(TodayActivity(ls, now).users, TodayActivity(ls, now).visitors);
  }

  // ---------------------------------------------------------------------------------------------
  // The fingerprint hash

  /** A UTF-16 code unit, what `charCodeAt` returns. */
  type CodeUnit = c: int | 0 <= c < 0x1_0000

  const Two32: int := 0x1_0000_0000
  const Two31: int := 0x8000_0000

  /** ECMAScript's ToInt32: `x` wrapped into the signed 32-bit range. */
  function ToInt32(x: int): (r: int)
    ensures -Two31 <= r < Two31
    ensures (r - x) % Two32 == 0
    ensures -Two31 <= x < Two31 ==> r == x
  {
    (x + Two31) % Two32 - Two31
  }

  /** Numbers that differ by a multiple of 2^32 wrap to the same 32-bit value. */
  lemma ToInt32Congruent(a: int, b: int, t: int)
    requires a - b == Two32 * t
    ensures ToInt32(a) == ToInt32(b)
  {
    assert a + Two31 == (b + Two31) + Two32 * t;
  }

  /** `x << 5`: both the operand and the result of a shift are 32-bit. */
  function ShiftLeft5(x: int): int {
    ToInt32(ToInt32(x) * 32)
  }

  /** The hash of a string as a fold: each code unit `c` takes `h` to the 32-bit value of 31 * h + c. */
  function HashOf(s: seq<CodeUnit>): int {
    if s == [] then 0 else ToInt32(31 * HashOf(s[..|s| - 1]) + s[|s| - 1])
  }

  /** The same polynomial in 31 over unbounded integers. */
  function Polynomial(s: seq<CodeUnit>): int {
    if s == [] then 0 else 31 * Polynomial(s[..|s| - 1]) + s[|s| - 1]
  }

  /** The hash is the polynomial hash c0 * 31^(n-1) + ... + c(n-1), wrapped to 32 bits once at the end. */
  lemma {:induction false} HashIsWrappedPolynomial(s: seq<CodeUnit>)
    ensures HashOf(s) == ToInt32(Polynomial(s))
  {
    if s != [] {
      var init := s[..|s| - 1];
      HashIsWrappedPolynomial(init);
      var h, p := HashOf(init), Polynomial(init);
      var q := (h - p) / Two32;
      assert h - p == Two32 * q;
      ToInt32Congruent(31 * h + s[|s| - 1], 31 * p + s[|s| - 1], 31 * q);
    }
  }

  /** One step of the source's loop, `h = (h << 5) - h + c; h = h & h`, is the step of HashOf. */
  lemma JsHashStep(h: int, c: int)
    ensures ToInt32(ShiftLeft5(h) - h + c) == ToInt32(31 * h + c)
  {
    var h32 := ToInt32(h);
    var t1 := (h32 - h) / Two32;
    assert h32 - h == Two32 * t1;
    var s := ToInt32(h32 * 32);
    var t2 := (s - h32 * 32) / Two32;
    assert s - h32 * 32 == Two32 * t2;
    ToInt32Congruent(s - h + c, 31 * h + c, t2 + 32 * t1);
  }

  /** The visitor id for hash `h`: "visitor_" and the decimal digits of |h|. */
  function VisitorId(h: int): string {
    "visitor_" + Decimal(if h < 0 then -h else h)
  }

  /** Two hashes give the same visitor id only when they are equal or opposite. */
  lemma VisitorIdCollisions(h1: int, h2: int)
    requires VisitorId(h1) == VisitorId(h2)
    ensures h1 == h2 || h1 == -h2
  {
    var n1, n2 := (if h1 < 0 then -h1 else h1), (if h2 < 0 then -h2 else h2);
    assert VisitorId(h1)[8..] == Decimal(n1);
    assert VisitorId(h2)[8..] == Decimal(n2);
    DecimalInjective(n1, n2);
  }

  /** `generateBrowserFingerprint()`: "server" outside a browser; otherwise the source's hash loop over the
      code units of the joined browser traits, as a visitor id. */
  method GenerateFingerprint(hasWindow: bool, traits: seq<CodeUnit>) returns (id: string)
    ensures id == if hasWindow then VisitorId(HashOf(traits)) else "server"
  {
    if !hasWindow {
      return "server";
    }
    var hash := 0;
    for i := 0 to |traits|
      invariant hash == HashOf(traits[..i])
    {
      var ch := traits[i];
      JsHashStep(hash, ch);
      assert traits[..i + 1][..i] == traits[..i];
      hash := ShiftLeft5(hash) - hash + ch;
      hash := ToInt32(hash);  // hash & hash
    }
    assert traits[..|traits|] == traits;
    id := VisitorId(hash);
  }

  // ---------------------------------------------------------------------------------------------
  // Cleanup of old records

  /** `cleanupOldActivity()` deletes key `key` when it names an activity day whose midnight is more than
      seven times 24 hours before `now`. A date that does not parse is an Invalid Date and is never older. */
  predicate Expired(key: string, now: int)
    ensures Expired(key, now) ==> IsActivityKey(key) && ParseIsoDate(key[|ActivityPrefix|..]).Some?
  {
    IsActivityKey(key)
    && var date := ParseIsoDate(key[|ActivityPrefix|..]);
       date.Some? && date.value * DayMs < now - 7 * DayMs
  }

  /** The keys the source's loop leaves, given the keys it has yet to visit. It visits index i, and when it
      removes that key the next key moves down into index i, which the loop's i++ then steps over. */
  function Sweep(keys: seq<string>, now: int): seq<string>
    decreases |keys|
  {
    if keys == [] then []
    else if !Expired(keys[0], now) then [keys[0]] + Sweep(keys[1..], now)
    else if |keys| == 1 then []
    else [keys[1]] + Sweep(keys[2..], now)
  }

  /** The keys that are not expired, in their order: what deleting every old record leaves. */
  function Purge(keys: seq<string>, now: int): (r: seq<string>)
    ensures forall k :: k in r <==> k in keys && !Expired(k, now)
  {
    if keys == [] then []
    else if Expired(keys[0], now) then Purge(keys[1..], now)
    else [keys[0]] + Purge(keys[1..], now)
  }

  /** The sweep never grows the key list, and since each removal makes the loop step over the next key,
      it removes at most every other key: at least half the keys, rounded down, are left. */
  lemma {:induction false} SweepKeepsHalf(keys: seq<string>, now: int)
    ensures |Sweep(keys, now)| <= |keys| <= 2 * |Sweep(keys, now)| + 1
    decreases |keys|
  {
    if keys == [] {
    } else if !Expired(keys[0], now) {
      SweepKeepsHalf(keys[1..], now);
    } else if |keys| > 1 {
      SweepKeepsHalf(keys[2..], now);
    }
  }

  /** The sweep keeps every key that is not expired and invents none. */
  lemma {:induction false} SweepKeepsLiveKeys(keys: seq<string>, now: int)
    ensures forall k :: k in Sweep(keys, now) ==> k in keys
    ensures forall k :: k in keys && !Expired(k, now) ==> k in Sweep(keys, now)
    decreases |keys|
  {
    if keys == [] {
    } else if !Expired(keys[0], now) {
      SweepKeepsLiveKeys(keys[1..], now);
    } else if |keys| == 1 {
    } else {
      SweepKeepsLiveKeys(keys[2..], now);
      assert keys == [keys[0], keys[1]] + keys[2..];
    }
  }

  /** No two expired keys side by side: then the sweep removes every expired key. */
  predicate NoAdjacentExpired(keys: seq<string>, now: int) {
    forall i :: 0 <= i < |keys| - 1 ==> !(Expired(keys[i], now) && Expired(keys[i + 1], now))
  }

  lemma {:induction false} SweepIsPurgeWithoutAdjacentExpired(keys: seq<string>, now: int)
    requires NoAdjacentExpired(keys, now)
    ensures Sweep(keys, now) == Purge(keys, now)
    decreases |keys|
  {
    if keys == [] {
    } else if !Expired(keys[0], now) {
      assert NoAdjacentExpired(keys[1..], now) by {
        forall i | 0 <= i < |keys[1..]| - 1
          ensures !(Expired(keys[1..][i], now) && Expired(keys[1..][i + 1], now))
        {
          assert keys[1..][i] == keys[i + 1] && keys[1..][i + 1] == keys[i + 2];
        }
      }
      SweepIsPurgeWithoutAdjacentExpired(keys[1..], now);
    } else if |keys| == 1 {
    } else {
      assert !Expired(keys[1], now);
      assert NoAdjacentExpired(keys[2..], now) by {
        forall i | 0 <= i < |keys[2..]| - 1
          ensures !(Expired(keys[2..][i], now) && Expired(keys[2..][i + 1], now))
        {
          assert keys[2..][i] == keys[i + 2] && keys[2..][i + 1] == keys[i + 3];
        }
      }
      SweepIsPurgeWithoutAdjacentExpired(keys[2..], now);
      assert keys[1..][1..] == keys[2..];
    }
  }

  /** The records of two consecutive days, both more than eight days old, side by side: the sweep deletes the
      first and leaves the second, where deleting every old record leaves neither. */
  lemma SweepSkipsNeighbour(day: nat, now: Millis)
    requires day + 9 <= DayOf(now)
    ensures Expired(ActivityKey(IsoDate(day)), now) && Expired(ActivityKey(IsoDate(day + 1)), now)
    ensures Sweep([ActivityKey(IsoDate(day)), ActivityKey(IsoDate(day + 1))], now) == [ActivityKey(IsoDate(day + 1))]
    ensures Purge([ActivityKey(IsoDate(day)), ActivityKey(IsoDate(day + 1))], now) == []
  {
    ExpiryByAge(day, now);
    ExpiryByAge(day + 1, now);
    ExpiredPair(ActivityKey(IsoDate(day)), ActivityKey(IsoDate(day + 1)), now);
  }

  lemma ExpiredPair(a: string, b: string, now: int)
    requires Expired(a, now) && Expired(b, now)
    ensures Sweep([a, b], now) == [b]
    ensures Purge([a, b], now) == []
  {
    assert [a, b][1..] == [b] && [a, b][2..] == [] && [b][1..] == [];
    assert Purge([b], now) == [];
  }

  /** The record written today is never deleted by a cleanup at the same instant. */
  lemma TodaySurvivesCleanup(now: Millis)
    ensures !Expired(ActivityKey(TodayKey(now)), now)
  {
    TodayKeyNamesToday(now);
  }

  /** The age rule in whole days: with `today` the day of `now`, a record from eight or more days ago is old,
      one from six or fewer days ago is not, and one from exactly seven days ago is old unless `now` is
      exactly midnight. */
  lemma ExpiryByAge(day: nat, now: Millis)
    requires day < MaxDay
    ensures day + 8 <= DayOf(now) ==> Expired(ActivityKey(IsoDate(day)), now)
    ensures day + 6 >= DayOf(now) ==> !Expired(ActivityKey(IsoDate(day)), now)
    ensures day + 7 == DayOf(now) ==> (Expired(ActivityKey(IsoDate(day)), now) <==> now % DayMs != 0)
  {
    ParseIsoDateRoundTrip(day);
  }

  // One iteration of each loop, on the key list alone.

  lemma SweepStepKeep(keys: seq<string>, i: int, now: int)
    requires 0 <= i < |keys| && !Expired(keys[i], now)
    ensures keys[..i] + Sweep(keys[i..], now) == keys[..i + 1] + Sweep(keys[i + 1..], now)
  {
    assert keys[i..][1..] == keys[i + 1..];
    assert keys[..i + 1] == keys[..i] + [keys[i]];
  }

  lemma SweepStepRemove(keys: seq<string>, i: int, now: int)
    requires 0 <= i < |keys| && Expired(keys[i], now)
    ensures var rest := keys[..i] + keys[i + 1..];
            if i + 1 < |keys| then rest[..i + 1] + Sweep(rest[i + 1..], now) == keys[..i] + Sweep(keys[i..], now)
            else rest == keys[..i] + Sweep(keys[i..], now)
  {
    var rest := keys[..i] + keys[i + 1..];
    if i + 1 < |keys| {
      assert keys[i..][1] == keys[i + 1] && keys[i..][2..] == keys[i + 2..];
      assert rest[..i + 1] == keys[..i] + [keys[i + 1]];
      assert rest[i + 1..] == keys[i + 2..];
    } else {
      assert keys[i..] == [keys[i]];
      assert rest == keys[..i];
    }
  }

  lemma PurgeStepKeep(keys: seq<string>, i: int, now: int)
    requires 0 <= i < |keys| && !Expired(keys[i], now)
    ensures keys[..i] + Purge(keys[i..], now) == keys[..i + 1] + Purge(keys[i + 1..], now)
  {
    assert keys[i..][1..] == keys[i + 1..];
    assert keys[..i + 1] == keys[..i] + [keys[i]];
  }

  lemma PurgeStepRemove(keys: seq<string>, i: int, now: int)
    requires 0 <= i < |keys| && Expired(keys[i], now)
    ensures var rest := keys[..i] + keys[i + 1..];
            rest[..i] + Purge(rest[i..], now) == keys[..i] + Purge(keys[i..], now)
  {
    var rest := keys[..i] + keys[i + 1..];
    assert keys[i..][1..] == keys[i + 1..];
    assert rest[..i] == keys[..i] && rest[i..] == keys[i + 1..];
  }

  /** `cleanupOldActivity()`, as written: the loop runs i over the current keys and removes expired ones in
      place. It deletes only expired records and keeps every other key with its value, but the key after
      each deleted one is not examined (see Sweep and SweepSkipsNeighbour). */
  method CleanupOldActivity(ls: LocalStorage, now: Millis)
    requires ls.Valid()
    modifies ls
    ensures ls.Valid()
    ensures ls.keys == if ls.hasWindow then Sweep(old(ls.keys), now) else old(ls.keys)
    ensures forall k :: k in ls.items ==> k in old(ls.items) && ls.items[k] == old(ls.items)[k]
    ensures forall k :: k in old(ls.items) && !Expired(k, now) ==> k in ls.items
  {
    if !ls.hasWindow {
      return;
    }
    var sevenDaysAgo := now - 7 * DayMs;
    var i := 0;
    while i < ls.Length()
      invariant ls.Valid()
      invariant 0 <= i <= |ls.keys| + 1
      invariant i <= |ls.keys| ==> ls.keys[..i] + Sweep(ls.keys[i..], now) == Sweep(old(ls.keys), now)
      invariant i == |ls.keys| + 1 ==> ls.keys == Sweep(old(ls.keys), now)
      invariant forall k :: k in ls.items ==> k in old(ls.items) && ls.items[k] == old(ls.items)[k]
      decreases |ls.keys| + 1 - i
    {
      var key := ls.Key(i);
      if key.Some? && StartsWith(key.value, ActivityPrefix) {
        var dateStr := key.value[|ActivityPrefix|..];
        var date := ParseIsoDate(dateStr);
        if date.Some? && date.value * DayMs < sevenDaysAgo {
          assert Expired(key.value, now);
          SweepStepRemove(ls.keys, i, now);
          EraseAt(ls.keys, i);
          ls.RemoveItem(key.value);
          i := i + 1;
          continue;
        }
      }
      assert !Expired(ls.keys[i], now);
      SweepStepKeep(ls.keys, i, now);
      i := i + 1;
    }
    if i == |ls.keys| {
      assert ls.keys[..i] == ls.keys && ls.keys[i..] == [];
    }
    SweepKeepsLiveKeys(old(ls.keys), now);
  }

  /** The loop with the skip removed: after a deletion the same index is examined again. Every expired
      record goes, and every other key stays with its value. */
  method CleanupOldActivityFixed(ls: LocalStorage, now: Millis)
    requires ls.Valid()
    modifies ls
    ensures ls.Valid()
    ensures ls.keys == if ls.hasWindow then Purge(old(ls.keys), now) else old(ls.keys)
    ensures forall k :: k in ls.items ==> k in old(ls.items) && ls.items[k] == old(ls.items)[k]
    ensures ls.hasWindow ==> forall k :: k in old(ls.items) ==> (k in ls.items <==> !Expired(k, now))
  {
    if !ls.hasWindow {
      return;
    }
    var sevenDaysAgo := now - 7 * DayMs;
    var i := 0;
    while i < ls.Length()
      invariant ls.Valid()
      invariant 0 <= i <= |ls.keys|
      invariant ls.keys[..i] + Purge(ls.keys[i..], now) == Purge(old(ls.keys), now)
      invariant forall k :: k in ls.items ==> k in old(ls.items) && ls.items[k] == old(ls.items)[k]
      decreases |ls.keys| - i
    {
      var key := ls.keys[i];
      if StartsWith(key, ActivityPrefix) {
        var date := ParseIsoDate(key[|ActivityPrefix|..]);
        if date.Some? && date.value * DayMs < sevenDaysAgo {
          assert Expired(key, now);
          PurgeStepRemove(ls.keys, i, now);
          EraseAt(ls.keys, i);
          ls.RemoveItem(key);
          continue;
        }
      }
      assert !Expired(key, now);
      PurgeStepKeep(ls.keys, i, now);
      i := i + 1;
    }
    assert ls.keys[..i] == ls.keys && ls.keys[i..] == [];
  }
}
