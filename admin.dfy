/**
 * The admin session gate of lib/admin.ts: a shared password under "admin-password" that falls
 * back to a built-in default, and a login flag under "admin-logged-in". The flag is written only
 * by a login with the right password and removed only by logout; nothing ties it to the password.
 */
module Admin {
  import opened Optional
  import opened Storage

  const DefaultAdminPassword: string := "admin123"

  /** `getAdminPassword()`: the stored password when one is set and non-empty, otherwise the default. */
  function AdminPassword(ls: LocalStorage): (pw: string)
    reads ls
    ensures pw != []
    ensures (ls.hasWindow && PasswordKey in ls.items && ls.items[PasswordKey].Text?
             && ls.items[PasswordKey].s != []) ==> pw == ls.items[PasswordKey].s
    ensures pw != DefaultAdminPassword ==> ls.hasWindow && ls.GetItem(PasswordKey) == Some(Text(pw))
  {
    if !ls.hasWindow then DefaultAdminPassword
    else match ls.GetItem(PasswordKey)
      case Some(Text(s)) => if s != [] then s else DefaultAdminPassword
      case _ => DefaultAdminPassword
  }

  /** `isAdminLoggedIn()`: the flag holds exactly the text "true", in a browser. */
  predicate IsAdminLoggedIn(ls: LocalStorage)
    reads ls
    ensures !ls.hasWindow ==> !IsAdminLoggedIn(ls)
    ensures IsAdminLoggedIn(ls) ==> LoggedInKey in ls.items && ls.items[LoggedInKey] == Text("true")
  {
    ls.hasWindow && ls.GetItem(LoggedInKey) == Some(Text("true"))
  }

  /** `setAdminPassword(pw)`: stores `pw`; an empty `pw` brings the default back. The login flag is left alone. */
  method SetAdminPassword(ls: LocalStorage, pw: string)
    requires ls.Valid()
    modifies ls
    ensures ls.Valid()
    ensures ls.hasWindow ==> ls.items == old(ls.items)[PasswordKey := Text(pw)]
    ensures ls.hasWindow ==> ls.keys == WithKey(old(ls.keys), PasswordKey)
    ensures !ls.hasWindow ==> ls.items == old(ls.items) && ls.keys == old(ls.keys)
    ensures old(ls.keys) <= ls.keys
    ensures AdminPassword(ls) == if ls.hasWindow && pw != [] then pw else DefaultAdminPassword
    ensures IsAdminLoggedIn(ls) == old(IsAdminLoggedIn(ls))
  {
    if ls.hasWindow {
      ls.SetItem(PasswordKey, Text(pw));
    }
  }

  /** `adminLogin(pw)`: succeeds exactly when `pw` is the current password, and then sets the flag;
      a wrong password changes nothing. Outside a browser the right password (the default) reaches
      `localStorage`, which does not exist there, and the call throws: the result is None. */
  method AdminLogin(ls: LocalStorage, pw: string) returns (r: Option<bool>)
    requires ls.Valid()
    modifies ls
    ensures ls.Valid()
    ensures r == None <==> !ls.hasWindow && pw == DefaultAdminPassword
    ensures r.Some? ==> (r.value <==> pw == old(AdminPassword(ls)))
    ensures r == Some(true) ==> IsAdminLoggedIn(ls) && ls.items == old(ls.items)[LoggedInKey := Text("true")]
    ensures r == Some(true) ==> ls.keys == WithKey(old(ls.keys), LoggedInKey)
    ensures r != Some(true) ==> ls.items == old(ls.items) && ls.keys == old(ls.keys)
    ensures old(ls.keys) <= ls.keys
    ensures AdminPassword(ls) == old(AdminPassword(ls))
  {
    var correct := AdminPassword(ls);
    if pw == correct {
      if !ls.hasWindow {
        // ReferenceError: localStorage is not defined
        return None;
      }
      ls.SetItem(LoggedInKey, Text("true"));
      return Some(true);
    }
    return Some(false);
  }

  /** `adminLogout()`: removes the flag, so the admin is logged out; the password is left alone.
      Logging out when already logged out changes nothing. */
  method AdminLogout(ls: LocalStorage)
    requires ls.Valid()
    modifies ls
    ensures ls.Valid()
    ensures !IsAdminLoggedIn(ls)
    ensures ls.hasWindow ==> ls.items == old(ls.items) - {LoggedInKey}
    ensures ls.hasWindow ==> ls.keys == Erase(old(ls.keys), LoggedInKey)
    ensures !ls.hasWindow ==> ls.items == old(ls.items) && ls.keys == old(ls.keys)
    ensures old(LoggedInKey !in ls.items) ==> ls.items == old(ls.items) && ls.keys == old(ls.keys)
    ensures AdminPassword(ls) == old(AdminPassword(ls))
  {
    if ls.hasWindow {
      if LoggedInKey !in ls.items {
        EraseAbsent(ls.keys, LoggedInKey);
      }
      ls.RemoveItem(LoggedInKey);
    }
  }

  /** In storage where no password was ever set, the default password logs in. */
  lemma DefaultPasswordOnFreshStorage(ls: LocalStorage)
    requires PasswordKey !in ls.items
    ensures AdminPassword(ls) == DefaultAdminPassword
  {
  }
}
