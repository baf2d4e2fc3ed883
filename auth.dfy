/** The lookups of motokross/auth.py over the user map: who is logged in,
    what a user may do, and the password check at login.

    A user map entry is a `User` record, which is never falsy, so the
    `if not user` tests reject exactly the identities that are not keys of
    the map. */
module Auth {
  import opened Wrappers
  import opened Records
  import Config

  /** `DictionaryAuthorizationPolicy.authorized_userid`: the identity itself
      when it is a configured user, otherwise `None`. */
  function AuthorizedUserid(userMap: map<UserId, User>, identity: UserId): (r: Option<UserId>)
    ensures r.Some? <==> identity in userMap
    ensures r.Some? ==> r.value == identity
  {
    if identity in userMap then Some(identity) else None
  }

  /** `sub` occurs in `text` starting at position `i`. */
  predicate OccursAt(text: string, sub: string, i: nat) {
    i + |sub| <= |text| && text[i..i + |sub|] == sub
  }

  lemma ShiftOccurs(text: string, sub: string, i: nat)
    requires text != []
    ensures OccursAt(text, sub, i + 1) <==> OccursAt(text[1..], sub, i)
  {
    if i + 1 + |sub| <= |text| {
      var a := text[i + 1..i + 1 + |sub|];
      var b := text[1..][i..i + |sub|];
      assert |a| == |b|;
      forall k | 0 <= k < |a| ensures a[k] == b[k] {
        assert a[k] == text[i + 1 + k];
        assert b[k] == text[1..][i + k];
      }
      assert a == b;
    }
  }

  /** Python's `sub in text` on strings: `sub` is a substring of `text`. */
  function Contains(text: string, sub: string): (c: bool)
    ensures c <==> exists i: nat :: OccursAt(text, sub, i)
    decreases |text|
  {
    if |sub| > |text| then
      assert forall i: nat :: !OccursAt(text, sub, i);
      false
    else if text[..|sub|] == sub then
      assert OccursAt(text, sub, 0);
      true
    else
      var c := Contains(text[1..], sub);
      forall i: nat ensures OccursAt(text, sub, i + 1) <==> OccursAt(text[1..], sub, i) {
        ShiftOccurs(text, sub, i);
      }
      if c then
        var i: nat :| OccursAt(text[1..], sub, i);
        assert OccursAt(text, sub, i + 1);
        true
      else
        forall i: nat ensures !OccursAt(text, sub, i) {
          if i > 0 {
            assert !OccursAt(text[1..], sub, i - 1);
          }
        }
        false
  }

  /** `permission in user.permissions`: membership for a list of names,
      substring containment for a single string. */
  function HasPermission(p: Permissions, permission: string): bool {
    match p
    case PermList(names) => permission in names
    case PermText(text) => Contains(text, permission)
  }

  /** `DictionaryAuthorizationPolicy.permits`: false for an unknown identity,
      otherwise whether the user's permissions hold `permission`. */
  function Permits(userMap: map<UserId, User>, identity: UserId, permission: string): (r: bool)
    ensures identity !in userMap ==> !r
    ensures identity in userMap ==> (r <==> HasPermission(userMap[identity].permissions, permission))
  {
    match Lookup(userMap, identity)
    case None => false
    case Some(user) => HasPermission(user.permissions, permission)
  }

  /** `check_credentials` with the form fields, either of which may be
      missing: true exactly when the username is configured and the supplied
      password is that user's password. */
  function CheckCredentials(userMap: map<UserId, User>, username: Option<UserId>, password: Option<string>): (r: bool)
    ensures r <==> username.Some? && username.value in userMap && password == Some(userMap[username.value].password)
  {
    match username
    case None => false
    case Some(name) =>
      match Lookup(userMap, name)
      case None => false
      case Some(user) => password == Some(user.password)
  }

  /** A user loaded without a `permissions` key holds the string "user":
      asking for "user" is permitted and asking for "admin" is not. */
  lemma DefaultPermissions(e: Config.UserEntry, userMap: map<UserId, User>)
    requires Config.LoadUser(e).Ok? && e.permissions.None?
    requires e.username.value in userMap && userMap[e.username.value] == Config.LoadUser(e).value
    ensures Permits(userMap, e.username.value, "user")
    ensures !Permits(userMap, e.username.value, "admin")
  {
    assert OccursAt("user", "user", 0);
    forall i: nat ensures !OccursAt("user", "admin", i) {
    }
  }

  /** For a configuration whose users load, a username that no later record
      repeats logs in with exactly the password of that record. */
  lemma ConfiguredUserLogsIn(entries: seq<Config.UserEntry>, i: nat, password: Option<string>)
    requires Config.LoadUsers(entries).Ok?
    requires i < |entries|
    requires forall j | i < j < |entries| :: entries[j].username != entries[i].username
    ensures var userMap := Config.UserMap(Config.LoadUsers(entries).value);
            CheckCredentials(userMap, entries[i].username, password) <==> password == entries[i].password
  {
    var users := Config.LoadUsers(entries).value;
    assert Config.LoadUser(entries[i]).Ok?;
    forall j | i < j < |users| ensures users[j].username != users[i].username {
      assert Config.LoadUser(entries[j]).Ok?;
    }
    Config.UserMapLastWins(users, i);
  }
}
