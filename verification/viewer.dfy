/**
 * What the host tells the engine about the person viewing the page. The PHP
 * code asks WordPress for it through `is_user_logged_in`, `wp_get_current_user`
 * and `current_user_can`; here it is one immutable record passed explicitly.
 */
module ViewerContext {
  import opened Nullable

  /**
   * `roles` is the current user's role list, `id`, `login` and `email` the
   * `ID`, `user_login` and `user_email` fields of the user record, and `can`
   * stands for `current_user_can`, whose answer depends on host state the
   * engine never sees.
   */
  datatype Viewer = Viewer(
    loggedIn: bool,
    roles: set<string>,
    id: string,
    login: string,
    email: string,
    can: string -> bool
  )

  /** The three rule keys that address one specific user. */
  predicate IsUserKey(key: string) {
    key == "userid" || key == "username" || key == "useremail"
  }

  /** The user-record field a user key compares against; None for any other key. */
  function UserField(v: Viewer, key: string): (field: Option<string>)
    ensures field.Some? <==> IsUserKey(key)
    ensures key == "userid" ==> field == Some(v.id)
    ensures key == "username" ==> field == Some(v.login)
    ensures key == "useremail" ==> field == Some(v.email)
  {
    if key == "userid" then Some(v.id)
    else if key == "username" then Some(v.login)
    else if key == "useremail" then Some(v.email)
    else None
  }
}
