/** The sign-in screen of app/signin.tsx: both fields must be filled in; a
    successful sign-in fills the shared profile from the username. */
module SignIn {
  import opened Wrappers
  import opened Types
  import opened AppContext

  const MissingCredentials: string := "Please enter both username and password."

  /** The mail domain of the derived address. */
  const EmailDomain: string := "@example.com"

  /** The partial profile a sign-in as `username` writes (signin.tsx:28). */
  function SignInPatch(username: string): (p: UserPatch)
    ensures p.id.None? && p.avatar.None? && p.joinDate.None?
    ensures p.username == Some(username) && p.displayName == Some(username)
    ensures p.email == Some(username + EmailDomain)
  {
    UserPatch(None, Some(username), Some(username), Some(username + EmailDomain), None, None)
  }

  /** Signing in as `username` sets the three name fields and keeps the id,
      the avatar and the join date. */
  lemma SignedInProfile(u: User, username: string)
    ensures var r := MergeUser(u, SignInPatch(username));
      && r.username == username
      && r.displayName == username
      && r.email == username + EmailDomain
      && r.id == u.id && r.avatar == u.avatar && r.joinDate == u.joinDate
  {
  }

  class SignInScreen {
    var username: string
    var password: string
    var error: string

    constructor ()
      ensures username == "" && password == "" && error == ""
    {
      username := "";
      password := "";
      error := "";
    }

    /** The username input's change handler. */
    method SetUsername(u: string)
      modifies this`username
      ensures username == u
    {
      username := u;
    }

    /** The password input's change handler. */
    method SetPassword(p: string)
      modifies this`password
      ensures password == p
    {
      password := p;
    }

    /** "Sign In": with a field left empty, shows the fixed message and leaves the
        profile alone; otherwise writes the profile derived from the username
        into `app` and clears the message. */
    method HandleSignIn(app: AppProvider)
      modifies this`error, app`user
      ensures username == "" || password == "" ==>
        error == MissingCredentials && app.user == old(app.user)
      ensures username != "" && password != "" ==>
        error == "" && app.user == MergeUser(old(app.user), SignInPatch(username))
    {
      if username == "" || password == "" {
        error := MissingCredentials;
        return;
      }
      app.UpdateUser(SignInPatch(username));
      error := "";
    }
  }
}
