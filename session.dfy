/**
 * The signed-in user and the two checks made against it: the admin role test
 * of the handlers and the fixed login credentials.
 */
module Session {

  /** The current user; `role` is "admin" or "member", `token` a placeholder. */
  datatype User = User(name: string, role: string, token: string)

  /** The user assumed when none is stored. */
  const DefaultUser: User := User("Admin", "admin", "demo-jwt")

  /** The test `currentUser.role === 'admin'` made by the handlers that gate an action. */
  predicate IsAdmin(u: User) {
    u.role == "admin"
  }

  /** The login form accepts exactly one user name and password pair. */
  predicate CredentialsAccepted(username: string, password: string) {
    username == "admin" && password == "demo123"
  }
}
