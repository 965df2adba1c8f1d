/** The login gate at the top of main_full_final_exonascope.py: a static
    table of user names and passwords, and a session flag that a successful
    login sets. */
module Auth {

  /** The `CREDENTIALS` table. */
  const Credentials: map<string, string> :=
    map["defenderA" := "password123", "officeAdmin" := "secureBeta!", "testUser" := "test123"]

  /** `username in CREDENTIALS and CREDENTIALS[username] == password`. */
  predicate Accepts(username: string, password: string) {
    username in Credentials && Credentials[username] == password
  }

  /** Exactly the three listed accounts get in, each with its own password and
      no other. */
  lemma AcceptedPairs(username: string, password: string)
    ensures Accepts(username, password) <==>
      (username == "defenderA" && password == "password123")
      || (username == "officeAdmin" && password == "secureBeta!")
      || (username == "testUser" && password == "test123")
  {
  }

  /** The part of `st.session_state` the gate uses. */
  class Session {
    var authenticated: bool

    /** A new session starts unauthenticated. */
    constructor ()
      ensures !authenticated
    {
      authenticated := false;
    }

    /** Pressing "Login": the flag becomes true on a match; on a mismatch an
        error is shown (`ok` is false) and the flag is left as it was. */
    method Login(username: string, password: string) returns (ok: bool)
      modifies this
      ensures ok <==> Accepts(username, password)
      ensures authenticated == if ok then true else old(authenticated)
    {
      if username in Credentials && Credentials[username] == password {
        authenticated := true;
        ok := true;
      } else {
        ok := false;
      }
    }
  }
}
