/** The `[role=userRole]` route parameter matcher. */
module UserRole {

  /** The values of the `userType` enum of the user forms. */
  const UserTypes: seq<string> := ["doctor", "secretaria"]

  /** `match(param)`: exact comparison with the two roles. */
  function Match(param: string): (r: bool)
    ensures r <==> param in UserTypes
  {
    param == "doctor" || param == "secretaria"
  }

  lemma KnownRolesMatch()
    ensures Match("doctor") && Match("secretaria")
  {
  }

  /** Comparison is exact: other spellings, case variants, surrounding
      spaces and the empty string are refused. */
  lemma OtherStringsRefused()
    ensures !Match("") && !Match("Doctor") && !Match("DOCTOR") && !Match("Secretaria")
    ensures !Match(" doctor") && !Match("doctor ") && !Match("secretary") && !Match("admin")
  {
  }
}
