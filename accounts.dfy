/** What register.php, login.php and profile.php share: reading a posted field, the email checks
    and the lookup of a user row by email. */
module Accounts {
  import opened Php
  import opened Store

  /** $_POST[$key] ?? '': an unset field reads as the empty string. */
  function PostValue(v: Option<string>): (r: string)
    ensures v.Some? ==> r == v.value
    ensures v.None? ==> r == ""
  {
    if v.Some? then v.value else ""
  }

  const EmailRequired := "Email is required"
  const EmailInvalid := "Please enter a valid email address"

  /** The email branch of the error chain; `validEmail` stands for filter_var(FILTER_VALIDATE_EMAIL). */
  function EmailErrors(email: string, validEmail: string -> bool): (r: seq<string>)
    ensures |r| <= 1
    ensures r == [] <==> !Empty(Some(email)) && validEmail(email)
    ensures Empty(Some(email)) ==> r == [EmailRequired]
  {
    if Empty(Some(email)) then [EmailRequired]
    else if !validEmail(email) then [EmailInvalid]
    else []
  }

  /** SELECT ... FROM users WHERE email = ?, first row. */
  function FindByEmail(users: seq<User>, email: string): (r: Option<User>)
    ensures r.Some? ==> r.value in users && r.value.email == email
    ensures r.None? ==> forall u :: u in users ==> u.email != email
  {
    if users == [] then None
    else if users[0].email == email then Some(users[0])
    else FindByEmail(users[1..], email)
  }

  /** SELECT * FROM users WHERE id = ?, first row. */
  function FindById(users: seq<User>, id: int): (r: Option<User>)
    ensures r.Some? ==> r.value in users && r.value.id == id
    ensures r.None? <==> id !in UserIds(users)
  {
    if users == [] then None
    else if users[0].id == id then Some(users[0])
    else
      assert UserIds(users) == {users[0].id} + UserIds(users[1..]) by {
        assert users == [users[0]] + users[1..];
      }
      FindById(users[1..], id)
  }
}
