/** The user query (UserRepository.cs): the first user with a given user name. */
module UserRepository {
  import opened Wrappers
  import opened Models
  import opened Linq

  /** `GetByUserName(username)`: `FirstAsync` over the users with that name, which
      throws instead of returning `null` when there is none. */
  function GetByUserName(users: seq<User>, username: string): (r: Result<User, ServerError>)
    ensures r.Success? <==> exists u | u in users :: u.username == username
    ensures r.Failure? ==> r.error == SequenceContainsNoElements
    ensures r.Success? ==>
      exists i | 0 <= i < |users| ::
        && users[i] == r.value && r.value.username == username
        && forall j | 0 <= j < i :: users[j].username != username
  {
    var matches := Where(users, (u: User) => u.username == username);
    if matches == [] then
      Failure(SequenceContainsNoElements)
    else
      WhereFirst(users, (u: User) => u.username == username);
      Success(matches[0])
  }

  /** With unique user names, the lookup returns the stored user of that name. */
  lemma GetByUserNameFindsStored(users: seq<User>, u: User)
    requires u in users
    requires forall v | v in users && v.username == u.username :: v == u
    ensures GetByUserName(users, u.username) == Success(u)
  {
  }
}
