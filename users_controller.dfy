/** UserController.getUserData: a user may read only their own record. */
module UsersController {
  import opened Entities
  import opened UsersService

  /** `{ status: 'error', message: 'Unauthorized' }`, or what getUserById resolved to. */
  datatype UserDataReply = Refused(message: string) | Fetched(data: UserData)

  /** getUserData(userId, req) with `requestingUserId = req.user['userId']`. */
  function GetUserData(users: map<Uuid, User>, userId: Uuid, requestingUserId: Uuid): (r: Result<UserDataReply, Error>)
    ensures requestingUserId != userId ==> r == Ok(Refused("Unauthorized"))
    ensures requestingUserId == userId ==>
              match GetUserById(users, userId)
              case Ok(data) => r == Ok(Fetched(data))
              case Err(e) => r == Err(e)
  {
    if requestingUserId != userId then Ok(Refused("Unauthorized"))
    else
      match GetUserById(users, userId)
      case Ok(data) => Ok(Fetched(data))
      case Err(e) => Err(e)
  }

  /** On a mismatch the user table is not consulted: the answer is the same whatever it holds. */
  lemma MismatchIgnoresStore(users1: map<Uuid, User>, users2: map<Uuid, User>, userId: Uuid, requestingUserId: Uuid)
    requires requestingUserId != userId
    ensures GetUserData(users1, userId, requestingUserId) == GetUserData(users2, userId, requestingUserId)
  {
  }

  /** The owner of an unknown id gets getUserById's NotFound, not the refusal. */
  lemma UnknownOwnerPropagatesNotFound(users: map<Uuid, User>, userId: Uuid)
    requires userId !in users
    ensures GetUserData(users, userId, userId) == Err(NotFound("User with id " + userId + " not found"))
  {
  }
}
