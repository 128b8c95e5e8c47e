/**
 * The records the leaderboard passes around: a row of the `users` table and
 * a user annotated with a rank.
 */
module Models {

  datatype Option<T> = None | Some(value: T)

  /**
   * A row of the `users` table. The creation and update timestamps of the
   * source record are not modelled.
   */
  datatype User = User(id: int, username: string, rating: int)

  /** A user together with its position on the leaderboard. */
  datatype UserWithRank = UserWithRank(user: User, rank: int)
}
