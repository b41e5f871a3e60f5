/**
 * The user table, as far as the core consults it: which user ids exist.
 * Creating and deleting users is not part of this model.
 */
module Users {

  class UserRepository {
    var ids: set<int>

    constructor (ids: set<int>)
      ensures this.ids == ids
    {
      this.ids := ids;
    }
  }
}
