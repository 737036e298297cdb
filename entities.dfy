/** The two table rows of the service: accounts and the documents they own. */
module Entities {
  import opened Wrappers

  /**
   * A row of the `user` table. `id` is assigned by the table when the row is
   * saved; `username` is a unique column; `password` holds whatever the caller
   * handed to the store (a bcrypt hash when the row comes from registration).
   */
  datatype User = User(id: int, username: string, password: string, role: string)

  /**
   * A row of the `document` table. `filePath` is a declared column that no
   * operation ever sets, hence an Option that stays None. `user` is the owner
   * that was attached when the row was created: the result of looking the
   * owner id up, absent when no such user existed.
   */
  datatype Document = Document(
    id: int,
    title: string,
    description: string,
    filePath: Option<string>,
    user: Option<User>)
}
