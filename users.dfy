/**
 * The record stored in a table (User_t). Names and emails are opaque
 * strings: the fixed-width, truncating layout of the C struct is not modelled.
 */
module Users {
  datatype User = User(id: int, name: string, email: string, age: int)
}
