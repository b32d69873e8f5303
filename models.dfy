/** The persisted records (internal/models). */
module Models {
  import opened Uuid

  /** `Password` holds the salted digest once stored; `Salt` the hex salt. */
  datatype User = User(id: UUID, firstName: string, lastName: string, username: string,
                       email: string, password: string, salt: string)

  datatype Comment = Comment(id: UUID, content: string, userId: UUID, postId: UUID)

  datatype Post = Post(id: UUID, title: string, content: string, userId: UUID, comments: seq<Comment>)

  /** Go zero values (`&models.User{}` and friends). */
  const ZeroUser := User(Zero, "", "", "", "", "", "")
  const ZeroComment := Comment(Zero, "", Zero, Zero)
  const ZeroPost := Post(Zero, "", "", Zero, [])
}
