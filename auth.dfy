/** Identity values shared by both back ends: the caller's principal and the
    delete-permission rule that both servers (and both clients) apply. */
module Auth {

  datatype Option<+T> = None | Some(value: T)

  /** Row ids of the Users and Articles tables (SQLite AUTOINCREMENT keys). */
  type Id = nat

  /** The `role` column: the only values either server ever stores are 'user' and 'admin'. */
  datatype Role = User | Admin

  /** The claim set `{id, username, role}`: the session record of the session
      variant and the signed token payload of the token variant. It has no
      password field, so no reply built from it can carry a password hash. */
  datatype Principal = Principal(id: Id, username: string, role: Role)

  /** The authorization decision for DELETE, characterised role by role: an
      administrator may delete any article, a user exactly the articles whose
      owner id is their own id. */
  function CanDelete(p: Principal, ownerId: Id): (allowed: bool)
    ensures p.role == Admin ==> allowed
    ensures p.role == User ==> (allowed <==> p.id == ownerId)
  {
    p.role == Admin || p.id == ownerId
  }
}
