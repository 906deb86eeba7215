/** The parts of the user/session layer that the authorisation rules of the
    comment and article code consume. */
module Users {
  import opened Prelude

  /** The capability tokens the comment and article code checks. */
  datatype Permission =
    | CreateArticle
    | EditArticle
    | EditForeignArticle
    | EditComment
    | EditForeignComment

  /** A logged-in session: its opaque id, the user it belongs to, and its expiry time. */
  datatype Session = Session(id: string, user: string, expires: int)

  /** `Session::allowed`: whether the session's group grants a permission.
      The answer comes from the store, so the lookup itself can fail. */
  type Allowed = (Session, Permission) -> Result<bool>

  /** The own-or-foreign rule, evaluated in the source's order: the `foreign`
      permission is asked first and, if granted, decides alone; otherwise the
      `own` permission is asked and, if granted, the ownership test `owns`
      decides. A failed lookup on the way is propagated. */
  function OwnOrForeign(s: Session, allowed: Allowed, foreign: Permission, own: Permission, owns: Result<bool>): (r: Result<bool>)
    // the foreign permission alone suffices, whatever the rest would answer
    ensures allowed(s, foreign) == Ok(true) ==> r == Ok(true)
    // access is granted exactly by the foreign permission, or by the own permission plus ownership
    ensures r == Ok(true) <==>
      allowed(s, foreign) == Ok(true) ||
      (allowed(s, foreign) == Ok(false) && allowed(s, own) == Ok(true) && owns == Ok(true))
    // a failed lookup is answered as it is, in evaluation order: the foreign
    // permission, then the own permission, then the ownership test
    ensures allowed(s, foreign).Err? ==> r == allowed(s, foreign)
    ensures allowed(s, foreign) == Ok(false) && allowed(s, own).Err? ==> r == allowed(s, own)
    ensures allowed(s, foreign) == Ok(false) && allowed(s, own) == Ok(true) ==> r == owns
    // and no other failure is made up
    ensures r.Err? ==>
      r == allowed(s, foreign) ||
      (allowed(s, foreign) == Ok(false) && (r == allowed(s, own) || (allowed(s, own) == Ok(true) && r == owns)))
  {
    match allowed(s, foreign)
    case Err(e) => Err(e)
    case Ok(true) => Ok(true)
    case Ok(false) =>
      match allowed(s, own)
      case Err(e) => Err(e)
      case Ok(false) => Ok(false)
      case Ok(true) => owns
  }
}
