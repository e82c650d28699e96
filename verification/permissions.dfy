/**
 * The three permission classes of the API. Each is a total boolean function of
 * the actor's superuser flag, the HTTP method and (for contents) whether the
 * actor is enrolled in the content's course. Nothing else is consulted: there is
 * no ownership or instructor check anywhere.
 */
module Permissions {

  datatype HttpMethod = GET | HEAD | OPTIONS | POST | PUT | PATCH | DELETE

  /** Django REST framework's SAFE_METHODS. */
  predicate IsSafe(m: HttpMethod) {
    m == GET || m == HEAD || m == OPTIONS
  }

  /**
   * `isAdmOrOwner.has_permission`: the collection-level gate of every course
   * endpoint and of content creation.
   */
  function AdmOrOwner(isSuperuser: bool, m: HttpMethod): (allowed: bool)
    ensures isSuperuser ==> allowed
    ensures IsSafe(m) ==> allowed
    ensures !isSuperuser && !IsSafe(m) ==> !allowed
  {
    isSuperuser || IsSafe(m)
  }

  /**
   * `isStudentOrAdm.has_object_permission` on a content. In the source's
   * expression `and` binds tighter than `or`, so it reads
   * superuser OR (safe method AND enrolled).
   */
  function StudentOrAdm(isSuperuser: bool, m: HttpMethod, enrolled: bool): (allowed: bool)
    ensures isSuperuser ==> allowed
    ensures !isSuperuser ==> (allowed <==> IsSafe(m) && enrolled)
  {
    isSuperuser || (IsSafe(m) && enrolled)
  }

  /**
   * `isStudent.has_permission`: the only permission of the enrollment
   * endpoint. The method is accepted but never consulted.
   */
  function StudentsGate(isSuperuser: bool, m: HttpMethod): (allowed: bool)
    ensures allowed <==> isSuperuser
  {
    isSuperuser
  }

  /** A non-superuser may never write through the collection-level gate. */
  lemma NonSuperuserCannotWrite(m: HttpMethod)
    requires !IsSafe(m)
    ensures !AdmOrOwner(false, m)
    ensures !StudentOrAdm(false, m, true) && !StudentOrAdm(false, m, false)
    ensures !StudentsGate(false, m)
  {
  }

  /** Being enrolled never grants a write on a content, and grants every safe method. */
  lemma EnrollmentGrantsExactlyReads(m: HttpMethod)
    ensures StudentOrAdm(false, m, true) <==> IsSafe(m)
    ensures !StudentOrAdm(false, m, false)
  {
  }

  /**
   * Whoever passes the object-level content check also passes the
   * collection-level gate for the same method; the converse fails for a reader
   * who is not enrolled.
   */
  lemma ObjectLevelImpliesCollectionLevel(isSuperuser: bool, m: HttpMethod, enrolled: bool)
    ensures StudentOrAdm(isSuperuser, m, enrolled) ==> AdmOrOwner(isSuperuser, m)
    ensures AdmOrOwner(false, GET) && !StudentOrAdm(false, GET, false)
  {
  }

  /** The enrollment gate gives the same verdict for every method. */
  lemma StudentsGateIgnoresMethod(isSuperuser: bool, m1: HttpMethod, m2: HttpMethod)
    ensures StudentsGate(isSuperuser, m1) == StudentsGate(isSuperuser, m2)
  {
  }
}
