/**
 * Shared vocabulary: optional values, database ids, and "the first row by
 * id", which the service code obtains with `ORDER BY id LIMIT 1`.
 */
module Base {

  /** Python `None` versus a present value. */
  datatype Option<T> = None | Some(value: T)
  {
    function GetOr(default: T): T
    {
      if Some? then value else default
    }
  }

  /**
   * The service layer's exceptions (backend/exceptions/business_exceptions.py):
   * validation (400), not found (404, naming the resource and its id, or
   * the resource and a free-text identifier), permission denied (403) and
   * conflict (409); and the routers' own `HTTPException(400, detail)`.
   */
  datatype Error =
    | ValidationError(message: string)
    | NotFoundError(resource: string, id: Option<int>)
    | NotFoundDescribed(resource: string, detail: string)
    | PermissionDenied(message: string)
    | ConflictError(message: string)
    | BadRequest(detail: string)

  /** A value, or the exception the Python code raises instead of returning. */
  datatype Result<T> = Ok(value: T) | Err(error: Error)

  /**
   * A primary key. SQLite autoincrement keys start at 1, so an id is never
   * the falsy integer 0 and `if x_id:` on an optional id is `x_id.Some?`.
   */
  type Id = x: int | 1 <= x witness 1

  /** A non-empty set has a member (stated once, used by every minimum). */
  lemma NonEmptyHasMember(s: set<int>)
    requires s != {}
    ensures exists x :: x in s
  {
    if forall x :: x !in s {
      assert false;
    }
  }

  /** A non-empty finite set of integers has a least element. */
  lemma LeastExists(s: set<int>)
    requires s != {}
    ensures exists m :: m in s && forall y :: y in s ==> m <= y
    decreases |s|
  {
    NonEmptyHasMember(s);
    var x :| x in s;
    if !(forall y :: y in s ==> x <= y) {
      var y :| y in s && y < x;
      var rest := s - {x};
      assert y in rest;
      LeastExists(rest);
      var r :| r in rest && forall z :: z in rest ==> r <= z;
      assert forall z :: z in s ==> z == x || z in rest;
    }
  }

  /** The least element of a non-empty set: "first by id". */
  function Least(s: set<int>): (m: int)
    requires s != {}
    ensures m in s
    ensures forall y :: y in s ==> m <= y
  {
    LeastExists(s);
    var m :| m in s && forall y :: y in s ==> m <= y;
    m
  }

  /** `query.order_by(id).first()` over the ids satisfying a filter. */
  function FirstId(s: set<Id>): (r: Option<Id>)
    ensures r.None? <==> s == {}
    ensures r.Some? ==> r.value in s && forall y :: y in s ==> r.value <= y
  {
    if s == {} then None else Some(Least(s))
  }

  /**
   * Concatenation regroups. Stated once so that accumulator loops can
   * cite it instead of leaving the solver to rediscover it by extensionality.
   */
  lemma AppendAssoc<T>(a: seq<T>, b: seq<T>, c: seq<T>)
    ensures (a + b) + c == a + (b + c)
  {
  }
}
