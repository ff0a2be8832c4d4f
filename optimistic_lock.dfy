/**
 * The optimistic-lock helpers (backend/utils/optimistic_lock.py): an
 * entity may carry an integer `version` column; a check compares it with
 * the version the caller read, an increment bumps it. An entity without
 * the column passes every check and is left alone by an increment.
 */
module OptimisticLock {
  import opened Base
  import opened Text

  /** The `OptimisticLockError` text naming the current and the expected version. */
  function ConflictMessage(current: int, expected: int): string
  {
    "数据已被其他用户修改（当前版本：" + IntToString(current) + "，期望版本：" + IntToString(expected) + "）"
  }

  /** `check_version`: `None` when it returns, the lock error's message when it raises. */
  function CheckVersion(version: Option<int>, expected: int): (r: Option<string>)
    ensures r.Some? <==> version.Some? && version.value != expected
    ensures r.Some? ==> r.value == ConflictMessage(version.value, expected)
  {
    if version.None? then None
    else if version.value != expected then Some(ConflictMessage(version.value, expected))
    else None
  }

  /** `increment_version` on the column's value. */
  function Incremented(version: Option<int>): (r: Option<int>)
    ensures r.Some? <==> version.Some?
    ensures version.Some? ==> r.value == version.value + 1
  {
    if version.Some? then Some(version.value + 1) else None
  }

  /**
   * A version read before an increment no longer passes the check, while
   * the new version does; without the column both pass.
   */
  lemma IncrementInvalidatesOldVersion(version: Option<int>)
    ensures version.Some? ==> CheckVersion(Incremented(version), version.value).Some?
    ensures version.Some? ==> CheckVersion(Incremented(version), version.value + 1).None?
    ensures version.None? ==> forall expected :: CheckVersion(Incremented(version), expected).None?
  {
  }

  /** Every increment moves the version on: after `k` more increments an old read fails the check. */
  lemma {:induction false} StaleAfterIncrements(version: int, k: nat)
    requires k >= 1
    ensures CheckVersion(IncrementedTimes(Some(version), k), version).Some?
    ensures IncrementedTimes(Some(version), k) == Some(version + k)
  {
    if k > 1 {
      StaleAfterIncrements(version, k - 1);
    }
  }

  function IncrementedTimes(version: Option<int>, k: nat): Option<int>
  {
    if k == 0 then version else Incremented(IncrementedTimes(version, k - 1))
  }

  /** An entity object whose `version` attribute the helpers read and write. */
  class Entity {
    var version: Option<int>

    constructor(version: Option<int>)
      ensures this.version == version
    {
      this.version := version;
    }

    /** `check_version(entity, expected)`: reads the entity, changes nothing. */
    method Check(expected: int) returns (r: Option<string>)
      ensures r == CheckVersion(version, expected)
    {
      if version.None? {
        return None;
      }
      if version.value != expected {
        return Some(ConflictMessage(version.value, expected));
      }
      return None;
    }

    /** `increment_version(entity)`. */
    method Increment()
      modifies this
      ensures version == Incremented(old(version))
    {
      if version.Some? {
        version := Some(version.value + 1);
      }
    }
  }
}
