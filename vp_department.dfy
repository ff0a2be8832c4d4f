/**
 * VP-to-department supervision links (backend/services/vp_department_service.py).
 * A department may be supervised by several VPs, and at most one of those
 * links is its default: making a link the default first clears the flag on
 * the department's other links.
 */
module VpDepartment {
  import opened Base
  import opened Models

  type Links = map<Id, SupervisionLink>

  /** No department has two default links. */
  predicate AtMostOneDefault(links: Links)
  {
    forall a, b :: (a in links && b in links && links[a].isDefault && links[b].isDefault
                    && links[a].department == links[b].department) ==> a == b
  }

  /** No (VP, department) pair is stored twice; creation refuses duplicates. */
  predicate UniquePairs(links: Links)
  {
    forall a, b :: (a in links && b in links && links[a].vp == links[b].vp
                    && links[a].department == links[b].department) ==> a == b
  }

  predicate HasPair(links: Links, vp: Id, dept: Id)
  {
    exists k :: k in links && links[k].vp == vp && links[k].department == dept
  }

  /** The flag-clearing loops of lines 133-137 and 169-173: every link of `dept` except `keep` stops being the default. */
  function ClearedDefaults(links: Links, dept: Id, keep: Option<Id>): (r: Links)
    ensures r.Keys == links.Keys
    ensures forall k :: k in links && links[k].department != dept ==> r[k] == links[k]
    ensures forall k :: k in links && Some(k) == keep ==> r[k] == links[k]
    ensures forall k :: k in links ==> r[k] == links[k].(isDefault := r[k].isDefault)
    ensures forall k :: k in links && links[k].department == dept && Some(k) != keep ==> !r[k].isDefault
  {
    map k | k in links :: if links[k].department == dept && Some(k) != keep then links[k].(isDefault := false) else links[k]
  }

  /** The links after `create_vp_department` has passed its checks and stored `link` under `id`. */
  function AfterCreate(links: Links, id: Id, link: SupervisionLink): Links
  {
    (if link.isDefault then ClearedDefaults(links, link.department, None) else links)[id := link]
  }

  /** The links after `update_vp_department(id, isDefault)` on an existing link. */
  function AfterUpdate(links: Links, id: Id, isDefault: Option<bool>): Links
    requires id in links
  {
    match isDefault
    case None => links
    case Some(b) =>
      var cleared := if b then ClearedDefaults(links, links[id].department, Some(id)) else links;
      cleared[id := cleared[id].(isDefault := b)]
  }

  /** The checks of `create_vp_department`, in order (lines 118-130). */
  function CreateError(links: Links, vp: Id, dept: Id, dir: Directory): (r: Option<Error>)
    ensures r.None? <==> vp in dir.users && dir.users[vp].role == VicePresident
                         && dept in dir.departments && !HasPair(links, vp, dept)
    ensures r == Some(ValidationError("指定的用户不是副总")) <==> vp !in dir.users || dir.users[vp].role != VicePresident
  {
    if vp !in dir.users || dir.users[vp].role != VicePresident then Some(ValidationError("指定的用户不是副总"))
    else if dept !in dir.departments then Some(NotFoundError("部门", Some(dept)))
    else if HasPair(links, vp, dept) then Some(ConflictError("该副总已分管该部门"))
    else None
  }

  /** Creating a link keeps both invariants and touches no other department. */
  lemma CreateKeepsInvariants(links: Links, id: Id, link: SupervisionLink)
    requires AtMostOneDefault(links) && UniquePairs(links)
    requires id !in links && !HasPair(links, link.vp, link.department)
    ensures AtMostOneDefault(AfterCreate(links, id, link)) && UniquePairs(AfterCreate(links, id, link))
    ensures AfterCreate(links, id, link).Keys == links.Keys + {id}
    ensures forall k :: k in links && links[k].department != link.department ==> AfterCreate(links, id, link)[k] == links[k]
    ensures !link.isDefault ==> forall k :: k in links ==> AfterCreate(links, id, link)[k] == links[k]
    ensures link.isDefault ==> forall k :: k in links && links[k].department == link.department
                                 ==> !AfterCreate(links, id, link)[k].isDefault
  {
  }

  /** Updating a link keeps at most one default per department and touches no other department. */
  lemma UpdateKeepsInvariants(links: Links, id: Id, isDefault: Option<bool>)
    requires id in links && AtMostOneDefault(links) && UniquePairs(links)
    ensures var r := AfterUpdate(links, id, isDefault);
            AtMostOneDefault(r) && UniquePairs(r) && r.Keys == links.Keys
            && (forall k :: k in links && links[k].department != links[id].department ==> r[k] == links[k])
            && (forall k :: k in links ==> r[k] == links[k].(isDefault := r[k].isDefault))
            && (isDefault.Some? ==> r[id].isDefault == isDefault.value)
            && (isDefault == Some(false) ==> forall k :: k in links && k != id ==> r[k] == links[k])
  {
  }

  /** Unsetting the only default leaves the department with no default at all. */
  lemma UnsetCanLeaveNoDefault(links: Links, id: Id)
    requires id in links && links[id].isDefault && AtMostOneDefault(links)
    ensures var r := AfterUpdate(links, id, Some(false));
            forall k :: k in r && r[k].department == links[id].department ==> !r[k].isDefault
  {
  }

  /** The `vice_president_departments` rows, updated in place. */
  class SupervisionTable {
    var links: Links
    var nextId: Id

    ghost predicate Valid()
      reads this
    {
      AtMostOneDefault(links) && UniquePairs(links) && forall k :: k in links ==> k < nextId
    }

    constructor()
      ensures Valid() && links == map[] && nextId == 1
    {
      links := map[];
      nextId := 1;
    }

    /** The loop over `get_by_department(dept)` that resets `is_default` on every link but `keep`. */
    method ClearDefaults(dept: Id, keep: Option<Id>)
      modifies this
      ensures links == ClearedDefaults(old(links), dept, keep) && nextId == old(nextId)
    {
      ghost var target := ClearedDefaults(links, dept, keep);
      var todo := set k | k in links && links[k].department == dept;
      while todo != {}
        invariant links.Keys == target.Keys && nextId == old(nextId)
        invariant forall k :: k in links && k !in todo ==> links[k] == target[k]
        invariant forall k :: k in todo ==> k in links && links[k] == old(links)[k] && links[k].department == dept
        decreases |todo|
      {
        NonEmptyHasMember(todo);
        var k :| k in todo;
        if links[k].isDefault && Some(k) != keep {
          links := links[k := links[k].(isDefault := false)];
        }
        todo := todo - {k};
      }
    }

    /** `create_vp_department`. */
    method Create(vp: Id, dept: Id, isDefault: bool, dir: Directory) returns (r: Result<SupervisionLink>)
      requires Valid()
      modifies this
      ensures Valid()
      ensures CreateError(old(links), vp, dept, dir).Some? ==>
                r == Err(CreateError(old(links), vp, dept, dir).value) && links == old(links) && nextId == old(nextId)
      ensures CreateError(old(links), vp, dept, dir).None? ==>
                r == Ok(SupervisionLink(vp, dept, isDefault)) && old(nextId) !in old(links)
                && links == AfterCreate(old(links), old(nextId), SupervisionLink(vp, dept, isDefault))
                && nextId == old(nextId) + 1
    {
      var err := CreateError(links, vp, dept, dir);
      if err.Some? {
        return Err(err.value);
      }
      ghost var before := links;
      var link := SupervisionLink(vp, dept, isDefault);
      if isDefault {
        ClearDefaults(dept, None);
      }
      CreateKeepsInvariants(before, nextId, link);
      links := links[nextId := link];
      nextId := nextId + 1;
      r := Ok(link);
    }

    /** `update_vp_department`. */
    method Update(id: Id, isDefault: Option<bool>) returns (r: Result<SupervisionLink>)
      requires Valid()
      modifies this
      ensures Valid() && nextId == old(nextId)
      ensures id !in old(links) ==> r == Err(NotFoundError("分管关系", Some(id))) && links == old(links)
      ensures id in old(links) ==> links == AfterUpdate(old(links), id, isDefault) && r == Ok(links[id])
    {
      if id !in links {
        return Err(NotFoundError("分管关系", Some(id)));
      }
      UpdateKeepsInvariants(links, id, isDefault);
      if isDefault == Some(true) {
        ClearDefaults(links[id].department, Some(id));
      }
      if isDefault.Some? {
        links := links[id := links[id].(isDefault := isDefault.value)];
      }
      r := Ok(links[id]);
    }

    /** `delete_vp_department`. */
    method Delete(id: Id) returns (r: Result<()>)
      requires Valid()
      modifies this
      ensures Valid() && nextId == old(nextId)
      ensures id !in old(links) ==> r == Err(NotFoundError("分管关系", Some(id))) && links == old(links)
      ensures id in old(links) ==> r == Ok(()) && links == old(links) - {id}
    {
      if id !in links {
        return Err(NotFoundError("分管关系", Some(id)));
      }
      links := links - {id};
      r := Ok(());
    }
  }
}
