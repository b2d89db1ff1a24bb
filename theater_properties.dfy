/**
 * What the theaters controller promises, stated over the outcome functions:
 * the order in which 401, 400, 404 and 403 are decided, what a successful
 * create, update and delete do to the table, and how the operations compose.
 */
module TheaterProperties {

  import opened Optional
  import opened Text
  import opened Identity
  import opened Theaters
  import opened TheaterLogic

  // ---------------------------------------------------------------- validation

  /** An otherwise valid body whose name is 120 characters long is accepted. */
  lemma NameOf120Accepted(dto: TheaterDto)
    requires dto.name.Some? && |dto.name.value| == 120
    requires forall i | 0 <= i < 120 :: InBmp(dto.name.value[i])
    requires HasVisibleText(dto.name.value)
    requires dto.address.Some? && HasVisibleText(dto.address.value)
    requires dto.seatCount > 0
    ensures !IsInvalid(dto)
  {
    Utf16LengthOfBmp(dto.name.value);
  }

  /** A name of 121 characters is rejected, whatever else the body holds. */
  lemma NameOf121Rejected(dto: TheaterDto)
    requires dto.name.Some? && |dto.name.value| == 121
    ensures IsInvalid(dto)
  {
  }

  // ---------------------------------------------------------------- authorization

  /** An admin may write every field of any theater, including the manager. */
  lemma AdminHasFullAccess(p: Principal, managerId: Option<int>)
    requires IsAdmin(p)
    ensures ResolveWrite(p, managerId) == FullAccess
  {
  }

  /** The exact manager, not being an admin, may write every field but the manager. */
  lemma ManagerHasRestrictedAccess(userId: int, roles: set<string>)
    requires !InRole(roles, AdminRole)
    ensures ResolveWrite(Authenticated(userId, roles), Some(userId)) == ManagerFieldsOnly
  {
  }

  /** A signed-in user who is neither an admin nor the manager is refused. */
  lemma OthersAreNotEntitled(userId: int, roles: set<string>, managerId: Option<int>)
    requires !InRole(roles, AdminRole) && managerId != Some(userId)
    ensures ResolveWrite(Authenticated(userId, roles), managerId) == NotEntitled
  {
  }

  /** A theater with no manager is writable by no signed-in user but an admin. */
  lemma UnmanagedOnlyByAdmin(p: Principal)
    requires p.Authenticated?
    ensures ResolveWrite(p, None) != NotEntitled <==> IsAdmin(p)
  {
  }

  /** Role names are compared after normalization, so "admin" and "ADMIN" are
      the admin role too, while a different name such as "Administrator" is not. */
  lemma AdminMatchIgnoresCase(userId: int, managerId: Option<int>)
    ensures ResolveWrite(Authenticated(userId, {"admin"}), managerId) == FullAccess
    ensures ResolveWrite(Authenticated(userId, {"ADMIN", "User"}), managerId) == FullAccess
    ensures ResolveWrite(Authenticated(userId, {"Administrator"}), managerId) != FullAccess
  {
  }

  /** As written, a session whose user can no longer be loaded passes the ownership
      test on a theater without a manager, since `null != null` is false. */
  lemma UnresolvedUserPassesOnUnmanaged()
    ensures ResolveWrite(Unresolved, None) == ManagerFieldsOnly
    ensures forall m :: ResolveWrite(Unresolved, Some(m)) == NotEntitled
  {
  }

  /** As written, the same session can then update and delete a theater with no
      manager, although it can never set a manager. */
  lemma UnresolvedUserWritesUnmanaged(s: Store, id: int, dto: TheaterDto)
    requires ValidStore(s) && !IsInvalid(dto) && id in s.theaters
    requires s.theaters[id].managerId == None
    ensures Update(s, Unresolved, id, dto).response.status == Ok
    ensures Update(s, Unresolved, id, dto).store.theaters[id].managerId == None
    ensures Delete(s, Unresolved, id).response == Response(Ok, None)
    ensures Delete(s, Unresolved, id).store.theaters == s.theaters - {id}
  {
  }

  // ---------------------------------------------------------------- anonymous callers

  /** `[Authorize]` answers 401 to an anonymous caller before anything else, and
      nothing changes. */
  lemma AnonymousIsUnauthorized(s: Store, id: int, dto: TheaterDto)
    requires ValidStore(s)
    ensures Create(s, Anonymous, dto) == Outcome(Response(Unauthorized, None), s)
    ensures Update(s, Anonymous, id, dto) == Outcome(Response(Unauthorized, None), s)
    ensures Delete(s, Anonymous, id) == Outcome(Response(Unauthorized, None), s)
  {
  }

  // ---------------------------------------------------------------- create

  /** A signed-in caller who is not an admin gets 403, even with an invalid body. */
  lemma CreateByNonAdminIsForbidden(s: Store, p: Principal, dto: TheaterDto)
    requires ValidStore(s) && !p.Anonymous? && !IsAdmin(p)
    ensures Create(s, p, dto) == Outcome(Response(Forbidden, None), s)
  {
  }

  /** An admin with an invalid body gets 400 and nothing is added. */
  lemma CreateInvalidIsBadRequest(s: Store, p: Principal, dto: TheaterDto)
    requires ValidStore(s) && IsAdmin(p) && IsInvalid(dto)
    ensures Create(s, p, dto) == Outcome(Response(BadRequest, None), s)
  {
  }

  /** An admin with a valid body adds exactly one theater, under an id nothing held
      before, copied from the body, and gets 201 with the body carrying that id. */
  lemma CreateValidAddsOne(s: Store, p: Principal, dto: TheaterDto)
    requires ValidStore(s) && IsAdmin(p) && !IsInvalid(dto)
    ensures var o := Create(s, p, dto);
      && var newId := o.response.body.value.id;
      && o.response == Response(Created, Some(dto.(id := newId)))
      && newId !in s.theaters
      && o.store.theaters.Keys == s.theaters.Keys + {newId}
      && |o.store.theaters| == |s.theaters| + 1
      && o.store.theaters[newId] ==
           Theater(newId, dto.name.value, dto.address.value, dto.seatCount, dto.managerId)
      && forall id | id in s.theaters :: o.store.theaters[id] == s.theaters[id]
  {
  }

  /** What a create answers with is what a read of the new id answers with afterwards. */
  lemma CreateThenGet(s: Store, p: Principal, dto: TheaterDto)
    requires ValidStore(s)
    requires Create(s, p, dto).response.status == Created
    ensures var o := Create(s, p, dto);
      GetById(o.store.theaters, o.response.body.value.id) == Response(Ok, o.response.body)
  {
  }

  /** Two creates in a row hand out two different ids. */
  lemma CreateTwiceDistinctIds(s: Store, p: Principal, dto1: TheaterDto, dto2: TheaterDto)
    requires ValidStore(s)
    requires Create(s, p, dto1).response.status == Created
    requires Create(Create(s, p, dto1).store, p, dto2).response.status == Created
    ensures var o1 := Create(s, p, dto1);
      var o2 := Create(o1.store, p, dto2);
      && o1.response.body.value.id != o2.response.body.value.id
      && o1.response.body.value.id !in s.theaters
      && o2.response.body.value.id !in s.theaters
  {
  }

  // ---------------------------------------------------------------- update

  /** An invalid body gets 400 before any lookup, whatever the id. */
  lemma UpdateInvalidIsBadRequest(s: Store, p: Principal, id: int, dto: TheaterDto)
    requires ValidStore(s) && !p.Anonymous? && IsInvalid(dto)
    ensures Update(s, p, id, dto) == Outcome(Response(BadRequest, None), s)
  {
  }

  /** A valid body for an absent id gets 404 before the caller's rights are looked at. */
  lemma UpdateAbsentIsNotFound(s: Store, p: Principal, id: int, dto: TheaterDto)
    requires ValidStore(s) && !p.Anonymous? && !IsInvalid(dto) && id !in s.theaters
    ensures Update(s, p, id, dto) == Outcome(Response(NotFound, None), s)
  {
  }

  /** A signed-in user who is neither an admin nor the theater's manager gets 403;
      when the theater has no manager this is every user but an admin. */
  lemma UpdateByOtherIsForbidden(s: Store, userId: int, roles: set<string>, id: int, dto: TheaterDto)
    requires ValidStore(s) && !IsInvalid(dto) && id in s.theaters
    requires !InRole(roles, AdminRole) && s.theaters[id].managerId != Some(userId)
    ensures Update(s, Authenticated(userId, roles), id, dto) == Outcome(Response(Forbidden, None), s)
  {
  }

  /** A successful update overwrites name, address and seat count from the body, takes
      the manager from the body only for an admin, answers with the stored id and
      manager, and leaves every other theater as it was. */
  lemma UpdateSuccess(s: Store, p: Principal, id: int, dto: TheaterDto)
    requires ValidStore(s)
    requires Update(s, p, id, dto).response.status == Ok
    ensures var o := Update(s, p, id, dto);
      && id in s.theaters && dto.name.Some? && dto.address.Some?
      && var t := o.store.theaters[id];
      && t.id == id
      && t.name == dto.name.value
      && t.address == dto.address.value
      && t.seatCount == dto.seatCount
      && t.managerId == (if IsAdmin(p) then dto.managerId else s.theaters[id].managerId)
      && o.response.body == Some(dto.(id := t.id, managerId := t.managerId))
      && forall k | k in s.theaters && k != id :: o.store.theaters[k] == s.theaters[k]
  {
  }

  /** A caller who is not an admin never changes who manages a theater. */
  lemma ManagerCannotReassign(s: Store, p: Principal, id: int, dto: TheaterDto)
    requires ValidStore(s) && !IsAdmin(p) && id in s.theaters
    ensures Update(s, p, id, dto).store.theaters[id].managerId == s.theaters[id].managerId
  {
  }

  /** The manager's request to change address and manager: the address changes, the
      manager does not, and the answer shows the old manager. */
  lemma ManagerUpdateKeepsManager(s: Store, userId: int, id: int, dto: TheaterDto)
    requires ValidStore(s) && !IsInvalid(dto) && id in s.theaters
    requires s.theaters[id].managerId == Some(userId)
    ensures var o := Update(s, Authenticated(userId, {"User"}), id, dto);
      && o.response.status == Ok
      && o.store.theaters[id].address == dto.address.value
      && o.response.body.value.managerId == Some(userId)
  {
  }

  /** A valid body for a stored theater, sent by an admin or by the theater's manager,
      is answered with 200; an admin's body also moves the theater to the body's manager. */
  lemma UpdateByEntitledSucceeds(s: Store, p: Principal, id: int, dto: TheaterDto)
    requires ValidStore(s) && !IsInvalid(dto) && id in s.theaters
    requires IsAdmin(p) || (p.Authenticated? && s.theaters[id].managerId == Some(p.userId))
    ensures Update(s, p, id, dto).response.status == Ok
    ensures IsAdmin(p) ==> Update(s, p, id, dto).store.theaters[id].managerId == dto.managerId
  {
  }

  /** What an update answers with is what a read of that id answers with afterwards. */
  lemma UpdateThenGet(s: Store, p: Principal, id: int, dto: TheaterDto)
    requires ValidStore(s)
    requires Update(s, p, id, dto).response.status == Ok
    ensures var o := Update(s, p, id, dto);
      GetById(o.store.theaters, id) == Response(Ok, o.response.body)
  {
  }

  /** Repeating a successful update answers the same and changes nothing more. */
  lemma UpdateIdempotent(s: Store, p: Principal, id: int, dto: TheaterDto)
    requires ValidStore(s)
    requires Update(s, p, id, dto).response.status == Ok
    ensures var o := Update(s, p, id, dto);
      Update(o.store, p, id, dto) == o
  {
  }

  // ---------------------------------------------------------------- delete

  /** An absent id gets 404. */
  lemma DeleteAbsentIsNotFound(s: Store, p: Principal, id: int)
    requires ValidStore(s) && !p.Anonymous? && id !in s.theaters
    ensures Delete(s, p, id) == Outcome(Response(NotFound, None), s)
  {
  }

  /** A signed-in user who is neither an admin nor the manager gets 403 and nothing changes. */
  lemma DeleteByOtherIsForbidden(s: Store, userId: int, roles: set<string>, id: int)
    requires ValidStore(s) && id in s.theaters
    requires !InRole(roles, AdminRole) && s.theaters[id].managerId != Some(userId)
    ensures Delete(s, Authenticated(userId, roles), id) == Outcome(Response(Forbidden, None), s)
  {
  }

  /** A permitted delete removes exactly that theater and answers 200. */
  lemma DeleteSuccess(s: Store, p: Principal, id: int)
    requires ValidStore(s) && id in s.theaters
    requires IsAdmin(p) || (p.Authenticated? && s.theaters[id].managerId == Some(p.userId))
    ensures var o := Delete(s, p, id);
      && o.response == Response(Ok, None)
      && o.store.theaters.Keys == s.theaters.Keys - {id}
      && forall k | k in o.store.theaters :: o.store.theaters[k] == s.theaters[k]
  {
  }

  /** Deleting the same id a second time gets 404, and a read of it gets 404 too. */
  lemma DeleteTwiceIsNotFound(s: Store, p: Principal, id: int)
    requires ValidStore(s)
    requires Delete(s, p, id).response.status == Ok
    ensures var o := Delete(s, p, id);
      && Delete(o.store, p, id) == Outcome(Response(NotFound, None), o.store)
      && GetById(o.store.theaters, id).status == NotFound
  {
  }

}
