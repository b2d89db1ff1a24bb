/**
 * The decisions of the theaters controller as functions of the request and
 * of the store before it: validation of a body, the projection to the body
 * type, the admin-or-manager write rule, and the outcome of each operation.
 * The controller class proves its methods equal to these functions.
 */
module TheaterLogic {

  import opened Optional
  import opened Text
  import opened Identity
  import opened Theaters

  const Ok: int := 200
  const Created: int := 201
  const BadRequest: int := 400
  const Unauthorized: int := 401
  const Forbidden: int := 403
  const NotFound: int := 404

  /** The theaters table and the identity the database hands out next. */
  datatype Store = Store(theaters: map<int, Theater>, nextId: int)

  /** Every stored theater is keyed by its own id, has an id already handed out,
      and is well formed. */
  predicate ValidStore(s: Store) {
    && s.nextId >= 1
    && forall id | id in s.theaters ::
         && 1 <= id < s.nextId
         && s.theaters[id].id == id
         && WellFormed(s.theaters[id])
  }

  /** A status code and, for 200 and 201, the body sent back. */
  datatype Response = Response(status: int, body: Option<TheaterDto>)

  /** The response to a request and the store after it. */
  datatype Outcome = Outcome(response: Response, store: Store)

  /** The unsaved entity built from a body; its id is 0 until the database assigns one. */
  function NewTheater(dto: TheaterDto): (t: Theater)
    requires dto.name.Some? && dto.address.Some?
    ensures t.id == 0
  {
    Theater(0, dto.name.value, dto.address.value, dto.seatCount, dto.managerId)
  }

  /** A body is rejected exactly when the theater it describes would not be well formed. */
  predicate IsInvalid(dto: TheaterDto)
    ensures !IsInvalid(dto) <==>
      dto.name.Some? && dto.address.Some? && WellFormed(NewTheater(dto))
  {
    || IsNullOrWhiteSpace(dto.name)
    || Utf16Length(dto.name.value) > MaxNameLength
    || IsNullOrWhiteSpace(dto.address)
    || dto.seatCount <= 0
  }

  /** The body that mirrors a stored theater; building a theater from it gives the record back. */
  function ToDto(t: Theater): (d: TheaterDto)
    ensures d.id == t.id
    ensures d.name.Some? && d.address.Some?
    ensures NewTheater(d).(id := d.id) == t
  {
    TheaterDto(t.id, Some(t.name), Some(t.address), t.seatCount, t.managerId)
  }

  /** The projection of a set of stored theaters to bodies: one body per theater,
      and each body mirrors the theater stored under its id. */
  function GetTheaterDtos(ts: map<int, Theater>): (r: set<TheaterDto>)
    requires forall id | id in ts :: ts[id].id == id
    ensures forall id | id in ts :: ToDto(ts[id]) in r
    ensures forall d | d in r :: d.id in ts && d == ToDto(ts[d.id])
  {
    set id | id in ts :: ToDto(ts[id])
  }

  /** The decision on a write, shared by update and delete. */
  datatype WriteAccess =
    | NotSignedIn        // 401
    | NotEntitled        // 403
    | FullAccess         // an admin: every field, including the manager
    | ManagerFieldsOnly  // the manager: every field except the manager

  /** `[Authorize]`, then `!isAdmin && theater.ManagerId != user?.Id` for a 403,
      and `isAdmin` for whether the manager may be reassigned. */
  function ResolveWrite(p: Principal, managerId: Option<int>): (w: WriteAccess)
    ensures w == NotSignedIn <==> p.Anonymous?
    ensures w == FullAccess <==> IsAdmin(p)
  {
    if p.Anonymous? then NotSignedIn
    else if IsAdmin(p) then FullAccess
    else if managerId != UserId(p) then NotEntitled
    else ManagerFieldsOnly
  }

  /** GET by id: 404 when nothing is stored under the id, else 200 and the stored record. */
  function GetById(ts: map<int, Theater>, id: int): (r: Response)
    ensures r.status == NotFound <==> id !in ts
    ensures r.status != NotFound ==> r.status == Ok && r.body == Some(ToDto(ts[id]))
  {
    if id in ts then Response(Ok, Some(ToDto(ts[id]))) else Response(NotFound, None)
  }

  /** POST: 401, then 403 for anyone but an admin, then 400, then the new theater under
      the next identity and 201 with the body carrying that id. */
  function Create(s: Store, p: Principal, dto: TheaterDto): (o: Outcome)
    requires ValidStore(s)
    ensures ValidStore(o.store)
    ensures o.response.status in {Created, BadRequest, Unauthorized, Forbidden}
    ensures o.response.status != Created ==> o.store == s && o.response.body == None
  {
    if p.Anonymous? then Outcome(Response(Unauthorized, None), s)
    else if !IsAdmin(p) then Outcome(Response(Forbidden, None), s)
    else if IsInvalid(dto) then Outcome(Response(BadRequest, None), s)
    else
      var theater := NewTheater(dto).(id := s.nextId);
      Outcome(Response(Created, Some(dto.(id := theater.id))),
              Store(s.theaters[theater.id := theater], s.nextId + 1))
  }

  /** The stored theater after a permitted update: name, address and seat count from the
      body, the manager from the body only under full access. */
  function Revised(t: Theater, dto: TheaterDto, access: WriteAccess): (t': Theater)
    requires dto.name.Some? && dto.address.Some?
    ensures t'.id == t.id
    ensures access != FullAccess ==> t'.managerId == t.managerId
    ensures !IsInvalid(dto) ==> WellFormed(t')
  {
    t.(name := dto.name.value,
       address := dto.address.value,
       seatCount := dto.seatCount,
       managerId := if access == FullAccess then dto.managerId else t.managerId)
  }

  /** PUT: 401, then 400 whatever the id, then 404, then 403, then the revised theater
      and 200 with the body whose id and manager are the stored ones. */
  function Update(s: Store, p: Principal, id: int, dto: TheaterDto): (o: Outcome)
    requires ValidStore(s)
    ensures ValidStore(o.store)
    ensures o.response.status in {Ok, BadRequest, Unauthorized, Forbidden, NotFound}
    ensures o.response.status != Ok ==> o.store == s && o.response.body == None
    ensures o.store.nextId == s.nextId && o.store.theaters.Keys == s.theaters.Keys
  {
    if p.Anonymous? then Outcome(Response(Unauthorized, None), s)
    else if IsInvalid(dto) then Outcome(Response(BadRequest, None), s)
    else if id !in s.theaters then Outcome(Response(NotFound, None), s)
    else
      var access := ResolveWrite(p, s.theaters[id].managerId);
      if access == NotEntitled then Outcome(Response(Forbidden, None), s)
      else
        var theater := Revised(s.theaters[id], dto, access);
        Outcome(Response(Ok, Some(dto.(id := theater.id, managerId := theater.managerId))),
                s.(theaters := s.theaters[id := theater]))
  }

  /** DELETE: 401, then 404, then 403, then the theater is gone and 200. */
  function Delete(s: Store, p: Principal, id: int): (o: Outcome)
    requires ValidStore(s)
    ensures ValidStore(o.store)
    ensures o.response.body == None
    ensures o.response.status in {Ok, Unauthorized, Forbidden, NotFound}
    ensures o.response.status != Ok ==> o.store == s
    ensures o.store.nextId == s.nextId && o.store.theaters.Keys <= s.theaters.Keys
  {
    if p.Anonymous? then Outcome(Response(Unauthorized, None), s)
    else if id !in s.theaters then Outcome(Response(NotFound, None), s)
    else if ResolveWrite(p, s.theaters[id].managerId) == NotEntitled then
      Outcome(Response(Forbidden, None), s)
    else Outcome(Response(Ok, None), s.(theaters := s.theaters - {id}))
  }

}
