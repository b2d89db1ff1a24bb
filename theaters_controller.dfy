/**
 * The theaters controller over an in-memory theaters table. Each request is a
 * method that answers a status code (and a body) and updates the table in
 * place; each is proved to produce exactly the outcome TheaterLogic gives.
 */
module Controllers {

  import opened Optional
  import opened Identity
  import opened Theaters
  import opened TheaterLogic

  class TheatersController {

    /** The theaters table, keyed by id. */
    var theaters: map<int, Theater>
    /** The identity the database assigns to the next theater it saves. */
    var nextId: int

    function State(): Store
      reads this
    {
      Store(theaters, nextId)
    }

    ghost predicate Valid()
      reads this
    {
      ValidStore(State())
    }

    /** A controller over an existing, consistent table. */
    constructor (seed: Store)
      requires ValidStore(seed)
      ensures Valid() && State() == seed
    {
      theaters := seed.theaters;
      nextId := seed.nextId;
    }

    /** GET /api/theaters. */
    method GetAllTheaters() returns (dtos: set<TheaterDto>)
      requires Valid()
      ensures forall id | id in theaters :: ToDto(theaters[id]) in dtos
      ensures forall d | d in dtos :: d.id in theaters && d == ToDto(theaters[d.id])
    {
      dtos := GetTheaterDtos(theaters);
    }

    /** GET /api/theaters/{id}. */
    method GetTheaterById(id: int) returns (status: int, body: Option<TheaterDto>)
      requires Valid()
      ensures Response(status, body) == GetById(theaters, id)
    {
      var sameId := map k | k in theaters && theaters[k].id == id :: theaters[k];
      var matches := GetTheaterDtos(sameId);
      if id in theaters {
        assert id in sameId;
      }
      if matches == {} {
        return NotFound, None;
      }
      var result :| result in matches;
      return Ok, Some(result);
    }

    /** POST /api/theaters. */
    method CreateTheater(p: Principal, dto: TheaterDto) returns (status: int, body: Option<TheaterDto>)
      requires Valid()
      modifies this
      ensures Valid()
      ensures Outcome(Response(status, body), State()) == Create(old(State()), p, dto)
    {
      if p.Anonymous? {
        return Unauthorized, None;
      }
      var isAdmin := IsAdmin(p);
      if !isAdmin {
        return Forbidden, None;
      }
      if IsInvalid(dto) {
        return BadRequest, None;
      }
      var theater := NewTheater(dto);
      theater := theater.(id := nextId);
      theaters := theaters[theater.id := theater];
      nextId := nextId + 1;
      var response := dto.(id := theater.id);
      return Created, Some(response);
    }

    /** PUT /api/theaters/{id}. */
    method UpdateTheater(p: Principal, id: int, dto: TheaterDto) returns (status: int, body: Option<TheaterDto>)
      requires Valid()
      modifies this
      ensures Valid()
      ensures Outcome(Response(status, body), State()) == Update(old(State()), p, id, dto)
    {
      if p.Anonymous? {
        return Unauthorized, None;
      }
      if IsInvalid(dto) {
        return BadRequest, None;
      }
      if id !in theaters {
        return NotFound, None;
      }
      var theater := theaters[id];
      var isAdmin := IsAdmin(p);
      if !isAdmin && theater.managerId != UserId(p) {
        return Forbidden, None;
      }
      theater := theater.(name := dto.name.value);
      theater := theater.(address := dto.address.value);
      theater := theater.(seatCount := dto.seatCount);
      if isAdmin {
        theater := theater.(managerId := dto.managerId);
      }
      theaters := theaters[id := theater];
      var response := dto.(id := theater.id, managerId := theater.managerId);
      return Ok, Some(response);
    }

    /** DELETE /api/theaters/{id}. */
    method DeleteTheater(p: Principal, id: int) returns (status: int)
      requires Valid()
      modifies this
      ensures Valid()
      ensures Outcome(Response(status, None), State()) == Delete(old(State()), p, id)
    {
      if p.Anonymous? {
        return Unauthorized;
      }
      if id !in theaters {
        return NotFound;
      }
      var theater := theaters[id];
      var isAdmin := IsAdmin(p);
      if !isAdmin && theater.managerId != UserId(p) {
        return Forbidden;
      }
      theaters := theaters - {id};
      return Ok;
    }

  }

}
