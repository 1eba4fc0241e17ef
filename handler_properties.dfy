/** Properties of the User handlers that relate several requests or several
    handlers: the id-reconciliation rule, what a rejected request does not
    depend on, the order in which the checks are made, and the exact set of
    statuses each handler can answer with. */
module HandlerProperties {
  import opened Wrappers
  import opened GoValues
  import opened Handler

  /** Update: a body without an Id behaves exactly as a body that carries the path id. */
  lemma UpdateAdoptsPathId(h: UserHandler, user: User, id: GoString)
    ensures h.Update(user.(id := []), None, id) == h.Update(user.(id := id), None, id)
  {
  }

  /** Patch: a body without an Id behaves exactly as a body that carries the path id. */
  lemma PatchAdoptsPathId(h: UserHandler, id: GoString, body: Fields, user: User,
                          toJson: (User, Fields) -> JsonMapped)
    ensures h.Patch(id, body, user.(id := []), None, toJson) == h.Patch(id, body, user.(id := id), None, toJson)
  {
  }

  /** Update: an id mismatch is answered before the validator or the service
      is consulted, so neither of them can change the answer. */
  lemma UpdateMismatchIgnoresValidatorAndService(h: UserHandler, service: UserService,
                                                 validate: User -> Validated, user: User, id: GoString)
    requires |id| > 0 && |user.id| > 0 && user.id != id
    ensures h.Update(user, None, id) == UserHandler(service, validate).Update(user, None, id)
    ensures h.Update(user, None, id).status == StatusBadRequest
  {
  }

  /** Patch: an id mismatch is answered before core.BodyToJsonMap, the
      validator or the service is consulted. */
  lemma PatchMismatchIgnoresValidatorAndService(h: UserHandler, service: UserService,
                                                validate: User -> Validated, id: GoString, body: Fields,
                                                user: User, toJson: (User, Fields) -> JsonMapped,
                                                toJson': (User, Fields) -> JsonMapped)
    requires |id| > 0 && |user.id| > 0 && user.id != id
    ensures h.Patch(id, body, user, None, toJson) == UserHandler(service, validate).Patch(id, body, user, None, toJson')
    ensures h.Patch(id, body, user, None, toJson).status == StatusBadRequest
  {
  }

  /** Whenever Update does not reach the service, its answer does not depend on the service. */
  lemma UpdateRejectionIgnoresService(h: UserHandler, service: UserService, user: User,
                                      bindErr: Option<Error>, id: GoString)
    requires !h.Update(user, bindErr, id).serviceCalled
    ensures h.(service := service).Update(user, bindErr, id) == h.Update(user, bindErr, id)
  {
  }

  /** Whenever Create does not reach the service, its answer does not depend on the service. */
  lemma CreateRejectionIgnoresService(h: UserHandler, service: UserService, user: User, bindErr: Option<Error>)
    requires !h.Create(user, bindErr).serviceCalled
    ensures h.(service := service).Create(user, bindErr) == h.Create(user, bindErr)
  {
  }

  /** Whenever Patch does not reach the service, its answer does not depend on the service. */
  lemma PatchRejectionIgnoresService(h: UserHandler, service: UserService, id: GoString, body: Fields,
                                     user: User, decodeErr: Option<Error>, toJson: (User, Fields) -> JsonMapped)
    requires !h.Patch(id, body, user, decodeErr, toJson).serviceCalled
    ensures h.(service := service).Patch(id, body, user, decodeErr, toJson) == h.Patch(id, body, user, decodeErr, toJson)
  {
  }

  /** Whenever Load does not reach the service, its answer does not depend on the service. */
  lemma LoadRejectionIgnoresService(h: UserHandler, service: UserService, id: GoString)
    requires !h.Load(id).serviceCalled
    ensures h.(service := service).Load(id) == h.Load(id)
  {
  }

  /** Whenever Delete does not reach the service, its answer does not depend on the service. */
  lemma DeleteRejectionIgnoresService(h: UserHandler, service: UserService, id: GoString)
    requires !h.Delete(id).serviceCalled
    ensures h.(service := service).Delete(id) == h.Delete(id)
  {
  }

  /** Whenever Search does not reach the service, its answer does not depend on the service. */
  lemma SearchRejectionIgnoresService(h: UserHandler, service: UserService, filter: UserFilter,
                                      decodeErr: Option<Error>, getOffset: (int, int) -> int)
    requires !h.Search(filter, decodeErr, getOffset).serviceCalled
    ensures h.(service := service).Search(filter, decodeErr, getOffset) == h.Search(filter, decodeErr, getOffset)
  {
  }

  /** A request that fails to bind and has no path id: Update checks the body
      first and answers 500; Patch checks the id first and answers 400. */
  lemma CheckOrderDiffers(h: UserHandler, user: User, body: Fields, err: Error,
                          toJson: (User, Fields) -> JsonMapped)
    ensures h.Update(user, Some(err), []).status == StatusInternalServerError
    ensures h.Patch([], body, user, Some(err), toJson).status == StatusBadRequest
  {
  }

  // A handler whose service answers every call with fixed outcomes, used as a witness below.
  function Stub(v: Validated, l: Loaded, c: Counted, s: Searched): UserHandler {
    UserHandler(
      UserService(() => Listed([], None), _ => l,
                  u => Written(u, c.count, c.err), u => Written(u, c.count, c.err),
                  f => Written(f, c.count, c.err), _ => c, (_, _, _) => s),
      _ => v)
  }

  const One: GoString := [0x31]
  const Two: GoString := [0x32]
  const Fail := Some(Error([]))
  const Clean := Validated([], None)
  const Rejected := Validated([ErrorMessage([], [])], None)
  const Broken := Validated([], Fail)
  const NotLoaded := Loaded(None, None)
  const NoMatch := Searched([], 0, None)
  const Unchanged := Counted(0, None)
  const Separate := (_: User, _: Fields) => JsonMapped(map[], None)

  /** Load answers with exactly the statuses 200, 400, 404 and 500. */
  lemma {:induction false} LoadStatusRange(code: int)
    ensures code in LoadStatuses <==> exists h: UserHandler, id: GoString :: h.Load(id).status == code
  {
    if code == StatusOK {
      assert Stub(Clean, Loaded(Some(User(One, map[])), None), Unchanged, NoMatch).Load(One).status == code;
    } else if code == StatusBadRequest {
      assert Stub(Clean, NotLoaded, Unchanged, NoMatch).Load([]).status == code;
    } else if code == StatusNotFound {
      assert Stub(Clean, NotLoaded, Unchanged, NoMatch).Load(One).status == code;
    } else if code == StatusInternalServerError {
      assert Stub(Clean, Loaded(None, Fail), Unchanged, NoMatch).Load(One).status == code;
    }
  }

  /** Create answers with exactly the statuses 201, 409, 422 and 500; in particular never 404. */
  lemma {:induction false} CreateStatusRange(code: int)
    ensures code in CreateStatuses <==> exists h: UserHandler, u: User, e: Option<Error> :: h.Create(u, e).status == code
  {
    var u := User(One, map[]);
    if code == StatusCreated {
      assert Stub(Clean, NotLoaded, Counted(1, None), NoMatch).Create(u, None).status == code;
    } else if code == StatusConflict {
      assert Stub(Clean, NotLoaded, Unchanged, NoMatch).Create(u, None).status == code;
    } else if code == StatusUnprocessableEntity {
      assert Stub(Rejected, NotLoaded, Unchanged, NoMatch).Create(u, None).status == code;
    } else if code == StatusInternalServerError {
      assert Stub(Clean, NotLoaded, Unchanged, NoMatch).Create(u, Fail).status == code;
    }
  }

  /** Update answers with exactly the statuses 200, 400, 404, 409, 422 and 500. */
  lemma {:induction false} UpdateStatusRange(code: int)
    ensures code in WriteStatuses <==>
              exists h: UserHandler, u: User, e: Option<Error>, id: GoString :: h.Update(u, e, id).status == code
  {
    var u := User(One, map[]);
    if code == StatusOK {
      assert Stub(Clean, NotLoaded, Counted(1, None), NoMatch).Update(u, None, One).status == code;
    } else if code == StatusBadRequest {
      assert Stub(Clean, NotLoaded, Unchanged, NoMatch).Update(u, None, Two).status == code;
    } else if code == StatusNotFound {
      assert Stub(Clean, NotLoaded, Unchanged, NoMatch).Update(u, None, One).status == code;
    } else if code == StatusConflict {
      assert Stub(Clean, NotLoaded, Counted(-1, None), NoMatch).Update(u, None, One).status == code;
    } else if code == StatusUnprocessableEntity {
      assert Stub(Rejected, NotLoaded, Unchanged, NoMatch).Update(u, None, One).status == code;
    } else if code == StatusInternalServerError {
      assert Stub(Broken, NotLoaded, Unchanged, NoMatch).Update(u, None, One).status == code;
    }
  }

  /** Patch answers with exactly the statuses 200, 400, 404, 409, 422 and 500. */
  lemma {:induction false} PatchStatusRange(code: int)
    ensures code in WriteStatuses <==>
              exists h: UserHandler, id: GoString, b: Fields, u: User, e: Option<Error>, t: (User, Fields) -> JsonMapped
                :: h.Patch(id, b, u, e, t).status == code
  {
    var u := User([], map[]);
    if code == StatusOK {
      assert Stub(Clean, NotLoaded, Counted(1, None), NoMatch).Patch(One, map[], u, None, Separate).status == code;
    } else if code == StatusBadRequest {
      assert Stub(Clean, NotLoaded, Unchanged, NoMatch).Patch([], map[], u, None, Separate).status == code;
    } else if code == StatusNotFound {
      assert Stub(Clean, NotLoaded, Unchanged, NoMatch).Patch(One, map[], u, None, Separate).status == code;
    } else if code == StatusConflict {
      assert Stub(Clean, NotLoaded, Counted(-1, None), NoMatch).Patch(One, map[], u, None, Separate).status == code;
    } else if code == StatusUnprocessableEntity {
      assert Stub(Rejected, NotLoaded, Unchanged, NoMatch).Patch(One, map[], u, None, Separate).status == code;
    } else if code == StatusInternalServerError {
      assert Stub(Clean, NotLoaded, Unchanged, NoMatch).Patch(One, map[], u, Fail, Separate).status == code;
    }
  }

  /** Delete answers with exactly the statuses 200, 400, 404 and 500; in particular never 409. */
  lemma {:induction false} DeleteStatusRange(code: int)
    ensures code in DeleteStatuses <==> exists h: UserHandler, id: GoString :: h.Delete(id).status == code
  {
    if code == StatusOK {
      assert Stub(Clean, NotLoaded, Counted(1, None), NoMatch).Delete(One).status == code;
    } else if code == StatusBadRequest {
      assert Stub(Clean, NotLoaded, Unchanged, NoMatch).Delete([]).status == code;
    } else if code == StatusNotFound {
      assert Stub(Clean, NotLoaded, Counted(-1, None), NoMatch).Delete(One).status == code;
    } else if code == StatusInternalServerError {
      assert Stub(Clean, NotLoaded, Counted(1, Fail), NoMatch).Delete(One).status == code;
    }
  }

  /** Search answers with exactly the statuses 200, 400 and 500. */
  lemma {:induction false} SearchStatusRange(code: int)
    ensures code in SearchStatuses <==>
              exists h: UserHandler, f: UserFilter, e: Option<Error>, g: (int, int) -> int :: h.Search(f, e, g).status == code
  {
    var f := UserFilter(10, 1, map[]);
    var g := (limit: int, page: int) => 0;
    if code == StatusOK {
      assert Stub(Clean, NotLoaded, Unchanged, NoMatch).Search(f, None, g).status == code;
    } else if code == StatusBadRequest {
      assert Stub(Clean, NotLoaded, Unchanged, NoMatch).Search(f, Fail, g).status == code;
    } else if code == StatusInternalServerError {
      assert Stub(Clean, NotLoaded, Unchanged, Searched([], 0, Fail)).Search(f, None, g).status == code;
    }
  }
}
