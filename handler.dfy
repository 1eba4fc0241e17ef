/** The HTTP handlers of the User resource (internal/user/handler/handler.go).

    Every handler is a fixed chain of early returns: it turns the outcome of
    decoding the request, the path `id`, the validator's answer and the
    service's answer into an HTTP status and a response body, and decides
    whether the service is called at all. The echo context, the validator,
    the service and the core-go library calls become inputs: outcome values
    and function-valued parameters that the model never looks inside. */
module Handler {
  import opened Wrappers
  import opened GoValues

  // The net/http status codes the handlers answer with.
  const StatusOK := 200
  const StatusCreated := 201
  const StatusBadRequest := 400
  const StatusNotFound := 404
  const StatusConflict := 409
  const StatusUnprocessableEntity := 422
  const StatusInternalServerError := 500

  /** A Go `error`; the handlers only pass its text on. */
  datatype Error = Error(text: GoString)

  /** model.User. The handlers read and write only its Id; every other
      attribute travels through unchanged. */
  datatype User = User(id: GoString, attributes: Fields)

  /** core.ErrorMessage: one field-level validation failure. */
  datatype ErrorMessage = ErrorMessage(field: GoString, message: GoString)

  /** model.UserFilter: paging plus search criteria only the search library reads. */
  datatype UserFilter = UserFilter(limit: int, page: int, criteria: Fields)

  // The (result, error) pairs the validator, the service and core.BodyToJsonMap return.
  datatype Validated = Validated(errors: seq<ErrorMessage>, err: Option<Error>)
  datatype Listed = Listed(users: seq<User>, err: Option<Error>)
  datatype Loaded = Loaded(user: Option<User>, err: Option<Error>)
  datatype Counted = Counted(count: int, err: Option<Error>)
  /** The answer of a write that receives a reference to its argument (a
      `*User` or a map): `after` is the argument as the service leaves it,
      which is what the handler sends back afterwards. */
  datatype Written<T> = Written(after: T, count: int, err: Option<Error>)
  datatype Searched = Searched(users: seq<User>, total: int, err: Option<Error>)
  datatype JsonMapped = JsonMapped(json: Fields, err: Option<Error>)

  /** service.UserService: one uninterpreted function per operation. */
  datatype UserService = UserService(
    all: () -> Listed,
    load: GoString -> Loaded,
    create: User -> Written<User>,
    update: User -> Written<User>,
    patch: Fields -> Written<Fields>,
    delete: GoString -> Counted,
    search: (UserFilter, int, int) -> Searched)

  /** The fixed texts the handlers send with c.String. */
  datatype Message = IdCannotBeEmpty | IdNotMatch | InternalServerError

  /** What the response carries: a text (c.String) or a JSON document (c.JSON). */
  datatype Body =
    | Text(message: Message)
    | ErrorText(err: Error)
    | JsonUser(user: User)
    | JsonNull
    | JsonUsers(users: seq<User>)
    | JsonErrors(errors: seq<ErrorMessage>)
    | JsonCount(count: int)
    | JsonFields(json: Fields)
    | JsonResult(list: seq<User>, total: int)

  /** The observable outcome of one request: the status, the body, whether the
      service was called, and the id the request was settled on (the path id
      once it has been accepted and reconciled with the body). */
  datatype Response = Response(status: int, body: Body, serviceCalled: bool, effectiveId: Option<GoString>)

  // The statuses each handler can produce.
  const AllStatuses: set<int> := {StatusOK, StatusInternalServerError}
  const LoadStatuses: set<int> := {StatusOK, StatusBadRequest, StatusNotFound, StatusInternalServerError}
  const CreateStatuses: set<int> := {StatusCreated, StatusConflict, StatusUnprocessableEntity, StatusInternalServerError}
  const WriteStatuses: set<int> :=
    {StatusOK, StatusBadRequest, StatusNotFound, StatusConflict, StatusUnprocessableEntity, StatusInternalServerError}
  const DeleteStatuses: set<int> := {StatusOK, StatusBadRequest, StatusNotFound, StatusInternalServerError}
  const SearchStatuses: set<int> := {StatusOK, StatusBadRequest, StatusInternalServerError}

  /** The validator accepted the payload: no internal error and no field errors. */
  predicate Passes(v: Validated) {
    v.err == None && |v.errors| == 0
  }

  /** The id reconciliation of Update and Patch: an empty body Id adopts the
      path id, a different non-empty one is refused, an equal one is kept.
      Whenever it succeeds the result is the body's user carrying the path id. */
  function Reconcile(user: User, id: GoString): (r: Option<User>)
    ensures r.Some? <==> |user.id| == 0 || user.id == id
    ensures r.Some? ==> r.value == user.(id := id)
  {
    if |user.id| == 0 then Some(user.(id := id))
    else if id != user.id then None
    else Some(user)
  }

  /** UserHandler as NewUserHandler builds it. The field maps it also keeps
      are only read by core-go library code, which is not part of this model. */
  datatype UserHandler = UserHandler(service: UserService, validate: User -> Validated)
  {
    /** GET /users. */
    function All(): (r: Response)
      ensures r.status in AllStatuses
      ensures r.serviceCalled && r.effectiveId == None
      ensures r.status == StatusOK <==> service.all().err == None
      ensures r.status == StatusOK ==> r.body == JsonUsers(service.all().users)
      ensures service.all().err.Some? ==> r.body == ErrorText(service.all().err.value)
    {
      var res := service.all();
      if res.err.Some? then Response(StatusInternalServerError, ErrorText(res.err.value), true, None)
      else Response(StatusOK, JsonUsers(res.users), true, None)
    }

    /** GET /users/:id. */
    function Load(id: GoString): (r: Response)
      ensures r.status in LoadStatuses
      ensures r.serviceCalled <==> |id| > 0
      ensures |id| == 0 ==> r == Response(StatusBadRequest, Text(IdCannotBeEmpty), false, None)
      ensures |id| > 0 ==> r.effectiveId == Some(id)
      ensures r.status == StatusInternalServerError <==> |id| > 0 && service.load(id).err.Some?
      ensures r.status == StatusNotFound <==> |id| > 0 && service.load(id) == Loaded(None, None)
      ensures r.status == StatusOK <==> |id| > 0 && service.load(id).err == None && service.load(id).user.Some?
      ensures r.status == StatusInternalServerError ==> r.body == ErrorText(service.load(id).err.value)
      ensures r.status == StatusNotFound ==> r.body == JsonNull
      ensures r.status == StatusOK ==> r.body == JsonUser(service.load(id).user.value)
    {
      if |id| == 0 then Response(StatusBadRequest, Text(IdCannotBeEmpty), false, None)
      else
        var res := service.load(id);
        if res.err.Some? then Response(StatusInternalServerError, ErrorText(res.err.value), true, Some(id))
        else if res.user.None? then Response(StatusNotFound, JsonNull, true, Some(id))
        else Response(StatusOK, JsonUser(res.user.value), true, Some(id))
    }

    /** POST /users; `user` and `bindErr` are what c.Bind produced. */
    function Create(user: User, bindErr: Option<Error>): (r: Response)
      ensures r.status in CreateStatuses
      ensures r.effectiveId == None
      ensures bindErr.Some? ==> r == Response(StatusInternalServerError, ErrorText(bindErr.value), false, None)
      ensures bindErr == None && validate(user).err.Some? ==>
                r == Response(StatusInternalServerError, Text(InternalServerError), false, None)
      ensures bindErr == None && validate(user).err == None && |validate(user).errors| > 0 ==>
                r == Response(StatusUnprocessableEntity, JsonErrors(validate(user).errors), false, None)
      ensures r.serviceCalled <==> bindErr == None && Passes(validate(user))
      ensures var res := service.create(user);
              r.serviceCalled && res.err.Some? ==> r.status == StatusInternalServerError && r.body == ErrorText(res.err.value)
      ensures var res := service.create(user);
              r.serviceCalled && res.err == None ==>
                (r.status == StatusCreated <==> res.count > 0) && (r.status == StatusConflict <==> res.count <= 0)
      ensures r.status == StatusCreated ==> r.serviceCalled && r.body == JsonUser(service.create(user).after)
      ensures r.status == StatusConflict ==> r.body == JsonCount(service.create(user).count)
    {
      if bindErr.Some? then Response(StatusInternalServerError, ErrorText(bindErr.value), false, None)
      else
        var v := validate(user);
        if v.err.Some? then Response(StatusInternalServerError, Text(InternalServerError), false, None)
        else if |v.errors| > 0 then Response(StatusUnprocessableEntity, JsonErrors(v.errors), false, None)
        else
          var res := service.create(user);
          if res.err.Some? then Response(StatusInternalServerError, ErrorText(res.err.value), true, None)
          else if res.count > 0 then Response(StatusCreated, JsonUser(res.after), true, None)
          else Response(StatusConflict, JsonCount(res.count), true, None)
    }

    /** PUT /users/:id; `user` and `bindErr` are what c.Bind produced, `id` is the path id. */
    function Update(user: User, bindErr: Option<Error>, id: GoString): (r: Response)
      ensures r.status in WriteStatuses
      ensures bindErr.Some? ==> r == Response(StatusInternalServerError, ErrorText(bindErr.value), false, None)
      ensures bindErr == None && |id| == 0 ==> r == Response(StatusBadRequest, Text(IdCannotBeEmpty), false, None)
      ensures bindErr == None && |id| > 0 && |user.id| > 0 && user.id != id ==>
                r == Response(StatusBadRequest, Text(IdNotMatch), false, None)
      ensures r.effectiveId.Some? <==> bindErr == None && |id| > 0 && (|user.id| == 0 || user.id == id)
      ensures r.effectiveId.Some? ==> r.effectiveId.value == id
      ensures var v := validate(user.(id := id));
              r.effectiveId.Some? && v.err.Some? ==>
                r == Response(StatusInternalServerError, Text(InternalServerError), false, Some(id))
      ensures var v := validate(user.(id := id));
              r.effectiveId.Some? && v.err == None && |v.errors| > 0 ==>
                r == Response(StatusUnprocessableEntity, JsonErrors(v.errors), false, Some(id))
      ensures r.serviceCalled <==> r.effectiveId.Some? && Passes(validate(user.(id := id)))
      ensures var res := service.update(user.(id := id));
              r.serviceCalled && res.err.Some? ==> r.status == StatusInternalServerError && r.body == ErrorText(res.err.value)
      ensures var res := service.update(user.(id := id));
              r.serviceCalled && res.err == None ==>
                && (r.status == StatusOK <==> res.count > 0)
                && (r.status == StatusNotFound <==> res.count == 0)
                && (r.status == StatusConflict <==> res.count < 0)
      ensures r.status == StatusOK ==> r.serviceCalled && r.body == JsonUser(service.update(user.(id := id)).after)
      ensures r.status in {StatusNotFound, StatusConflict} ==>
                r.serviceCalled && r.body == JsonCount(service.update(user.(id := id)).count)
    {
      if bindErr.Some? then Response(StatusInternalServerError, ErrorText(bindErr.value), false, None)
      else if |id| == 0 then Response(StatusBadRequest, Text(IdCannotBeEmpty), false, None)
      else match Reconcile(user, id)
        case None => Response(StatusBadRequest, Text(IdNotMatch), false, None)
        case Some(u) =>
          var v := validate(u);
          if v.err.Some? then Response(StatusInternalServerError, Text(InternalServerError), false, Some(id))
          else if |v.errors| > 0 then Response(StatusUnprocessableEntity, JsonErrors(v.errors), false, Some(id))
          else
            var res := service.update(u);
            if res.err.Some? then Response(StatusInternalServerError, ErrorText(res.err.value), true, Some(id))
            else if res.count > 0 then Response(StatusOK, JsonUser(res.after), true, Some(id))
            else if res.count == 0 then Response(StatusNotFound, JsonCount(res.count), true, Some(id))
            else Response(StatusConflict, JsonCount(res.count), true, Some(id))
    }

    /** PATCH /users/:id. `body`, `user` and `decodeErr` are what
        core.BuildMapAndStruct produced from the request; `toJson` stands for
        core.BodyToJsonMap, which turns the reconciled user and the raw body
        into the partial document given to the service. */
    function Patch(id: GoString, body: Fields, user: User, decodeErr: Option<Error>,
                   toJson: (User, Fields) -> JsonMapped): (r: Response)
      ensures r.status in WriteStatuses
      ensures |id| == 0 ==> r == Response(StatusBadRequest, Text(IdCannotBeEmpty), false, None)
      ensures |id| > 0 && decodeErr.Some? ==> r == Response(StatusInternalServerError, ErrorText(decodeErr.value), false, None)
      ensures |id| > 0 && decodeErr == None && |user.id| > 0 && user.id != id ==>
                r == Response(StatusBadRequest, Text(IdNotMatch), false, None)
      ensures r.effectiveId.Some? <==> |id| > 0 && decodeErr == None && (|user.id| == 0 || user.id == id)
      ensures r.effectiveId.Some? ==> r.effectiveId.value == id
      ensures var j := toJson(user.(id := id), body);
              r.effectiveId.Some? && j.err.Some? ==>
                r == Response(StatusInternalServerError, ErrorText(j.err.value), false, Some(id))
      ensures var j := toJson(user.(id := id), body);
              var v := validate(user.(id := id));
              r.effectiveId.Some? && j.err == None && v.err.Some? ==>
                r == Response(StatusInternalServerError, Text(InternalServerError), false, Some(id))
      ensures var j := toJson(user.(id := id), body);
              var v := validate(user.(id := id));
              r.effectiveId.Some? && j.err == None && v.err == None && |v.errors| > 0 ==>
                r == Response(StatusUnprocessableEntity, JsonErrors(v.errors), false, Some(id))
      ensures r.serviceCalled <==>
                r.effectiveId.Some? && toJson(user.(id := id), body).err == None && Passes(validate(user.(id := id)))
      ensures var res := service.patch(toJson(user.(id := id), body).json);
              r.serviceCalled && res.err.Some? ==> r.status == StatusInternalServerError && r.body == ErrorText(res.err.value)
      ensures var res := service.patch(toJson(user.(id := id), body).json);
              r.serviceCalled && res.err == None ==>
                && (r.status == StatusOK <==> res.count > 0)
                && (r.status == StatusNotFound <==> res.count == 0)
                && (r.status == StatusConflict <==> res.count < 0)
      ensures r.status == StatusOK ==>
                r.serviceCalled && r.body == JsonFields(service.patch(toJson(user.(id := id), body).json).after)
      ensures r.status in {StatusNotFound, StatusConflict} ==>
                r.serviceCalled && r.body == JsonCount(service.patch(toJson(user.(id := id), body).json).count)
    {
      if |id| == 0 then Response(StatusBadRequest, Text(IdCannotBeEmpty), false, None)
      else if decodeErr.Some? then Response(StatusInternalServerError, ErrorText(decodeErr.value), false, None)
      else match Reconcile(user, id)
        case None => Response(StatusBadRequest, Text(IdNotMatch), false, None)
        case Some(u) =>
          var j := toJson(u, body);
          if j.err.Some? then Response(StatusInternalServerError, ErrorText(j.err.value), false, Some(id))
          else
            var v := validate(u);
            if v.err.Some? then Response(StatusInternalServerError, Text(InternalServerError), false, Some(id))
            else if |v.errors| > 0 then Response(StatusUnprocessableEntity, JsonErrors(v.errors), false, Some(id))
            else
              var res := service.patch(j.json);
              if res.err.Some? then Response(StatusInternalServerError, ErrorText(res.err.value), true, Some(id))
              else if res.count > 0 then Response(StatusOK, JsonFields(res.after), true, Some(id))
              else if res.count == 0 then Response(StatusNotFound, JsonCount(res.count), true, Some(id))
              else Response(StatusConflict, JsonCount(res.count), true, Some(id))
    }

    /** DELETE /users/:id. */
    function Delete(id: GoString): (r: Response)
      ensures r.status in DeleteStatuses
      ensures r.serviceCalled <==> |id| > 0
      ensures |id| == 0 ==> r == Response(StatusBadRequest, Text(IdCannotBeEmpty), false, None)
      ensures |id| > 0 ==> r.effectiveId == Some(id)
      ensures var res := service.delete(id);
              r.status == StatusInternalServerError <==> |id| > 0 && res.err.Some?
      ensures var res := service.delete(id);
              r.status == StatusOK <==> |id| > 0 && res.err == None && res.count > 0
      ensures var res := service.delete(id);
              r.status == StatusNotFound <==> |id| > 0 && res.err == None && res.count <= 0
      ensures r.status == StatusInternalServerError ==> r.body == ErrorText(service.delete(id).err.value)
      ensures r.status in {StatusOK, StatusNotFound} ==> r.body == JsonCount(service.delete(id).count)
    {
      if |id| == 0 then Response(StatusBadRequest, Text(IdCannotBeEmpty), false, None)
      else
        var res := service.delete(id);
        if res.err.Some? then Response(StatusInternalServerError, ErrorText(res.err.value), true, Some(id))
        else if res.count > 0 then Response(StatusOK, JsonCount(res.count), true, Some(id))
        else Response(StatusNotFound, JsonCount(res.count), true, Some(id))
    }

    /** GET|POST /users/search. `filter` and `decodeErr` are what s.Decode
        produced; `getOffset` stands for s.GetOffset(limit, page). */
    function Search(filter: UserFilter, decodeErr: Option<Error>, getOffset: (int, int) -> int): (r: Response)
      ensures r.status in SearchStatuses
      ensures r.effectiveId == None
      ensures r.serviceCalled <==> decodeErr == None
      ensures decodeErr.Some? ==> r == Response(StatusBadRequest, ErrorText(decodeErr.value), false, None)
      ensures var res := service.search(filter, filter.limit, getOffset(filter.limit, filter.page));
              r.serviceCalled ==>
                && (r.status == StatusInternalServerError <==> res.err.Some?)
                && (r.status == StatusOK <==> res.err == None)
                && (r.status == StatusInternalServerError ==> r.body == Text(InternalServerError))
                && (r.status == StatusOK ==> r.body == JsonResult(res.users, res.total))
    {
      if decodeErr.Some? then Response(StatusBadRequest, ErrorText(decodeErr.value), false, None)
      else
        var offset := getOffset(filter.limit, filter.page);
        var res := service.search(filter, filter.limit, offset);
        if res.err.Some? then Response(StatusInternalServerError, Text(InternalServerError), true, None)
        else Response(StatusOK, JsonResult(res.users, res.total), true, None)
    }
  }
}
