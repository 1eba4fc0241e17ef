# User handlers and log masking of go-echo-mongo-sample, modelled in Dafny

The service is a CRUD REST backend for a single resource, User. Two parts of it
contain sequential decision logic, and this project models those two parts.

* The HTTP handlers in `internal/user/handler/handler.go` (module `Handler`).
  Each handler (`All`, `Load`, `Create`, `Update`, `Patch`, `Delete`, `Search`)
  is one function on the `UserHandler` datatype. It maps the outcomes of one
  request to a `Response`. The outcomes are: the bind/decode result, the path
  `id`, the Id in the decoded body, the validator's `(errors, err)` pair and the
  service's `(result, err)` pair. The `Response` holds the HTTP status, the body
  that is sent, whether the service was called, and the id the request was
  settled on. The service and the validator are fields of `UserHandler`, as in
  the Go struct, and each one is an uninterpreted function value. The service's
  `Create`, `Update` and `Patch` receive a reference to their argument (`&user`,
  or the `json` map), and the handler sends that argument afterwards. So these
  three service functions also return the argument as they leave it
  (`Written.after`), and that value is what the response carries.
  `core.BodyToJsonMap` and `s.GetOffset` are passed in as function parameters.
  `Reconcile` states the id-reconciliation rule once, and `Update` and `Patch`
  both use it.
* The masking callbacks in `main.go` (module `LogMask`). `MaskLog` chooses the
  masking arguments from the field name. `FieldMap.Mask` changes the `"phone"`
  entry of a map in place; a Go map is a reference, so the map is the field `obj`
  of a class. `Masked` is the function that specifies `Mask`. Go's
  `strings.Mask` is a parameter, `Masker`.

Go strings are byte sequences (`GoString = seq<byte>`), so `len(s)` is a length
in bytes. A Go `interface{}` value is `GoValues.Value`.

`HandlerProperties` holds the lemmas that relate several requests or several
handlers. They state the following:

* A missing body Id behaves exactly like a body Id equal to the path id.
* In every handler except `All`, which always calls the service, the answer to
  a request rejected before the service is called does not depend on the service.
* An id mismatch does not depend on the validator or the service.
* `Update` and `Patch` check for problems in a different order.
* Each handler can answer with exactly a fixed set of statuses, and every status
  in that set is reachable.

Points of the code worth knowing:

* `Update` checks the bind error before the path id. A request that fails to
  bind and has no id therefore gets 500 from `Update`, but 400 from `Patch`.
* `Create` answers 409 for every result `<= 0`, negative ones included.
* `Delete` answers 404 for every result `<= 0`, negative ones included.
* `Search` applies no paging rule itself: it passes `filter.Limit` and the
  offset computed from `filter.Limit` and `filter.Page` on unchanged. A decode
  error is a 400.

## Model

| member | source | states |
|---|---|---|
| `Handler.Reconcile` | internal/user/handler/handler.go:101-105 | the id is accepted iff the body Id is empty or equals the path id; when it is accepted, the result is the body user carrying the path id (adopted or unchanged) |
| `Handler.UserHandler.All` | internal/user/handler/handler.go:33-39 | the service is always called; 200 with the users iff the service reports no error, otherwise 500 with the error text |
| `Handler.UserHandler.Load` | internal/user/handler/handler.go:41-56 | an empty path id gives 400 and the service is not called; otherwise a service error gives 500, a nil user with no error gives 404, and a loaded user gives 200 with that user; no other status occurs |
| `Handler.UserHandler.Create` | internal/user/handler/handler.go:58-85 | a bind error gives 500 and is checked first; a validator error gives 500 with the generic message; a non-empty error list gives 422; in these cases the service is not called, and it is called iff the bind succeeds and validation passes; a service error gives 500; otherwise 201, with the user as the service left it, iff the result is > 0, and 409 iff it is <= 0, negative results included |
| `Handler.UserHandler.Update` | internal/user/handler/handler.go:87-127 | a bind error gives 500 before the path id is looked at; an empty path id gives 400; a differing non-empty body Id gives 400 "Id not match"; the validator and the service see the reconciled user; validator error gives 500 (generic), errors give 422, both without a service call; the service is called iff all checks pass; a service error gives 500; otherwise result > 0 gives 200 with the user as the service left it, == 0 gives 404, < 0 gives 409 |
| `Handler.UserHandler.Patch` | internal/user/handler/handler.go:129-173 | an empty path id gives 400 before the body is read; a decode error gives 500; a differing non-empty body Id gives 400; a BodyToJsonMap error gives 500; then validation as in Update; the service gets the partial document built from the reconciled user, and is called iff every check passes; a service error gives 500; otherwise > 0 gives 200 with that document as the service left it, == 0 gives 404, < 0 gives 409 |
| `Handler.UserHandler.Delete` | internal/user/handler/handler.go:175-191 | an empty path id gives 400 without a service call; a service error gives 500; result > 0 gives 200, and every other result, zero or negative, gives 404, each with the count; no other status occurs |
| `Handler.UserHandler.Search` | internal/user/handler/handler.go:193-207 | a decode error gives 400 and the service is not called; otherwise the service is called with the filter, its limit and the offset computed from limit and page; a service error gives 500 with the generic message, and success gives 200 with the list and the total |
| `HandlerProperties.UpdateAdoptsPathId` | internal/user/handler/handler.go:101-102 | for every Update request, a body with an empty Id gets the same response as the same body carrying the path id |
| `HandlerProperties.PatchAdoptsPathId` | internal/user/handler/handler.go:143-144 | for every Patch request, a body with an empty Id gets the same response as the same body carrying the path id |
| `HandlerProperties.UpdateMismatchIgnoresValidatorAndService` | internal/user/handler/handler.go:103-105 | an Update with a differing non-empty body Id is answered with 400 whatever the validator and the service are, i.e. before either is consulted |
| `HandlerProperties.PatchMismatchIgnoresValidatorAndService` | internal/user/handler/handler.go:145-147 | a Patch with a differing non-empty body Id is answered with 400 whatever BodyToJsonMap, the validator and the service are |
| `HandlerProperties.UpdateRejectionIgnoresService` | internal/user/handler/handler.go:92-114 | when Update does not call the service, replacing the service does not change the response |
| `HandlerProperties.CreateRejectionIgnoresService` | internal/user/handler/handler.go:63-74 | when Create does not call the service, replacing the service does not change the response |
| `HandlerProperties.PatchRejectionIgnoresService` | internal/user/handler/handler.go:130-160 | when Patch does not call the service, replacing the service does not change the response |
| `HandlerProperties.LoadRejectionIgnoresService` | internal/user/handler/handler.go:42-45 | when Load does not call the service, replacing the service does not change the response |
| `HandlerProperties.DeleteRejectionIgnoresService` | internal/user/handler/handler.go:176-179 | when Delete does not call the service, replacing the service does not change the response |
| `HandlerProperties.SearchRejectionIgnoresService` | internal/user/handler/handler.go:195-198 | when Search does not call the service, replacing the service does not change the response |
| `HandlerProperties.CheckOrderDiffers` | internal/user/handler/handler.go:92-99 | a request that fails to bind and has an empty path id gets 500 from Update (the bind is checked first) but 400 from Patch (the id is checked first) |
| `HandlerProperties.LoadStatusRange` | internal/user/handler/handler.go:41-56 | Load's possible statuses are exactly 200, 400, 404 and 500 |
| `HandlerProperties.CreateStatusRange` | internal/user/handler/handler.go:58-85 | Create's possible statuses are exactly 201, 409, 422 and 500 (never 404) |
| `HandlerProperties.UpdateStatusRange` | internal/user/handler/handler.go:87-127 | Update's possible statuses are exactly 200, 400, 404, 409, 422 and 500 |
| `HandlerProperties.PatchStatusRange` | internal/user/handler/handler.go:129-173 | Patch's possible statuses are exactly 200, 400, 404, 409, 422 and 500 |
| `HandlerProperties.DeleteStatusRange` | internal/user/handler/handler.go:175-191 | Delete's possible statuses are exactly 200, 400, 404 and 500 (never 409) |
| `HandlerProperties.SearchStatusRange` | internal/user/handler/handler.go:193-207 | Search's possible statuses are exactly 200, 400 and 500 |
| `LogMask.MaskLog` | main.go:47-53 | the field "mobileNo" is masked with strings.Mask(s, 2, 2, "x"); every other name is masked with strings.Mask(s, 0, 5, "x") |
| `LogMask.Masked` | main.go:54-62 | the key set never changes and no entry other than "phone" changes; the map is unchanged when "phone" is absent, or holds a non-string, or holds a string of at most 3 bytes; otherwise "phone" becomes strings.Mask(s, 0, 3, "*") |
| `LogMask.FieldMap.Mask` | main.go:54-62 | updates the map in place so that it becomes `Masked` of the old map: same keys, all entries other than "phone" unchanged |

## Left out

- Echo request binding, JSON encoding and the response writer (`c.Bind`, `c.JSON`, `c.String`, `c.Param`). Their outcomes are inputs, and the `Response` record is the output.
- The service, the repository adapter and MongoDB are I/O. The service is an uninterpreted function per operation.
- The validator is an uninterpreted function value. It receives `&user` in `Create`, `Update` and `Patch`; the model assumes it does not change the user, so the service sees the user the validator was given.
- `core.BuildMapField`, `core.BuildMapAndStruct`, `core.BodyToJsonMap` (with its `"id"` exclusion), `s.BuildAttributes`, `s.Decode` and `s.GetOffset` are library code whose source is not available. Their results are inputs or function parameters. As a consequence, the field maps that `NewUserHandler` stores (`Map`, `ParamIndex`, `FilterIndex`) are not modelled, and neither is the field map that `Patch` builds for `BodyToJsonMap`.
- `strings.Mask` is library code whose source is not available; it is the `Masker` parameter.
- `random.Random` (and so `GenerateId`) is randomness.
- The logging calls (`h.Error`, `core.MakeMap`) are side effects that change no outcome.
- `defer c.Request().Body.Close()` is resource cleanup that changes no outcome.
- The body of `main` (configuration loading, logger and middleware setup, server start), `internal/app/route.go` (route registration), `internal/app/config.go` (declarations only) and `internal/user/user.go` (wiring only) are plumbing.
- Concurrency: each request is handled on its own goroutine. The model describes a single request.
- The attributes of `model.User` other than `Id`, and the search criteria of `model.UserFilter`, are opaque maps. The `model` package is not part of this model.
- The service's `int64` results are unbounded integers. The handlers only compare them with zero, so their width changes nothing.
- JSON numbers in `Value` are integers rather than `float64`. Nothing modelled here reads a number.
