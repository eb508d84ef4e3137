# codex-backend authentication core, in Dafny

This project models the authentication core of `codex-backend`, a Go HTTP backend built on gin, gorm/MySQL and golang-jwt. The core is:

- **user repository**: single-row reads and writes on the `users` table, modelled as a class whose `rows: seq<User>` and AUTO_INCREMENT counter `nextID` the write methods reassign;
- **auth service**: registration (existence check, then create), login (lookup, password check, token issue), JWT issue and validation, and lookup of a token's subject;
- **bearer middleware**: `RequireAuth`'s early-exit chain. An empty header, a header that `strings.Split(h, " ")` does not turn into exactly `["Bearer", token]`, a token that fails validation, and a subject whose lookup fails (the row is missing or the store reports an error) are each answered 401, and the request is aborted. Otherwise `user` and `userID` are set in the request context and `Next` runs;
- **controller**: binding and validating the JSON body (400), then mapping the service outcome to 201/409/500 for signup and to 200/401/500 for login, with the response records of `app/dto`;
- **database configuration**: the default settings and the data source name.

The clock is a parameter `now`, in whole seconds. The compact serialisation of a token is a parameter `TokenCodec`, whose round trip is stated as the assumption `Jwt.RoundTrips`. The password comparison `CheckPassword` and the `email` binding rule are function parameters. Each store call takes the driver error it meets (`fault`, None when the statement succeeds). Whether a row is found is decided by the rows themselves.

Modules: `Wrappers` (Option, Result), `Model` (User), `Repository`, `Jwt` (the library's parse and validation order), `Service`, `Middleware`, `Http` (status codes), `Dto`, `Controller`, `Db`.

Points of the code's behaviour worth noting:

- `RegisterUser` stores the password it is given (app/service/auth_service.go:59-62). Any hashing would happen in a model hook, and `app/model/user.go` is not part of this model.
- `ValidateJWTToken` returns the library's own error unchanged (app/service/auth_service.go:134-136); only a parse that succeeds but is not valid would give `ErrInvalidToken` (139-143), and golang-jwt v5 never does that. The collapse of every failure to one 401 happens in the middleware (app/middleware/auth.go:48-53, `Middleware.Gate`).
- golang-jwt v5 rejects a token at its `exp` second: a token is accepted iff `nbf <= now < exp`, not on the closed interval `[nbf, exp]`.
- A duplicate-key failure at create time is not turned into the duplicate-email error: it is wrapped like any other store error (app/service/auth_service.go:64-66) and answered 500 (app/controller/auth_controller.go:53).

## Model

| member | source | states |
|---|---|---|
| Repository.Lookup | app/repository/user_repository.go:20-22 | the row found by primary key has that key and is in the table; nothing is found iff no row has the key |
| Repository.FirstByEmail | app/repository/user_repository.go:34-35 | the row found has that e-mail, is in the table and has the least key among the rows with that e-mail; nothing is found iff no row has the e-mail |
| Repository.CountByEmail | app/repository/user_repository.go:47-48 | the count is at most the table size and is positive iff some row has the e-mail |
| Repository.Overwrite | app/repository/user_repository.go:61-63 | same length and keys; every row with the record's key becomes the record; every other row is unchanged |
| Repository.RemoveID | app/repository/user_repository.go:66-68 | a row remains iff it was there and has another key |
| Repository.First | app/repository/user_repository.go:21-27 | gorm's `First`: success iff no driver error and a row exists; a driver error is reported as is; otherwise record-not-found |
| Repository.Count | app/repository/user_repository.go:48-51 | gorm's `Count`: the count without a driver error, the driver error otherwise |
| Repository.AppendedIsFound | app/repository/user_repository.go:56-58 | after a row with a fresh key is appended, its key finds it, and its e-mail is found and counted |
| Repository.HasIDCons | app/repository/user_repository.go:20-22 | a key is in a non-empty table iff it is the first row's key or it is in the rest |
| Repository.LookupAfterOverwrite | app/repository/user_repository.go:61-63 | after an update, the updated key finds the new record and every other key finds what it found before |
| Repository.LookupAfterRemove | app/repository/user_repository.go:66-68 | after a delete, the deleted key finds nothing and every other key finds what it found before |
| Repository.RemovePreservesKeys | app/repository/user_repository.go:66-68 | deleting keeps keys unique and below the AUTO_INCREMENT counter |
| Repository.UserRepository.constructor | app/repository/user_repository.go:15-17 | an empty table whose counter starts at 1 |
| Repository.UserRepository.FindByID | app/repository/user_repository.go:20-30 | not found is (nil, nil); the row with that key otherwise; a driver error comes back with no user |
| Repository.UserRepository.FindByEmail | app/repository/user_repository.go:33-43 | not found is (nil, nil); the matching row with the least key otherwise; a driver error comes back with no user |
| Repository.UserRepository.ExistsByEmail | app/repository/user_repository.go:46-53 | true iff some row has the e-mail; false with the error on a driver error |
| Repository.UserRepository.Create | app/repository/user_repository.go:56-58 | a zero key takes the counter's value, the row is appended and the counter moves past it; a key already present is duplicate-key error 1062 and changes nothing; a driver error changes nothing; keys stay unique |
| Repository.UserRepository.Update | app/repository/user_repository.go:61-63 | gorm `Save`: overwrites the row with the same key, otherwise inserts as `Create` does; a driver error changes nothing |
| Repository.UserRepository.Delete | app/repository/user_repository.go:66-68 | the table loses exactly the rows with that key (none is not an error); a driver error changes nothing |
| Jwt.ParseWithClaims | app/service/auth_service.go:126-136 | success iff the string decodes, the key function gives a key, the signature verifies with it, the token is not expired (`now < exp`) and not before `nbf`; a success carries the decoded claims and is marked valid |
| Service.GenerateJWTToken | app/service/auth_service.go:97-121 | fails iff signing fails, with the signer's error; otherwise the string decodes to the HS256 claims {UserID, iat = nbf = now, exp = now + 24h} under the service key |
| Service.KeyFunc | app/service/auth_service.go:126-132 | a key iff the algorithm is in the HMAC family, and the key is the service secret |
| Service.ValidateJWTToken | app/service/auth_service.go:124-144 | the token's UserID exactly when the string decodes to a token signed with HMAC under the service key and inside its nbf..exp window; every failure is the parser's error |
| Service.RegisterOutcome | app/service/auth_service.go:48-69 | the registration decision on a table: existence-check error, then duplicate e-mail, then create error, then the new user; a success has the next key and the given e-mail and the e-mail was absent; every failure is ErrEmailAlreadyExists or a wrapped store error (the iffs are in `Service.RegisterFailures` and `Service.RegisterSuccess`) |
| Service.LoginOutcome | app/service/auth_service.go:72-94 | the login decision on a table: a success is the first user with the e-mail, whose password check passes; every failure is ErrInvalidCredentials, ErrTokenGenerationFail or the wrapped lookup error (the iffs are in `Service.LoginOutcomes`) |
| Service.UserByID | app/service/auth_service.go:147-156 | a driver error is wrapped; without one the result is ErrUserNotFound iff no row has the key; success iff there is no driver error and some row has the key, and the user is then the row that key finds |
| Service.AuthService.constructor | app/service/auth_service.go:41-45 | the service holds the repository it is given |
| Service.AuthService.RegisterUser | app/service/auth_service.go:48-69 | the outcome is the registration outcome on the table before the call; on success the table gains exactly the new user, whose key is the next counter value; on every failure the table is unchanged; table invariants are kept |
| Service.AuthService.LoginUser | app/service/auth_service.go:72-94 | the outcome is the login outcome on the current table; the table is not written |
| Service.AuthService.GetUserByID | app/service/auth_service.go:147-156 | the outcome is `UserByID` on the current table |
| Service.RegisterFailures | app/service/auth_service.go:50-56 | a failed existence check is wrapped; an e-mail already present gives ErrEmailAlreadyExists; and ErrEmailAlreadyExists is returned iff the check succeeded and the e-mail is present |
| Service.RegisterSuccess | app/service/auth_service.go:59-68 | registration succeeds iff both store calls succeed and the e-mail is absent, and then the user is exactly (next key, e-mail, password) |
| Service.RegisterKeepsEmailsUnique | app/service/auth_service.go:48-69 | a successful registration keeps e-mail addresses unique in the table |
| Service.RegisterTwiceConflicts | app/service/auth_service.go:50-56 | registering an e-mail again after a successful registration gives ErrEmailAlreadyExists |
| Service.LoginOutcomes | app/service/auth_service.go:72-94 | a wrapped error iff the lookup reports a driver error, and it wraps that error; ErrInvalidCredentials iff the e-mail is unknown or the password check fails; ErrTokenGenerationFail iff both pass and signing fails; success iff the lookup succeeds, the e-mail is known, the check passes and signing succeeds, returning the first user with the e-mail and the token issued for that user now |
| Service.LoginIndistinguishable | app/service/auth_service.go:78-85 | an unknown e-mail and a wrong password give the identical result, whatever the tables, inputs and clocks |
| Service.RegisterThenLogin | app/service/auth_service.go:48-94 | after a successful registration, login with that e-mail succeeds iff the password check passes, and it returns the registered user |
| Service.IssuedTokenWindow | app/service/auth_service.go:21-24 | an issued token lives 24 hours from its `iat`, its `nbf` equals `iat`, and it is accepted exactly for `iat <= now < iat + 24h` |
| Service.GenerateThenValidate | app/service/auth_service.go:97-144 | validating a freshly generated token gives the user ID back inside the window, the expired error at or after `exp` and the not-valid-yet error before `nbf` |
| Service.OnlyHmacWithServiceKey | app/service/auth_service.go:126-132 | a token under a non-HMAC algorithm, or signed with another key, is never accepted |
| Service.InvalidTokenUnreachable | app/service/auth_service.go:139-143 | validation never returns ErrInvalidToken |
| Middleware.Split | app/middleware/auth.go:40 | `strings.Split(s, " ")`: as many parts as spaces plus one, none containing a space |
| Middleware.JoinSplit | app/middleware/auth.go:40 | joining the parts with spaces gives the string back |
| Middleware.SplitPrefix | app/middleware/auth.go:40 | a space-free prefix is glued onto the first part |
| Middleware.SplitJoin | app/middleware/auth.go:40 | splitting the join of space-free parts gives the parts back |
| Middleware.BearerToken | app/middleware/auth.go:40-45 | the second part of the split when it has exactly two parts and the first is `Bearer`; a token comes from a header with exactly one space and contains none (the exact shape is `Middleware.BearerTokenExactly`) |
| Middleware.BearerTokenExactly | app/middleware/auth.go:40-45 | a header yields a token iff it is `Bearer`, one space, and text without spaces; the token is that text |
| Middleware.DoubleSpaceRejected | app/middleware/auth.go:40-45 | `Bearer  t` (two spaces) is refused |
| Middleware.LowerCaseSchemeRejected | app/middleware/auth.go:40-45 | `bearer t` is refused: the keyword is case-sensitive |
| Middleware.MissingTokenRejected | app/middleware/auth.go:40-45 | `Bearer` alone is refused |
| Middleware.EmptyTokenAccepted | app/middleware/auth.go:40-45 | `Bearer ` yields the empty token, which is passed on to validation |
| Middleware.Gate | app/middleware/auth.go:29-68 | the decision chain: HeaderRequired iff the header is empty; BadHeaderFormat iff it is non-empty and gives no bearer token; on proceeding, the token validated to the carried subject, the store reported no error and the subject's key finds the carried user (the exact conditions are `Middleware.GateProceedsExactly`) |
| Middleware.GateRejectsShape | app/middleware/auth.go:32-45 | a header without the bearer shape is refused as missing or malformed before any validation or lookup |
| Middleware.GateInvalidTokenSkipsLookup | app/middleware/auth.go:48-53 | a token that fails validation is refused whatever the table and store faults |
| Middleware.GateProceedsExactly | app/middleware/auth.go:29-68 | a request passes iff the header has the bearer shape, the token validates, there is no store error and the subject's row exists; it then carries that row and that subject |
| Middleware.Context.constructor | app/middleware/auth.go:64-68 | an empty request context: no keys, no reply, not aborted, Next not run |
| Middleware.Context.JSON | app/middleware/auth.go:34 | writes the reply and changes nothing else |
| Middleware.Context.Abort | app/middleware/auth.go:35 | sets the abort flag and changes nothing else |
| Middleware.Context.Set | app/middleware/auth.go:64-65 | stores one key and changes nothing else |
| Middleware.Context.Next | app/middleware/auth.go:68 | runs the rest of the chain once and changes nothing else |
| Middleware.AuthMiddleware.constructor | app/middleware/auth.go:19-26 | the middleware holds the service it is given |
| Middleware.AuthMiddleware.RequireAuth | app/middleware/auth.go:29-70 | on refusal, a 401 reply with the reason, aborted, no keys set and Next not run; on success exactly `user` and `userID` are set and Next runs once, with no reply and no abort |
| Dto.ValidSignup | app/dto/auth.go:4-7 | the signup binding rules: e-mail present and in e-mail form, password present with at least 6 characters (related to login by `Dto.SignupStricterThanLogin`) |
| Dto.ValidLogin | app/dto/auth.go:16-19 | the login binding rules: e-mail present and in e-mail form, password present, no minimum length |
| Dto.SignupStricterThanLogin | app/dto/auth.go:4-19 | every valid signup body is a valid login body and has a password of at least 6 characters; a 5-character password is valid for login and not for signup |
| Controller.BindSignup | app/controller/auth_controller.go:40-44 | binding succeeds iff the body decodes and is a valid signup request (required e-mail in e-mail form, required password of at least 6 characters), and yields that request |
| Controller.BindLogin | app/controller/auth_controller.go:77-81 | binding succeeds iff the body decodes and is a valid login request (required e-mail in e-mail form, required password), and yields that request |
| Controller.SignupReply | app/controller/auth_controller.go:47-61 | 201 iff registration succeeded, with exactly the user's key and e-mail; 409 iff the error is ErrEmailAlreadyExists itself; 500 iff any other error; errors carry the service error |
| Controller.LoginReply | app/controller/auth_controller.go:84-101 | 200 iff login succeeded, with the token and the user's key and e-mail; 401 iff the error is ErrInvalidCredentials itself; 500 iff any other error |
| Controller.AuthController.constructor | app/controller/auth_controller.go:18-25 | the controller holds the service it is given |
| Controller.AuthController.Signup | app/controller/auth_controller.go:39-62 | a body that does not bind gets 400 and the table and counter are untouched; otherwise the reply is the signup reply to the registration outcome, and the table gains exactly the new user and the counter moves by one on success only |
| Controller.AuthController.Login | app/controller/auth_controller.go:76-102 | a body that does not bind gets 400; otherwise the reply is the login reply to the login outcome on the current table |
| Controller.SignupDuplicateIsConflict | app/controller/auth_controller.go:47-51 | signing up with an e-mail already present is answered 409, whatever the password |
| Controller.SignupStoreErrorIsInternal | app/controller/auth_controller.go:47-54 | a store error during the check, or during create for a new e-mail, is answered 500, not 409 |
| Controller.LoginAnswers | app/controller/auth_controller.go:84-92 | a lookup error is answered 500; an unknown e-mail and a wrong password get the identical 401 answer; a signing failure is answered 500 |
| Db.DefaultConfig | db/conf.go:24-32 | the default settings, whose fields contain none of the DSN separators, so `Db.DsnDeterminesConfig` applies to them (values in `Db.DefaultDSN`) |
| Db.DSN | db/conf.go:35-38 | the fields inserted verbatim into `user:password@tcp(host:port)/dbname` followed by the options: its length is the fields' lengths plus the fixed text (shape in `Db.DsnFrame` and `Db.DsnLayers`, injectivity in `Db.DsnDeterminesConfig`) |
| Db.DsnFrame | db/conf.go:35-38 | every DSN starts with the user and `:` and ends with the connection options |
| Db.DefaultDSN | db/conf.go:24-38 | the defaults are root/password at 127.0.0.1:3306, database codex; their DSN is `root:password@tcp(127.0.0.1:3306)/codex` followed by the options |
| Db.FirstSeparator | db/conf.go:35-38 | in `x + [sep] + y` with `sep` not in `x`, the first `sep` is at `|x|` |
| Db.CutAt | db/conf.go:35-38 | a separator absent from both prefixes splits two equal strings at the same place |
| Db.DropPrefix | db/conf.go:35-38 | a common fixed prefix can be dropped |
| Db.DsnLayers | db/conf.go:35-38 | the DSN read from the left is each field followed by its separator |
| Db.InnerLayers | db/conf.go:35-38 | after the user's ':', the DSN is the password, '@tcp(', the host, ':', the port, ')/', the database name and the options |
| Db.DsnDeterminesConfig | db/conf.go:35-38 | settings whose fields do not contain their following separators are determined by their DSN |
| Db.DsnAmbiguousExample | db/conf.go:35-38 | without that condition two different settings can have the same DSN |

## Left out

- Service.GenerateJWTToken: the source reads the clock three times (for `exp`, `iat` and `nbf`); the model reads it once, because the readings fall in the same second except at a second boundary.
- Service.GenerateJWTToken: HS256 signing and the compact serialisation are modelled by a token carrying the key it was signed with and an abstract `TokenCodec`. The serialisation's round trip is an assumption (`Jwt.RoundTrips`), not a proof.
- Jwt.ParseWithClaims: only the parts of golang-jwt v5 the service meets are modelled. Registered algorithms other than the listed ones behave as the non-HMAC ones do. `iat` is not validated, which matches the library's default. Leeway, audience and issuer checks are off in the source.
- Service.ValidateJWTToken: the parser's error is kept as a kind, not as its message text.
- Controller.BindSignup: the `email` binding rule is an uninterpreted parameter, and so is JSON decoding (`None` for a body that does not decode). The `min=6` rule counts characters.
- Password hashing and `CheckPassword` (bcrypt) are an uninterpreted parameter. `app/model/user.go` is not part of this model, so any save hook that hashes the password is not either.
- Repository.FirstByEmail: e-mails are compared exactly; MySQL's default case-insensitive collation is not modelled.
- Repository.UserRepository.Delete: the row is removed outright; gorm's soft delete through a `DeletedAt` column (if the model has one) is not modelled.
- Repository.UserRepository.Create: no unique index on `email` is modelled, because none is visible in the source. Concurrent signups (the race between the existence check and the insert) are not modelled, so `Service.RegisterKeepsEmailsUnique` holds for one caller at a time.
- Repository.UserRepository.Create: store failures other than a duplicate key are the `fault` parameter; connection handling, SQL text and the driver are not modelled.
- `Connect` and `Close` in `db/conf.go` are I/O on the global handle and are not modelled; neither is that global handle.
- The error messages' text (Japanese strings, `err.Error()` in bodies) is modelled by the error kind or the rejection reason, not by the text.
- Integer widths: user IDs are `uint` in the source and `nat` here, because no operation of the core does arithmetic on them that could wrap.
- Routing, `main.go`, the hello and health handlers, Swagger annotations and JSON encoding of responses are outside the core.
- `NewAuthController` and `NewAuthMiddleware` each build their own repository and service; the model takes the service as a constructor argument.
