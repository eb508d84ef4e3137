/** The HTTP status codes the handlers write (`net/http`). */
module Http {

  const StatusOK: nat := 200
  const StatusCreated: nat := 201
  const StatusBadRequest: nat := 400
  const StatusUnauthorized: nat := 401
  const StatusConflict: nat := 409
  const StatusInternalServerError: nat := 500
}
