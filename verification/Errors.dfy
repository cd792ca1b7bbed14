/** The error answers of the gateway. */
module Errors {
  datatype GatewayError =
    | AppDoesNotExist
    | InvalidToken
    | MissingToken
    | MissingSignature
    | InvalidSignature
    | UnknownOrigin
    | BadDeviceId
    | InvalidPayload
    | InternalServerError
    | ServiceUnavailable
}
