/** The errors thrown by the connector (Sources/ParseConnector/ParseError.swift). */
module Errors {

  datatype ParseError =
    | Unknown
    | ClassNotSet
    | NullObjectId
    | InvalidExpression
}
