/**
 * The library's error values. The variants follow the call sites: some of
 * them (`VersionError`, `BodyError`, `StreamError`, `RequestError::Body`,
 * `RequestError::InvalidContentLength`) are used by the code but declared in
 * files that are not part of this model.
 */
module Errors {

  datatype VersionError = InvalidHttpVersion

  datatype RequestLineError =
    | MalformedRequestLine
    | InvalidMethod
    | Version(VersionError)

  datatype HeadersError =
    | MalformedFieldLine
    | InvalidHeaderFields
    | InvalidContentLength

  datatype StreamError = Eof

  datatype BodyError =
    | BodyHeaderErr(HeadersError)
    | MalformedChunkedSize
    | MalformedChunkedBody
    | UnexpectedEof

  datatype RequestError =
    | RequestLineErr(RequestLineError)
    | HeaderErr(HeadersError)
    | MalformedRequest
    | BodyTooLong
    | InvalidContentLength
    | BodyErr(BodyError)
    | StreamErr(StreamError)

  datatype ServerError = InternalError
}
