/** The request methods: the eight tokens of section 9 of RFC 9110 the library accepts. */
module HttpMethod {
  import opened Wrappers
  import opened Bytes
  import opened Errors

  datatype Method = Get | Head | Post | Put | Delete | Connect | Options | Trace

  /** The method token as it appears on the wire. */
  function ToStr(m: Method): (s: Bytes)
    ensures |s| > 0 && IsUpperWord(s)
  {
    match m
    case Get => "GET"
    case Head => "HEAD"
    case Post => "POST"
    case Put => "PUT"
    case Delete => "DELETE"
    case Connect => "CONNECT"
    case Options => "OPTIONS"
    case Trace => "TRACE"
  }

  predicate IsUpperWord(s: Bytes) {
    forall k :: 0 <= k < |s| ==> 'A' <= s[k] <= 'Z'
  }

  /** Case-sensitive match against the eight tokens; anything else is an invalid method. */
  function Parse(b: Bytes): (r: Result<Method, RequestLineError>)
    ensures r.Ok? ==> ToStr(r.value) == b
    ensures r.Err? ==> r.error == InvalidMethod && forall m: Method :: ToStr(m) != b
  {
    match b
    case "GET" => Ok(Get)
    case "HEAD" => Ok(Head)
    case "POST" => Ok(Post)
    case "PUT" => Ok(Put)
    case "DELETE" => Ok(Delete)
    case "CONNECT" => Ok(Connect)
    case "OPTIONS" => Ok(Options)
    case "TRACE" => Ok(Trace)
    case _ => Err(InvalidMethod)
  }

  /** Every method survives printing and parsing. */
  lemma ParseToStr(m: Method)
    ensures Parse(ToStr(m)) == Ok(m)
  {
  }

  /** `to_bytes`: the capitalised name, e.g. "Get". */
  function ToBytes(m: Method): (s: Bytes)
    ensures |s| == |ToStr(m)| && s[0] == ToStr(m)[0] && s[1..] == ToLower(ToStr(m)[1..])
    ensures Parse(s).Err?
  {
    match m
    case Get => "Get"
    case Head => "Head"
    case Post => "Post"
    case Put => "Put"
    case Delete => "Delete"
    case Connect => "Connect"
    case Options => "Options"
    case Trace => "Trace"
  }
}
