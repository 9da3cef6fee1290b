/** HTTP versions as a (major, minor) pair of bytes. */
module Version {
  import opened Wrappers
  import opened Bytes
  import opened Errors

  type U8 = x: int | 0 <= x < 256

  datatype HttpVersion = HttpVersion(major: U8, minor: U8)

  /** Only "1.0" and "1.1" are supported. */
  function FromBytes(b: Bytes): (r: Result<HttpVersion, VersionError>)
    ensures r.Ok? <==> b == "1.0" || b == "1.1"
    ensures r.Err? ==> r.error == InvalidHttpVersion
  {
    match b
    case "1.0" => Ok(HttpVersion(1, 0))
    case "1.1" => Ok(HttpVersion(1, 1))
    case _ => Err(InvalidHttpVersion)
  }

  function Default(): (v: HttpVersion)
    ensures v.major == 1 && v.minor == 1
  {
    HttpVersion(1, 1)
  }

  /** The `Display` text: "1.0", "1.1", and the empty string for any other pair. */
  function Display(v: HttpVersion): (s: Bytes)
    ensures s == "" <==> v != HttpVersion(1, 0) && v != HttpVersion(1, 1)
  {
    match (v.major, v.minor)
    case (1, 0) => "1.0"
    case (1, 1) => "1.1"
    case _ => ""
  }

  /** Displaying a parsed version gives back the bytes it was parsed from. */
  lemma DisplayFromBytes(b: Bytes)
    requires FromBytes(b).Ok?
    ensures Display(FromBytes(b).value) == b
  {
  }

  /** Parsing the display of a supported version gives the version back. */
  lemma FromBytesDisplay(v: HttpVersion)
    requires Display(v) != ""
    ensures FromBytes(Display(v)) == Ok(v)
  {
  }

  /** `impl PartialEq<(u8, u8)> for HttpVersion`. */
  predicate EqTuple(v: HttpVersion, t: (U8, U8)) {
    v.major == t.0 && v.minor == t.1
  }

  /** `impl PartialEq<HttpVersion> for (u8, u8)`. */
  predicate TupleEq(t: (U8, U8), v: HttpVersion) {
    t.0 == v.major && t.1 == v.minor
  }

  /** `impl From<(u8, u8)> for HttpVersion`. */
  function FromTuple(t: (U8, U8)): (v: HttpVersion)
    ensures EqTuple(v, t)
  {
    HttpVersion(t.0, t.1)
  }

  /** Both comparisons agree and hold exactly for the version built from the pair. */
  lemma EqTupleMeaning(v: HttpVersion, t: (U8, U8))
    ensures EqTuple(v, t) <==> TupleEq(t, v)
    ensures EqTuple(v, t) <==> v == FromTuple(t)
  {
  }
}
