/**
 * The header map: field names are case-folded on the way in, repeated
 * names are comma-joined, single field lines are parsed and validated
 * against the token and field-value grammars of sections 5.6.2 and 5.5
 * of RFC 9110, and the map is written out in sorted name order.
 */
module HeaderMap {
  import opened Wrappers
  import opened Bytes
  import opened Errors

  /** The inner `HashMap<String, String>`: folded name to value. */
  type FieldMap = map<Bytes, Bytes>

  /** Every key is stored case-folded. */
  predicate KeysFolded(m: FieldMap) {
    forall k :: k in m ==> IsLower(k)
  }

  // ---------------------------------------------------------------------------
  // Field syntax
  // ---------------------------------------------------------------------------

  /** The fifteen tchar symbols of section 5.6.2 of RFC 9110. */
  const TcharSymbols: set<Byte> := {'!', '#', '$', '%', '&', '\'', '*', '+', '-', '.', '^', '_', '`', '|', '~'}

  /** One byte of `is_valid_token`: ALPHA, DIGIT or one of the tchar symbols. */
  predicate IsTchar(b: Byte) {
    ('A' <= b <= 'Z') || ('a' <= b <= 'z') || ('0' <= b <= '9')
    || b == '!' || b == '#' || b == '$' || b == '%' || b == '&' || b == '\''
    || b == '*' || b == '+' || b == '-' || b == '.' || b == '^' || b == '_'
    || b == '`' || b == '|' || b == '~'
  }

  /** `is_valid_token`: every byte is a tchar (the empty name passes, as `all` does). */
  predicate IsValidToken(s: Bytes) {
    forall k :: 0 <= k < |s| ==> IsTchar(s[k])
  }

  /** One byte of `is_valid_field_value`: HTAB, SP, VCHAR or obs-text. */
  predicate IsFieldValueByte(b: Byte) {
    b as int == 0x09 || b as int == 0x20 || (0x21 <= b as int <= 0x7E) || (0x80 <= b as int <= 0xFF)
  }

  /** `is_valid_field_value`. */
  predicate IsValidFieldValue(s: Bytes) {
    forall k :: 0 <= k < |s| ==> IsFieldValueByte(s[k])
  }

  /** The token bytes are exactly the letters, the digits and the fifteen symbols. */
  lemma TcharIsTokenSet(b: Byte)
    ensures IsTchar(b) <==> ('A' <= b <= 'Z') || ('a' <= b <= 'z') || IsDigit(b) || b in TcharSymbols
  {
  }

  /** A token holds no delimiter: no colon, no blank, no CR or LF, and folding keeps it a token. */
  lemma TokenHasNoDelimiters(s: Bytes)
    requires IsValidToken(s)
    ensures ':' !in s && SP !in s && '\t' !in s && CR !in s && LF !in s
    ensures IsValidToken(ToLower(s))
  {
  }

  /** A valid field value holds neither CR nor LF, so it cannot end a line early. */
  lemma FieldValueHasNoLineBreak(s: Bytes)
    requires IsValidFieldValue(s)
    ensures CR !in s && LF !in s
  {
  }

  // ---------------------------------------------------------------------------
  // The map operations
  // ---------------------------------------------------------------------------

  /** `get`: lookup under the folded name. */
  function MapGet(m: FieldMap, name: Bytes): Option<Bytes> {
    var k := ToLower(name);
    if k in m then Some(m[k]) else None
  }

  /** `add`: a new name is inserted; a repeated one gets ",value" appended. */
  function MapAdd(m: FieldMap, name: Bytes, value: Bytes): FieldMap {
    var k := ToLower(name);
    if k in m then m[k := m[k] + [','] + value] else m[k := value]
  }

  /** `set`: the folded name is bound to the value, replacing any earlier one. */
  function MapSet(m: FieldMap, name: Bytes, value: Bytes): FieldMap {
    m[ToLower(name) := value]
  }

  /** `remove`: the folded name is unbound. */
  function MapRemove(m: FieldMap, name: Bytes): FieldMap {
    m - {ToLower(name)}
  }

  /** Lookups ignore case: a name and its folded form find the same value. */
  lemma GetIgnoresCase(m: FieldMap, name: Bytes)
    ensures MapGet(m, name) == MapGet(m, ToLower(name))
  {
    ToLowerIdempotent(name);
  }

  /** After `add`, the name holds "old,new" (or just the new value) and every other name is unchanged. */
  lemma GetAfterAdd(m: FieldMap, name: Bytes, value: Bytes, q: Bytes)
    ensures MapGet(MapAdd(m, name, value), q) ==
      if ToLower(q) != ToLower(name) then MapGet(m, q)
      else if MapGet(m, name).Some? then Some(MapGet(m, name).value + [','] + value)
      else Some(value)
  {
  }

  /** After `set`, the name holds exactly the new value and every other name is unchanged. */
  lemma GetAfterSet(m: FieldMap, name: Bytes, value: Bytes, q: Bytes)
    ensures MapGet(MapSet(m, name, value), q) == if ToLower(q) == ToLower(name) then Some(value) else MapGet(m, q)
  {
  }

  /** After `remove`, the name is absent and every other name is unchanged. */
  lemma GetAfterRemove(m: FieldMap, name: Bytes, q: Bytes)
    ensures MapGet(MapRemove(m, name), q) == if ToLower(q) == ToLower(name) then None else MapGet(m, q)
  {
  }

  /** Setting the same value twice is the same as setting it once. */
  lemma SetIdempotent(m: FieldMap, name: Bytes, value: Bytes)
    ensures MapSet(MapSet(m, name, value), name, value) == MapSet(m, name, value)
  {
  }

  /** Every operation stores folded keys only. */
  lemma OperationsKeepKeysFolded(m: FieldMap, name: Bytes, value: Bytes)
    requires KeysFolded(m)
    ensures KeysFolded(MapAdd(m, name, value))
    ensures KeysFolded(MapSet(m, name, value))
    ensures KeysFolded(MapRemove(m, name))
  {
    ToLowerIdempotent(name);
  }

  // ---------------------------------------------------------------------------
  // Parsing one field line
  // ---------------------------------------------------------------------------

  /** What `parse` found at the start of its input. */
  datatype FieldLine =
    | NeedMore                                       // no CRLF yet: `Ok(0)`
    | Blank                                          // the empty line that ends the fields: `Ok(2)`
    | Field(name: Bytes, value: Bytes, size: nat)    // a field line of `size` bytes, CRLF included

  /** The count `parse` returns. */
  function Consumed(f: FieldLine): nat {
    match f
    case NeedMore => 0
    case Blank => 2
    case Field(_, _, size) => size
  }

  /**
   * `parse` without its effect on the map: the first CRLF ends the line;
   * the name runs up to the first colon and must be a token; the rest,
   * trimmed of ASCII whitespace, must be a field value.
   */
  function ParseFieldLine(bytes: Bytes): (r: Result<FieldLine, HeadersError>)
    ensures r == Ok(NeedMore) <==> FindCrlf(bytes).None?
    ensures FindCrlf(bytes).Some? ==> r == FieldOf(bytes[..FindCrlf(bytes).value])
  {
    match FindCrlf(bytes) {
      case None => Ok(NeedMore)
      case Some(end) => FieldOf(bytes[..end])
    }
  }

  /**
   * One field line, given the bytes before its CRLF: blank; or a name up to
   * the first colon that is a token, and after the colon a value that,
   * trimmed, is a field value.
   */
  function FieldOf(line: Bytes): (r: Result<FieldLine, HeadersError>)
    ensures r == Ok(Blank) <==> line == []
    ensures r.Ok? ==> !r.value.NeedMore?
    ensures r.Ok? && r.value.Field? ==>
      r.value.size == |line| + 2 && IsValidToken(r.value.name) && IsValidFieldValue(r.value.value)
      && ':' !in r.value.name && |r.value.name| < |line|
      && line[..|r.value.name|] == r.value.name && line[|r.value.name|] == ':'
    ensures r.Err? ==> r.error == MalformedFieldLine && line != []
  {
    if line == [] then Ok(Blank)
    else match SplitOnce(line, ':') {
      case None => Err(MalformedFieldLine)
      case Some((name, raw)) =>
        var value := TrimAscii(raw);
        if !IsValidToken(name) || !IsValidFieldValue(value) then Err(MalformedFieldLine)
        else
          assert line[..|name|] == name;
          Ok(Field(name, value, |line| + 2))
    }
  }

  /** A value that stays the same under `trim_ascii`. */
  predicate Trimmed(v: Bytes) {
    |v| > 0 ==> v[0] !in AsciiWhitespace && v[|v| - 1] !in AsciiWhitespace
  }

  /** The line `write_to` emits for one field. */
  function FieldLineBytes(name: Bytes, value: Bytes): Bytes {
    name + [':', ' '] + value + CRLF
  }

  /** A written field line parses back to its name and value, whatever follows it. */
  lemma ParseWrittenField(name: Bytes, value: Bytes, rest: Bytes)
    requires IsValidToken(name) && IsValidFieldValue(value) && Trimmed(value)
    ensures ParseFieldLine(FieldLineBytes(name, value) + rest) == Ok(Field(name, value, |FieldLineBytes(name, value)|))
  {
    TokenHasNoDelimiters(name);
    FieldValueHasNoLineBreak(value);
    var line := name + [':', ' '] + value;
    assert CR !in line;
    NoCrCrlfFree(line);
    FindCrlfOfLine(line, rest);
    var x := FieldLineBytes(name, value) + rest;
    assert x == line + CRLF + rest;
    assert x[..|line|] == line;
    FieldOfWritten(name, value, line);
  }

  /** The bytes of a written field line before its CRLF read back as that field. */
  lemma FieldOfWritten(name: Bytes, value: Bytes, line: Bytes)
    requires IsValidToken(name) && IsValidFieldValue(value) && Trimmed(value)
    requires line == name + [':', ' '] + value && ':' !in name
    ensures FieldOf(line) == Ok(Field(name, value, |line| + 2))
  {
    assert SplitOnce(line, ':') == Some((name, [SP] + value)) by {
      assert line == name + [':'] + ([SP] + value);
      SplitOnceIs(line, ':', name, [SP] + value);
    }
    assert TrimAscii([SP] + value) == value by {
      TrimAfterBlank(value, AsciiWhitespace);
    }
    FieldOfSplit(line, name, [SP] + value, value);
  }

  /** A line that splits at its first colon into a token and a raw value that trims to a field value. */
  lemma FieldOfSplit(line: Bytes, name: Bytes, raw: Bytes, value: Bytes)
    requires line != [] && SplitOnce(line, ':') == Some((name, raw)) && TrimAscii(raw) == value
    requires IsValidToken(name) && IsValidFieldValue(value)
    ensures FieldOf(line) == Ok(Field(name, value, |line| + 2))
  {
  }

  /** A complete line with no colon is rejected. */
  lemma ParseRejectsNoColon(line: Bytes, rest: Bytes)
    requires |line| > 0 && CR !in line && ':' !in line
    ensures ParseFieldLine(line + CRLF + rest) == Err(MalformedFieldLine)
  {
    NoCrCrlfFree(line);
    FindCrlfOfLine(line, rest);
    assert (line + CRLF + rest)[..|line|] == line;
  }

  /** A complete line whose name (the bytes before the first colon) is not a token is rejected. */
  lemma ParseRejectsBadName(name: Bytes, raw: Bytes, rest: Bytes)
    requires CR !in name && CR !in raw && ':' !in name && !IsValidToken(name)
    ensures ParseFieldLine(name + [':'] + raw + CRLF + rest) == Err(MalformedFieldLine)
  {
    var line := name + [':'] + raw;
    assert CR !in line;
    NoCrCrlfFree(line);
    FindCrlfOfLine(line, rest);
    assert (line + CRLF + rest)[..|line|] == line;
    SplitOnceIs(line, ':', name, raw);
  }

  // ---------------------------------------------------------------------------
  // Writing the block
  // ---------------------------------------------------------------------------

  /** `a` is the least element of `s` in byte order. */
  predicate IsLeast(a: Bytes, s: set<Bytes>) {
    a in s && forall b :: b in s && b != a ==> LexLess(a, b)
  }

  lemma {:induction false} LeastExists(s: set<Bytes>)
    requires s != {}
    ensures exists a :: IsLeast(a, s)
    decreases |s|
  {
    var x :| x in s;
    if s == {x} {
      assert IsLeast(x, s);
    } else {
      var t := s - {x};
      LeastExists(t);
      var y :| IsLeast(y, t);
      LexTotal(x, y);
      if LexLess(x, y) {
        forall b | b in s && b != x
          ensures LexLess(x, b)
        {
          if b != y {
            LexTransitive(x, y, b);
          }
        }
        assert IsLeast(x, s);
      } else {
        assert IsLeast(y, s);
      }
    }
  }

  lemma LeastUnique(s: set<Bytes>, a: Bytes, b: Bytes)
    requires IsLeast(a, s) && IsLeast(b, s)
    ensures a == b
  {
    LexIrreflexive(a);
    if a != b {
      LexTransitive(a, b, a);
    }
  }

  lemma LeastUniqueAll(s: set<Bytes>)
    ensures forall a, b :: IsLeast(a, s) && IsLeast(b, s) ==> a == b
  {
    forall a, b | IsLeast(a, s) && IsLeast(b, s)
      ensures a == b
    {
      LeastUnique(s, a, b);
    }
  }

  /** The least key of a non-empty key set. */
  function LeastKey(s: set<Bytes>): (a: Bytes)
    requires s != {}
    ensures IsLeast(a, s)
  {
    LeastExists(s);
    LeastUniqueAll(s);
    var a :| IsLeast(a, s);
    a
  }

  predicate StrictlySorted(ks: seq<Bytes>) {
    forall i, j :: 0 <= i < j < |ks| ==> LexLess(ks[i], ks[j])
  }

  /** `keys.sort()` over the collected keys: the keys in ascending byte order, each once. */
  function SortedKeys(s: set<Bytes>): (ks: seq<Bytes>)
    ensures StrictlySorted(ks) && |ks| == |s|
    ensures forall k :: k in ks <==> k in s
    decreases |s|
  {
    if s == {} then []
    else
      var a := LeastKey(s);
      var rest := SortedKeys(s - {a});
      assert forall k :: k in rest ==> LexLess(a, k);
      [a] + rest
  }

  /** The head of an ascending sequence is the least of its elements. */
  lemma HeadIsLeast(a: seq<Bytes>)
    requires StrictlySorted(a) && |a| > 0
    ensures IsLeast(a[0], set k | k in a)
  {
    forall b | b in a && b != a[0]
      ensures LexLess(a[0], b)
    {
      var i :| 0 <= i < |a| && a[i] == b;
    }
  }

  /** A non-empty sequence has a member. */
  lemma HeadIsMember(a: seq<Bytes>)
    ensures |a| > 0 ==> a[0] in a
  {
  }

  /** There is one ascending sequence with a given set of elements. */
  lemma {:induction false} SortedUnique(a: seq<Bytes>, b: seq<Bytes>)
    requires StrictlySorted(a) && StrictlySorted(b)
    requires forall k :: k in a <==> k in b
    ensures a == b
    decreases |a|
  {
    HeadIsMember(a);
    HeadIsMember(b);
    if |a| > 0 && |b| > 0 {
      var s := set k | k in a;
      assert s == set k | k in b;
      HeadIsLeast(a);
      HeadIsLeast(b);
      LeastUnique(s, a[0], b[0]);
      forall k
        ensures k in a[1..] <==> k in b[1..]
      {
        LexIrreflexive(k);
        if k in a[1..] {
          var i :| 1 <= i < |a| && a[i] == k;
          assert LexLess(a[0], a[i]);
          assert k in b;
          var j :| 0 <= j < |b| && b[j] == k;
          assert j != 0;
          assert b[1..][j - 1] == k;
        }
        if k in b[1..] {
          var j :| 1 <= j < |b| && b[j] == k;
          assert LexLess(b[0], b[j]);
          assert k in a;
          var i :| 0 <= i < |a| && a[i] == k;
          assert i != 0;
          assert a[1..][i - 1] == k;
        }
      }
      SortedUnique(a[1..], b[1..]);
      assert a == [a[0]] + a[1..] && b == [b[0]] + b[1..];
    }
  }

  /** The field lines for the keys `ks`, in that order. */
  function Lines(ks: seq<Bytes>, m: FieldMap): Bytes
    requires forall k :: k in ks ==> k in m
  {
    if |ks| == 0 then [] else FieldLineBytes(ks[0], m[ks[0]]) + Lines(ks[1..], m)
  }

  /** The lines of the keys up to `i + 1` are those up to `i`, then the line of key `i`. */
  lemma {:induction false} LinesSnoc(ks: seq<Bytes>, i: nat, m: FieldMap)
    requires i < |ks| && forall k :: k in ks ==> k in m
    ensures Lines(ks[..i + 1], m) == Lines(ks[..i], m) + FieldLineBytes(ks[i], m[ks[i]])
    decreases i
  {
    if i == 0 {
      assert ks[..1][1..] == [];
    } else {
      LinesSnoc(ks[1..], i - 1, m);
      assert ks[..i + 1][1..] == ks[1..][..i];
      assert ks[..i][1..] == ks[1..][..i - 1];
    }
  }

  /**
   * The block the writer is meant to emit: one "name: value" line per key
   * in ascending name order, then the empty line that ends the fields.
   */
  function FieldBlock(m: FieldMap): Bytes {
    Lines(SortedKeys(m.Keys), m) + CRLF
  }

  /** `write_to` as written: an empty map writes nothing at all, not even the empty line. */
  function FieldBlockAsWritten(m: FieldMap): Bytes {
    if m == map[] then [] else FieldBlock(m)
  }

  /** The written block always ends with the empty line; for an empty map it is that line alone. */
  lemma FieldBlockEnds(m: FieldMap)
    ensures |FieldBlock(m)| >= 2 && FieldBlock(m)[|FieldBlock(m)| - 2..] == CRLF
    ensures m == map[] ==> FieldBlock(m) == CRLF
  {
    if m == map[] {
      assert m.Keys == {};
    }
  }

  /** As written, an empty map yields no bytes, so a message with no fields has no end-of-fields line. */
  lemma AsWrittenEmptyHasNoBlankLine()
    ensures FieldBlockAsWritten(map[]) == []
    ensures FieldBlock(map[]) == CRLF
  {
    FieldBlockEnds(map[]);
  }

  /** The two agree on every non-empty map. */
  lemma AsWrittenAgrees(m: FieldMap)
    requires m != map[]
    ensures FieldBlockAsWritten(m) == FieldBlock(m)
  {
  }

  // ---------------------------------------------------------------------------
  // Reading a whole block back
  // ---------------------------------------------------------------------------

  /** The result of reading on after `size` further bytes. */
  function After(r: Result<Option<(FieldMap, nat)>, HeadersError>, size: nat): Result<Option<(FieldMap, nat)>, HeadersError> {
    match r
    case Ok(Some((m, used))) => Ok(Some((m, size + used)))
    case other => other
  }

  /**
   * Field lines parsed one after another into `acc` until the empty line:
   * the map and the bytes used, `None` while the block is incomplete.
   * This is the loop the request parser and the connection run over `parse`.
   */
  function ParseBlock(bytes: Bytes, acc: FieldMap): (r: Result<Option<(FieldMap, nat)>, HeadersError>)
    ensures r.Ok? && r.value.Some? ==> 2 <= r.value.value.1 <= |bytes|
    decreases |bytes|, 1
  {
    ParseBlockFrom(bytes, acc, ParseFieldLine(bytes))
  }

  /** The rest of `ParseBlock`, once the first line of `bytes` has been read as `line`. */
  function ParseBlockFrom(bytes: Bytes, acc: FieldMap, line: Result<FieldLine, HeadersError>): (r: Result<Option<(FieldMap, nat)>, HeadersError>)
    requires line == ParseFieldLine(bytes)
    ensures r.Ok? && r.value.Some? ==> 2 <= r.value.value.1 <= |bytes|
    decreases |bytes|, 0
  {
    match line {
      case Err(e) => Err(e)
      case Ok(NeedMore) => Ok(None)
      case Ok(Blank) => Ok(Some((acc, 2)))
      case Ok(Field(name, value, size)) => After(ParseBlock(bytes[size..], MapAdd(acc, name, value)), size)
    }
  }

  /** Maps that a written block reproduces: folded token names and trimmed valid values. */
  predicate Writable(m: FieldMap) {
    forall k :: k in m ==> IsLower(k) && IsValidToken(k) && IsValidFieldValue(m[k]) && Trimmed(m[k])
  }

  /** The map `acc` with the keys `ks` of `m` added one after another. */
  function ExtendWith(acc: FieldMap, ks: seq<Bytes>, m: FieldMap): FieldMap
    requires forall k :: k in ks ==> k in m
    decreases |ks|
  {
    if ks == [] then acc else ExtendWith(acc[ks[0] := m[ks[0]]], ks[1..], m)
  }

  lemma {:induction false} ExtendWithKeys(acc: FieldMap, ks: seq<Bytes>, m: FieldMap)
    requires forall k :: k in ks ==> k in m
    ensures forall k :: k in ExtendWith(acc, ks, m) <==> k in acc || k in ks
    ensures forall k :: k in ks ==> ExtendWith(acc, ks, m)[k] == m[k]
    ensures forall k :: k in acc && k !in ks ==> ExtendWith(acc, ks, m)[k] == acc[k]
    decreases |ks|
  {
    if ks != [] {
      ExtendWithKeys(acc[ks[0] := m[ks[0]]], ks[1..], m);
      assert forall j :: j in ks <==> j == ks[0] || j in ks[1..];
    }
  }

  lemma ParseBlockBlank(acc: FieldMap, rest: Bytes)
    ensures ParseBlock(CRLF + rest, acc) == Ok(Some((acc, 2)))
  {
    FindCrlfIs(CRLF + rest, 0);
  }

  lemma ParseBlockField(name: Bytes, value: Bytes, after: Bytes, acc: FieldMap)
    requires IsValidToken(name) && IsValidFieldValue(value) && Trimmed(value)
    ensures ReadsOn(FieldLineBytes(name, value) + after, acc, after, MapAdd(acc, name, value), |FieldLineBytes(name, value)|)
  {
    var line := FieldLineBytes(name, value);
    var bytes := line + after;
    ParseWrittenField(name, value, after);
    assert bytes[|line|..] == after;
  }

  /** The keys after the head of an ascending sequence are not the head. */
  lemma TailAvoidsHead(ks: seq<Bytes>, m: FieldMap, acc: FieldMap)
    requires StrictlySorted(ks) && |ks| > 0
    requires forall k :: k in ks ==> k in m && k !in acc
    ensures StrictlySorted(ks[1..])
    ensures forall j :: j in ks[1..] ==> j in m && j !in acc[ks[0] := m[ks[0]]]
  {
    forall j | j in ks[1..]
      ensures j in m && j !in acc[ks[0] := m[ks[0]]]
    {
      var i :| 0 <= i < |ks[1..]| && ks[1..][i] == j;
      assert LexLess(ks[0], ks[i + 1]);
      LexIrreflexive(j);
    }
  }

  /** `ParseBlock` reads `bytes` into `e`, using `n` bytes. */
  predicate BlockReads(bytes: Bytes, acc: FieldMap, e: FieldMap, n: nat) {
    var r := ParseBlock(bytes, acc);
    r.Ok? && r.value.Some? && r.value.value.0 == e && r.value.value.1 == n
  }

  lemma {:induction false} ParseLines(ks: seq<Bytes>, m: FieldMap, acc: FieldMap, rest: Bytes)
    requires Writable(m) && StrictlySorted(ks)
    requires forall k :: k in ks ==> k in m && k !in acc
    ensures BlockReads(Lines(ks, m) + CRLF + rest, acc, ExtendWith(acc, ks, m), |Lines(ks, m)| + 2)
    decreases |ks|, 2
  {
    if |ks| == 0 {
      ParseNoLines(ks, m, acc, rest);
    } else {
      ParseMoreLines(ks, m, acc, rest);
    }
  }

  lemma ParseNoLines(ks: seq<Bytes>, m: FieldMap, acc: FieldMap, rest: Bytes)
    requires |ks| == 0
    ensures BlockReads(Lines(ks, m) + CRLF + rest, acc, ExtendWith(acc, ks, m), |Lines(ks, m)| + 2)
  {
    assert Lines(ks, m) + CRLF + rest == CRLF + rest;
    ParseBlockBlank(acc, rest);
    assert ExtendWith(acc, ks, m) == acc;
  }

  lemma {:induction false} ParseMoreLines(ks: seq<Bytes>, m: FieldMap, acc: FieldMap, rest: Bytes)
    requires Writable(m) && StrictlySorted(ks) && |ks| > 0
    requires forall k :: k in ks ==> k in m && k !in acc
    ensures BlockReads(Lines(ks, m) + CRLF + rest, acc, ExtendWith(acc, ks, m), |Lines(ks, m)| + 2)
    decreases |ks|, 1
  {
    FirstLineRead(ks, m, acc, rest);
    ParseTail(ks, m, acc, rest);
    LinesCons(ks, m, acc, Lines(ks, m) + CRLF + rest, Lines(ks[1..], m) + CRLF + rest, |Lines(ks[1..], m)| + 2);
  }

  /** The lines after the first are read into the map that holds the first. */
  lemma {:induction false} ParseTail(ks: seq<Bytes>, m: FieldMap, acc: FieldMap, rest: Bytes)
    requires Writable(m) && StrictlySorted(ks) && |ks| > 0
    requires forall k :: k in ks ==> k in m && k !in acc
    ensures BlockReads(Lines(ks[1..], m) + CRLF + rest, acc[ks[0] := m[ks[0]]],
      ExtendWith(acc[ks[0] := m[ks[0]]], ks[1..], m), |Lines(ks[1..], m)| + 2)
    decreases |ks|, 0
  {
    TailAvoidsHead(ks, m, acc);
    ParseLines(ks[1..], m, acc[ks[0] := m[ks[0]]], rest);
  }

  /** The first line read, then the rest read, is the whole block read. */
  lemma LinesCons(ks: seq<Bytes>, m: FieldMap, acc: FieldMap, whole: Bytes, after: Bytes, u: nat)
    requires |ks| > 0 && forall k :: k in ks ==> k in m
    requires u == |Lines(ks[1..], m)| + 2
    requires ReadsOn(whole, acc, after, acc[ks[0] := m[ks[0]]], |FieldLineBytes(ks[0], m[ks[0]])|)
    requires BlockReads(after, acc[ks[0] := m[ks[0]]], ExtendWith(acc[ks[0] := m[ks[0]]], ks[1..], m), u)
    ensures BlockReads(whole, acc, ExtendWith(acc, ks, m), |Lines(ks, m)| + 2)
  {
    LinesLength(ks, m);
    ExtendWithCons(acc, ks, m);
    ReadOnReads(whole, acc, after, acc[ks[0] := m[ks[0]]], |FieldLineBytes(ks[0], m[ks[0]])|, ExtendWith(acc, ks, m), u);
  }

  /** The lines of keys are the first key's line, then the lines of the rest. */
  lemma LinesLength(ks: seq<Bytes>, m: FieldMap)
    requires |ks| > 0 && forall k :: k in ks ==> k in m
    ensures |Lines(ks, m)| == |FieldLineBytes(ks[0], m[ks[0]])| + |Lines(ks[1..], m)|
  {
  }

  /** Extending by keys is extending by the first, then by the rest. */
  lemma ExtendWithCons(acc: FieldMap, ks: seq<Bytes>, m: FieldMap)
    requires |ks| > 0 && forall k :: k in ks ==> k in m
    ensures ExtendWith(acc, ks, m) == ExtendWith(acc[ks[0] := m[ks[0]]], ks[1..], m)
  {
  }

  /** The first written line is read into the map, and reading goes on after it. */
  lemma FirstLineRead(ks: seq<Bytes>, m: FieldMap, acc: FieldMap, rest: Bytes)
    requires Writable(m) && |ks| > 0 && (forall k :: k in ks ==> k in m) && ks[0] !in acc
    ensures ReadsOn(Lines(ks, m) + CRLF + rest, acc, Lines(ks[1..], m) + CRLF + rest, acc[ks[0] := m[ks[0]]], |FieldLineBytes(ks[0], m[ks[0]])|)
  {
    var k := ks[0];
    var line := FieldLineBytes(k, m[k]);
    var tail := Lines(ks[1..], m);
    assert Lines(ks, m) == line + tail;
    Regroup(line, tail, CRLF);
    Regroup(line, tail + CRLF, rest);
    ParseBlockField(k, m[k], tail + CRLF + rest, acc);
    ToLowerOfLower(k);
    assert MapAdd(acc, k, m[k]) == acc[k := m[k]];
  }

  lemma Regroup(a: Bytes, b: Bytes, c: Bytes)
    ensures (a + b) + c == a + (b + c)
  {
  }

  /** Reading `whole` into `acc` is reading `after` into `acc'` once `len` bytes are used. */
  predicate ReadsOn(whole: Bytes, acc: FieldMap, after: Bytes, acc': FieldMap, len: nat) {
    ParseBlock(whole, acc) == After(ParseBlock(after, acc'), len)
  }

  /** A block read on after `len` bytes is read whole, `len` more bytes used. */
  lemma ReadOnReads(whole: Bytes, acc: FieldMap, after: Bytes, acc': FieldMap, len: nat, e: FieldMap, u: nat)
    requires ReadsOn(whole, acc, after, acc', len) && BlockReads(after, acc', e, u)
    ensures BlockReads(whole, acc, e, len + u)
  {
    AfterAdds(ParseBlock(whole, acc), ParseBlock(after, acc'), len, e, u, len + u);
  }

  /** Reading on after `len` bytes adds `len` to the bytes used. */
  lemma AfterAdds(r: Result<Option<(FieldMap, nat)>, HeadersError>, tail: Result<Option<(FieldMap, nat)>, HeadersError>, len: nat, e: FieldMap, u: nat, n: nat)
    requires r == After(tail, len) && tail.Ok? && tail.value.Some? && tail.value.value.0 == e && tail.value.value.1 == u
    requires n == len + u
    ensures r.Ok? && r.value.Some? && r.value.value.0 == e && r.value.value.1 == n
  {
  }

  /** Reading back what the writer emits gives the same map and uses exactly the block. */
  lemma ParseWrittenBlock(m: FieldMap, rest: Bytes)
    requires Writable(m)
    ensures ParseBlock(FieldBlock(m) + rest, map[]) == Ok(Some((m, |FieldBlock(m)|)))
  {
    var ks := SortedKeys(m.Keys);
    ParseLines(ks, m, map[], rest);
    ExtendAll(m);
    ReadsWhole(ParseBlock(FieldBlock(m) + rest, map[]), m, |FieldBlock(m)|);
  }

  /** A result whose parts are a map and a count is that map and count, read whole. */
  lemma ReadsWhole(r: Result<Option<(FieldMap, nat)>, HeadersError>, e: FieldMap, n: nat)
    requires r.Ok? && r.value.Some? && r.value.value.0 == e && r.value.value.1 == n
    ensures r == Ok(Some((e, n)))
  {
  }

  lemma ExtendAll(m: FieldMap)
    ensures ExtendWith(map[], SortedKeys(m.Keys), m) == m
  {
    var ks := SortedKeys(m.Keys);
    ExtendWithKeys(map[], ks, m);
  }

  // ---------------------------------------------------------------------------
  // The cases of the parse and write tests
  // ---------------------------------------------------------------------------

  lemma HostFieldSyntax()
    ensures IsValidToken("Host") && IsValidFieldValue("localhost:42069") && Trimmed("localhost:42069")
    ensures ToLower("Host") == "host" && ToLower("host") == "host"
  {
  }

  /** A line still missing its CRLF consumes nothing. */
  lemma ParseExampleIncomplete(bytes: Bytes)
    requires bytes == "Host: localhost:42069"
    ensures ParseFieldLine(bytes) == Ok(NeedMore)
  {
    assert CR !in bytes;
    NoCrCrlfFree(bytes);
  }

  /** The empty line consumes its two bytes. */
  lemma ParseExampleBlank(bytes: Bytes)
    requires bytes == "\r\n"
    ensures ParseFieldLine(bytes) == Ok(Blank) && Consumed(ParseFieldLine(bytes).value) == 2
  {
    FindCrlfIs(bytes, 0);
  }

  /** "Host: localhost:42069" plus CRLF is 23 bytes and is found under either case of its name. */
  lemma ParseExampleHost(bytes: Bytes)
    requires bytes == "Host: localhost:42069\r\n"
    ensures ParseFieldLine(bytes) == Ok(Field("Host", "localhost:42069", 23))
    ensures MapGet(MapAdd(map[], "Host", "localhost:42069"), "Host") == Some("localhost:42069")
    ensures MapGet(MapAdd(map[], "Host", "localhost:42069"), "host") == Some("localhost:42069")
  {
    HostFieldSyntax();
    assert FieldLineBytes("Host", "localhost:42069") + [] == bytes;
    ParseWrittenField("Host", "localhost:42069", []);
  }

  lemma SpacedNameSyntax(name: Bytes, raw: Bytes)
    requires name == "Host " && raw == " localhost:42069"
    ensures !IsValidToken(name) && ':' !in name && CR !in name && CR !in raw
  {
    assert name[4] == SP;
  }

  lemma SpacedNameParts(bytes: Bytes)
    requires bytes == "Host : localhost:42069\r\n"
    ensures bytes == "Host " + [':'] + " localhost:42069" + CRLF + []
  {
  }

  /** A blank before the colon makes the name a non-token, so the line is rejected. */
  lemma ParseExampleSpacedName(bytes: Bytes)
    requires bytes == "Host : localhost:42069\r\n"
    ensures ParseFieldLine(bytes) == Err(MalformedFieldLine)
  {
    SpacedNameSyntax("Host ", " localhost:42069");
    SpacedNameParts(bytes);
    ParseRejectsBadName("Host ", " localhost:42069", []);
  }

  lemma ControlNameSyntax(name: Bytes)
    requires name == [1 as char] + "ost "
    ensures !IsValidToken(name) && ':' !in name && CR !in name
  {
    assert !IsTchar(name[0]);
  }

  lemma ControlNameParts(bytes: Bytes)
    requires bytes == [1 as char] + "ost : localhost:42069\r\n"
    ensures bytes == ([1 as char] + "ost ") + [':'] + " localhost:42069" + CRLF + []
  {
  }

  /** The same line with its first byte replaced by 0x01 is rejected too. */
  lemma ParseExampleControlByte(bytes: Bytes)
    requires bytes == [1 as char] + "ost : localhost:42069\r\n"
    ensures ParseFieldLine(bytes) == Err(MalformedFieldLine)
  {
    ControlNameSyntax([1 as char] + "ost ");
    SpacedNameSyntax("Host ", " localhost:42069");
    ControlNameParts(bytes);
    ParseRejectsBadName([1 as char] + "ost ", " localhost:42069", []);
  }

  lemma SingleKey(k: Bytes)
    ensures SortedKeys({k}) == [k]
  {
    SortedUnique(SortedKeys({k}), [k]);
  }

  lemma TwoKeys(a: Bytes, c: Bytes)
    requires a == "a" && c == "c"
    ensures SortedKeys({a, c}) == [a, c]
  {
    assert LexLess(a, c);
    SortedUnique(SortedKeys({a, c}), [a, c]);
  }

  /** One field "a: b" is written as that line and the empty line. */
  lemma WriteExampleOne()
    ensures FieldBlock(MapAdd(map[], "a", "b")) == "a: b\r\n\r\n"
  {
    var m := MapAdd(map[], "a", "b");
    assert ToLower("a") == "a";
    assert m == map["a" := "b"] && m.Keys == {"a"};
    SingleKey("a");
    assert Lines(["a"], m) == FieldLineBytes("a", "b") + Lines([], m);
  }

  lemma TwoFieldMap()
    ensures MapAdd(MapAdd(map[], "a", "b"), "c", "d") == map["a" := "b", "c" := "d"]
  {
    assert ToLower("a") == "a" && ToLower("c") == "c";
  }

  lemma TwoFieldLines(m: FieldMap)
    requires m == map["a" := "b", "c" := "d"]
    ensures Lines(["a", "c"], m) == "a: b\r\nc: d\r\n"
  {
    var ks: seq<Bytes> := ["a", "c"];
    assert ks[1..] == ["c"];
    assert Lines(["c"], m) == FieldLineBytes("c", "d") + Lines([], m);
  }

  lemma TwoFieldKeys(m: FieldMap)
    requires m == map["a" := "b", "c" := "d"]
    ensures SortedKeys(m.Keys) == ["a", "c"]
  {
    assert m.Keys == {"a", "c"};
    TwoKeys("a", "c");
  }

  lemma TwoFieldBlock(m: FieldMap)
    requires m == map["a" := "b", "c" := "d"]
    ensures FieldBlock(m) == "a: b\r\nc: d\r\n\r\n"
  {
    TwoFieldKeys(m);
    TwoFieldLines(m);
  }

  /** Adding "c: d" writes it after "a: b", in name order. */
  lemma WriteExampleTwo()
    ensures FieldBlock(MapAdd(MapAdd(map[], "a", "b"), "c", "d")) == "a: b\r\nc: d\r\n\r\n"
  {
    TwoFieldMap();
    TwoFieldBlock(map["a" := "b", "c" := "d"]);
  }

  // ---------------------------------------------------------------------------
  // The Headers object
  // ---------------------------------------------------------------------------

  class Headers {
    var fields: FieldMap

    /** Every stored name is folded, so that each field is found under its one key. */
    ghost predicate Valid()
      reads this
    {
      KeysFolded(fields)
    }

    /** `new` (and `default`): an empty map. */
    constructor ()
      ensures fields == map[] && Valid()
    {
      fields := map[];
    }

    /** `new_with_default`, assumed to be `new` followed by `add_default`. */
    constructor WithDefault()
      ensures fields == map["connection" := "close"] && Valid()
    {
      fields := map["connection" := "close"];
      assert IsLower("connection");
    }

    /** `add_default`: sets "connection: close". */
    method AddDefault()
      modifies this
      ensures fields == MapSet(old(fields), "connection", "close")
      ensures old(Valid()) ==> Valid()
    {
      Set("connection", "close");
    }

    /** `add`, returning the value the folded name held before (what `insert` returns). */
    method Add(name: Bytes, value: Bytes) returns (previous: Option<Bytes>)
      modifies this
      ensures fields == MapAdd(old(fields), name, value)
      ensures previous == MapGet(old(fields), name)
      ensures old(Valid()) ==> Valid()
    {
      if Valid() {
        OperationsKeepKeysFolded(fields, name, value);
      }
      var k := ToLower(name);
      if k in fields {
        previous := Some(fields[k]);
        fields := fields[k := fields[k] + [','] + value];
      } else {
        previous := None;
        fields := fields[k := value];
      }
    }

    /** `set`. */
    method Set(name: Bytes, value: Bytes)
      modifies this
      ensures fields == MapSet(old(fields), name, value)
      ensures old(Valid()) ==> Valid()
    {
      if Valid() {
        OperationsKeepKeysFolded(fields, name, value);
      }
      fields := fields[ToLower(name) := value];
    }

    /** `remove`. */
    method Remove(name: Bytes)
      modifies this
      ensures fields == MapRemove(old(fields), name)
      ensures old(Valid()) ==> Valid()
    {
      if Valid() {
        OperationsKeepKeysFolded(fields, name, []);
      }
      fields := fields - {ToLower(name)};
    }

    /** `get`. */
    function Get(name: Bytes): Option<Bytes>
      reads this
    {
      MapGet(fields, name)
    }

    /** `is_empty`. */
    function IsEmpty(): (b: bool)
      reads this
      ensures b <==> |fields| == 0
    {
      fields == map[]
    }

    /**
     * `parse`: reads one field line from the front of `bytes`, adds it to
     * the map and returns its length; 0 if no line is complete yet, 2 for
     * the empty line. On an error the map is unchanged.
     */
    method Parse(bytes: Bytes) returns (r: Result<nat, HeadersError>)
      modifies this
      ensures ParseFieldLine(bytes).Err? ==> r == Err(MalformedFieldLine) && fields == old(fields)
      ensures ParseFieldLine(bytes).Ok? ==> r == Ok(Consumed(ParseFieldLine(bytes).value))
      ensures ParseFieldLine(bytes).Ok? && ParseFieldLine(bytes).value.Field? ==>
        fields == MapAdd(old(fields), ParseFieldLine(bytes).value.name, ParseFieldLine(bytes).value.value)
      ensures ParseFieldLine(bytes).Ok? && !ParseFieldLine(bytes).value.Field? ==> fields == old(fields)
      ensures old(Valid()) ==> Valid()
    {
      var endOfLine := FindCrlf(bytes);
      if endOfLine.None? {
        return Ok(0);
      }
      var end := endOfLine.value;
      assert ParseFieldLine(bytes) == FieldOf(bytes[..end]);
      if end == 0 {
        return Ok(2);
      }
      var parts := SplitOnce(bytes[..end], ':');
      if parts.None? {
        return Err(MalformedFieldLine);
      }
      var name := parts.value.0;
      var value := TrimAscii(parts.value.1);
      if !IsValidToken(name) || !IsValidFieldValue(value) {
        return Err(MalformedFieldLine);
      }
      var _ := Add(name, value);
      return Ok(end + 2);
    }

    /**
     * `parse_one_from_line`, assumed to be `parse` on a line whose CRLF the
     * caller has already cut off: the line's field is added to the map; an
     * empty line adds nothing; a malformed line leaves the map unchanged.
     */
    method ParseOneFromLine(line: Bytes) returns (r: Result<(), HeadersError>)
      modifies this
      ensures FieldOf(line).Err? ==> r == Err(MalformedFieldLine) && fields == old(fields)
      ensures FieldOf(line).Ok? ==> r == Ok(())
      ensures FieldOf(line).Ok? && FieldOf(line).value.Field? ==>
        fields == MapAdd(old(fields), FieldOf(line).value.name, FieldOf(line).value.value)
      ensures FieldOf(line).Ok? && !FieldOf(line).value.Field? ==> fields == old(fields)
      ensures old(Valid()) ==> Valid()
    {
      if line == [] {
        return Ok(());
      }
      var parts := SplitOnce(line, ':');
      if parts.None? {
        return Err(MalformedFieldLine);
      }
      var name := parts.value.0;
      var value := TrimAscii(parts.value.1);
      if !IsValidToken(name) || !IsValidFieldValue(value) {
        return Err(MalformedFieldLine);
      }
      var _ := Add(name, value);
      return Ok(());
    }

    /**
     * `write_to`: collects and sorts the keys, then writes one line per
     * key; returns the bytes written. Always ends with the empty line.
     */
    method WriteTo() returns (out: Bytes)
      ensures out == FieldBlock(fields)
    {
      var keys := SortedKeys(fields.Keys);
      out := [];
      var i := 0;
      while i < |keys|
        invariant 0 <= i <= |keys|
        invariant out == Lines(keys[..i], fields)
      {
        var key := keys[i];
        LinesSnoc(keys, i, fields);
        out := out + FieldLineBytes(key, fields[key]);
        i := i + 1;
      }
      assert keys[..i] == keys;
      out := out + CRLF;
    }
  }
}
