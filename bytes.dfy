/**
 * Byte strings and the small byte-level helpers every part of the library
 * relies on: CRLF search, splitting on a separator, ASCII trimming, the
 * decimal and hexadecimal `usize` parsers, decimal printing, ASCII case
 * folding and the lexicographic order used to sort header names.
 */
module Bytes {
  import opened Wrappers

  /** A byte, written as a character below 256 so that literals read naturally. */
  type Byte = c: char | c as int < 256
  type Bytes = seq<Byte>

  const CR: Byte := '\r'
  const LF: Byte := '\n'
  const SP: Byte := ' '
  const CRLF: Bytes := "\r\n"

  /** The largest `usize` on a 64-bit target. */
  const USIZE_MAX: nat := 0xFFFF_FFFF_FFFF_FFFF

  // ---------------------------------------------------------------------------
  // CRLF search (`bytes.windows(2).position(|w| w == CRLF)`)
  // ---------------------------------------------------------------------------

  predicate CrlfAt(s: Bytes, i: int) {
    0 <= i && i + 1 < |s| && s[i] == CR && s[i + 1] == LF
  }

  /** No CR in `s` is directly followed by an LF. */
  predicate CrlfFree(s: Bytes) {
    forall i :: 0 <= i < |s| - 1 ==> !CrlfAt(s, i)
  }

  /** The index of the first CRLF in `s`, if any. */
  function FindCrlf(s: Bytes): (r: Option<nat>)
    ensures r.Some? ==> CrlfAt(s, r.value) && CrlfFree(s[..r.value + 1])
    ensures r.None? ==> CrlfFree(s)
  {
    if |s| < 2 then None
    else if s[0] == CR && s[1] == LF then Some(0)
    else match FindCrlf(s[1..]) {
      case None => CrlfFreeTail(s); None
      case Some(i) =>
        assert s[1..][..i + 1] == s[1..i + 2] == s[..i + 2][1..];
        CrlfFreeTail(s[..i + 2]);
        Some(i + 1)
    }
  }

  /** No CRLF at the front and none in the tail: none at all. */
  lemma CrlfFreeTail(s: Bytes)
    requires |s| >= 1 && !CrlfAt(s, 0) && CrlfFree(s[1..])
    ensures CrlfFree(s)
  {
    forall i | 0 <= i < |s| - 1
      ensures !CrlfAt(s, i)
    {
      if i > 0 {
        assert !CrlfAt(s[1..], i - 1);
      }
    }
  }

  /** The first CRLF is unique: any CRLF with no earlier one is the one found. */
  lemma FindCrlfIs(s: Bytes, i: nat)
    requires CrlfAt(s, i) && CrlfFree(s[..i + 1])
    ensures FindCrlf(s) == Some(i)
  {
    assert s[i] == CR && s[i + 1] == LF;
    var j := FindCrlf(s).value;
    CrlfFreePrefix(s, i + 1);
    CrlfFreePrefix(s, j + 1);
  }

  lemma CrlfFreePrefix(s: Bytes, n: nat)
    requires n <= |s| && CrlfFree(s[..n])
    ensures forall k :: 0 <= k < n - 1 ==> !CrlfAt(s, k)
  {
    forall k | 0 <= k < n - 1
      ensures !CrlfAt(s, k)
    {
      assert s[..n][k] == s[k] && s[..n][k + 1] == s[k + 1];
      assert !CrlfAt(s[..n], k);
    }
  }

  /** A CRLF found in `a` is still the first one once more bytes arrive. */
  lemma FindCrlfExtend(a: Bytes, b: Bytes)
    requires FindCrlf(a).Some?
    ensures FindCrlf(a + b) == FindCrlf(a)
  {
    var i := FindCrlf(a).value;
    assert (a + b)[..i + 1] == a[..i + 1];
    FindCrlfIs(a + b, i);
  }

  /** If `a` holds no CRLF, a CRLF in `a + b` can start no earlier than the last byte of `a`. */
  lemma FindCrlfAfter(a: Bytes, b: Bytes)
    requires FindCrlf(a).None?
    ensures FindCrlf(a + b).Some? ==> FindCrlf(a + b).value + 1 >= |a|
  {
    forall j | 0 <= j && j + 1 < |a|
      ensures !CrlfAt(a + b, j)
    {
      assert (a + b)[j] == a[j] && (a + b)[j + 1] == a[j + 1];
      assert !CrlfAt(a, j);
    }
  }

  /** A line followed by CRLF is split back at that CRLF when the line holds no CRLF and does not end in CR. */
  lemma FindCrlfOfLine(line: Bytes, rest: Bytes)
    requires CrlfFree(line) && (|line| > 0 ==> line[|line| - 1] != CR)
    ensures FindCrlf(line + CRLF + rest) == Some(|line|)
  {
    var s := line + CRLF + rest;
    var p := s[..|line| + 1];
    assert p == line + [CR];
    forall k | 0 <= k < |p| - 1
      ensures !CrlfAt(p, k)
    {
      if k + 1 < |line| {
        assert p[k] == line[k] && p[k + 1] == line[k + 1];
        assert !CrlfAt(line, k);
      } else {
        assert p[k] == line[k];
      }
    }
    FindCrlfIs(s, |line|);
  }

  // ---------------------------------------------------------------------------
  // Searching and splitting on one byte
  // ---------------------------------------------------------------------------

  /** The index of the first occurrence of `b` in `s`, if any. */
  function IndexOf(s: Bytes, b: Byte): (r: Option<nat>)
    ensures r.Some? ==> r.value < |s| && s[r.value] == b && b !in s[..r.value]
    ensures r.None? <==> b !in s
  {
    if |s| == 0 then None
    else if s[0] == b then Some(0)
    else match IndexOf(s[1..], b) {
      case None => None
      case Some(i) =>
        assert s[..i + 1] == [s[0]] + s[1..][..i];
        Some(i + 1)
    }
  }

  /** The parts joined back with the separator between them. */
  function Join(parts: seq<Bytes>, sep: Byte): Bytes {
    if |parts| == 0 then []
    else if |parts| == 1 then parts[0]
    else parts[0] + [sep] + Join(parts[1..], sep)
  }

  /** `s.split(|&x| x == sep)`: the maximal runs between separators, empty runs included. */
  function Split(s: Bytes, sep: Byte): (parts: seq<Bytes>)
    ensures |parts| >= 1
    ensures forall k :: 0 <= k < |parts| ==> sep !in parts[k]
    ensures Join(parts, sep) == s
    decreases |s|
  {
    match IndexOf(s, sep) {
      case None => [s]
      case Some(i) =>
        var tail := Split(s[i + 1..], sep);
        assert s == s[..i] + [sep] + s[i + 1..];
        [s[..i]] + tail
    }
  }

  /** Splitting undoes joining, for parts that hold no separator. */
  lemma {:induction false} SplitJoin(parts: seq<Bytes>, sep: Byte)
    requires |parts| >= 1
    requires forall k :: 0 <= k < |parts| ==> sep !in parts[k]
    ensures Split(Join(parts, sep), sep) == parts
    decreases |parts|
  {
    if |parts| == 1 {
      assert Join(parts, sep) == parts[0];
    } else {
      var s := Join(parts, sep);
      assert s == parts[0] + [sep] + Join(parts[1..], sep);
      assert s[..|parts[0]|] == parts[0];
      assert s[|parts[0]|] == sep;
      assert IndexOf(s, sep) == Some(|parts[0]|);
      assert s[|parts[0]| + 1..] == Join(parts[1..], sep);
      SplitJoin(parts[1..], sep);
      assert parts == [parts[0]] + parts[1..];
    }
  }

  /** `s.splitn(2, |&x| x == sep)` when it yields two parts: the bytes before and after the first separator. */
  function SplitOnce(s: Bytes, sep: Byte): (r: Option<(Bytes, Bytes)>)
    ensures r.None? <==> sep !in s
    ensures r.Some? ==> s == r.value.0 + [sep] + r.value.1 && sep !in r.value.0
  {
    match IndexOf(s, sep) {
      case None => None
      case Some(i) =>
        assert s == s[..i] + [sep] + s[i + 1..];
        Some((s[..i], s[i + 1..]))
    }
  }

  /** The first separator is where `s` splits: a prefix with no separator fixes the split. */
  lemma SplitOnceIs(s: Bytes, sep: Byte, a: Bytes, b: Bytes)
    requires s == a + [sep] + b && sep !in a
    ensures SplitOnce(s, sep) == Some((a, b))
  {
    assert s[|a|] == sep;
    assert forall k :: 0 <= k < |a| ==> s[k] == a[k];
    var i := IndexOf(s, sep).value;
    assert forall k :: 0 <= k < i ==> s[..i][k] == s[k];
    assert i == |a|;
    assert s[..|a|] == a;
    assert s[|a| + 1..] == b;
  }

  // ---------------------------------------------------------------------------
  // Trimming
  // ---------------------------------------------------------------------------

  /** `u8::is_ascii_whitespace`: SP, HTAB, LF, FF and CR (not VT). */
  const AsciiWhitespace: set<Byte> := {' ', '\t', '\n', 12 as char, '\r'}

  /** `char::is_whitespace` restricted to ASCII: HTAB, LF, VT, FF, CR and SP. */
  const Whitespace: set<Byte> := {' ', '\t', '\n', 11 as char, 12 as char, '\r'}

  /** Strips the leading and trailing bytes that are in `ws`. */
  function TrimWith(s: Bytes, ws: set<Byte>): (r: Bytes)
    ensures |r| <= |s|
  {
    var i := SkipStart(s, ws, 0);
    s[i..SkipEnd(s, ws, i, |s|)]
  }

  /** The first index from `i` on whose byte is not in `ws` (or `|s|`). */
  function SkipStart(s: Bytes, ws: set<Byte>, i: nat): (k: nat)
    requires i <= |s|
    ensures i <= k <= |s|
    decreases |s| - i
  {
    if i < |s| && s[i] in ws then SkipStart(s, ws, i + 1) else i
  }

  /** The end of `s[lo..j]` once its trailing bytes in `ws` are dropped. */
  function SkipEnd(s: Bytes, ws: set<Byte>, lo: nat, j: nat): (k: nat)
    requires lo <= j <= |s|
    ensures lo <= k <= j
    decreases j
  {
    if j > lo && s[j - 1] in ws then SkipEnd(s, ws, lo, j - 1) else j
  }

  lemma {:induction false} SkipStartSkips(s: Bytes, ws: set<Byte>, i: nat)
    requires i <= |s|
    ensures forall k :: i <= k < SkipStart(s, ws, i) ==> s[k] in ws
    ensures SkipStart(s, ws, i) < |s| ==> s[SkipStart(s, ws, i)] !in ws
    decreases |s| - i
  {
    if i < |s| && s[i] in ws {
      SkipStartSkips(s, ws, i + 1);
    }
  }

  lemma {:induction false} SkipEndSkips(s: Bytes, ws: set<Byte>, lo: nat, j: nat)
    requires lo <= j <= |s|
    ensures forall k :: SkipEnd(s, ws, lo, j) <= k < j ==> s[k] in ws
    ensures SkipEnd(s, ws, lo, j) > lo ==> s[SkipEnd(s, ws, lo, j) - 1] !in ws
    decreases j
  {
    if j > lo && s[j - 1] in ws {
      SkipEndSkips(s, ws, lo, j - 1);
    }
  }

  /**
   * Trimming drops exactly the bytes in `ws` at either end: what it keeps is
   * a slice of `s` whose first and last bytes are not in `ws`, and
   * everything outside that slice is in `ws`.
   */
  lemma TrimStrips(s: Bytes, ws: set<Byte>)
    ensures var i := SkipStart(s, ws, 0); var j := SkipEnd(s, ws, i, |s|);
      TrimWith(s, ws) == s[i..j]
      && (forall k :: 0 <= k < i ==> s[k] in ws)
      && (forall k :: j <= k < |s| ==> s[k] in ws)
      && (i < j ==> s[i] !in ws && s[j - 1] !in ws)
  {
    var i := SkipStart(s, ws, 0);
    SkipStartSkips(s, ws, 0);
    SkipEndSkips(s, ws, i, |s|);
  }

  /** `<[u8]>::trim_ascii`. */
  function TrimAscii(s: Bytes): Bytes {
    TrimWith(s, AsciiWhitespace)
  }

  /** `str::trim`, on the ASCII range. */
  function Trim(s: Bytes): Bytes {
    TrimWith(s, Whitespace)
  }

  /** Trimming leaves a byte string that starts and ends with a byte not in `ws` unchanged. */
  lemma TrimUnchanged(s: Bytes, ws: set<Byte>)
    requires |s| > 0 ==> s[0] !in ws && s[|s| - 1] !in ws
    ensures TrimWith(s, ws) == s
  {
    assert SkipStart(s, ws, 0) == 0;
    assert SkipEnd(s, ws, 0, |s|) == |s|;
  }

  /** A single digit is left alone by trimming. */
  lemma TrimDigit(d: Byte)
    requires IsDigit(d)
    ensures Trim([d]) == [d] && TrimAscii([d]) == [d]
  {
    TrimUnchanged([d], Whitespace);
    TrimUnchanged([d], AsciiWhitespace);
  }

  /** Trimming a value written after a blank gives the value back when its ends are not blank. */
  lemma TrimAfterBlank(v: Bytes, ws: set<Byte>)
    requires SP in ws
    requires |v| > 0 ==> v[0] !in ws && v[|v| - 1] !in ws
    ensures TrimWith([SP] + v, ws) == v
  {
    var s := [SP] + v;
    assert SkipStart(s, ws, 1) == 1;
    assert SkipStart(s, ws, 0) == 1;
    assert SkipEnd(s, ws, 1, |s|) == |s|;
    assert s[1..|s|] == v;
  }

  /** Two CRLF-free byte strings joined hold no CRLF unless a CR ends the first and an LF opens the second. */
  lemma CrlfFreeJoin(a: Bytes, b: Bytes)
    requires CrlfFree(a) && CrlfFree(b)
    requires |a| > 0 && |b| > 0 ==> !(a[|a| - 1] == CR && b[0] == LF)
    ensures CrlfFree(a + b)
  {
    var s := a + b;
    forall k | 0 <= k < |s| - 1
      ensures !CrlfAt(s, k)
    {
      if k + 1 < |a| {
        assert s[k] == a[k] && s[k + 1] == a[k + 1];
        assert !CrlfAt(a, k);
      } else if k >= |a| {
        assert s[k] == b[k - |a|] && s[k + 1] == b[k + 1 - |a|];
        assert !CrlfAt(b, k - |a|);
      }
    }
  }

  /** A byte string with no CR holds no CRLF. */
  lemma NoCrCrlfFree(s: Bytes)
    requires CR !in s
    ensures CrlfFree(s)
  {
    forall i | 0 <= i < |s| - 1
      ensures !CrlfAt(s, i)
    {
      assert s[i] in s;
    }
  }

  // ---------------------------------------------------------------------------
  // Numbers
  // ---------------------------------------------------------------------------

  predicate IsDigit(b: Byte) { '0' <= b <= '9' }

  predicate IsHexDigit(b: Byte) { IsDigit(b) || 'a' <= b <= 'f' || 'A' <= b <= 'F' }

  function HexDigitValue(b: Byte): (v: nat)
    requires IsHexDigit(b)
    ensures v < 16
    ensures IsDigit(b) ==> v == b as int - '0' as int
  {
    if IsDigit(b) then b as int - '0' as int
    else if 'a' <= b <= 'f' then b as int - 'a' as int + 10
    else b as int - 'A' as int + 10
  }

  predicate AllDigits(s: Bytes, radix: nat)
    requires radix == 10 || radix == 16
  {
    forall k :: 0 <= k < |s| ==> if radix == 10 then IsDigit(s[k]) else IsHexDigit(s[k])
  }

  /** The value of a digit string, most significant digit first. */
  function DigitsValue(s: Bytes, radix: nat): nat
    requires radix == 10 || radix == 16
    requires AllDigits(s, radix)
  {
    if |s| == 0 then 0
    else DigitsValue(s[..|s| - 1], radix) * radix + HexDigitValue(s[|s| - 1])
  }

  /**
   * `usize::from_str_radix(s, radix)` (and `s.parse::<usize>()` for radix 10):
   * an optional '+', then at least one digit, with a value that fits a `usize`.
   */
  function ParseUsize(s: Bytes, radix: nat): (r: Option<nat>)
    requires radix == 10 || radix == 16
    ensures r.Some? ==> r.value <= USIZE_MAX
  {
    var d := if |s| > 0 && s[0] == '+' then s[1..] else s;
    if |d| > 0 && AllDigits(d, radix) && DigitsValue(d, radix) <= USIZE_MAX
    then Some(DigitsValue(d, radix)) else None
  }

  function ParseDecimal(s: Bytes): Option<nat> { ParseUsize(s, 10) }

  function ParseHex(s: Bytes): Option<nat> { ParseUsize(s, 16) }

  /** `n.to_string()`: decimal digits, no leading zero. */
  function NatToDecimal(n: nat): (s: Bytes)
    ensures |s| > 0 && AllDigits(s, 10)
    ensures |s| > 1 ==> s[0] != '0'
  {
    var d := ('0' as int + n % 10) as char;
    if n < 10 then [d] else NatToDecimal(n / 10) + [d]
  }

  lemma {:induction false} NatToDecimalValue(n: nat)
    ensures DigitsValue(NatToDecimal(n), 10) == n
  {
    var s := NatToDecimal(n);
    assert s[..|s| - 1] == if n < 10 then [] else NatToDecimal(n / 10);
    if n >= 10 {
      NatToDecimalValue(n / 10);
    }
  }

  /** Parsing a printed length gives the length back. */
  lemma DecimalRoundTrip(n: nat)
    requires n <= USIZE_MAX
    ensures ParseDecimal(NatToDecimal(n)) == Some(n)
  {
    NatToDecimalValue(n);
  }

  /** A lower-case hexadecimal digit for `v < 16`. */
  function HexDigit(v: nat): (b: Byte)
    requires v < 16
    ensures IsHexDigit(b) && HexDigitValue(b) == v
  {
    if v < 10 then ('0' as int + v) as char else ('a' as int + v - 10) as char
  }

  /** `format!("{:x}", n)`: lower-case hexadecimal digits, no leading zero. */
  function NatToHex(n: nat): (s: Bytes)
    ensures |s| > 0 && AllDigits(s, 16)
  {
    if n < 16 then [HexDigit(n)] else NatToHex(n / 16) + [HexDigit(n % 16)]
  }

  lemma {:induction false} NatToHexValue(n: nat)
    ensures DigitsValue(NatToHex(n), 16) == n
  {
    var s := NatToHex(n);
    assert s[..|s| - 1] == if n < 16 then [] else NatToHex(n / 16);
    if n >= 16 {
      NatToHexValue(n / 16);
    }
  }

  /** Parsing a printed chunk size gives the size back. */
  lemma HexRoundTrip(n: nat)
    requires n <= USIZE_MAX
    ensures ParseHex(NatToHex(n)) == Some(n)
  {
    NatToHexValue(n);
  }

  /** Digits hold no CR, so a digit string followed by CRLF is split at that CRLF. */
  lemma DigitsHaveNoCr(s: Bytes, radix: nat)
    requires radix == 10 || radix == 16
    requires AllDigits(s, radix)
    ensures CR !in s && CrlfFree(s)
  {
    forall k | 0 <= k < |s|
      ensures s[k] != CR
    {
      if radix == 10 { assert IsDigit(s[k]); } else { assert IsHexDigit(s[k]); }
    }
    NoCrCrlfFree(s);
  }

  // ---------------------------------------------------------------------------
  // ASCII case folding and ordering
  // ---------------------------------------------------------------------------

  function LowerByte(b: Byte): (r: Byte)
    ensures 'A' <= b <= 'Z' ==> r as int == b as int + 32
    ensures !('A' <= b <= 'Z') ==> r == b
  {
    if 'A' <= b <= 'Z' then (b as int + 32) as char else b
  }

  /** `to_lowercase`, on the ASCII range. */
  function ToLower(s: Bytes): (r: Bytes)
    ensures |r| == |s|
    ensures forall k :: 0 <= k < |s| ==> r[k] == LowerByte(s[k])
  {
    seq(|s|, k requires 0 <= k < |s| => LowerByte(s[k]))
  }

  predicate IsLower(s: Bytes) {
    forall k :: 0 <= k < |s| ==> !('A' <= s[k] <= 'Z')
  }

  /** Folded names hold no upper-case letter, so folding twice changes nothing. */
  lemma ToLowerIdempotent(s: Bytes)
    ensures IsLower(ToLower(s))
    ensures ToLower(ToLower(s)) == ToLower(s)
  {
  }

  /** Folding leaves a name with no upper-case letter unchanged. */
  lemma ToLowerOfLower(s: Bytes)
    requires IsLower(s)
    ensures ToLower(s) == s
  {
  }

  /** Byte-wise lexicographic order, a proper prefix first (the order of `Vec<&String>::sort`). */
  predicate LexLess(a: Bytes, b: Bytes) {
    if |a| == 0 then |b| > 0
    else if |b| == 0 then false
    else if a[0] != b[0] then a[0] < b[0]
    else LexLess(a[1..], b[1..])
  }

  lemma {:induction false} LexIrreflexive(a: Bytes)
    ensures !LexLess(a, a)
  {
    if |a| > 0 { LexIrreflexive(a[1..]); }
  }

  lemma {:induction false} LexTransitive(a: Bytes, b: Bytes, c: Bytes)
    requires LexLess(a, b) && LexLess(b, c)
    ensures LexLess(a, c)
  {
    if |a| > 0 && |b| > 0 && |c| > 0 && a[0] == b[0] && b[0] == c[0] {
      LexTransitive(a[1..], b[1..], c[1..]);
    }
  }

  lemma {:induction false} LexTotal(a: Bytes, b: Bytes)
    ensures a == b || LexLess(a, b) || LexLess(b, a)
  {
    if |a| > 0 && |b| > 0 && a[0] == b[0] {
      LexTotal(a[1..], b[1..]);
      if a[1..] == b[1..] {
        assert a == [a[0]] + a[1..] && b == [b[0]] + b[1..];
      }
    }
  }

  // ---------------------------------------------------------------------------
  // Byte strings delivered in pieces
  // ---------------------------------------------------------------------------

  /** The last two of four parts may be joined first. */
  lemma JoinLastTwo(a: Bytes, b: Bytes, c: Bytes, d: Bytes)
    ensures a + b + c + d == a + b + (c + d)
  {
  }

  /** The last three of five parts may be joined first. */
  lemma JoinLastThree(a: Bytes, b: Bytes, c: Bytes, d: Bytes, e: Bytes)
    ensures a + b + c + d + e == a + b + (c + d + e)
  {
  }

  function Min(a: nat, b: nat): nat {
    if a <= b then a else b
  }

  /** The pieces joined end to end. */
  function Concat(chunks: seq<Bytes>): Bytes {
    if |chunks| == 0 then [] else chunks[0] + Concat(chunks[1..])
  }

  /** Joining distributes over appending pieces. */
  lemma {:induction false} ConcatAppend(a: seq<Bytes>, b: seq<Bytes>)
    ensures Concat(a + b) == Concat(a) + Concat(b)
    decreases |a|
  {
    if |a| == 0 {
      assert a + b == b;
    } else {
      assert (a + b)[1..] == a[1..] + b;
      ConcatAppend(a[1..], b);
    }
  }
}
