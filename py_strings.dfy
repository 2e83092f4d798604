/** The Python string operations the content-type parsers rely on, as functions over
    `string`. A Python `bytes` value is a `string` whose characters stand for bytes
    (code points below 256). */
module PyStrings {
  import opened Wrappers

  /** The characters `str.isspace()` accepts, which `str.strip()` with no argument removes. */
  predicate IsSpace(c: char) {
    var n := c as int;
    n == 0x20 || 0x09 <= n <= 0x0D || 0x1C <= n <= 0x1F || n == 0x85 || n == 0xA0
    || n == 0x1680 || 0x2000 <= n <= 0x200A || n == 0x2028 || n == 0x2029
    || n == 0x202F || n == 0x205F || n == 0x3000
  }

  /** The argument of `rstrip("\n\r")`. */
  predicate IsLineEnd(c: char) { c == '\n' || c == '\r' }

  /** The argument of `strip("\t ")`. */
  predicate IsTabOrSpace(c: char) { c == '\t' || c == ' ' }

  predicate StartsWith(s: string, prefix: string) {
    |prefix| <= |s| && s[..|prefix|] == prefix
  }

  /** `s.rstrip(chars)`: the longest prefix of `s` that does not end in a dropped character. */
  function RStrip(s: string, drop: char -> bool): (r: string)
    ensures r <= s
    ensures r == [] || !drop(r[|r| - 1])
    ensures forall i :: |r| <= i < |s| ==> drop(s[i])
  {
    if s != [] && drop(s[|s| - 1]) then RStrip(s[..|s| - 1], drop) else s
  }

  /** `s.lstrip(chars)`: the longest suffix of `s` that does not start with a dropped character. */
  function LStrip(s: string, drop: char -> bool): (r: string)
    ensures |r| <= |s| && r == s[|s| - |r|..]
    ensures r == [] || !drop(r[0])
    ensures forall i :: 0 <= i < |s| - |r| ==> drop(s[i])
  {
    if s != [] && drop(s[0]) then LStrip(s[1..], drop) else s
  }

  /** `s.strip(chars)`. */
  function Strip(s: string, drop: char -> bool): string {
    LStrip(RStrip(s, drop), drop)
  }

  /** A stripped string is empty exactly when every character was dropped; otherwise it
      neither starts nor ends with a dropped character. */
  lemma StripSpec(s: string, drop: char -> bool)
    ensures Strip(s, drop) == [] <==> forall i :: 0 <= i < |s| ==> drop(s[i])
    ensures Strip(s, drop) != [] ==> !drop(Strip(s, drop)[0]) && !drop(Strip(s, drop)[|Strip(s, drop)| - 1])
  {
    var t := RStrip(s, drop);
    var r := LStrip(t, drop);
    var lo := |t| - |r|;
    if r == [] {
      forall i | 0 <= i < |s| ensures drop(s[i]) {
        if i < |t| { assert t[i] == s[i]; }
      }
    } else {
      assert r[0] == t[lo]; assert t[lo] == s[lo];
      assert r[|r| - 1] == t[|t| - 1];
    }
  }

  /** Right-stripping `a + b` stops inside `b` when `a` ends in a kept character. */
  lemma {:induction false} RStripAppend(a: string, b: string, drop: char -> bool)
    requires a != [] && !drop(a[|a| - 1])
    ensures RStrip(a + b, drop) == a + RStrip(b, drop)
    decreases |b|
  {
    if b == [] {
      assert a + b == a;
    } else if drop(b[|b| - 1]) {
      assert (a + b)[..|a + b| - 1] == a + b[..|b| - 1];
      RStripAppend(a, b[..|b| - 1], drop);
    }
  }

  /** Dropped characters appended to a string are right-stripped with its own tail. */
  lemma {:induction false} RStripDropped(s: string, t: string, drop: char -> bool)
    requires forall i :: 0 <= i < |t| ==> drop(t[i])
    ensures RStrip(s + t, drop) == RStrip(s, drop)
    decreases |t|
  {
    if t == [] {
      assert s + t == s;
    } else {
      assert (s + t)[..|s + t| - 1] == s + t[..|t| - 1];
      RStripDropped(s, t[..|t| - 1], drop);
    }
  }

  /** The text before the first `sep` lies in the first part when that part holds one. */
  lemma BeforeFirstAppend(a: string, b: string, sep: char)
    requires sep in a
    ensures BeforeFirst(a + b, sep) == BeforeFirst(a, sep)
  {
    var (left, right) := SplitFirst(a, sep).value;
    assert a + b == left + [sep] + (right + b);
    SplitFirstUnique(left, right + b, sep);
  }

  /** The position of the first `c` in `s` (`s.find(c)` when it is not -1). */
  function IndexOf(s: string, c: char): (r: Option<nat>)
    ensures r.None? <==> c !in s
    ensures r.Some? ==> r.value < |s| && s[r.value] == c && c !in s[..r.value]
    ensures r.Some? ==> forall j :: 0 <= j < r.value ==> s[j] != c
  {
    if s == [] then None
    else if s[0] == c then Some(0)
    else match IndexOf(s[1..], c)
      case None => None
      case Some(i) =>
        assert s[..i + 1] == [s[0]] + s[1..][..i];
        Some(i + 1)
  }

  /** The position of the last `c` in `s` (`s.rfind(c)` when it is not -1). */
  function LastIndexOf(s: string, c: char): (r: Option<nat>)
    ensures r.None? <==> c !in s
    ensures r.Some? ==> r.value < |s| && s[r.value] == c && c !in s[r.value + 1..]
    ensures r.Some? ==> forall j :: r.value < j < |s| ==> s[j] != c
  {
    if s == [] then None
    else if s[|s| - 1] == c then Some(|s| - 1)
    else match LastIndexOf(s[..|s| - 1], c)
      case None => None
      case Some(i) =>
        assert s[i + 1..] == s[..|s| - 1][i + 1..] + [s[|s| - 1]];
        Some(i)
  }

  /** `s.split(sep, 1)` when it yields two parts: the text before and after the first `sep`. */
  function SplitFirst(s: string, sep: char): (r: Option<(string, string)>)
    ensures r.None? <==> sep !in s
    ensures r.Some? ==> s == r.value.0 + [sep] + r.value.1 && sep !in r.value.0
  {
    match IndexOf(s, sep)
    case None => None
    case Some(i) =>
      assert s == s[..i] + [sep] + s[i + 1..];
      Some((s[..i], s[i + 1..]))
  }

  /** `s.rsplit(sep, 1)` when it yields two parts: the text before and after the last `sep`. */
  function SplitLast(s: string, sep: char): (r: Option<(string, string)>)
    ensures r.None? <==> sep !in s
    ensures r.Some? ==> s == r.value.0 + [sep] + r.value.1 && sep !in r.value.1
  {
    match LastIndexOf(s, sep)
    case None => None
    case Some(i) =>
      assert s == s[..i] + [sep] + s[i + 1..];
      Some((s[..i], s[i + 1..]))
  }

  /** A split at the first separator is the only one whose left part holds no separator. */
  lemma {:induction false} SplitFirstUnique(a: string, b: string, sep: char)
    requires sep !in a
    ensures SplitFirst(a + [sep] + b, sep) == Some((a, b))
  {
    var s := a + [sep] + b;
    var i := IndexOf(s, sep).value;
    assert s[|a|] == sep;
    assert s[..i] == a;
    assert s[i + 1..] == b;
  }

  /** A split at the last separator is the only one whose right part holds no separator. */
  lemma {:induction false} SplitLastUnique(a: string, b: string, sep: char)
    requires sep !in b
    ensures SplitLast(a + [sep] + b, sep) == Some((a, b))
  {
    var s := a + [sep] + b;
    var i := LastIndexOf(s, sep).value;
    assert s[|a|] == sep;
    assert s[..i] == a;
    assert s[i + 1..] == b;
  }

  /** `s.split(sep)`: the fields between separators, from left to right. */
  function SplitAll(s: string, sep: char): (r: seq<string>)
    ensures |r| >= 1
    ensures forall i :: 0 <= i < |r| ==> sep !in r[i]
    decreases |s|
  {
    match SplitFirst(s, sep)
    case None => [s]
    case Some((left, right)) => [left] + SplitAll(right, sep)
  }

  /** `sep.join(parts)`. */
  function Join(parts: seq<string>, sep: char): string {
    if parts == [] then []
    else if |parts| == 1 then parts[0]
    else parts[0] + [sep] + Join(parts[1..], sep)
  }

  /** Joining the fields of a split with the same separator gives back the string. */
  lemma {:induction false} JoinSplitAll(s: string, sep: char)
    ensures Join(SplitAll(s, sep), sep) == s
    decreases |s|
  {
    match SplitFirst(s, sep)
    case None =>
    case Some((left, right)) =>
      JoinSplitAll(right, sep);
      assert SplitAll(s, sep) == [left] + SplitAll(right, sep);
  }

  /** Splitting a join of separator-free fields gives back the fields. */
  lemma {:induction false} SplitAllJoin(parts: seq<string>, sep: char)
    requires |parts| >= 1
    requires forall i :: 0 <= i < |parts| ==> sep !in parts[i]
    ensures SplitAll(Join(parts, sep), sep) == parts
  {
    if |parts| > 1 {
      SplitAllJoin(parts[1..], sep);
      SplitFirstUnique(parts[0], Join(parts[1..], sep), sep);
    } else {
      assert SplitFirst(parts[0], sep).None?;
    }
  }

  /** `s.split(sep)[0]`: the text before the first `sep`, or all of `s`. */
  function BeforeFirst(s: string, sep: char): (r: string)
    ensures r <= s && sep !in r
    ensures r == s || s[|r|] == sep
  {
    match SplitFirst(s, sep)
    case None => s
    case Some((left, _)) => left
  }

  lemma BeforeFirstIsFirstField(s: string, sep: char)
    ensures BeforeFirst(s, sep) == SplitAll(s, sep)[0]
  {
  }

  /** `c.lower()` on the ASCII letters. */
  function LowerChar(c: char): char {
    if 'A' <= c <= 'Z' then (c as int + 32) as char else c
  }

  /** `s.lower()` (ASCII case mapping). */
  function Lower(s: string): (r: string)
    ensures |r| == |s|
    ensures forall i :: 0 <= i < |s| ==> r[i] == LowerChar(s[i])
    ensures forall i :: 0 <= i < |s| ==> !('A' <= r[i] <= 'Z')
  {
    seq(|s|, i requires 0 <= i < |s| => LowerChar(s[i]))
  }

  lemma LowerIdempotent(s: string)
    ensures Lower(Lower(s)) == Lower(s)
  {
  }

  /** `needle` stands in `hay` from position `i` on. */
  predicate OccursAt(hay: string, needle: string, i: int) {
    0 <= i && i + |needle| <= |hay| && hay[i..i + |needle|] == needle
  }

  /** `hay.find(needle, from)`: the first position at or after `from` where `needle` occurs, or -1. */
  function FindFrom(hay: string, needle: string, from: nat): (r: int)
    ensures r == -1 || (from <= r && OccursAt(hay, needle, r))
    ensures r == -1 ==> forall j :: from <= j ==> !OccursAt(hay, needle, j)
    ensures r != -1 ==> forall j :: from <= j < r ==> !OccursAt(hay, needle, j)
    decreases |hay| - from
  {
    if from + |needle| > |hay| then -1
    else if hay[from..from + |needle|] == needle then from
    else FindFrom(hay, needle, from + 1)
  }

  /** `hay.find(needle)`. An empty needle is found at position 0. */
  function Find(hay: string, needle: string): (r: int)
    ensures r >= 0 <==> exists j :: OccursAt(hay, needle, j)
    ensures r >= 0 ==> OccursAt(hay, needle, r) && forall j :: 0 <= j < r ==> !OccursAt(hay, needle, j)
  {
    FindFrom(hay, needle, 0)
  }

  /** `os.path.basename(p)` for POSIX paths: the text after the last `/`. */
  function Basename(p: string): (r: string)
    ensures '/' !in r
    ensures |r| <= |p| && r == p[|p| - |r|..]
    ensures r == p || p[|p| - |r| - 1] == '/'
  {
    match LastIndexOf(p, '/')
    case None => p
    case Some(i) => p[i + 1..]
  }

  /** `str.encode()`: the UTF-8 encoding of one character, one byte per result character. */
  function Utf8Char(c: char): (r: string)
    ensures 1 <= |r| <= 4
    ensures forall i :: 0 <= i < |r| ==> r[i] as int < 256
    ensures (c as int < 0x80) <==> r == [c]
  {
    var n := c as int;
    if n < 0x80 then [c]
    else if n < 0x800 then [(0xC0 + n / 64) as char, (0x80 + n % 64) as char]
    else if n < 0x10000 then
      [(0xE0 + n / 4096) as char, (0x80 + n / 64 % 64) as char, (0x80 + n % 64) as char]
    else
      [(0xF0 + n / 262144) as char, (0x80 + n / 4096 % 64) as char,
       (0x80 + n / 64 % 64) as char, (0x80 + n % 64) as char]
  }

  /** `s.encode()` (UTF-8). */
  function Encode(s: string): (r: string)
    ensures |r| >= |s|
    ensures (forall i :: 0 <= i < |s| ==> s[i] as int < 0x80) ==> r == s
  {
    if s == [] then [] else Utf8Char(s[0]) + Encode(s[1..])
  }

  function HexDigit(d: int): char
    requires 0 <= d < 16
  {
    "0123456789abcdef"[d]
  }

  /** One byte of `repr(b)` between the quotes. */
  function EscapeByte(c: char, quote: char): string {
    if c == quote || c == '\\' then ['\\', c]
    else if c == '\t' then "\\t"
    else if c == '\n' then "\\n"
    else if c == '\r' then "\\r"
    else if c < ' ' || c as int >= 0x7F then
      "\\x" + [HexDigit(c as int / 16 % 16), HexDigit(c as int % 16)]
    else [c]
  }

  /** A printable ASCII byte that is neither the quote nor a backslash: `repr` shows it as
      itself. */
  predicate PlainByte(c: char, quote: char) {
    ' ' <= c && (c as int) < 0x7F && c != '\\' && c != quote
  }

  function EscapeBytes(b: string, quote: char): (r: string)
    ensures (forall i :: 0 <= i < |b| ==> PlainByte(b[i], quote)) ==> r == b
  {
    if b == [] then [] else EscapeByte(b[0], quote) + EscapeBytes(b[1..], quote)
  }

  /** `str(b)` of a bytes value: `b'...'`, with double quotes when the bytes hold
      a single quote and no double quote. */
  function BytesRepr(b: string): (r: string)
    ensures |r| >= 3 && r[0] == 'b' && r[1] == r[|r| - 1] && (r[1] == '\'' || r[1] == '"')
    ensures (forall i :: 0 <= i < |b| ==> PlainByte(b[i], '\'')) ==> r == "b'" + b + "'"
    ensures '\'' in b && (forall i :: 0 <= i < |b| ==> PlainByte(b[i], '"')) ==> r == "b\"" + b + "\""
  {
    var quote := if '\'' in b && '"' !in b then '"' else '\'';
    ['b', quote] + EscapeBytes(b, quote) + [quote]
  }
}
