/** String primitives of JavaScript and Python that the application relies on:
    UTF-16 lengths, trimming, prefixes and substrings, joining and splitting,
    decimal rendering and `parseInt`. A Dafny `char` is one Unicode scalar value. */
module Text {
  import opened Wrappers

  // ---------------------------------------------------------------------------
  // UTF-16 view of a string (JavaScript's `length` and `charCodeAt`)
  // ---------------------------------------------------------------------------

  /** Number of UTF-16 code units JavaScript stores for one scalar value. */
  function Utf16Units(c: char): nat {
    if c as int < 0x10000 then 1 else 2
  }

  /** JavaScript's `s.length`: the number of UTF-16 code units. */
  function Utf16Length(s: string): (n: nat)
    ensures |s| <= n <= 2 * |s|
    ensures n == |s| <==> forall k :: 0 <= k < |s| ==> s[k] as int < 0x10000
  {
    if s == [] then 0 else Utf16Units(s[0]) + Utf16Length(s[1..])
  }

  /** `c.charCodeAt(0)` on the one-scalar string `c`: the scalar itself inside the
      Basic Multilingual Plane, its high surrogate outside it. */
  function FirstCodeUnit(c: char): (u: nat)
    ensures u < 0x10000
    ensures u == c as int <==> c as int < 0x10000
  {
    if c as int < 0x10000 then c as int else 0xD800 + (c as int - 0x10000) / 0x400
  }

  // ---------------------------------------------------------------------------
  // Whitespace and trimming
  // ---------------------------------------------------------------------------

  /** The characters `String.prototype.trim` removes: WhiteSpace and LineTerminator
      of ECMA-262 (sections 12.2 and 12.3). */
  predicate IsJsSpace(c: char) {
    || c == '\t' || c == '\n' || c == '\U{B}' || c == '\U{C}' || c == '\r' || c == ' '
    || c == '\U{A0}' || c == '\U{1680}' || c == '\U{2028}' || c == '\U{2029}' || c == '\U{202F}'
    || c == '\U{205F}' || c == '\U{3000}' || c == '\U{FEFF}'
    || '\U{2000}' <= c <= '\U{200A}'
  }

  /** The characters Python's `str.strip()` removes (those for which `isspace()` holds). */
  predicate IsPySpace(c: char) {
    || c == '\t' || c == '\n' || c == '\U{B}' || c == '\U{C}' || c == '\r'
    || c == '\U{1C}' || c == '\U{1D}' || c == '\U{1E}' || c == '\U{1F}' || c == ' '
    || c == '\U{85}' || c == '\U{A0}' || c == '\U{1680}' || c == '\U{2028}' || c == '\U{2029}'
    || c == '\U{202F}' || c == '\U{205F}' || c == '\U{3000}'
    || '\U{2000}' <= c <= '\U{200A}'
  }

  /** Drops leading space characters. */
  function TrimStart(s: string, isSpace: char -> bool): (r: string)
    ensures |r| <= |s| && r == s[|s| - |r|..]
    ensures r == [] || !isSpace(r[0])
    ensures forall k :: 0 <= k < |s| - |r| ==> isSpace(s[k])
  {
    if s != [] && isSpace(s[0]) then TrimStart(s[1..], isSpace) else s
  }

  /** Drops trailing space characters. */
  function TrimEnd(s: string, isSpace: char -> bool): (r: string)
    ensures |r| <= |s| && r == s[..|r|]
    ensures r == [] || !isSpace(r[|r| - 1])
    ensures forall k :: |r| <= k < |s| ==> isSpace(s[k])
  {
    if s != [] && isSpace(s[|s| - 1]) then TrimEnd(s[..|s| - 1], isSpace) else s
  }

  /** Drops space characters at both ends (`trim()` / `strip()`). */
  function Trim(s: string, isSpace: char -> bool): string {
    TrimEnd(TrimStart(s, isSpace), isSpace)
  }

  /** Trimming leaves nothing exactly when every character is a space. */
  lemma TrimEmptyIffAllSpace(s: string, isSpace: char -> bool)
    ensures Trim(s, isSpace) == [] <==> forall k :: 0 <= k < |s| ==> isSpace(s[k])
  {
    var a := TrimStart(s, isSpace);
    if Trim(s, isSpace) == [] {
      forall k | 0 <= k < |s| ensures isSpace(s[k]) {
        if k >= |s| - |a| {
          assert s[k] == a[k - (|s| - |a|)];
        }
      }
    }
  }

  // ---------------------------------------------------------------------------
  // Prefixes, substrings, joining and splitting
  // ---------------------------------------------------------------------------

  /** `s.startsWith(p)`. */
  predicate StartsWith(s: string, p: string) {
    |p| <= |s| && s[..|p|] == p
  }

  /** `needle` occurs in `hay` starting at position `i`. */
  predicate OccursAt(hay: string, needle: string, i: int) {
    0 <= i <= |hay| - |needle| && hay[i..i + |needle|] == needle
  }

  /** `hay.includes(needle)`: `needle` occurs at some position of `hay`. */
  predicate Contains(hay: string, needle: string) {
    exists i | 0 <= i <= |hay| - |needle| :: OccursAt(hay, needle, i)
  }

  /** `parts.join(sep)`; the empty list joins to the empty string. */
  function Join(parts: seq<string>, sep: string): string {
    if |parts| == 0 then ""
    else if |parts| == 1 then parts[0]
    else parts[0] + sep + Join(parts[1..], sep)
  }

  lemma JoinCons(a: string, rest: seq<string>, sep: string)
    requires |rest| >= 1
    ensures Join([a] + rest, sep) == a + sep + Join(rest, sep)
  {
    assert ([a] + rest)[1..] == rest;
  }

  /** Position of the first `c` in `s`, if any. */
  function IndexOf(s: string, c: char): (r: Option<nat>)
    ensures r.None? <==> c !in s
    ensures r.Some? ==> r.value < |s| && s[r.value] == c && c !in s[..r.value]
  {
    if s == [] then None
    else if s[0] == c then Some(0)
    else match IndexOf(s[1..], c)
      case None => None
      case Some(i) => assert s[..i + 1] == [s[0]] + s[1..][..i]; Some(i + 1)
  }

  /** The first occurrence is the one before which `c` does not occur. */
  lemma IndexOfIsFirst(s: string, c: char, i: nat)
    requires i < |s| && s[i] == c && c !in s[..i]
    ensures IndexOf(s, c) == Some(i)
  {
    assert c in s by { assert s[i] == c; }
    var j := IndexOf(s, c).value;
    assert s[..i] + s[i..] == s;
  }

  /** `s.split(c)` for a one-character separator: the pieces between the
      separators, always at least one. */
  function Split(s: string, c: char): (r: seq<string>)
    ensures |r| >= 1
    decreases |s|
  {
    match IndexOf(s, c)
    case None => [s]
    case Some(i) => [s[..i]] + Split(s[i + 1..], c)
  }

  /** No piece of a split contains the separator. */
  lemma {:induction false} SplitPiecesLackSeparator(s: string, c: char)
    ensures forall k :: 0 <= k < |Split(s, c)| ==> c !in Split(s, c)[k]
    decreases |s|
  {
    match IndexOf(s, c)
    case None =>
    case Some(i) =>
      SplitPiecesLackSeparator(s[i + 1..], c);
  }

  /** Joining the pieces of a split with the separator gives back the text. */
  lemma {:induction false} JoinSplit(s: string, c: char)
    ensures Join(Split(s, c), [c]) == s
    decreases |s|
  {
    match IndexOf(s, c)
    case None =>
    case Some(i) =>
      JoinSplit(s[i + 1..], c);
      JoinCons(s[..i], Split(s[i + 1..], c), [c]);
      assert s == s[..i] + [c] + s[i + 1..];
  }

  /** Splitting the join of pieces that lack the separator gives back the pieces. */
  lemma {:induction false} SplitJoin(parts: seq<string>, c: char)
    requires |parts| >= 1
    requires forall k :: 0 <= k < |parts| ==> c !in parts[k]
    ensures Split(Join(parts, [c]), c) == parts
    decreases |parts|
  {
    if |parts| > 1 {
      assert c !in parts[0];
      SplitJoin(parts[1..], c);
      SplitJoinCons(parts[0], parts[1..], c);
      assert [parts[0]] + parts[1..] == parts;
    }
  }

  /** A piece without `c` in front of pieces without `c`. */
  lemma PrependLacks(x: string, rest: seq<string>, c: char)
    requires c !in x && forall k :: 0 <= k < |rest| ==> c !in rest[k]
    ensures forall k :: 0 <= k < |[x] + rest| ==> c !in ([x] + rest)[k]
  {
    forall k | 0 <= k < |[x] + rest| ensures c !in ([x] + rest)[k] {
      if k > 0 { assert ([x] + rest)[k] == rest[k - 1]; }
    }
  }

  /** Splitting a head piece joined with more pieces, none holding the
      separator, gives back the head and then each piece in turn. */
  lemma SplitJoinAfterHead(head: string, rest: seq<string>, c: char)
    requires c !in head && forall k :: 0 <= k < |rest| ==> c !in rest[k]
    ensures var lines := Split(Join([head] + rest, [c]), c);
            && |lines| == |rest| + 1 && lines[0] == head
            && forall k :: 0 <= k < |rest| ==> lines[k + 1] == rest[k]
  {
    PrependLacks(head, rest, c);
    SplitJoin([head] + rest, c);
  }

  /** The inductive step of `SplitJoin`. */
  lemma SplitJoinCons(a: string, rest: seq<string>, c: char)
    requires c !in a && |rest| >= 1
    requires Split(Join(rest, [c]), c) == rest
    ensures Split(Join([a] + rest, [c]), c) == [a] + rest
  {
    JoinCons(a, rest, [c]);
    SplitFirstPiece(a, Join(rest, [c]), c);
  }

  /** A piece without the separator, then the separator, splits off first. */
  lemma SplitFirstPiece(a: string, u: string, c: char)
    requires c !in a
    ensures Split(a + [c] + u, c) == [a] + Split(u, c)
  {
    var s := a + [c] + u;
    IndexOfIsFirst(s, c, |a|);
    assert s[..|a|] == a;
    assert s[|a| + 1..] == u;
  }

  /** Extending a text past its first separator does not move the first piece. */
  lemma SplitExtendFirst(s: string, t: string, c: char, i: nat)
    requires IndexOf(s, c) == Some(i)
    ensures Split(s + t, c) == [s[..i]] + Split(s[i + 1..] + t, c)
  {
    assert (s + t)[..i] == s[..i];
    IndexOfIsFirst(s + t, c, i);
    assert (s + t)[i + 1..] == s[i + 1..] + t;
  }

  /** Splitting a text that ends without a separator, extended by more text,
      keeps every complete piece and continues the last one. */
  lemma {:induction false} SplitAppend(s: string, t: string, c: char)
    ensures var p := Split(s, c);
      Split(s + t, c) == p[..|p| - 1] + Split(p[|p| - 1] + t, c)
    decreases |s|
  {
    match IndexOf(s, c)
    case None =>
      SplitAppendNone(s, t, c);
    case Some(i) =>
      SplitAppend(s[i + 1..], t, c);
      SplitAppendSome(s, t, c, i);
  }

  lemma SplitAppendNone(s: string, t: string, c: char)
    requires IndexOf(s, c).None?
    ensures var p := Split(s, c);
      Split(s + t, c) == p[..|p| - 1] + Split(p[|p| - 1] + t, c)
  {
    var p := Split(s, c);
    assert p == [s];
    assert p[..|p| - 1] == [];
  }

  /** The inductive step of `SplitAppend`: its statement for the text after the
      first separator gives it for the whole text. */
  lemma SplitAppendSome(s: string, t: string, c: char, i: nat)
    requires IndexOf(s, c) == Some(i)
    requires var q := Split(s[i + 1..], c);
      Split(s[i + 1..] + t, c) == q[..|q| - 1] + Split(q[|q| - 1] + t, c)
    ensures var p := Split(s, c);
      Split(s + t, c) == p[..|p| - 1] + Split(p[|p| - 1] + t, c)
  {
    var p := Split(s, c);
    var q := Split(s[i + 1..], c);
    assert p == [s[..i]] + q;
    SplitExtendFirst(s, t, c, i);
    PrependBeforeLast(s[..i], q, p, Split(s[i + 1..] + t, c), Split(q[|q| - 1] + t, c));
  }

  /** Putting `x` in front of a list built from all but the last element of `q`. */
  lemma PrependBeforeLast<T>(x: T, q: seq<T>, p: seq<T>, v: seq<T>, r: seq<T>)
    requires |q| >= 1 && p == [x] + q && v == q[..|q| - 1] + r
    ensures [x] + v == p[..|p| - 1] + r && p[|p| - 1] == q[|q| - 1]
  {
    assert p[..|p| - 1] == [x] + q[..|q| - 1];
  }

  // ---------------------------------------------------------------------------
  // Decimal digits: rendering and JavaScript's parseInt
  // ---------------------------------------------------------------------------

  predicate IsDigit(c: char) {
    '0' <= c <= '9'
  }

  function DigitValue(c: char): nat
    requires IsDigit(c)
  {
    c as int - '0' as int
  }

  /** Value of a string of decimal digits, most significant first. */
  function DecimalValue(d: string): nat
    requires forall k :: 0 <= k < |d| ==> IsDigit(d[k])
  {
    if d == [] then 0 else 10 * DecimalValue(d[..|d| - 1]) + DigitValue(d[|d| - 1])
  }

  /** The decimal rendering of a natural number, as `String(n)` or `f"{n}"` give it. */
  function DecimalString(n: nat): (r: string)
    ensures |r| >= 1
    ensures forall k :: 0 <= k < |r| ==> IsDigit(r[k])
    ensures |r| > 1 ==> r[0] != '0'
  {
    var last := ['0' + (n % 10) as char];
    if n < 10 then last else DecimalString(n / 10) + last
  }

  /** Reading a rendered number back gives the number. */
  lemma {:induction false} DecimalRoundTrip(n: nat)
    ensures DecimalValue(DecimalString(n)) == n
  {
    var r := DecimalString(n);
    if n >= 10 {
      DecimalRoundTrip(n / 10);
      assert r[..|r| - 1] == DecimalString(n / 10);
    }
  }

  /** Two numbers render alike only when they are equal. */
  lemma DecimalStringInjective(a: nat, b: nat)
    requires DecimalString(a) == DecimalString(b)
    ensures a == b
  {
    DecimalRoundTrip(a);
    DecimalRoundTrip(b);
  }

  /** Indexing into a concatenation, stated without a precondition. */
  lemma ConcatAt<T>(a: seq<T>, b: seq<T>, i: int)
    ensures 0 <= i < |a| ==> (a + b)[i] == a[i]
    ensures |a| <= i < |a| + |b| ==> (a + b)[i] == b[i - |a|]
  {
  }

  /** A run of digits followed by a non-digit can be split off in one way only. */
  lemma DigitPrefixUnique(d1: string, r1: string, d2: string, r2: string)
    requires forall k :: 0 <= k < |d1| ==> IsDigit(d1[k])
    requires forall k :: 0 <= k < |d2| ==> IsDigit(d2[k])
    requires r1 != [] && !IsDigit(r1[0]) && r2 != [] && !IsDigit(r2[0])
    requires d1 + r1 == d2 + r2
    ensures d1 == d2 && r1 == r2
  {
    var s := d1 + r1;
    if |d1| < |d2| {
      ConcatAt(d1, r1, |d1|);
      ConcatAt(d2, r2, |d1|);
      assert false;
    } else if |d2| < |d1| {
      ConcatAt(d1, r1, |d2|);
      ConcatAt(d2, r2, |d2|);
      assert false;
    } else {
      assert d1 == s[..|d1|] == d2;
      assert r1 == s[|d1|..] == r2;
    }
  }

  /** Decimal rendering of a signed integer (a leading '-' for negatives). */
  function IntString(i: int): string {
    if i < 0 then "-" + DecimalString(-i) else DecimalString(i)
  }

  predicate IsHexDigit(c: char) {
    IsDigit(c) || 'a' <= c <= 'f' || 'A' <= c <= 'F'
  }

  function HexDigitValue(c: char): nat
    requires IsHexDigit(c)
  {
    if IsDigit(c) then DigitValue(c)
    else if 'a' <= c <= 'f' then c as int - 'a' as int + 10
    else c as int - 'A' as int + 10
  }

  /** Value of a string of hexadecimal digits, most significant first. */
  function HexValue(d: string): nat
    requires forall k :: 0 <= k < |d| ==> IsHexDigit(d[k])
  {
    if d == [] then 0 else 16 * HexValue(d[..|d| - 1]) + HexDigitValue(d[|d| - 1])
  }

  /** Length of the longest prefix of `s` whose characters all satisfy `ok`. */
  function PrefixLength(s: string, ok: char -> bool): (n: nat)
    ensures n <= |s|
    ensures forall k :: 0 <= k < n ==> ok(s[k])
    ensures n < |s| ==> !ok(s[n])
  {
    if s != [] && ok(s[0]) then 1 + PrefixLength(s[1..], ok) else 0
  }

  /** Whether a sign character leads the text, and the text after it. */
  function StripSign(t: string): (r: (bool, string))
    ensures r.1 == t || (t != [] && r.1 == t[1..])
  {
    if t != [] && t[0] == '-' then (true, t[1..])
    else if t != [] && t[0] == '+' then (false, t[1..])
    else (false, t)
  }

  /** Value of the leading run of digits of an unsigned text; with `allowHexPrefix`,
      a leading "0x" or "0X" switches to hexadecimal digits. */
  function LeadingMagnitude(u: string, allowHexPrefix: bool): Option<nat> {
    if allowHexPrefix && (StartsWith(u, "0x") || StartsWith(u, "0X")) then
      var h := u[2..];
      var n := PrefixLength(h, IsHexDigit);
      if n == 0 then None else Some(HexValue(h[..n]))
    else
      var n := PrefixLength(u, IsDigit);
      if n == 0 then None else Some(DecimalValue(u[..n]))
  }

  /** JavaScript's `parseInt(s)` (when `allowHexPrefix`, the radix left out) or
      `parseInt(s, 10)` (otherwise): leading whitespace, an optional sign, then the
      longest run of digits; `None` stands for NaN, the result when no digit follows. */
  function ParseInt(s: string, allowHexPrefix: bool): Option<int> {
    ParseSigned(TrimStart(s, IsJsSpace), allowHexPrefix)
  }

  /** `parseInt` once the leading whitespace is gone: an optional sign, then digits. */
  function ParseSigned(t: string, allowHexPrefix: bool): Option<int> {
    var (negative, u) := StripSign(t);
    match LeadingMagnitude(u, allowHexPrefix)
    case None => None
    case Some(m) => var v: int := if negative then -(m as int) else m; Some(v)
  }

  /** The digits of a rendered number are read back as that number. */
  lemma LeadingMagnitudeDecimal(n: nat, allowHexPrefix: bool)
    ensures LeadingMagnitude(DecimalString(n), allowHexPrefix) == Some(n)
  {
    var d := DecimalString(n);
    assert !StartsWith(d, "0x") && !StartsWith(d, "0X") by {
      if |d| >= 2 {
        assert IsDigit(d[1]);
      }
    }
    assert PrefixLength(d, IsDigit) == |d|;
    assert d[..|d|] == d;
    DecimalRoundTrip(n);
  }

  /** A rendered number, unsigned, reads back as itself. */
  lemma ParseSignedDecimal(n: nat, allowHexPrefix: bool)
    ensures ParseSigned(DecimalString(n), allowHexPrefix) == Some(n)
  {
    var d := DecimalString(n);
    assert StripSign(d) == (false, d) by {
      assert IsDigit(d[0]);
    }
    LeadingMagnitudeDecimal(n, allowHexPrefix);
  }

  /** `parseInt` reads back what `String(n)` renders, with or without a radix. */
  lemma ParseDecimalString(n: nat, allowHexPrefix: bool)
    ensures ParseInt(DecimalString(n), allowHexPrefix) == Some(n)
  {
    var d := DecimalString(n);
    assert TrimStart(d, IsJsSpace) == d by {
      assert !IsJsSpace(d[0]);
    }
    ParseSignedDecimal(n, allowHexPrefix);
  }

  /** The same for a signed integer: `parseInt(String(i))` is `i`. */
  lemma ParseIntString(i: int, allowHexPrefix: bool)
    ensures ParseInt(IntString(i), allowHexPrefix) == Some(i)
  {
    if i >= 0 {
      ParseDecimalString(i, allowHexPrefix);
    } else {
      var d := DecimalString(-i);
      var s := "-" + d;
      assert TrimStart(s, IsJsSpace) == s by {
        assert s[0] == '-' && !IsJsSpace('-');
      }
      assert StripSign(s) == (true, d) by {
        assert s[0] == '-' && s[1..] == d;
      }
      LeadingMagnitudeDecimal(-i, allowHexPrefix);
    }
  }
}
