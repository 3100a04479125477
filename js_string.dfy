/** The JavaScript string built-ins the events service and the admin page rely
    on: `String.prototype.trim`, `parseInt(v, 10)`, `String.prototype.split`
    with a one-character separator, the decimal rendering of an integer
    (`String(n)` / a template literal) and `String.prototype.padStart`.
    A JavaScript string is modelled as a sequence of characters. */
module JsString {

  /** ECMAScript's WhiteSpace and LineTerminator code points: the characters
      `trim` removes and `parseInt` skips before the number. */
  predicate IsWhiteSpace(c: char) {
    c == '\t' || c == '\U{000B}' || c == '\U{000C}' || c == ' ' || c == '\U{00A0}' || c == '\U{FEFF}'
    || c == '\U{1680}' || ('\U{2000}' <= c <= '\U{200A}') || c == '\U{202F}' || c == '\U{205F}'
    || c == '\U{3000}' || c == '\n' || c == '\r' || c == '\U{2028}' || c == '\U{2029}'
  }

  predicate AllWhiteSpace(s: string) {
    forall i :: 0 <= i < |s| ==> IsWhiteSpace(s[i])
  }

  /** `trimStart`: removes the longest all-white-space prefix. */
  function TrimStart(s: string): string
    decreases |s|
  {
    if s != [] && IsWhiteSpace(s[0]) then TrimStart(s[1..]) else s
  }

  /** `trimEnd`: removes the longest all-white-space suffix. */
  function TrimEnd(s: string): string
    decreases |s|
  {
    if s != [] && IsWhiteSpace(s[|s| - 1]) then TrimEnd(s[..|s| - 1]) else s
  }

  /** What trimStart removes is white space, and what it keeps is a suffix
      that does not start with white space. */
  lemma {:induction false} TrimStartShape(s: string)
    ensures var r := TrimStart(s);
      && |r| <= |s| && r == s[|s| - |r|..]
      && (r == [] || !IsWhiteSpace(r[0]))
      && AllWhiteSpace(s[..|s| - |r|])
    decreases |s|
  {
    if s != [] && IsWhiteSpace(s[0]) {
      TrimStartShape(s[1..]);
      var r := TrimStart(s[1..]);
      assert s[..|s| - |r|] == [s[0]] + s[1..][..|s| - 1 - |r|];
      assert s[1..][|s| - 1 - |r|..] == s[|s| - |r|..];
    }
  }

  /** What trimEnd removes is white space, and what it keeps is a prefix
      that does not end with white space. */
  lemma {:induction false} TrimEndShape(s: string)
    ensures var r := TrimEnd(s);
      && |r| <= |s| && r == s[..|r|]
      && (r == [] || !IsWhiteSpace(r[|r| - 1]))
      && AllWhiteSpace(s[|r|..])
    decreases |s|
  {
    if s != [] && IsWhiteSpace(s[|s| - 1]) {
      var t := s[..|s| - 1];
      TrimEndShape(t);
      var r := TrimEnd(t);
      assert s[|r|..] == t[|r|..] + [s[|s| - 1]];
      assert t[..|r|] == s[..|r|];
    }
  }

  /** `trim`: white space removed at both ends. The result is empty exactly
      when the string holds nothing but white space, and otherwise neither
      starts nor ends with white space. */
  function Trim(s: string): (r: string)
    ensures |r| <= |s|
    ensures r == [] <==> AllWhiteSpace(s)
    ensures r != [] ==> !IsWhiteSpace(r[0]) && !IsWhiteSpace(r[|r| - 1])
  {
    var t := TrimStart(s);
    TrimStartShape(s);
    var r := TrimEnd(t);
    TrimEndShape(t);
    assert r == [] ==> t == [];
    assert AllWhiteSpace(s) ==> t == [];
    assert t == [] ==> s[..|s| - |t|] == s;
    r
  }

  /** A string that neither starts nor ends with white space is its own trim. */
  lemma TrimOfTrimmed(s: string)
    requires s == [] || (!IsWhiteSpace(s[0]) && !IsWhiteSpace(s[|s| - 1]))
    ensures Trim(s) == s
  {
  }

  /** Trimming twice is trimming once. */
  lemma TrimIdempotent(s: string)
    ensures Trim(Trim(s)) == Trim(s)
  {
    TrimOfTrimmed(Trim(s));
  }

  // ---------------------------------------------------------------- digits

  predicate IsDigit(c: char) {
    '0' <= c <= '9'
  }

  predicate AllDigits(s: string) {
    forall i :: 0 <= i < |s| ==> IsDigit(s[i])
  }

  function DigitValue(c: char): (d: nat)
    requires IsDigit(c)
    ensures d < 10
  {
    c as int - '0' as int
  }

  function DigitChar(d: nat): (c: char)
    requires d < 10
    ensures IsDigit(c) && DigitValue(c) == d
  {
    ('0' as int + d) as char
  }

  /** The number a string of decimal digits denotes (leading zeros allowed). */
  function DecimalValue(s: string): nat
    requires AllDigits(s)
  {
    if s == [] then 0 else DecimalValue(s[..|s| - 1]) * 10 + DigitValue(s[|s| - 1])
  }

  /** The longest prefix made of decimal digits. */
  function DigitPrefix(s: string): (r: string)
    ensures |r| <= |s| && r == s[..|r|]
    ensures AllDigits(r)
    ensures |r| < |s| ==> !IsDigit(s[|r|])
  {
    if s != [] && IsDigit(s[0]) then [s[0]] + DigitPrefix(s[1..]) else []
  }

  // -------------------------------------------------------------- parseInt

  /** A JavaScript number that `parseInt` can return: NaN or an integer
      (`-0` is the integer 0: both are falsy). */
  datatype IntOrNaN = NaN | Int(value: int)

  /** JavaScript truthiness of such a number: NaN and 0 are falsy. */
  predicate Falsy(n: IntOrNaN) {
    n.NaN? || n.value == 0
  }

  /** `parseInt(s, 10)`: skip leading white space, take an optional sign,
      then the longest run of decimal digits; NaN when that run is empty. */
  function ParseInt10(s: string): (r: IntOrNaN)
    ensures '-' !in s ==> r.NaN? || r.value >= 0
  {
    var t := TrimStart(s);
    TrimStartShape(s);
    var negative := t != [] && t[0] == '-';
    var unsigned := if t != [] && (t[0] == '-' || t[0] == '+') then t[1..] else t;
    var digits := DigitPrefix(unsigned);
    assert negative ==> '-' in s by {
      if negative { assert s[|s| - |t|] == '-'; }
    }
    if digits == [] then NaN
    else
      var magnitude: int := DecimalValue(digits);
      Int(if negative then -magnitude else magnitude)
  }

  /** A non-empty run of digits parses to the number it denotes. */
  lemma ParseDigits(s: string)
    requires s != [] && AllDigits(s)
    ensures ParseInt10(s) == Int(DecimalValue(s))
  {
    assert TrimStart(s) == s;
    assert DigitPrefix(s) == s by { DigitPrefixOfDigits(s); }
  }

  lemma {:induction false} DigitPrefixOfDigits(s: string)
    requires AllDigits(s)
    ensures DigitPrefix(s) == s
    decreases |s|
  {
    if s != [] {
      DigitPrefixOfDigits(s[1..]);
    }
  }

  /** parseInt ignores leading white space and whatever follows the digits:
      `parseInt(" 2026x", 10)` is 2026. */
  lemma ParseIgnoresSurroundings(ws: string, digits: string, tail: string)
    requires AllWhiteSpace(ws) && digits != [] && AllDigits(digits)
    requires tail == [] || !IsDigit(tail[0])
    ensures ParseInt10(ws + digits + tail) == Int(DecimalValue(digits))
  {
    var t := digits + tail;
    assert ws + digits + tail == ws + t;
    assert t[0] == digits[0];
    TrimStartSkips(ws, t);
    DigitPrefixStops(digits, tail);
    ParseAfterWhiteSpace(ws + t, t);
  }

  lemma ParseAfterWhiteSpace(s: string, t: string)
    requires TrimStart(s) == t && t != [] && IsDigit(t[0])
    ensures ParseInt10(s) == Int(DecimalValue(DigitPrefix(t)))
  {
  }

  lemma {:induction false} TrimStartSkips(ws: string, rest: string)
    requires AllWhiteSpace(ws) && rest != [] && !IsWhiteSpace(rest[0])
    ensures TrimStart(ws + rest) == rest
    decreases |ws|
  {
    if ws == [] {
      assert ws + rest == rest;
    } else {
      var s := ws + rest;
      assert s[0] == ws[0] && IsWhiteSpace(ws[0]);
      assert s[1..] == ws[1..] + rest;
      assert AllWhiteSpace(ws[1..]) by {
        forall i | 0 <= i < |ws[1..]| ensures IsWhiteSpace(ws[1..][i]) {
          assert ws[1..][i] == ws[i + 1];
        }
      }
      TrimStartSkips(ws[1..], rest);
    }
  }

  lemma {:induction false} DigitPrefixStops(digits: string, tail: string)
    requires AllDigits(digits)
    requires tail == [] || !IsDigit(tail[0])
    ensures DigitPrefix(digits + tail) == digits
    decreases |digits|
  {
    if digits != [] {
      assert (digits + tail)[1..] == digits[1..] + tail;
      DigitPrefixStops(digits[1..], tail);
    }
  }

  // ----------------------------------------------------------------- split

  /** `s.split(sep)` for a one-character separator: the pieces between the
      separators, empty pieces included; at least one piece, none of which
      holds the separator. */
  function Split(s: string, sep: char): (r: seq<string>)
    ensures |r| >= 1
    ensures forall i :: 0 <= i < |r| ==> sep !in r[i]
    decreases |s|
  {
    if s == [] then [[]]
    else
      var rest := Split(s[1..], sep);
      if s[0] == sep then [[]] + rest else [[s[0]] + rest[0]] + rest[1..]
  }

  /** `parts.join(sep)`, the inverse of Split. */
  function Join(parts: seq<string>, sep: char): string
    requires |parts| >= 1
  {
    if |parts| == 1 then parts[0] else parts[0] + [sep] + Join(parts[1..], sep)
  }

  /** Joining the pieces of a split gives back the string. */
  lemma {:induction false} JoinSplit(s: string, sep: char)
    ensures Join(Split(s, sep), sep) == s
    decreases |s|
  {
    if s != [] {
      var rest := Split(s[1..], sep);
      JoinSplit(s[1..], sep);
      if s[0] == sep {
        assert Split(s, sep)[1..] == rest;
      } else {
        var r := Split(s, sep);
        assert r[0] == [s[0]] + rest[0] && r[1..] == rest[1..];
        if |rest| > 1 {
          assert Join(r, sep) == [s[0]] + rest[0] + [sep] + Join(rest[1..], sep);
        }
      }
    }
  }

  /** Splitting a joined list of separator-free pieces gives back the pieces. */
  lemma {:induction false} SplitJoin(parts: seq<string>, sep: char)
    requires |parts| >= 1
    requires forall i :: 0 <= i < |parts| ==> sep !in parts[i]
    ensures Split(Join(parts, sep), sep) == parts
    decreases |parts|
  {
    if |parts| == 1 {
      SplitPiece(parts[0], [], sep);
      assert parts[0] + [] == parts[0];
    } else {
      var rest := Join(parts[1..], sep);
      SplitJoin(parts[1..], sep);
      var after := [sep] + rest;
      SplitPiece(parts[0], after, sep);
      assert Split(after, sep) == [[]] + Split(rest, sep) by {
        assert after[0] == sep && after[1..] == rest;
      }
      assert Join(parts, sep) == parts[0] + after;
      assert parts[0] + [] == parts[0];
      assert parts == [parts[0]] + parts[1..];
    }
  }

  /** A separator-free prefix is glued onto the first piece of what follows. */
  lemma {:induction false} SplitPiece(a: string, rest: string, sep: char)
    requires sep !in a
    ensures Split(a + rest, sep) == [a + Split(rest, sep)[0]] + Split(rest, sep)[1..]
    decreases |a|
  {
    if a == [] {
      var tail := Split(rest, sep);
      assert a + rest == rest && a + tail[0] == tail[0];
      assert [tail[0]] + tail[1..] == tail;
    } else {
      var s := a + rest;
      assert s[0] == a[0] && s[0] != sep;
      assert s[1..] == a[1..] + rest;
      SplitPiece(a[1..], rest, sep);
      var tail := Split(rest, sep);
      var r := Split(s[1..], sep);
      assert r[0] == a[1..] + tail[0] && r[1..] == tail[1..];
      assert Split(s, sep) == [[s[0]] + r[0]] + r[1..];
      assert [a[0]] + (a[1..] + tail[0]) == a + tail[0];
    }
  }

  // ---------------------------------------------------- numbers as strings

  /** The decimal digits of a natural number, as `String(n)` writes them:
      no leading zero, and they denote `n`. */
  function NatToDecimal(n: nat): (r: string)
    ensures r != [] && AllDigits(r)
    ensures DecimalValue(r) == n
    ensures r[0] == '0' ==> r == "0"
  {
    if n < 10 then [DigitChar(n)]
    else
      var r := NatToDecimal(n / 10) + [DigitChar(n % 10)];
      assert r[..|r| - 1] == NatToDecimal(n / 10);
      r
  }

  /** `String(i)` for an integer `i` (the admin page's `${y}`). */
  function IntToDecimal(i: int): (r: string)
    ensures i >= 0 ==> r == NatToDecimal(i)
    ensures i < 0 ==> r == "-" + NatToDecimal(-i)
  {
    if i < 0 then "-" + NatToDecimal(-i) else NatToDecimal(i)
  }

  /** `s.padStart(width, fill)` with a one-character fill: `s` preceded by as
      many `fill` characters as it lacks to reach `width`. */
  function PadStart(s: string, width: nat, fill: char): (r: string)
    ensures |r| == if |s| >= width then |s| else width
    ensures r[|r| - |s|..] == s
    ensures forall i :: 0 <= i < |r| - |s| ==> r[i] == fill
  {
    if |s| >= width then s else seq(width - |s|, _ => fill) + s
  }
}
