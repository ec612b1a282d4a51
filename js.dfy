/**
 * The slice of JavaScript value semantics that the request validators and
 * controllers depend on: JSON-like values, truthiness, `String.prototype.trim`,
 * ASCII case mapping, `parseInt`, `Number(...)`, `String(...)`, the relational
 * operators `<` and `>` and the validity of `new Date(v)`.
 *
 * Numbers are integers here (no NaN value, no fractions); `None` stands for
 * the NaN that a failed conversion produces.
 */
module Js {

  datatype Option<T> = None | Some(value: T)

  /** The outcome of an expression that may throw (a method called on a value that has none). */
  datatype Try<T> = Ok(value: T) | Threw

  datatype Value =
    | Undefined
    | Null
    | Bool(b: bool)
    | Num(n: int)
    | Str(s: string)
    | Arr(elems: seq<Value>)
    | Obj(props: map<string, Value>)

  /** A request body or query object. */
  type Body = map<string, Value>

  /** `body[key]`: a missing key reads as `undefined`. */
  function Get(body: Body, key: string): (v: Value)
    ensures key !in body ==> v == Undefined
  {
    if key in body then body[key] else Undefined
  }

  /** ToBoolean: what `if (v)`, `v && ...` and `v || ...` test. */
  predicate Truthy(v: Value) {
    match v
    case Undefined => false
    case Null => false
    case Bool(b) => b
    case Num(n) => n != 0
    case Str(s) => s != ""
    case Arr(_) => true
    case Obj(_) => true
  }

  // ---------------------------------------------------------------------------
  // Whitespace and trimming

  /** The WhiteSpace and LineTerminator code points that `trim` removes. */
  predicate IsSpace(c: char) {
    || c == '\t' || c == '\n' || c == '\U{000B}' || c == '\U{000C}' || c == '\r'
    || c == ' ' || c == '\U{00A0}' || c == '\U{1680}'
    || ('\U{2000}' <= c <= '\U{200A}')
    || c == '\U{2028}' || c == '\U{2029}' || c == '\U{202F}' || c == '\U{205F}'
    || c == '\U{3000}' || c == '\U{FEFF}'
  }

  predicate IsTrimmed(s: string) {
    s == [] || (!IsSpace(s[0]) && !IsSpace(s[|s| - 1]))
  }

  function TrimStart(s: string): (r: string)
    ensures |r| <= |s| && r == s[|s| - |r|..]
    ensures r == [] || !IsSpace(r[0])
    ensures forall i | 0 <= i < |s| - |r| :: IsSpace(s[i])
  {
    if s != [] && IsSpace(s[0]) then TrimStart(s[1..]) else s
  }

  function TrimEnd(s: string): (r: string)
    ensures |r| <= |s| && r == s[..|r|]
    ensures r == [] || !IsSpace(r[|r| - 1])
    ensures forall i | |r| <= i < |s| :: IsSpace(s[i])
  {
    if s != [] && IsSpace(s[|s| - 1]) then TrimEnd(s[..|s| - 1]) else s
  }

  /** `s.trim()`: the longest infix without leading or trailing whitespace. */
  function Trim(s: string): (r: string)
    ensures |r| <= |s|
    ensures IsTrimmed(r)
  {
    TrimEnd(TrimStart(s))
  }

  lemma TrimOfTrimmed(s: string)
    requires IsTrimmed(s)
    ensures Trim(s) == s
  {
  }

  lemma {:induction false} TrimStartSkips(pad: string, rest: string)
    requires forall i | 0 <= i < |pad| :: IsSpace(pad[i])
    requires rest == [] || !IsSpace(rest[0])
    ensures TrimStart(pad + rest) == rest
  {
    if pad != [] {
      assert (pad + rest)[1..] == pad[1..] + rest;
      TrimStartSkips(pad[1..], rest);
    } else {
      assert pad + rest == rest;
    }
  }

  lemma {:induction false} TrimEndSkips(body: string, pad: string)
    requires forall i | 0 <= i < |pad| :: IsSpace(pad[i])
    requires body == [] || !IsSpace(body[|body| - 1])
    ensures TrimEnd(body + pad) == body
  {
    if pad != [] {
      assert (body + pad)[..|body + pad| - 1] == body + pad[..|pad| - 1];
      TrimEndSkips(body, pad[..|pad| - 1]);
    } else {
      assert body + pad == body;
    }
  }

  /** Trimming removes exactly the whitespace padding around a trimmed string. */
  lemma TrimPadded(left: string, s: string, right: string)
    requires forall i | 0 <= i < |left| :: IsSpace(left[i])
    requires forall i | 0 <= i < |right| :: IsSpace(right[i])
    requires s != [] && IsTrimmed(s)
    ensures Trim(left + s + right) == s
  {
    assert left + s + right == left + (s + right);
    TrimStartSkips(left, s + right);
    TrimEndSkips(s, right);
  }

  lemma TrimIdempotent(s: string)
    ensures Trim(Trim(s)) == Trim(s)
  {
    TrimOfTrimmed(Trim(s));
  }

  // ---------------------------------------------------------------------------
  // ASCII case mapping (Mongoose `lowercase` / `uppercase` setters)

  function LowerChar(c: char): char {
    if 'A' <= c <= 'Z' then (c as int + 32) as char else c
  }

  function UpperChar(c: char): char {
    if 'a' <= c <= 'z' then (c as int - 32) as char else c
  }

  function ToLower(s: string): (r: string)
    ensures |r| == |s|
    ensures forall i | 0 <= i < |s| :: r[i] == LowerChar(s[i])
  {
    seq(|s|, i requires 0 <= i < |s| => LowerChar(s[i]))
  }

  function ToUpper(s: string): (r: string)
    ensures |r| == |s|
    ensures forall i | 0 <= i < |s| :: r[i] == UpperChar(s[i])
  {
    seq(|s|, i requires 0 <= i < |s| => UpperChar(s[i]))
  }

  predicate IsLower(s: string) {
    forall i | 0 <= i < |s| :: !('A' <= s[i] <= 'Z')
  }

  lemma LowerPreservesTrimmed(s: string)
    requires IsTrimmed(s)
    ensures IsTrimmed(ToLower(s)) && IsLower(ToLower(s))
  {
  }

  lemma UpperPreservesTrimmed(s: string)
    requires IsTrimmed(s)
    ensures IsTrimmed(ToUpper(s))
  {
  }

  predicate IsUpper(s: string) {
    forall i | 0 <= i < |s| :: !('a' <= s[i] <= 'z')
  }

  lemma UpperOfUpper(s: string)
    requires IsUpper(s)
    ensures ToUpper(s) == s
  {
  }

  lemma LowerOfLower(s: string)
    requires IsLower(s)
    ensures ToLower(s) == s
  {
  }

  // ---------------------------------------------------------------------------
  // String length (`s.length` and Mongoose `minlength` / `maxlength`)

  /** A code point above U+FFFF, which UTF-16 writes as a surrogate pair. */
  predicate IsAstral(c: char) {
    c as int > 0xFFFF
  }

  /** The positions of the characters that take two UTF-16 code units. */
  function Astral(s: string): set<nat> {
    set i: nat | i < |s| && IsAstral(s[i])
  }

  lemma {:induction false} AstralSize(s: string)
    ensures |Astral(s)| <= |s|
  {
    if s != [] {
      var t := s[..|s| - 1];
      AstralSize(t);
      assert Astral(s) == Astral(t) + (if IsAstral(s[|s| - 1]) then {|s| - 1} else {});
    }
  }

  /**
   * `s.length`: JavaScript strings are measured in UTF-16 code units, one per
   * code point and one more for each code point above U+FFFF.
   */
  function Utf16Length(s: string): (n: nat)
    ensures |s| <= n <= 2 * |s|
    ensures s == [] <==> n == 0
  {
    AstralSize(s);
    |s| + |Astral(s)|
  }

  /** Below U+10000 every code point is one code unit, so the two lengths agree. */
  lemma BmpLength(s: string)
    requires forall i | 0 <= i < |s| :: !IsAstral(s[i])
    ensures Utf16Length(s) == |s|
  {
    assert Astral(s) == {};
  }

  /** ASCII case mapping never changes a length. */
  lemma LowerKeepsLength(s: string)
    ensures Utf16Length(ToLower(s)) == Utf16Length(s)
  {
    assert Astral(ToLower(s)) == Astral(s);
  }

  // ---------------------------------------------------------------------------
  // Digits, number to string

  /** The value of a digit in radix 36 notation, 36 for any other character. */
  function DigitValue(c: char): (d: nat)
    ensures d <= 36
  {
    if '0' <= c <= '9' then c as int - '0' as int
    else if 'a' <= c <= 'z' then c as int - 'a' as int + 10
    else if 'A' <= c <= 'Z' then c as int - 'A' as int + 10
    else 36
  }

  predicate AllDigits(s: string, radix: nat) {
    forall i | 0 <= i < |s| :: DigitValue(s[i]) < radix
  }

  /** The number a string of digits denotes, read most significant first. */
  function DigitsValue(s: string, radix: nat): nat {
    if s == [] then 0
    else DigitsValue(s[..|s| - 1], radix) * radix + (DigitValue(s[|s| - 1]) % 36)
  }

  /** The length of the longest prefix of `s` made of digits of `radix`. */
  function DigitPrefixLength(s: string, radix: nat): (k: nat)
    ensures k <= |s| && AllDigits(s[..k], radix)
    ensures k < |s| ==> DigitValue(s[k]) >= radix
  {
    if s == [] || DigitValue(s[0]) >= radix then 0
    else
      var k := 1 + DigitPrefixLength(s[1..], radix);
      assert s[..k] == [s[0]] + s[1..][..k - 1];
      k
  }

  function DigitChar(d: nat): (c: char)
    requires d < 10
    ensures DigitValue(c) == d
  {
    ('0' as int + d) as char
  }

  function NatToString(n: nat): (s: string)
    ensures s != [] && AllDigits(s, 10)
    ensures |s| > 1 ==> s[0] != '0'
    decreases n
  {
    if n < 10 then [DigitChar(n)]
    else
      var p := NatToString(n / 10);
      assert (p + [DigitChar(n % 10)])[0] == p[0];
      p + [DigitChar(n % 10)]
  }

  function IntToString(n: int): string {
    if n < 0 then "-" + NatToString(-n) else NatToString(n)
  }

  lemma {:induction false} DigitsOfNatToString(n: nat)
    ensures DigitsValue(NatToString(n), 10) == n
    decreases n
  {
    if n >= 10 {
      DigitsOfNatToString(n / 10);
      var s := NatToString(n);
      assert s[..|s| - 1] == NatToString(n / 10);
    }
  }

  // ---------------------------------------------------------------------------
  // Conversions

  /** `String(v)`, which is also the string that `parseInt` reads. */
  function ToString(v: Value): string
    decreases v, 1
  {
    match v
    case Undefined => "undefined"
    case Null => "null"
    case Bool(b) => if b then "true" else "false"
    case Num(n) => IntToString(n)
    case Str(s) => s
    case Arr(es) => Join(es)
    case Obj(_) => "[object Object]"
  }

  /** `Array.prototype.join(",")`: null and undefined elements become "". */
  function Join(es: seq<Value>): string
    decreases es, 0
  {
    if es == [] then ""
    else
      var head := if es[0].Undefined? || es[0].Null? then "" else ToString(es[0]);
      if |es| == 1 then head else head + "," + Join(es[1..])
  }

  /** `parseInt(s)` with no radix argument. */
  function ParseInt(s: string): (r: Option<int>)
  {
    var t := TrimStart(s);
    var neg := t != [] && t[0] == '-';
    var u := if t != [] && (t[0] == '-' || t[0] == '+') then t[1..] else t;
    Signed(neg, ReadMagnitude(u))
  }

  /** The magnitude read, negated after a minus sign; None (NaN) stays None. */
  function Signed(neg: bool, m: Option<nat>): Option<int> {
    match m
    case None => None
    case Some(v) => var n: int := v; Some(if neg then -n else n)
  }

  /** The unsigned part of `parseInt`: an optional `0x` prefix, then the longest run of digits of that radix. */
  function ReadMagnitude(u: string): Option<nat> {
    var hex := |u| >= 2 && u[0] == '0' && (u[1] == 'x' || u[1] == 'X');
    var radix := if hex then 16 else 10;
    var body := if hex then u[2..] else u;
    var k := DigitPrefixLength(body, radix);
    if k == 0 then None else Some(DigitsValue(body[..k], radix))
  }

  /** A leading minus sign negates what `parseInt` reads, and leaves "no number" as it is. */
  lemma ParseIntNegates(s: string)
    requires s == [] || (!IsSpace(s[0]) && s[0] != '-' && s[0] != '+')
    ensures ParseInt("-" + s).None? <==> ParseInt(s).None?
    ensures ParseInt(s).Some? ==> ParseInt("-" + s) == Some(-ParseInt(s).value)
  {
    var t := "-" + s;
    assert t[0] == '-' && t[1..] == s;
    ParseIntUnpadded(t);
    ParseIntUnpadded(s);
  }

  /** Without leading whitespace, `parseInt` reads the sign, then the magnitude right after it. */
  lemma ParseIntUnpadded(s: string)
    requires s == [] || !IsSpace(s[0])
    ensures s != [] && s[0] == '-' ==> ParseInt(s) == Signed(true, ReadMagnitude(s[1..]))
    ensures s != [] && s[0] == '+' ==> ParseInt(s) == Signed(false, ReadMagnitude(s[1..]))
    ensures (s == [] || (s[0] != '-' && s[0] != '+')) ==> ParseInt(s) == Signed(false, ReadMagnitude(s))
  {
    assert TrimStart(s) == s;
  }

  lemma DigitPrefixOfDigits(s: string, radix: nat)
    requires AllDigits(s, radix)
    ensures DigitPrefixLength(s, radix) == |s|
  {
    var k := DigitPrefixLength(s, radix);
    if k < |s| {
      assert false;
    }
  }

  lemma ParseIntOfNatToString(n: nat)
    ensures ParseInt(NatToString(n)) == Some(n)
  {
    var s := NatToString(n);
    assert !IsSpace(s[0]) by { assert DigitValue(s[0]) < 10; }
    assert TrimStart(s) == s;
    assert s[0] != '-' && s[0] != '+' by { assert DigitValue(s[0]) < 10; }
    assert !(|s| >= 2 && s[0] == '0');
    DigitPrefixOfDigits(s, 10);
    assert s[..|s|] == s;
    DigitsOfNatToString(n);
  }

  /** The string-to-number conversion behind `Number(s)` and `s < 0`. */
  function StringToNumber(s: string): Option<int> {
    var t := Trim(s);
    if t == "" then Some(0)
    else if |t| > 2 && t[0] == '0' && (t[1] == 'x' || t[1] == 'X') then
      if AllDigits(t[2..], 16) then Some(DigitsValue(t[2..], 16)) else None
    else if |t| > 2 && t[0] == '0' && (t[1] == 'o' || t[1] == 'O') then
      if AllDigits(t[2..], 8) then Some(DigitsValue(t[2..], 8)) else None
    else if |t| > 2 && t[0] == '0' && (t[1] == 'b' || t[1] == 'B') then
      if AllDigits(t[2..], 2) then Some(DigitsValue(t[2..], 2)) else None
    else
      var u := if t[0] == '-' || t[0] == '+' then t[1..] else t;
      var m: int := DigitsValue(u, 10);
      if u != [] && AllDigits(u, 10) then Some(if t[0] == '-' then -m else m)
      else None
  }

  /** ToPrimitive with the default hint: arrays and objects become strings. */
  function ToPrimitive(v: Value): (p: Value)
    ensures !p.Arr? && !p.Obj?
  {
    if v.Arr? || v.Obj? then Str(ToString(v)) else v
  }

  /** `Number(v)`; None is NaN. */
  function ToNumber(v: Value): Option<int> {
    match ToPrimitive(v)
    case Undefined => None
    case Null => Some(0)
    case Bool(b) => Some(if b then 1 else 0)
    case Num(n) => Some(n)
    case Str(s) => StringToNumber(s)
    case Arr(_) => None
    case Obj(_) => None
  }

  /** Lexicographic order on strings, by character. */
  predicate StrLess(a: string, b: string) {
    if a == [] then b != []
    else if b == [] then false
    else if a[0] != b[0] then a[0] < b[0]
    else StrLess(a[1..], b[1..])
  }

  /** `a < b` */
  predicate Less(a: Value, b: Value) {
    var pa, pb := ToPrimitive(a), ToPrimitive(b);
    if pa.Str? && pb.Str? then StrLess(pa.s, pb.s)
    else
      var x, y := ToNumber(pa), ToNumber(pb);
      x.Some? && y.Some? && x.value < y.value
  }

  /** `a > b` */
  predicate Greater(a: Value, b: Value) {
    Less(b, a)
  }

  /** Largest magnitude of a valid time value, in milliseconds. */
  const MaxTime: int := 8_640_000_000_000_000

  /**
   * `isValid(new Date(v))`. The parsing of date strings is a parameter:
   * `parsesAsDate(s)` says whether `new Date(s)` yields a valid date.
   */
  predicate DateValid(v: Value, parsesAsDate: string -> bool) {
    match v
    case Undefined => false
    case Null => true
    case Bool(_) => true
    case Num(n) => -MaxTime <= n <= MaxTime
    case Str(s) => parsesAsDate(s)
    case Arr(_) => parsesAsDate(ToString(v))
    case Obj(_) => parsesAsDate(ToString(v))
  }
}
