/** JSON values and their text: what cJSON prints and what it parses. A C string is the characters
    before its terminating NUL; a position in it is the string that is left from there. */
module CJsonText {

  datatype Json =
    | Null
    | False
    | True
    | Number(mantissa: int, exponent: int)   // mantissa * 10^exponent
    | Str(s: string)
    | Arr(items: seq<Json>)
    | Obj(members: seq<Member>)

  datatype Member = Member(key: string, value: Json)

  const TAB: char := '\t'

  /** The character a pointer to t points at. */
  function At(t: string): char {
    if t == "" then '\0' else t[0]
  }

  // ---------------------------------------------------------------- printing

  function Digit(d: nat): char
    requires d < 16
  {
    "0123456789abcdef"[d]
  }

  /** The decimal digits of n, as %d writes them. */
  function Decimal(n: nat): string {
    if n < 10 then [Digit(n)] else Decimal(n / 10) + [Digit(n % 10)]
  }

  function PrintInt(n: int): string {
    if n < 0 then "-" + Decimal(-n) else Decimal(n)
  }

  /** How a character appears inside a printed string. */
  function EscapeChar(c: char): string {
    if c > '\U{1f}' && c != '"' && c != '\\' then [c]
    else if c == '\\' then "\\\\"
    else if c == '"' then "\\\""
    else if c == '\U{08}' then "\\b"
    else if c == '\U{0c}' then "\\f"
    else if c == '\n' then "\\n"
    else if c == '\r' then "\\r"
    else if c == '\t' then "\\t"
    else "\\u00" + [Digit(c as int / 16 % 16), Digit(c as int % 16)]
  }

  function Escape(s: string): string {
    if s == "" then "" else EscapeChar(s[0]) + Escape(s[1..])
  }

  function Quote(s: string): string {
    "\"" + Escape(s) + "\""
  }

  function Tabs(n: nat): string {
    if n == 0 then "" else [TAB] + Tabs(n - 1)
  }

  /** print_value, formatted or not, for a value at this depth. */
  function Print(j: Json, depth: nat, fmt: bool): string
    decreases j
  {
    match j
    case Null => "null"
    case False => "false"
    case True => "true"
    case Number(n, _) => PrintInt(n)
    case Str(s) => Quote(s)
    case Arr(items) => if items == [] then "[]" else "[" + PrintItems(items, depth + 1, fmt) + "]"
    case Obj(members) =>
      if members == [] then (if fmt then "{\n" + Tabs(if depth == 0 then 0 else depth - 1) + "}" else "{}")
      else "{" + (if fmt then "\n" else "") + PrintMembers(members, depth + 1, fmt)
           + (if fmt then Tabs(depth) else "") + "}"
  }

  function PrintItems(items: seq<Json>, depth: nat, fmt: bool): string
    decreases items
  {
    if items == [] then ""
    else if |items| == 1 then Print(items[0], depth, fmt)
    else Print(items[0], depth, fmt) + (if fmt then ", " else ",") + PrintItems(items[1..], depth, fmt)
  }

  function PrintMember(m: Member, depth: nat, fmt: bool): string
    decreases m
  {
    (if fmt then Tabs(depth) else "") + Quote(m.key) + (if fmt then ":\t" else ":")
    + Print(m.value, depth, fmt)
  }

  function PrintMembers(members: seq<Member>, depth: nat, fmt: bool): string
    decreases members
  {
    if members == [] then ""
    else PrintMember(members[0], depth, fmt) + (if |members| > 1 then "," else "") + (if fmt then "\n" else "")
         + PrintMembers(members[1..], depth, fmt)
  }

  // ---------------------------------------------------------------- parsing

  /** The outcome of a parse: a value and what is left, an error and where, or Undefined when the C
      code reads past the terminating NUL or writes past the buffer it allocated. */
  datatype Outcome<+T> = Parsed(value: T, rest: string) | Failed(at: string) | Undefined

  function Skip(t: string): (r: string)
    ensures |r| <= |t|
  {
    if t != "" && t[0] != '\0' && t[0] <= ' ' then Skip(t[1..]) else t
  }

  predicate IsDigit(c: char) {
    '0' <= c <= '9'
  }

  /** The digits at the front of t, added to acc, and how many there are. */
  function Digits(acc: nat, t: string): (r: (nat, nat))
    ensures r.1 <= |t| && (t != "" && IsDigit(t[0]) ==> r.1 >= 1)
    decreases |t|
  {
    if t != "" && IsDigit(t[0]) then
      var (n, k) := Digits(acc * 10 + (t[0] as int - '0' as int), t[1..]);
      (n, k + 1)
    else (acc, 0)
  }

  function Drop(t: string, k: nat): (r: string)
    ensures |r| == if k <= |t| then |t| - k else 0
  {
    if k <= |t| then t[k..] else ""
  }

  /** Fraction: digits after a point that has one right behind it. */
  function Fraction(n: nat, t: string): (r: (nat, int, string))
    ensures |r.2| <= |t|
  {
    if At(t) == '.' && |t| >= 2 && IsDigit(t[1]) then
      var (m, k) := Digits(n, t[1..]);
      (m, 0 - k, Drop(t[1..], k))
    else (n, 0, t)
  }

  function Exponent(t: string): (r: (int, string))
    ensures |r.1| <= |t|
  {
    if At(t) == 'e' || At(t) == 'E' then
      var u := t[1..];
      var neg := At(u) == '-';
      var v := if At(u) == '+' || neg then u[1..] else u;
      var (m, k) := Digits(0, v);
      (if neg then 0 - m else m, Drop(v, k))
    else (0, t)
  }

  function ParseNumber(t: string): (r: Outcome<Json>)
    requires At(t) == '-' || IsDigit(At(t))
    ensures r.Parsed? && |r.rest| < |t|
  {
    var neg := At(t) == '-';
    var t1 := if neg then t[1..] else t;
    var t2 := if At(t1) == '0' then t1[1..] else t1;
    var (n, k) := if '1' <= At(t2) <= '9' then Digits(0, t2) else (0, 0);
    var (m, scale, t3) := Fraction(n, Drop(t2, k));
    var (e, t4) := Exponent(t3);
    Parsed(Number(if neg then 0 - m else m, scale + e), t4)
  }

  function HexDigit(c: char): int {
    if '0' <= c <= '9' then c as int - '0' as int
    else if 'A' <= c <= 'F' then 10 + c as int - 'A' as int
    else if 'a' <= c <= 'f' then 10 + c as int - 'a' as int
    else -1
  }

  predicate IsHex4(t: string) {
    |t| >= 4 && HexDigit(t[0]) >= 0 && HexDigit(t[1]) >= 0 && HexDigit(t[2]) >= 0 && HexDigit(t[3]) >= 0
  }

  /** parse_hex4: 0 when it meets anything but a hexadecimal digit. */
  function Hex4(t: string): nat {
    if IsHex4(t)
    then ((HexDigit(t[0]) * 16 + HexDigit(t[1])) * 16 + HexDigit(t[2])) * 16 + HexDigit(t[3])
    else 0
  }

  type Scalar = x: int | 0 < x < 0x11_0000 witness 1

  /** One code point in UTF-8. */
  function Utf8(uc: Scalar): (u: string)
    ensures 1 <= |u| <= 4
  {
    if uc < 0x80 then [uc as char]
    else if uc < 0x800 then [(0xC0 + uc / 0x40) as char, (0x80 + uc % 0x40) as char]
    else if uc < 0x1_0000 then
      [(0xE0 + uc / 0x1000) as char, (0x80 + uc / 0x40 % 0x40) as char, (0x80 + uc % 0x40) as char]
    else
      [(0xF0 + uc / 0x4_0000) as char, (0x80 + uc / 0x1000 % 0x40) as char,
       (0x80 + uc / 0x40 % 0x40) as char, (0x80 + uc % 0x40) as char]
  }

  /** Two halves of a surrogate pair. */
  function Pair(hi: nat, lo: nat): nat {
    0x1_0000 + hi % 0x400 * 0x400 + lo % 0x400
  }

  /** The bytes a \u escape stands for, and how many characters of t it takes; t starts at the
      backslash. */
  function Transcode(t: string): (string, nat) {
    var uc := Hex4(Drop(t, 2));
    if 0xDC00 <= uc <= 0xDFFF || uc == 0 then ("", 6)
    else if 0xD800 <= uc <= 0xDBFF then
      if At(Drop(t, 6)) != '\\' || At(Drop(t, 7)) != 'u' then ("", 6)
      else
        var uc2 := Hex4(Drop(t, 8));
        if uc2 < 0xDC00 || uc2 > 0xDFFF then ("", 12) else (Utf8(Pair(uc, uc2)), 12)
    else
      HexBound(Drop(t, 2));
      (Utf8(uc), 6)
  }

  lemma HexBound(t: string)
    ensures Hex4(t) < 0x1_0000
  {
  }

  function UnescapeChar(c: char): char {
    match c
    case 'b' => '\U{08}'
    case 'f' => '\U{0c}'
    case 'n' => '\n'
    case 'r' => '\r'
    case 't' => '\t'
    case _ => c
  }

  /** First pass over a literal, from behind its opening quote: one per character or escape pair. */
  function ScanLength(t: string): Outcome<nat>
    decreases |t|
  {
    if At(t) == '"' || At(t) == '\0' then Parsed(0, t)
    else if t[0] == '\\' then
      if At(t[1..]) == '\0' then Undefined else Longer(ScanLength(t[2..]))
    else Longer(ScanLength(t[1..]))
  }

  function Longer(o: Outcome<nat>): Outcome<nat> {
    if o.Parsed? then Parsed(o.value + 1, o.rest) else o
  }

  /** Second pass: the characters the literal stands for. */
  function Unescape(t: string): (r: Outcome<string>)
    ensures r.Parsed? ==> |r.rest| <= |t|
    decreases |t|
  {
    if At(t) == '"' then Parsed("", t[1..])
    else if At(t) == '\0' then Parsed("", t)
    else if t[0] != '\\' then Before([t[0]], Unescape(t[1..]))
    else if At(t[1..]) == '\0' then Undefined
    else if t[1] == 'u' then
      var (u, k) := Transcode(t);
      if |t| < k then Undefined else Before(u, Unescape(t[k..]))
    else Before([UnescapeChar(t[1])], Unescape(t[2..]))
  }

  function Before(u: string, o: Outcome<string>): Outcome<string> {
    if o.Parsed? then Parsed(u + o.value, o.rest) else o
  }

  function ParseString(t: string): (r: Outcome<string>)
    ensures r.Parsed? ==> |r.rest| < |t|
  {
    if At(t) != '"' then Failed(t)
    else
      var len, out := ScanLength(t[1..]), Unescape(t[1..]);
      if len.Parsed? && out.Parsed? && |out.value| <= len.value then out else Undefined
  }

  function ParseValue(t: string): (r: Outcome<Json>)
    ensures r.Parsed? ==> |r.rest| < |t|
    decreases |t|, 3
  {
    if "null" <= t then Parsed(Null, t[4..])
    else if "false" <= t then Parsed(False, t[5..])
    else if "true" <= t then Parsed(True, t[4..])
    else if At(t) == '"' then
      match ParseString(t)
      case Parsed(s, rest) => Parsed(Str(s), rest)
      case Failed(at) => Failed(at)
      case Undefined => Undefined
    else if At(t) == '-' || IsDigit(At(t)) then ParseNumber(t)
    else if At(t) == '[' then ParseArray(t)
    else if At(t) == '{' then ParseObject(t)
    else Failed(t)
  }

  function ParseArray(t: string): (r: Outcome<Json>)
    requires At(t) == '['
    ensures r.Parsed? ==> |r.rest| < |t|
    decreases |t|, 2
  {
    var u := Skip(t[1..]);
    if At(u) == ']' then Parsed(Arr([]), u[1..])
    else
      match ParseItems(u)
      case Parsed(items, rest) => Parsed(Arr(items), rest)
      case Failed(at) => Failed(at)
      case Undefined => Undefined
  }

  /** A value, and after a comma the ones that follow it, up to the closing bracket. */
  function ParseItems(t: string): (r: Outcome<seq<Json>>)
    ensures r.Parsed? ==> |r.rest| < |t|
    decreases |t|, 4
  {
    match ParseValue(Skip(t))
    case Failed(at) => Failed(at)
    case Undefined => Undefined
    case Parsed(v, rest) =>
      var u := Skip(rest);
      if At(u) == ',' then
        match ParseItems(u[1..])
        case Parsed(vs, end) => Parsed([v] + vs, end)
        case Failed(at) => Failed(at)
        case Undefined => Undefined
      else if At(u) == ']' then Parsed([v], u[1..])
      else Failed(u)
  }

  function ParseObject(t: string): (r: Outcome<Json>)
    requires At(t) == '{'
    ensures r.Parsed? ==> |r.rest| < |t|
    decreases |t|, 2
  {
    var u := Skip(t[1..]);
    if At(u) == '}' then Parsed(Obj([]), u[1..])
    else
      match ParseMembers(u)
      case Parsed(ms, rest) => Parsed(Obj(ms), rest)
      case Failed(at) => Failed(at)
      case Undefined => Undefined
  }

  /** A key, a colon and a value. */
  function ParseMember(t: string): (r: Outcome<Member>)
    ensures r.Parsed? ==> |r.rest| < |t|
    decreases |t|, 4
  {
    match ParseString(Skip(t))
    case Failed(at) => Failed(at)
    case Undefined => Undefined
    case Parsed(key, rest) =>
      var u := Skip(rest);
      if At(u) != ':' then Failed(u)
      else
        match ParseValue(Skip(u[1..]))
        case Failed(at) => Failed(at)
        case Undefined => Undefined
        case Parsed(v, end) => Parsed(Member(key, v), end)
  }

  function ParseMembers(t: string): (r: Outcome<seq<Member>>)
    ensures r.Parsed? ==> |r.rest| < |t|
    decreases |t|, 5
  {
    match ParseMember(t)
    case Failed(at) => Failed(at)
    case Undefined => Undefined
    case Parsed(m, rest) =>
      var u := Skip(rest);
      if At(u) == ',' then
        match ParseMembers(u[1..])
        case Parsed(ms, end) => Parsed([m] + ms, end)
        case Failed(at) => Failed(at)
        case Undefined => Undefined
      else if At(u) == '}' then Parsed([m], u[1..])
      else Failed(u)
  }

  /** cJSON_ParseWithOpts: leading spaces, one value, and on request nothing behind it but spaces. */
  function Parse(t: string, requireNullTerminated: bool): Outcome<Json> {
    match ParseValue(Skip(t))
    case Failed(at) => Failed(at)
    case Undefined => Undefined
    case Parsed(j, rest) =>
      if requireNullTerminated then
        var end := Skip(rest);
        if At(end) != '\0' then Failed(end) else Parsed(j, end)
      else Parsed(j, rest)
  }
}
