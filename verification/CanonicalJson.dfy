/** The canonical-JSON subset of parity/src/canonical_json_adapter.c: trees, their one rendering, and the
    recognizer as a function of the unread text. */
module CanonicalJson {
  import opened Wrappers
  import opened Bytes
  import opened TapeFormat
  import Utf8

  /** A value of the integer-only subset. Strings are the bytes they stand for, after unescaping.
      `NegZero` is the one number text the recognizer admits beside the rendering of an integer. */
  datatype Json =
    | Null | True | False
    | Int(value: int)
    | NegZero
    | Str(text: bytes)
    | Arr(items: seq<Json>)
    | Obj(members: seq<Member>)

  datatype Member = Member(key: bytes, value: Json)

  const MAX_INTEGER := 9007199254740991

  // ---- Rendering ----

  function HexDigit(n: nat): byte
    requires n < 16
  {
    if n < 10 then 0x30 + n else 0x61 + n - 10
  }

  /** The shortest escape of one byte (section 3.2.2.2 of RFC 8785). */
  function Escape(c: byte): (e: bytes)
    ensures |e| >= 1
  {
    if c == 0x22 then [0x5C, 0x22]
    else if c == 0x5C then [0x5C, 0x5C]
    else if c == 0x08 then [0x5C, 0x62]
    else if c == 0x09 then [0x5C, 0x74]
    else if c == 0x0A then [0x5C, 0x6E]
    else if c == 0x0C then [0x5C, 0x66]
    else if c == 0x0D then [0x5C, 0x72]
    else if c < 0x20 then [0x5C, 0x75, 0x30, 0x30, 0x30 + c / 16, HexDigit(c % 16)]
    else [c]
  }

  function EscapeAll(s: bytes): (e: bytes)
    ensures |e| >= |s|
  {
    if s == [] then [] else Escape(s[0]) + EscapeAll(s[1..])
  }

  function Quote(s: bytes): (q: bytes)
    ensures |q| >= 2
  {
    [0x22] + EscapeAll(s) + [0x22]
  }

  /** Decimal digits without leading zeros. */
  function Decimal(n: nat): (d: bytes)
    ensures |d| >= 1
  {
    if n < 10 then [0x30 + n] else Decimal(n / 10) + [0x30 + n % 10]
  }

  const TRUE_TEXT: bytes := [0x74, 0x72, 0x75, 0x65]
  const FALSE_TEXT: bytes := [0x66, 0x61, 0x6C, 0x73, 0x65]
  const NULL_TEXT: bytes := [0x6E, 0x75, 0x6C, 0x6C]

  function Render(j: Json): (b: bytes)
    ensures |b| >= 1
    decreases j, 1
  {
    match j
    case Null => NULL_TEXT
    case True => TRUE_TEXT
    case False => FALSE_TEXT
    case Int(v) => if v < 0 then [0x2D] + Decimal(-v) else Decimal(v)
    case NegZero => [0x2D, 0x30]
    case Str(s) => Quote(s)
    case Arr(items) => if items == [] then [0x5B, 0x5D] else [0x5B] + RenderItems(items)
    case Obj(members) => if members == [] then [0x7B, 0x7D] else [0x7B] + RenderMembers(members)
  }

  /** The items after an opening bracket, with the closing one. */
  function RenderItems(items: seq<Json>): bytes
    requires items != []
    decreases items, 0
  {
    Render(items[0]) + (if |items| == 1 then [0x5D] else [0x2C] + RenderItems(items[1..]))
  }

  function RenderMembers(members: seq<Member>): bytes
    requires members != []
    decreases members, 0
  {
    Quote(members[0].key) + [0x3A] + Render(members[0].value)
    + (if |members| == 1 then [0x7D] else [0x2C] + RenderMembers(members[1..]))
  }

  // ---- Which trees are canonical ----

  /** Byte order, as `raw_key_order` decides it on the text between the quotes. */
  predicate Less(a: bytes, b: bytes) {
    if b == [] then false
    else if a == [] then true
    else a[0] < b[0] || (a[0] == b[0] && Less(a[1..], b[1..]))
  }

  predicate Sorted(members: seq<Member>) {
    |members| > 1 ==> Less(EscapeAll(members[0].key), EscapeAll(members[1].key)) && Sorted(members[1..])
  }

  /** Canonical at nesting level `depth`: integers in range, keys strictly increasing, nesting limited. */
  predicate Canonical(j: Json, depth: nat)
    decreases j, 1
  {
    match j
    case Int(v) => -MAX_INTEGER <= v <= MAX_INTEGER
    case Arr(items) => depth < MAX_JSON_DEPTH && CanonicalItems(items, depth + 1)
    case Obj(members) => depth < MAX_JSON_DEPTH && Sorted(members) && CanonicalMembers(members, depth + 1)
    case _ => true
  }

  predicate CanonicalItems(items: seq<Json>, depth: nat)
    decreases items, 0
  {
    items != [] ==> Canonical(items[0], depth) && CanonicalItems(items[1..], depth)
  }

  predicate CanonicalMembers(members: seq<Member>, depth: nat)
    decreases members, 0
  {
    members != [] ==> Canonical(members[0].value, depth) && CanonicalMembers(members[1..], depth)
  }

  // ---- The recognizer ----

  predicate IsDigit(c: byte) {
    0x30 <= c <= 0x39
  }

  /** The value of a lower-case hexadecimal digit. */
  function HexValue(c: byte): Option<nat> {
    if 0x30 <= c <= 0x39 then Some(c - 0x30)
    else if 0x61 <= c <= 0x66 then Some(c - 0x61 + 10)
    else None
  }

  /** The byte a two-character escape stands for. */
  function ShortEscape(c: byte): Option<byte> {
    if c == 0x22 || c == 0x5C then Some(c)
    else if c == 0x62 then Some(0x08)
    else if c == 0x66 then Some(0x0C)
    else if c == 0x6E then Some(0x0A)
    else if c == 0x72 then Some(0x0D)
    else if c == 0x74 then Some(0x09)
    else None
  }

  /** The four digits of a unicode escape, which must be needed: a control byte without a short form. */
  function UnicodeEscape(b: bytes): (r: Result<byte, Status>)
    ensures r.Success? ==> |b| >= 4
    ensures r.Failure? ==> r.error != OK
  {
    if |b| < 4 then Failure(Truncated)
    else
      var h0, h1, h2, h3 := HexValue(b[0]), HexValue(b[1]), HexValue(b[2]), HexValue(b[3]);
      if h0.None? || h1.None? || h2.None? || h3.None? then Failure(Status.Canonical)
      else
        var unit := ((h0.value * 16 + h1.value) * 16 + h2.value) * 16 + h3.value;
        if unit >= 0x20 || unit == 0x08 || unit == 0x09 || unit == 0x0A || unit == 0x0C || unit == 0x0D
        then Failure(Status.Canonical)
        else Success(unit)
  }

  /** The characters up to the closing quote: what they stand for, and the text after the quote. */
  function ScanText(b: bytes): (r: Result<(bytes, bytes), Status>)
    ensures r.Success? ==> |r.value.1| < |b|
    ensures r.Failure? ==> r.error != OK
  {
    if b == [] then Failure(Truncated)
    else if b[0] == 0x22 then Success(([], b[1..]))
    else if b[0] < 0x20 then Failure(Status.Canonical)
    else if b[0] == 0x5C then
      if |b| == 1 then Failure(Truncated)
      else if ShortEscape(b[1]).Some? then Push(ShortEscape(b[1]).value, ScanText(b[2..]))
      else if b[1] == 0x75 then
        match UnicodeEscape(b[2..])
        case Failure(e) => Failure(e)
        case Success(c) => Push(c, ScanText(b[6..]))
      else Failure(Status.Canonical)
    else Push(b[0], ScanText(b[1..]))
  }

  function Push(c: byte, r: Result<(bytes, bytes), Status>): Result<(bytes, bytes), Status> {
    match r
    case Failure(e) => Failure(e)
    case Success((s, rest)) => Success(([c] + s, rest))
  }

  /** `parse_string`. */
  function ScanString(b: bytes): (r: Result<(bytes, bytes), Status>)
    ensures r.Success? ==> |r.value.1| < |b|
    ensures r.Failure? ==> r.error != OK
  {
    if b == [] || b[0] != 0x22 then Failure(Status.Canonical) else ScanText(b[1..])
  }

  /** Digits after the first significant one, with the range check made before each step. */
  function ScanDigits(b: bytes, value: nat): (r: Result<(nat, bytes), Status>)
    requires value <= MAX_INTEGER
    ensures r.Success? ==> r.value.0 <= MAX_INTEGER && |r.value.1| <= |b|
    ensures r.Failure? ==> r.error != OK
    decreases |b|
  {
    if b == [] || !IsDigit(b[0]) then Success((value, b))
    else
      var digit := b[0] - 0x30;
      if value > (MAX_INTEGER - digit) / 10 then Failure(Schema)
      else ScanDigits(b[1..], value * 10 + digit)
  }

  /** The unsigned part of a number. */
  function ScanMagnitude(b: bytes): (r: Result<(nat, bytes), Status>)
    requires b != []
    ensures r.Success? ==> |r.value.1| < |b|
    ensures r.Failure? ==> r.error != OK
  {
    if b[0] == 0x30 then
      if |b| > 1 && IsDigit(b[1]) then Failure(Status.Canonical) else Success((0, b[1..]))
    else if !IsDigit(b[0]) then Failure(Status.Canonical)
    else ScanDigits(b[1..], b[0] - 0x30)
  }

  function Signed(negative: bool, n: nat): Json {
    if !negative then Int(n) else if n == 0 then NegZero else Int(0 - n)
  }

  /** `parse_number`. */
  function ScanNumber(b: bytes): (r: Result<(Json, bytes), Status>)
    requires b != []
    ensures r.Success? ==> |r.value.1| < |b|
    ensures r.Failure? ==> r.error != OK
  {
    var negative := b[0] == 0x2D;
    if negative && |b| == 1 then Failure(Truncated)
    else
      match ScanMagnitude(if negative then b[1..] else b)
      case Failure(e) => Failure(e)
      case Success((n, rest)) =>
        if rest != [] && (rest[0] == 0x2E || rest[0] == 0x65 || rest[0] == 0x45) then Failure(Schema)
        else Success((Signed(negative, n), rest))
  }

  function ScanLiteral(b: bytes, text: bytes, j: Json): (r: Result<(Json, bytes), Status>)
    requires text != []
    ensures r.Success? ==> |r.value.1| < |b|
    ensures r.Failure? ==> r.error != OK
  {
    if |b| >= |text| && b[..|text|] == text then Success((j, b[|text|..])) else Failure(Status.Canonical)
  }

  /** `parse_value` at nesting level `depth`: the value, and the text after it. */
  function ScanValue(b: bytes, depth: nat): (r: Result<(Json, bytes), Status>)
    ensures r.Success? ==> |r.value.1| < |b|
    ensures r.Failure? ==> r.error != OK
    decreases |b|, 1
  {
    if b == [] then Failure(Truncated)
    else if b[0] == 0x7B then
      if depth >= MAX_JSON_DEPTH then Failure(Limit)
      else if |b| > 1 && b[1] == 0x7D then Success((Obj([]), b[2..]))
      else
        match ScanMembers(b[1..], depth + 1, None)
        case Failure(e) => Failure(e)
        case Success((members, rest)) => Success((Obj(members), rest))
    else if b[0] == 0x5B then
      if depth >= MAX_JSON_DEPTH then Failure(Limit)
      else if |b| > 1 && b[1] == 0x5D then Success((Arr([]), b[2..]))
      else
        match ScanItems(b[1..], depth + 1)
        case Failure(e) => Failure(e)
        case Success((items, rest)) => Success((Arr(items), rest))
    else if b[0] == 0x22 then
      match ScanString(b)
      case Failure(e) => Failure(e)
      case Success((s, rest)) => Success((Str(s), rest))
    else if b[0] == 0x74 then ScanLiteral(b, TRUE_TEXT, True)
    else if b[0] == 0x66 then ScanLiteral(b, FALSE_TEXT, False)
    else if b[0] == 0x6E then ScanLiteral(b, NULL_TEXT, Null)
    else ScanNumber(b)
  }

  /** The loop of `parse_array` after the opening bracket. */
  function ScanItems(b: bytes, depth: nat): (r: Result<(seq<Json>, bytes), Status>)
    ensures r.Success? ==> |r.value.1| < |b| && r.value.0 != []
    ensures r.Failure? ==> r.error != OK
    decreases |b|, 2
  {
    match ScanValue(b, depth)
    case Failure(e) => Failure(e)
    case Success((j, rest)) =>
      if rest == [] then Failure(Truncated)
      else if rest[0] == 0x5D then Success(([j], rest[1..]))
      else if rest[0] != 0x2C then Failure(Status.Canonical)
      else
        match ScanItems(rest[1..], depth)
        case Failure(e) => Failure(e)
        case Success((js, last)) => Success(([j] + js, last))
  }

  /** One member of an object; `previous` is the last key's raw text. */
  function ScanMember(b: bytes, depth: nat, previous: Option<bytes>): (r: Result<(Member, bytes), Status>)
    ensures r.Success? ==> |r.value.1| < |b|
    ensures r.Failure? ==> r.error != OK
    decreases |b|, 2
  {
    match ScanString(b)
    case Failure(e) => Failure(e)
    case Success((key, afterKey)) =>
      if previous.Some? && !Less(previous.value, EscapeAll(key)) then Failure(Status.Canonical)
      else if afterKey == [] || afterKey[0] != 0x3A then Failure(Status.Canonical)
      else
        match ScanValue(afterKey[1..], depth)
        case Failure(e) => Failure(e)
        case Success((j, rest)) => Success((Member(key, j), rest))
  }

  /** The loop of `parse_object` after the opening brace. */
  function ScanMembers(b: bytes, depth: nat, previous: Option<bytes>)
    : (r: Result<(seq<Member>, bytes), Status>)
    ensures r.Success? ==> |r.value.1| < |b| && r.value.0 != []
    ensures r.Failure? ==> r.error != OK
    decreases |b|, 3
  {
    match ScanMember(b, depth, previous)
    case Failure(e) => Failure(e)
    case Success((m, rest)) =>
      if rest == [] then Failure(Truncated)
      else if rest[0] == 0x7D then Success(([m], rest[1..]))
      else if rest[0] != 0x2C then Failure(Status.Canonical)
      else
        match ScanMembers(rest[1..], depth, Some(EscapeAll(m.key)))
        case Failure(e) => Failure(e)
        case Success((ms, last)) => Success(([m] + ms, last))
  }

  /** What `otrl_validate_canonical_json` answers. */
  ghost function ValidateStatus(b: bytes): Status {
    if b == [] then Schema
    else if |b| > MAX_RECORD_PAYLOAD_BYTES then Limit
    else if |b| >= 3 && b[..3] == [0xEF, 0xBB, 0xBF] then Status.Canonical
    else if !Utf8.WellFormed(b) then Status.Canonical
    else
      match ScanValue(b, 0)
      case Failure(e) => e
      case Success((_, rest)) => if rest == [] then OK else Status.Canonical
  }

  /** Well-formed text, within the length limit, that renders a canonical tree. */
  ghost predicate CanonicalText(b: bytes) {
    |b| <= MAX_RECORD_PAYLOAD_BYTES && Utf8.WellFormed(b) && exists j :: Canonical(j, 0) && b == Render(j)
  }
}
