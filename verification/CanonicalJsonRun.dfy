/** The recursive-descent recognizer itself: a cursor with an offset and a nesting depth, advanced in place. */
module CanonicalJsonRun {
  import opened Wrappers
  import opened Bytes
  import opened TapeFormat
  import opened CanonicalJson
  import CanonicalJsonExact
  import Utf8

  /** `part` is what is left of a scan that will answer `whole`. */
  predicate Remains<T>(whole: Result<(T, bytes), Status>, part: Result<(T, bytes), Status>) {
    match part
    case Failure(e) => whole == Failure(e)
    case Success((_, rest)) => whole.Success? && whole.value.1 == rest
  }

  /** A parser that returned `status` with `rest` unread did what the scan says. */
  predicate Did<T>(scan: Result<(T, bytes), Status>, status: Status, rest: bytes) {
    match scan
    case Failure(e) => status == e
    case Success((_, unread)) => status == OK && rest == unread
  }

  /** `raw_key_order`: negative, zero or positive as `memcmp` and the lengths decide. */
  method RawKeyOrder(left: bytes, right: bytes) returns (order: int)
    ensures order < 0 <==> Less(left, right)
    ensures order == 0 <==> left == right
  {
    var common := if |left| < |right| then |left| else |right|;
    var i := 0;
    while i < common
      invariant i <= common && left[..i] == right[..i]
      invariant Less(left, right) <==> Less(left[i..], right[i..])
    {
      if left[i] != right[i] {
        return (left[i] as int) - right[i];
      }
      assert left[..i + 1] == left[..i] + [left[i]] && right[..i + 1] == right[..i] + [right[i]];
      i := i + 1;
    }
    assert |left| == |right| ==> left == left[..i] == right[..i] == right;
    order := if |left| < |right| then -1 else if |left| > |right| then 1 else 0;
  }

  /** The value of the first `j` of four hexadecimal digits. */
  function UnitOf(u: bytes, j: nat): nat
    requires 1 <= j <= 4 && j <= |u| && forall k :: 0 <= k < j ==> HexValue(u[k]).Some?
  {
    (if j == 1 then 0 else UnitOf(u, j - 1)) * 16 + HexValue(u[j - 1]).value
  }

  lemma NextUnit(u: bytes, j: nat)
    requires j < 4 && j < |u| && forall k :: 0 <= k <= j ==> HexValue(u[k]).Some?
    ensures UnitOf(u, j + 1) == (if j == 0 then 0 else UnitOf(u, j)) * 16 + HexValue(u[j]).value
  {
  }

  lemma ShortUnicode(u: bytes)
    requires |u| < 4
    ensures UnicodeEscape(u) == Failure(Truncated)
  {
  }

  lemma BadDigit(u: bytes, j: nat)
    requires j < 4 <= |u| && HexValue(u[j]).None?
    ensures UnicodeEscape(u) == Failure(Status.Canonical)
  {
    assert j == 0 || j == 1 || j == 2 || j == 3;
  }

  lemma FourDigits(u: bytes)
    requires |u| >= 4 && forall k :: 0 <= k < 4 ==> HexValue(u[k]).Some?
    ensures var unit := UnitOf(u, 4);
            UnicodeEscape(u) ==
            if unit >= 0x20 || unit == 0x08 || unit == 0x09 || unit == 0x0A || unit == 0x0C || unit == 0x0D
            then Failure(Status.Canonical) else Success(unit)
  {
    assert UnitOf(u, 2) == HexValue(u[0]).value * 16 + HexValue(u[1]).value;
    assert UnitOf(u, 4) == (UnitOf(u, 2) * 16 + HexValue(u[2]).value) * 16 + HexValue(u[3]).value;
  }

  class Cursor {
    const text: bytes
    var offset: nat
    var depth: nat

    constructor (text: bytes)
      ensures this.text == text && offset == 0 && depth == 0
    {
      this.text := text;
      offset := 0;
      depth := 0;
    }

    predicate Valid()
      reads this
    {
      offset <= |text|
    }

    function Rest(): bytes
      reads this
      requires Valid()
    {
      text[offset..]
    }

    /** The four digits after `\u`. */
    method ParseUnicode() returns (status: Status)
      requires Valid()
      modifies this`offset
      ensures Valid() && offset >= old(offset)
      ensures match UnicodeEscape(old(Rest()))
              case Failure(e) => status == e
              case Success(_) => status == OK && offset == old(offset) + 4
    {
      hide UnicodeEscape, HexValue, UnitOf;
      ghost var u := Rest();
      if |text| - offset < 4 {
        ShortUnicode(u);
        return Truncated;
      }
      var unit, j := 0, 0;
      while j < 4
        invariant j <= 4 && offset == old(offset)
        invariant forall k :: 0 <= k < j ==> HexValue(u[k]).Some?
        invariant unit == if j == 0 then 0 else UnitOf(u, j)
      {
        var digit := HexValue(text[offset + j]);
        assert u[j] == text[offset + j];
        if digit.None? {
          BadDigit(u, j);
          return Status.Canonical;
        }
        NextUnit(u, j);
        unit := unit * 16 + digit.value;
        j := j + 1;
      }
      FourDigits(u);
      offset := offset + 4;
      if unit >= 0x20 || unit == 0x08 || unit == 0x09 || unit == 0x0A || unit == 0x0C || unit == 0x0D {
        return Status.Canonical;
      }
      status := OK;
    }

    /** What follows a backslash inside a string. */
    method ParseEscape() returns (status: Status)
      requires Valid() && offset > 0 && text[offset - 1] == 0x5C
      modifies this`offset
      ensures Valid() && offset >= old(offset)
      ensures if status == OK then Remains(ScanText(text[old(offset) - 1..]), ScanText(Rest()))
              else ScanText(text[old(offset) - 1..]) == Failure(status)
    {
      hide UnicodeEscape;
      ghost var b := text[offset - 1..];
      if offset >= |text| {
        return Truncated;
      }
      var escaped := text[offset];
      offset := offset + 1;
      assert b[1] == escaped && Rest() == b[2..];
      if ShortEscape(escaped).Some? {
        return OK;
      }
      if escaped != 0x75 {
        return Status.Canonical;
      }
      status := ParseUnicode();
      assert status == OK ==> Rest() == b[6..];
    }

    /** `parse_string`; the raw text is `text[start..end]`. */
    method ParseString() returns (status: Status, start: nat, end: nat)
      requires Valid()
      modifies this`offset
      ensures Valid() && start <= end <= |text|
      ensures Did(ScanString(old(Rest())), status, Rest())
      ensures status == OK ==> text[start..end] == EscapeAll(ScanString(old(Rest())).value.0)
    {
      hide UnicodeEscape, ShortEscape;
      start, end := 0, 0;
      if offset >= |text| || text[offset] != 0x22 {
        return Status.Canonical, 0, 0;
      }
      offset := offset + 1;
      start, end := offset, offset;
      ghost var inner := Rest();
      while offset < |text|
        invariant start <= offset <= |text| && end == start
        invariant Remains(ScanText(inner), ScanText(Rest()))
        decreases |text| - offset
      {
        var c := text[offset];
        ghost var b := Rest();
        offset := offset + 1;
        assert b[0] == c && b[1..] == Rest();
        if c == 0x22 {
          end := offset - 1;
          RawText(start, end);
          return OK, start, end;
        }
        if c < 0x20 {
          return Status.Canonical, start, end;
        }
        if c == 0x5C {
          var s := ParseEscape();
          if s != OK {
            return s, start, end;
          }
        }
      }
      status := Truncated;
    }

    /** The bytes between the quotes are the escapes of the string they stand for. */
    lemma RawText(start: nat, end: nat)
      requires start <= end < |text|
      requires ScanText(text[start..]).Success? && ScanText(text[start..]).value.1 == text[end + 1..]
      ensures text[start..end] == EscapeAll(ScanText(text[start..]).value.0)
    {
      CanonicalJsonExact.TextSound(text[start..]);
      var (s, rest) := ScanText(text[start..]).value;
      assert |EscapeAll(s)| == end - start;
      assert text[start..end] == text[start..][..end - start];
    }

    /** `parse_number`. */
    method ParseNumber() returns (status: Status)
      requires Valid() && offset < |text|
      modifies this`offset
      ensures Valid()
      ensures Did(ScanNumber(old(Rest())), status, Rest())
    {
      hide ScanDigits;
      var start := offset;
      var negative := text[offset] == 0x2D;
      if negative {
        offset := offset + 1;
        if offset >= |text| {
          return Truncated;
        }
      }
      ghost var m := Rest();
      assert m == if negative then old(Rest())[1..] else old(Rest());
      if text[offset] == 0x30 {
        offset := offset + 1;
        if offset < |text| && IsDigit(text[offset]) {
          return Status.Canonical;
        }
        assert ScanMagnitude(m) == Success((0, Rest()));
      } else {
        if !IsDigit(text[offset]) {
          return Status.Canonical;
        }
        status := ParseDigits();
        if status != OK {
          return;
        }
      }
      if offset < |text| && (text[offset] == 0x2E || text[offset] == 0x65 || text[offset] == 0x45) {
        return Schema;
      }
      status := if offset > start + (if negative then 1 else 0) then OK else Status.Canonical;
    }

    /** The digits of a number that does not start with zero. */
    method ParseDigits() returns (status: Status)
      requires Valid() && offset < |text| && IsDigit(text[offset]) && text[offset] != 0x30
      modifies this`offset
      ensures Valid() && (status == OK ==> offset > old(offset))
      ensures Did(ScanMagnitude(old(Rest())), status, Rest())
    {
      var value: nat := 0;
      ghost var m := Rest();
      assert ScanMagnitude(m) == ScanDigits(m, 0);
      while offset < |text| && IsDigit(text[offset])
        invariant old(offset) <= offset <= |text| && value <= MAX_INTEGER
        invariant offset == old(offset) ==> Rest() == m && value == 0
        invariant ScanMagnitude(m) == ScanDigits(Rest(), value)
        decreases |text| - offset
      {
        var digit := text[offset] - 0x30;
        if value > (MAX_INTEGER - digit) / 10 {
          return Schema;
        }
        ghost var b := Rest();
        value := value * 10 + digit;
        offset := offset + 1;
        assert b[1..] == Rest();
      }
      status := OK;
    }

    /** One of the three literal names. */
    method ParseLiteral(name: bytes, ghost j: Json) returns (status: Status)
      requires Valid() && name != []
      modifies this`offset
      ensures Valid()
      ensures Did(ScanLiteral(old(Rest()), name, j), status, Rest())
    {
      if |text| - offset >= |name| && text[offset..offset + |name|] == name {
        assert text[offset..offset + |name|] == Rest()[..|name|];
        offset := offset + |name|;
        return OK;
      }
      assert |Rest()| >= |name| ==> text[offset..offset + |name|] == Rest()[..|name|];
      status := Status.Canonical;
    }

    /** `parse_value`. */
    method ParseValue() returns (status: Status)
      requires Valid()
      modifies this`offset, this`depth
      ensures Valid() && (status == OK ==> depth == old(depth))
      ensures Did(ScanValue(old(Rest()), old(depth)), status, Rest())
      decreases |text| - offset, 1
    {
      hide ScanNumber, ScanString, ScanItems, ScanMembers, ScanLiteral;
      if offset >= |text| {
        return Truncated;
      }
      match text[offset]
      case 0x7B => status := ParseObject();
      case 0x5B => status := ParseArray();
      case 0x22 =>
        var start, end;
        status, start, end := ParseString();
      case 0x74 => status := ParseLiteral(TRUE_TEXT, True);
      case 0x66 => status := ParseLiteral(FALSE_TEXT, False);
      case 0x6E => status := ParseLiteral(NULL_TEXT, Null);
      case _ => status := ParseNumber();
    }

    /** `parse_array`, at the opening bracket. */
    method ParseArray() returns (status: Status)
      requires Valid() && offset < |text| && text[offset] == 0x5B
      modifies this`offset, this`depth
      ensures Valid() && (status == OK ==> depth == old(depth))
      ensures Did(ScanValue(old(Rest()), old(depth)), status, Rest())
      decreases |text| - offset, 0
    {
      hide ScanNumber, ScanString, ScanMembers, ScanLiteral;
      ghost var b := Rest();
      offset := offset + 1;
      depth := depth + 1;
      ghost var items := Rest();
      assert items == b[1..];
      if depth > MAX_JSON_DEPTH {
        return Limit;
      }
      if offset < |text| && text[offset] == 0x5D {
        offset := offset + 1;
        depth := depth - 1;
        assert Rest() == b[2..];
        return OK;
      }
      assert Remains(ScanItems(items, depth), ScanItems(Rest(), depth));
      while true
        invariant Valid() && offset > old(offset) && depth == old(depth) + 1
        invariant Remains(ScanItems(items, depth), ScanItems(Rest(), depth))
        decreases |text| - offset
      {
        status := ParseValue();
        if status != OK {
          return;
        }
        if offset >= |text| {
          return Truncated;
        }
        if text[offset] == 0x5D {
          offset := offset + 1;
          depth := depth - 1;
          return;
        }
        var comma := text[offset] == 0x2C;
        offset := offset + 1;
        if !comma {
          return Status.Canonical;
        }
      }
    }

    /** `parse_object`, at the opening brace. */
    method ParseObject() returns (status: Status)
      requires Valid() && offset < |text| && text[offset] == 0x7B
      modifies this`offset, this`depth
      ensures Valid() && (status == OK ==> depth == old(depth))
      ensures Did(ScanValue(old(Rest()), old(depth)), status, Rest())
      decreases |text| - offset, 0
    {
      hide ScanNumber, ScanMember, ScanItems, ScanLiteral, EscapeAll;
      ghost var b := Rest();
      offset := offset + 1;
      depth := depth + 1;
      ghost var members := Rest();
      assert members == b[1..];
      if depth > MAX_JSON_DEPTH {
        return Limit;
      }
      if offset < |text| && text[offset] == 0x7D {
        offset := offset + 1;
        depth := depth - 1;
        assert Rest() == b[2..];
        return OK;
      }
      var start: nat, end: nat, havePrevious := 0, 0, false;
      while true
        invariant Valid() && offset > old(offset) && depth == old(depth) + 1 && start <= end <= |text|
        invariant Remains(ScanMembers(members, depth, None),
                          ScanMembers(Rest(), depth, Previous(havePrevious, start, end)))
        decreases |text| - offset
      {
        status, start, end := ParseMember(havePrevious, start, end);
        if status != OK {
          return;
        }
        havePrevious := true;
        if offset >= |text| {
          return Truncated;
        }
        if text[offset] == 0x7D {
          offset := offset + 1;
          depth := depth - 1;
          return;
        }
        var comma := text[offset] == 0x2C;
        offset := offset + 1;
        if !comma {
          return Status.Canonical;
        }
      }
    }

    /** One round of the loop of `parse_object`, up to what follows the value. */
    method ParseMember(havePrevious: bool, previousStart: nat, previousEnd: nat)
      returns (status: Status, start: nat, end: nat)
      requires Valid() && previousStart <= previousEnd <= |text|
      modifies this`offset, this`depth
      ensures Valid() && start <= end <= |text| && (status == OK ==> depth == old(depth))
      ensures var scan := ScanMember(old(Rest()), old(depth), Previous(havePrevious, previousStart, previousEnd));
              Did(scan, status, Rest()) && (status == OK ==> text[start..end] == EscapeAll(scan.value.0.key))
      decreases |text| - offset, 2
    {
      hide ScanString, ScanValue, EscapeAll, Less;
      status, start, end := ParseString();
      if status != OK {
        return;
      }
      if havePrevious {
        var order := RawKeyOrder(text[previousStart..previousEnd], text[start..end]);
        if order >= 0 {
          return Status.Canonical, start, end;
        }
      }
      if offset >= |text| {
        return Status.Canonical, start, end;
      }
      var colon := text[offset] == 0x3A;
      offset := offset + 1;
      if !colon {
        return Status.Canonical, start, end;
      }
      status := ParseValue();
    }

    /** The raw text of the key before, once there is one. */
    function Previous(have: bool, start: nat, end: nat): Option<bytes>
      requires start <= end <= |text|
    {
      if have then Some(text[start..end]) else None
    }
  }

  /** `otrl_validate_canonical_json`. */
  method ValidateCanonicalJson(text: bytes) returns (status: Status)
    ensures status == ValidateStatus(text)
    ensures status == OK <==> CanonicalText(text)
  {
    CanonicalJsonExact.AcceptedExactly(text);
    hide ScanValue, CanonicalText;
    if |text| == 0 {
      return Schema;
    }
    if |text| > MAX_RECORD_PAYLOAD_BYTES {
      return Limit;
    }
    if |text| >= 3 && text[0] == 0xEF && text[1] == 0xBB && text[2] == 0xBF {
      return Status.Canonical;
    }
    var wellFormed := Utf8.Utf8Valid(text);
    if !wellFormed {
      return Status.Canonical;
    }
    var cursor := new Cursor(text);
    assert cursor.Rest() == text;
    status := cursor.ParseValue();
    if status != OK {
      return;
    }
    status := if cursor.offset == |text| then OK else Status.Canonical;
  }
}
