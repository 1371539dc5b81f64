/**
 The textual hardware address and its scan.

 `mac_from_str` hands the string to `sscanf` with the format
 `"%x:%x:%x:%x:%x:%x"`. Each `%x` conversion reads a maximal run of
 hexadecimal digits; each `:` in the format must match a `:` in the input.
 The scan stops at the first mismatch, and its result is the values of the
 conversions that succeeded, in order. The address parses when all six
 conversions succeed; whatever follows the sixth field is never looked at.
 */
module HexScan {
  import opened Wrappers
  import opened MagicPacket

  /** The one literal character between two conversions of the format. */
  const Separator: char := ':'

  predicate IsHexDigit(c: char) {
    '0' <= c <= '9' || 'a' <= c <= 'f' || 'A' <= c <= 'F'
  }

  function HexDigitValue(c: char): (v: nat)
    requires IsHexDigit(c)
    ensures v < 16
  {
    if '0' <= c <= '9' then c as int - '0' as int
    else if 'a' <= c <= 'f' then c as int - 'a' as int + 10
    else c as int - 'A' as int + 10
  }

  /** The lower-case digit for a value below 16. */
  function HexDigitChar(v: nat): (c: char)
    requires v < 16
    ensures IsHexDigit(c) && HexDigitValue(c) == v
  {
    if v < 10 then ('0' as int + v) as char else ('a' as int + v - 10) as char
  }

  /** Every character is a hex digit. */
  predicate AllHexDigits(d: string) {
    d == [] || (IsHexDigit(d[0]) && AllHexDigits(d[1..]))
  }

  /** A field that one `%x` conversion accepts: one or more hex digits. */
  predicate IsHexRun(d: string) {
    |d| > 0 && AllHexDigits(d)
  }

  /** What may follow a field: a `%x` conversion reads digits as long as there are any. */
  predicate EndsField(rest: string) {
    rest == [] || !IsHexDigit(rest[0])
  }

  /**
   The conversion's accumulation: starting from `acc`, each digit
   multiplies the value by 16 and adds itself.
   */
  function HexValue(acc: nat, d: string): (v: nat)
    requires AllHexDigits(d)
    ensures acc <= v
    decreases d
  {
    if d == [] then acc else HexValue(acc * 16 + HexDigitValue(d[0]), d[1..])
  }

  /** The value of a run of hex digits, most significant digit first. */
  function HexNumber(d: string): (v: nat)
    requires AllHexDigits(d)
    ensures v < Pow16(|d|)
  {
    HexValueBound(0, d);
    HexValue(0, d)
  }

  /** 16 to the power `k`. */
  function Pow16(k: nat): (p: nat)
    ensures p >= 1
  {
    if k == 0 then 1 else 16 * Pow16(k - 1)
  }

  /**
   `k` more digits after a value `acc` give a value from `acc * 16^k` up to,
   but not including, `(acc + 1) * 16^k`.
   */
  lemma {:induction false} HexValueBound(acc: nat, d: string)
    requires AllHexDigits(d)
    ensures acc * Pow16(|d|) <= HexValue(acc, d) < (acc + 1) * Pow16(|d|)
    decreases d
  {
    if d != [] {
      var x := HexDigitValue(d[0]);
      HexValueBound(acc * 16 + x, d[1..]);
      BoundStep(acc, x, Pow16(|d| - 1), HexValue(acc * 16 + x, d[1..]));
    }
  }

  /** The arithmetic of one digit in `HexValueBound`. */
  lemma BoundStep(acc: nat, x: nat, p: nat, v: nat)
    requires x < 16
    requires (acc * 16 + x) * p <= v < (acc * 16 + x + 1) * p
    ensures acc * (16 * p) <= v < (acc + 1) * (16 * p)
  {
    assert acc * (16 * p) == acc * 16 * p;
    assert (acc + 1) * (16 * p) == (acc * 16 + 16) * p;
    assert acc * 16 * p <= (acc * 16 + x) * p;
    assert (acc * 16 + x + 1) * p <= (acc * 16 + 16) * p;
  }

  /**
   Positional value: one more digit at the end multiplies the value read so
   far by 16 and adds the digit.
   */
  lemma {:induction false} HexValueAppend(acc: nat, d: string, c: char)
    requires AllHexDigits(d) && IsHexDigit(c)
    ensures AllHexDigits(d + [c])
    ensures HexValue(acc, d + [c]) == HexValue(acc, d) * 16 + HexDigitValue(c)
    decreases d
  {
    if d == [] {
      assert d + [c] == [c] && [c][1..] == [];
    } else {
      assert (d + [c])[0] == d[0] && (d + [c])[1..] == d[1..] + [c];
      HexValueAppend(acc * 16 + HexDigitValue(d[0]), d[1..], c);
    }
  }

  /** What one `%x` conversion does: the digits it reads and the text after them. */
  datatype Converted = Converted(digits: string, after: string)

  /**
   One `%x` conversion reads the longest run of hex digits at the front of
   `s`; the text after them does not start with a digit.
   */
  function Convert(s: string): (c: Converted)
    ensures AllHexDigits(c.digits) && EndsField(c.after)
    ensures s == c.digits + c.after
  {
    if s == [] || !IsHexDigit(s[0]) then Converted([], s)
    else
      var c := Convert(s[1..]);
      assert ([s[0]] + c.digits)[1..] == c.digits;
      Converted([s[0]] + c.digits, c.after)
  }

  /** Where a scan got to: the fields it converted and the text it did not read. */
  datatype Scanned = Scanned(fields: seq<string>, rest: string)

  /**
   The scan of `s` when at most `n` more conversions remain in the format:
   convert a field, and go on past a `:` while conversions remain.
   */
  function ScanFields(s: string, n: nat): (r: Scanned)
    ensures |r.fields| <= n
    decreases n
  {
    if n == 0 then Scanned([], s)
    else
      var c := Convert(s);
      if c.digits == [] then Scanned([], s)
      else if n == 1 || c.after == [] || c.after[0] != Separator then Scanned([c.digits], c.after)
      else
        var more := ScanFields(c.after[1..], n - 1);
        Scanned([c.digits] + more.fields, more.rest)
  }

  /** Every field is a run of hex digits. */
  predicate AllHexRuns(fields: seq<string>) {
    fields == [] || (IsHexRun(fields[0]) && AllHexRuns(fields[1..]))
  }

  /** The values of the fields, in order. */
  function Values(fields: seq<string>): (vs: seq<nat>)
    requires AllHexRuns(fields)
    ensures |vs| == |fields|
  {
    if fields == [] then [] else [HexNumber(fields[0])] + Values(fields[1..])
  }

  /** The values `sscanf` stores, octet one first; its return value is their number. */
  function Scan(s: string): (vs: seq<nat>)
    ensures |vs| <= AddressLength
  {
    ScanFieldsAreHexRuns(s, AddressLength);
    Values(ScanFields(s, AddressLength).fields)
  }

  /** The six octets of the address, or None when fewer than six conversions succeed. */
  function ParseMac(s: string): (r: Option<seq<nat>>)
    ensures r.Some? ==> |r.value| == AddressLength
  {
    var vs := Scan(s);
    if |vs| == AddressLength then Some(vs) else None
  }

  /** Each conversion that succeeds has read one or more hex digits. */
  lemma {:induction false} ScanFieldsAreHexRuns(s: string, n: nat)
    ensures AllHexRuns(ScanFields(s, n).fields)
    decreases n
  {
    var c := Convert(s);
    if n > 0 && c.digits != [] {
      assert IsHexRun(c.digits);
      if !(n == 1 || c.after == [] || c.after[0] != Separator) {
        ScanFieldsAreHexRuns(c.after[1..], n - 1);
        assert ScanFields(s, n).fields[1..] == ScanFields(c.after[1..], n - 1).fields;
      }
    }
  }

  /** The fields written out with the separator between them. */
  function Join(fields: seq<string>): string
  {
    if |fields| <= 1 then (if fields == [] then "" else fields[0])
    else fields[0] + [Separator] + Join(fields[1..])
  }

  /** `s` is the fields, separated, followed by text that does not continue the last field. */
  ghost predicate Spells(s: string, fields: seq<string>, rest: string) {
    && AllHexRuns(fields)
    && s == Join(fields) + rest
    && EndsField(rest)
  }

  /** A conversion stops exactly where the digits stop. */
  lemma {:induction false} ConvertOf(d: string, tail: string)
    requires AllHexDigits(d) && EndsField(tail)
    ensures Convert(d + tail) == Converted(d, tail)
  {
    if d != [] {
      assert (d + tail)[0] == d[0];
      assert (d + tail)[1..] == d[1..] + tail;
      ConvertOf(d[1..], tail);
      assert [d[0]] + d[1..] == d;
    } else {
      assert d + tail == tail;
    }
  }

  /** A field followed by the separator: one conversion, then the scan goes on after the separator. */
  lemma ScanFieldsStep(d: string, t: string, n: nat)
    requires IsHexRun(d) && n >= 2
    ensures ScanFields(d + [Separator] + t, n)
         == Scanned([d] + ScanFields(t, n - 1).fields, ScanFields(t, n - 1).rest)
  {
    var s, after := d + [Separator] + t, [Separator] + t;
    assert s == d + after;
    ConvertOf(d, after);
    assert Convert(s) == Converted(d, after);
    assert after[1..] == t;
  }

  /** A field followed by text that is not the separator: the scan ends after it. */
  lemma ScanFieldsLast(d: string, rest: string, n: nat)
    requires IsHexRun(d) && n >= 1 && EndsField(rest)
    requires n == 1 || rest == [] || rest[0] != Separator
    ensures ScanFields(d + rest, n) == Scanned([d], rest)
  {
    ConvertOf(d, rest);
  }

  /** The first field, the separator, then the others. */
  lemma JoinCons(fields: seq<string>, rest: string)
    requires |fields| >= 2
    ensures Join(fields) + rest == fields[0] + [Separator] + (Join(fields[1..]) + rest)
  {
  }

  /**
   Scanning separated fields gives back the fields: all of them when the
   format has room for them all, and no more when the text after the last
   one does not start with the separator.
   */
  lemma {:induction false} ScanJoined(fields: seq<string>, rest: string, n: nat)
    requires 1 <= |fields| <= n
    requires AllHexRuns(fields)
    requires EndsField(rest)
    requires |fields| < n ==> rest == [] || rest[0] != Separator
    ensures ScanFields(Join(fields) + rest, n) == Scanned(fields, rest)
  {
    if |fields| == 1 {
      ScanFieldsLast(fields[0], rest, n);
    } else {
      ScanJoined(fields[1..], rest, n - 1);
      ScanJoinedCons(fields, rest, rest, n);
    }
  }

  /**
   The step of `ScanJoined`: the first field, then the scan of the others
   followed by `t`, which leaves `r` unread.
   */
  lemma ScanJoinedCons(fields: seq<string>, t: string, r: string, n: nat)
    requires 2 <= |fields| <= n && IsHexRun(fields[0])
    requires ScanFields(Join(fields[1..]) + t, n - 1) == Scanned(fields[1..], r)
    ensures ScanFields(Join(fields) + t, n) == Scanned(fields, r)
  {
    JoinCons(fields, t);
    ScanFieldsStep(fields[0], Join(fields[1..]) + t, n);
    assert fields == [fields[0]] + fields[1..];
  }

  /** Text that does not start with a digit: the next conversion fails and reads nothing. */
  lemma ScanFieldsNoDigit(s: string, n: nat)
    requires EndsField(s)
    ensures ScanFields(s, n) == Scanned([], s)
  {
    ConvertOf([], s);
    assert [] + s == s;
  }

  /**
   Fields joined by `:` and then one more `:` followed by text that does
   not start with a digit: the conversion after that `:` fails, so the scan
   gives back the fields and leaves the text after the `:` unread.
   */
  lemma {:induction false} ScanJoinedColon(fields: seq<string>, rest: string, n: nat)
    requires 1 <= |fields| < n
    requires AllHexRuns(fields)
    requires EndsField(rest)
    ensures ScanFields(Join(fields) + ([Separator] + rest), n) == Scanned(fields, rest)
  {
    if |fields| == 1 {
      ScanColonLast(fields[0], rest, n);
      assert Join(fields) == fields[0];
    } else {
      ScanJoinedColon(fields[1..], rest, n - 1);
      ScanJoinedCons(fields, [Separator] + rest, rest, n);
    }
  }

  /** The base case of `ScanJoinedColon`: one field, a `:`, then no digit. */
  lemma ScanColonLast(d: string, rest: string, n: nat)
    requires IsHexRun(d) && n >= 2 && EndsField(rest)
    ensures ScanFields(d + ([Separator] + rest), n) == Scanned([d], rest)
  {
    var s := d + [Separator] + rest;
    assert d + ([Separator] + rest) == s;
    ScanFieldsNoDigit(rest, n - 1);
    ScanFieldsStep(d, rest, n);
    assert [d] + ScanFields(rest, n - 1).fields == [d];
  }

  /** A field and the separator in front of separated fields make one more field. */
  lemma JoinPrepend(d: string, r: string, inner: seq<string>, rest: string)
    requires |inner| >= 1 && r == Join(inner) + rest
    ensures d + [Separator] + r == Join([d] + inner) + rest
  {
    JoinCons([d] + inner, rest);
    assert ([d] + inner)[1..] == inner;
  }

  /**
   When `n` conversions succeed, the string is their fields, separated,
   then the unread text, which does not continue the last field.
   */
  lemma {:induction false} ScanFieldsSpelled(s: string, n: nat)
    requires 1 <= n && |ScanFields(s, n).fields| == n
    ensures s == Join(ScanFields(s, n).fields) + ScanFields(s, n).rest
    ensures EndsField(ScanFields(s, n).rest)
    decreases n
  {
    var c := Convert(s);
    if !(n == 1 || c.after == [] || c.after[0] != Separator) {
      var r := c.after[1..];
      var inner := ScanFields(r, n - 1);
      ScanFieldsSpelled(r, n - 1);
      JoinPrepend(c.digits, r, inner.fields, inner.rest);
      assert c.after == [Separator] + r;
    }
  }

  /**
   Every scan that converts a field ends one of two ways: the text is the
   fields joined by `:`, then unread text that does not continue the last
   field; or, with conversions left, the fields, a `:`, and then text at
   which the next conversion failed.
   */
  lemma {:induction false} ScanFieldsSplit(s: string, n: nat)
    requires |ScanFields(s, n).fields| >= 1
    ensures var r := ScanFields(s, n);
      && EndsField(r.rest)
      && (s == Join(r.fields) + r.rest
          || (|r.fields| < n && s == Join(r.fields) + ([Separator] + r.rest)))
    decreases n
  {
    var c := Convert(s);
    var d := c.digits;
    if n == 1 || c.after == [] || c.after[0] != Separator {
      assert ScanFields(s, n) == Scanned([d], c.after);
      assert Join([d]) == d;
    } else {
      var r := c.after[1..];
      var inner := ScanFields(r, n - 1);
      assert c.after == [Separator] + r;
      assert s == d + [Separator] + r;
      assert ScanFields(s, n) == Scanned([d] + inner.fields, inner.rest);
      if inner.fields == [] {
        var c2 := Convert(r);
        assert c2.digits == [];
        assert r == c2.after;
        assert Join([d]) == d;
      } else {
        ScanFieldsSplit(r, n - 1);
        if r == Join(inner.fields) + inner.rest {
          JoinPrepend(d, r, inner.fields, inner.rest);
        } else {
          JoinPrepend(d, r, inner.fields, [Separator] + inner.rest);
        }
      }
    }
  }

  /**
   The parse succeeds with octets `m` exactly when the string is six hex
   fields separated by `:` whose values are `m`, followed by anything that
   does not continue the sixth field.
   */
  lemma ParseMacSpec(s: string, m: seq<nat>)
    ensures ParseMac(s) == Some(m) <==>
      exists fields: seq<string>, rest: string ::
        |fields| == AddressLength && Spells(s, fields, rest) && m == Values(fields)
  {
    var r := ScanFields(s, AddressLength);
    if ParseMac(s) == Some(m) {
      ScanFieldsSpelled(s, AddressLength);
      ScanFieldsAreHexRuns(s, AddressLength);
      assert Spells(s, r.fields, r.rest);
    }
    if exists fields: seq<string>, rest: string ::
         |fields| == AddressLength && Spells(s, fields, rest) && m == Values(fields) {
      var fields: seq<string>, rest: string :|
        |fields| == AddressLength && Spells(s, fields, rest) && m == Values(fields);
      ScanJoined(fields, rest, AddressLength);
    }
  }

  /** Fewer than six fields never parse when the text after them is not a separator. */
  lemma TooFewFieldsRejected(fields: seq<string>, rest: string)
    requires 1 <= |fields| < AddressLength
    requires AllHexRuns(fields) && EndsField(rest)
    requires rest == [] || rest[0] != Separator
    ensures ParseMac(Join(fields) + rest) == None
  {
    ScanJoined(fields, rest, AddressLength);
  }

  /**
   A field followed by anything but `:` ends the scan after one conversion,
   so `-` (or any other character) does not separate fields.
   */
  lemma OnlyColonSeparates(d: string, c: char, rest: string)
    requires IsHexRun(d) && !IsHexDigit(c) && c != Separator
    ensures Scan(d + [c] + rest) == [HexNumber(d)]
    ensures ParseMac(d + [c] + rest) == None
  {
    ScanJoined([d], [c] + rest, AddressLength);
    assert Join([d]) + ([c] + rest) == d + [c] + rest;
  }

  /**
   One to five fields, a `:`, and then no digit: `sscanf` stores the values
   of those fields and returns fewer than 6, so the parse fails.
   */
  lemma ScanStopsAfterColon(fields: seq<string>, rest: string)
    requires 1 <= |fields| < AddressLength
    requires AllHexRuns(fields) && EndsField(rest)
    ensures Scan(Join(fields) + ([Separator] + rest)) == Values(fields)
    ensures ParseMac(Join(fields) + ([Separator] + rest)) == None
  {
    ScanJoinedColon(fields, rest, AddressLength);
  }

  /** Text appended after a spelled address that does not continue its last field. */
  lemma SpellsExtended(s: string, fields: seq<string>, rest: string, t: string)
    requires Spells(s, fields, rest) && EndsField(t)
    ensures Spells(s + t, fields, rest + t)
  {
    if rest == [] {
      assert rest + t == t;
    } else {
      assert (rest + t)[0] == rest[0];
    }
    assert s + t == Join(fields) + (rest + t);
  }

  /** Text after a parsed address that does not extend its sixth field is ignored. */
  lemma TrailingTextIgnored(s: string, t: string, m: seq<nat>)
    requires ParseMac(s) == Some(m)
    requires EndsField(t)
    ensures ParseMac(s + t) == Some(m)
  {
    var r := ScanFields(s, AddressLength);
    ScanFieldsSpelled(s, AddressLength);
    ScanFieldsAreHexRuns(s, AddressLength);
    SpellsExtended(s, r.fields, r.rest, t);
    ScanJoined(r.fields, r.rest + t, AddressLength);
  }

  /** One octet below 256 as two lower-case hex digits. */
  function HexOctet(b: nat): (d: string)
    requires b < 256
    ensures IsHexRun(d) && |d| == 2 && HexNumber(d) == b
  {
    var hi, lo := HexDigitChar(b / 16), HexDigitChar(b % 16);
    var d := [hi, lo];
    assert d[1..] == [lo] && [lo][1..] == [];
    assert AllHexDigits([lo]);
    assert HexValue(0, d) == HexValue(HexDigitValue(hi), [lo]);
    assert HexValue(HexDigitValue(hi), [lo]) == HexValue((b / 16) * 16 + b % 16, []);
    d
  }

  /** Each octet as two hex digits, in order. */
  function OctetFields(m: seq<nat>): (fields: seq<string>)
    requires forall k :: 0 <= k < |m| ==> m[k] < 256
    ensures |fields| == |m|
  {
    seq(|m|, k requires 0 <= k < |m| => HexOctet(m[k]))
  }

  /** The octets written as fields are runs of hex digits that evaluate back to the octets. */
  lemma {:induction false} OctetFieldsValues(m: seq<nat>)
    requires forall k :: 0 <= k < |m| ==> m[k] < 256
    ensures AllHexRuns(OctetFields(m)) && Values(OctetFields(m)) == m
  {
    if m != [] {
      OctetFieldsValues(m[1..]);
      assert OctetFields(m)[1..] == OctetFields(m[1..]);
    }
  }

  /** The address in the `01:23:45:67:89:ab` form. */
  function FormatMac(m: seq<nat>): string
    requires |m| == AddressLength && forall k :: 0 <= k < |m| ==> m[k] < 256
  {
    Join(OctetFields(m))
  }

  /** Every address written in the colon form parses back to its octets. */
  lemma ParseFormat(m: seq<nat>)
    requires |m| == AddressLength && forall k :: 0 <= k < |m| ==> m[k] < 256
    ensures ParseMac(FormatMac(m)) == Some(m)
  {
    OctetFieldsValues(m);
    ScanJoined(OctetFields(m), "", AddressLength);
    assert Join(OctetFields(m)) + "" == FormatMac(m);
  }

  /** The address of the usage text is the colon form of its six octets. */
  lemma ExampleAddressFormat()
    ensures FormatMac([0x01, 0x23, 0x45, 0x67, 0x89, 0xab]) == "01:23:45:67:89:ab"
  {
    ExampleOctetFields();
    ExampleJoin();
  }

  lemma ExampleOctetFields()
    ensures OctetFields([0x01, 0x23, 0x45, 0x67, 0x89, 0xab]) == ["01", "23", "45", "67", "89", "ab"]
  {
    assert HexOctet(0x01) == "01";
    assert HexOctet(0x23) == "23";
    assert HexOctet(0x45) == "45";
    assert HexOctet(0x67) == "67";
    assert HexOctet(0x89) == "89";
    assert HexOctet(0xab) == "ab";
  }

  lemma ExampleJoin()
    ensures Join(["01", "23", "45", "67", "89", "ab"]) == "01:23:45:67:89:ab"
  {
  }

  /** The address of the usage text parses to its six octets in order. */
  lemma ExampleAddressParses()
    ensures ParseMac("01:23:45:67:89:ab") == Some([0x01, 0x23, 0x45, 0x67, 0x89, 0xab])
  {
    ParseFormat([0x01, 0x23, 0x45, 0x67, 0x89, 0xab]);
    ExampleAddressFormat();
  }

  /** The dash-separated form is rejected: the scan stops after the first field. */
  lemma DashFormRejected()
    ensures Scan("01-23-45-67-89-ab") == [0x01]
    ensures ParseMac("01-23-45-67-89-ab") == None
  {
    var s := "01-23-45-67-89-ab";
    var d := s[..2];
    assert d == HexOctet(0x01);
    assert s == d + [s[2]] + s[3..];
    OnlyColonSeparates(d, s[2], s[3..]);
  }

  /** Text that does not start with a hex digit yields no conversion at all. */
  lemma NoDigitRejected(s: string)
    requires EndsField(s)
    ensures Scan(s) == []
    ensures ParseMac(s) == None
  {
    ScanFieldsNoDigit(s, AddressLength);
  }

  /** A word that begins with a letter beyond `f` yields no conversion at all. */
  lemma NotAnAddressRejected()
    ensures Scan("not-a-mac") == []
    ensures ParseMac("not-a-mac") == None
  {
  }
}
