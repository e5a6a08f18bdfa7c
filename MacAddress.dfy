/**
 * Parsing of the textual MAC address (`WOLHelper.ParseMacAddress`): the text is
 * split on ':' as `String.Split` does, and each of the six parts is converted
 * with `Convert.ToByte(part, 16)`.
 */
module MacAddress {
  import opened Wrappers
  import opened Bytes

  // ---------------------------------------------------------------------------
  // String.Split(char) and its inverse
  // ---------------------------------------------------------------------------

  /** `s.Split(sep)`: the pieces between separators, empty pieces included, at least one. */
  function Split(s: string, sep: char): (parts: seq<string>)
    ensures |parts| >= 1
    decreases |s|
  {
    if s == [] then [[]]
    else
      var rest := Split(s[1..], sep);
      if s[0] == sep then [[]] + rest
      else [[s[0]] + rest[0]] + rest[1..]
  }

  /** `String.Join(sep, parts)`. */
  function Join(parts: seq<string>, sep: char): string
    decreases |parts|
  {
    if parts == [] then []
    else if |parts| == 1 then parts[0]
    else parts[0] + [sep] + Join(parts[1..], sep)
  }

  /** Joining the pieces back with the separator gives the original text. */
  lemma {:induction false} JoinSplit(s: string, sep: char)
    ensures Join(Split(s, sep), sep) == s
    decreases |s|
  {
    if s != [] {
      JoinSplit(s[1..], sep);
      var rest := Split(s[1..], sep);
      if s[0] == sep {
        assert ([[]] + rest)[1..] == rest;
      } else {
        var parts := [[s[0]] + rest[0]] + rest[1..];
        assert parts[1..] == rest[1..];
        if |rest| > 1 {
          assert Join(rest, sep) == rest[0] + [sep] + Join(rest[1..], sep);
        }
      }
    }
  }

  /** No piece contains the separator. */
  lemma {:induction false} SplitPartsHaveNoSeparator(s: string, sep: char)
    ensures forall k :: 0 <= k < |Split(s, sep)| ==> sep !in Split(s, sep)[k]
    decreases |s|
  {
    if s != [] {
      SplitPartsHaveNoSeparator(s[1..], sep);
    }
  }

  /** There is one more piece than there are separators. */
  lemma {:induction false} SplitCount(s: string, sep: char)
    ensures |Split(s, sep)| == multiset(s)[sep] + 1
    decreases |s|
  {
    if s != [] {
      SplitCount(s[1..], sep);
      assert s == [s[0]] + s[1..];
      assert multiset(s) == multiset([s[0]]) + multiset(s[1..]);
    }
  }

  /** A text without the separator is a single piece. */
  lemma {:induction false} SplitWithoutSeparator(p: string, sep: char)
    requires sep !in p
    ensures Split(p, sep) == [p]
    decreases |p|
  {
    if p != [] {
      SplitWithoutSeparator(p[1..], sep);
      assert [p[0]] + p[1..] == p;
    }
  }

  /** A separator after a separator-free prefix ends the first piece there. */
  lemma {:induction false} SplitAfterPiece(p: string, sep: char, t: string)
    requires sep !in p
    ensures Split(p + [sep] + t, sep) == [p] + Split(t, sep)
    decreases |p|
  {
    var s := p + [sep] + t;
    if p == [] {
      assert s[1..] == t;
    } else {
      assert s[1..] == p[1..] + [sep] + t;
      SplitAfterPiece(p[1..], sep, t);
      assert [p[0]] + p[1..] == p;
    }
  }

  /** Splitting a join of separator-free pieces gives the pieces back. */
  lemma {:induction false} SplitJoin(parts: seq<string>, sep: char)
    requires |parts| >= 1
    requires forall k :: 0 <= k < |parts| ==> sep !in parts[k]
    ensures Split(Join(parts, sep), sep) == parts
    decreases |parts|
  {
    if |parts| == 1 {
      SplitWithoutSeparator(parts[0], sep);
    } else {
      SplitJoin(parts[1..], sep);
      SplitAfterPiece(parts[0], sep, Join(parts[1..], sep));
      assert [parts[0]] + parts[1..] == parts;
    }
  }

  // ---------------------------------------------------------------------------
  // Convert.ToByte(s, 16)
  // ---------------------------------------------------------------------------

  predicate IsHexDigit(c: char) {
    '0' <= c <= '9' || 'a' <= c <= 'f' || 'A' <= c <= 'F'
  }

  function DigitValue(c: char): (v: nat)
    requires IsHexDigit(c)
    ensures v < 16
  {
    if '0' <= c <= '9' then c as int - '0' as int
    else if 'a' <= c <= 'f' then c as int - 'a' as int + 10
    else c as int - 'A' as int + 10
  }

  predicate AllHexDigits(ds: string) {
    forall k :: 0 <= k < |ds| ==> IsHexDigit(ds[k])
  }

  /** The value of a string of hexadecimal digits, most significant first. */
  function HexValue(ds: string): nat
    requires AllHexDigits(ds)
    decreases |ds|
  {
    if ds == [] then 0 else HexValue(ds[..|ds| - 1]) * 16 + DigitValue(ds[|ds| - 1])
  }

  /** The text after an optional leading '+' sign. */
  function WithoutSign(s: string): string {
    if |s| > 0 && s[0] == '+' then s[1..] else s
  }

  /** The text after an optional "0x" or "0X" prefix, taken only when at least two characters remain. */
  function WithoutRadixPrefix(s: string): string {
    if |s| >= 2 && s[0] == '0' && (s[1] == 'x' || s[1] == 'X') then s[2..] else s
  }

  /**
   * `Convert.ToByte(s, 16)`, with `None` for every input on which it throws:
   * an optional '+' sign, then an optional "0x" or "0X" prefix, then one or
   * more hexadecimal digits up to the end of the text whose value is at most
   * 0xFF. Leading zeros are allowed; whitespace, a '-' sign and any other
   * character are not.
   */
  function ToByteBase16(s: string): Option<byte> {
    var digits := WithoutRadixPrefix(WithoutSign(s));
    if |digits| > 0 && AllHexDigits(digits) && HexValue(digits) <= 0xFF
    then Some(HexValue(digits) as byte)
    else None
  }

  /** Sign and prefix are stripped exactly, leaving the digits. */
  lemma DigitsAfterSignAndPrefix(sign: string, prefix: string, digits: string)
    requires sign == "" || sign == "+"
    requires prefix == "" || prefix == "0x" || prefix == "0X"
    requires |digits| > 0 && AllHexDigits(digits)
    ensures WithoutRadixPrefix(WithoutSign(sign + prefix + digits)) == digits
  {
    var unsigned := prefix + digits;
    if sign == "" {
      assert sign + prefix + digits == unsigned;
      if prefix == "" { assert IsHexDigit(unsigned[0]); }
    } else {
      assert (sign + prefix + digits)[1..] == unsigned;
    }
    assert WithoutSign(sign + prefix + digits) == unsigned;
    if prefix == "" {
      assert unsigned == digits;
      assert |digits| >= 2 ==> IsHexDigit(digits[1]);
    } else {
      assert unsigned[2..] == digits;
    }
  }

  /** Every spelling sign + prefix + digits with a value in byte range is accepted with that value. */
  lemma ToByteBase16Accepts(sign: string, prefix: string, digits: string)
    requires sign == "" || sign == "+"
    requires prefix == "" || prefix == "0x" || prefix == "0X"
    requires |digits| > 0 && AllHexDigits(digits) && HexValue(digits) <= 0xFF
    ensures ToByteBase16(sign + prefix + digits) == Some(HexValue(digits) as byte)
  {
    DigitsAfterSignAndPrefix(sign, prefix, digits);
  }

  /** A value above 0xFF is rejected, whatever sign and prefix precede it. */
  lemma ToByteBase16RejectsOverRange(sign: string, prefix: string, digits: string)
    requires sign == "" || sign == "+"
    requires prefix == "" || prefix == "0x" || prefix == "0X"
    requires |digits| > 0 && AllHexDigits(digits) && HexValue(digits) > 0xFF
    ensures ToByteBase16(sign + prefix + digits) == None
  {
    DigitsAfterSignAndPrefix(sign, prefix, digits);
  }

  /** A character other than a digit or 'x'/'X' survives the removal of the radix prefix. */
  lemma ForeignCharSurvivesPrefix(u: string, k: nat)
    requires k < |u| && !IsHexDigit(u[k]) && u[k] != 'x' && u[k] != 'X'
    ensures !AllHexDigits(WithoutRadixPrefix(u))
  {
    if |u| >= 2 && u[0] == '0' && (u[1] == 'x' || u[1] == 'X') {
      assert k >= 2;
      assert WithoutRadixPrefix(u)[k - 2] == u[k];
    }
  }

  /** A character that is neither a hexadecimal digit nor part of a sign or prefix rejects the text. */
  lemma ToByteBase16RejectsForeignChar(s: string, k: nat)
    requires k < |s| && !IsHexDigit(s[k]) && s[k] != '+' && s[k] != 'x' && s[k] != 'X'
    ensures ToByteBase16(s) == None
  {
    if |s| > 0 && s[0] == '+' {
      assert k >= 1 && WithoutSign(s)[k - 1] == s[k];
      ForeignCharSurvivesPrefix(WithoutSign(s), k - 1);
    } else {
      ForeignCharSurvivesPrefix(s, k);
    }
  }

  /** Two hexadecimal digits, in either case, are accepted as 16 * high + low. */
  lemma TwoHexDigits(hi: char, lo: char)
    requires IsHexDigit(hi) && IsHexDigit(lo)
    ensures ToByteBase16([hi, lo]) == Some((16 * DigitValue(hi) + DigitValue(lo)) as byte)
  {
    assert [hi, lo][..1] == [hi];
    assert HexValue([hi]) == DigitValue(hi) by { assert [hi][..0] == []; }
    ToByteBase16Accepts("", "", [hi, lo]);
    assert "" + "" + [hi, lo] == [hi, lo];
  }

  /** Worked cases the segment rule accepts: two digits in either case. */
  lemma ToByteBase16AcceptedExamples()
    ensures ToByteBase16("FF") == Some(0xFF)
    ensures ToByteBase16("0a") == Some(0x0A)
  {
    TwoHexDigits('F', 'F');
    TwoHexDigits('0', 'a');
  }

  /** A worked case the segment rule accepts: a radix prefix. */
  lemma ToByteBase16PrefixedExample()
    ensures ToByteBase16("0x1F") == Some(0x1F)
  {
    assert "1F"[..1] == "1" && "1"[..0] == "";
    ToByteBase16Accepts("", "0x", "1F");
    assert "" + "0x" + "1F" == "0x1F";
  }

  /** A worked case the segment rule accepts: a sign and a single digit. */
  lemma ToByteBase16SignedExample()
    ensures ToByteBase16("+7") == Some(0x07)
  {
    assert "7"[..0] == "";
    ToByteBase16Accepts("+", "", "7");
    assert "+" + "" + "7" == "+7";
  }

  /** Worked cases the segment rule rejects: empty, prefix only, over range, foreign characters. */
  lemma ToByteBase16RejectedExamples()
    ensures ToByteBase16("") == None
    ensures ToByteBase16("0x") == None
    ensures ToByteBase16("100") == None
    ensures ToByteBase16("G1") == None
    ensures ToByteBase16("-1") == None
  {
    assert WithoutRadixPrefix(WithoutSign("0x")) == "";
    assert "100"[..2] == "10" && "10"[..1] == "1" && "1"[..0] == "";
    ToByteBase16RejectsOverRange("", "", "100");
    assert "" + "" + "100" == "100";
    ToByteBase16RejectsForeignChar("G1", 0);
    ToByteBase16RejectsForeignChar("-1", 0);
  }

  // ---------------------------------------------------------------------------
  // WOLHelper.ParseMacAddress
  // ---------------------------------------------------------------------------

  /** The two ArgumentExceptions ParseMacAddress throws. */
  datatype MacError =
    | WrongPartCount(count: nat)   // "Invalid MAC address format"
    | InvalidPart(part: string)    // "Invalid MAC address part: '<part>'"

  /** The six parts on which ParseMacAddress succeeds. */
  predicate ValidMac(mac: string) {
    var parts := Split(mac, ':');
    |parts| == 6 && forall k :: 0 <= k < 6 ==> ToByteBase16(parts[k]).Some?
  }

  /** The bytes a valid MAC text stands for, part by part. */
  function MacBytes(mac: string): (bytes: seq<byte>)
    requires ValidMac(mac)
    ensures |bytes| == 6
  {
    var parts := Split(mac, ':');
    seq(6, k requires 0 <= k < 6 => ToByteBase16(parts[k]).value)
  }

  /**
   * ParseMacAddress: fails unless the text splits into exactly six parts, then
   * converts part by part and fails, naming the part, at the first part that is
   * not a hexadecimal byte.
   */
  method ParseMacAddress(mac: string) returns (r: Result<seq<byte>, MacError>)
    ensures |Split(mac, ':')| != 6 ==> r == Err(WrongPartCount(|Split(mac, ':')|))
    ensures r.Ok? <==> ValidMac(mac)
    ensures r.Ok? ==> |r.value| == 6 && r.value == MacBytes(mac)
    ensures r.Ok? ==> forall k :: 0 <= k < 6 ==> ToByteBase16(Split(mac, ':')[k]) == Some(r.value[k])
    ensures r.Err? && |Split(mac, ':')| == 6 ==>
      exists k :: 0 <= k < 6 && r.error == InvalidPart(Split(mac, ':')[k])
        && ToByteBase16(Split(mac, ':')[k]).None?
        && forall j :: 0 <= j < k ==> ToByteBase16(Split(mac, ':')[j]).Some?
  {
    var macParts := Split(mac, ':');
    if |macParts| != 6 {
      return Err(WrongPartCount(|macParts|));
    }
    r := ConvertParts(macParts);
    if r.Ok? {
      assert r.value == MacBytes(mac);
    }
  }

  /**
   * The loop of ParseMacAddress over six parts: byte i is the value of part i,
   * and the first part that does not convert is named in the error.
   */
  method ConvertParts(macParts: seq<string>) returns (r: Result<seq<byte>, MacError>)
    requires |macParts| == 6
    ensures r.Ok? <==> forall k :: 0 <= k < 6 ==> ToByteBase16(macParts[k]).Some?
    ensures r.Ok? ==> |r.value| == 6 && forall k :: 0 <= k < 6 ==> ToByteBase16(macParts[k]) == Some(r.value[k])
    ensures r.Err? ==>
      exists k :: 0 <= k < 6 && r.error == InvalidPart(macParts[k]) && ToByteBase16(macParts[k]).None?
        && forall j :: 0 <= j < k ==> ToByteBase16(macParts[j]).Some?
  {
    var macBytes := new byte[6];
    for i := 0 to 6
      invariant forall j :: 0 <= j < i ==> ToByteBase16(macParts[j]) == Some(macBytes[j])
    {
      var b := ToByteBase16(macParts[i]);
      if b.None? {
        return Err(InvalidPart(macParts[i]));
      }
      macBytes[i] := b.value;
    }
    return Ok(macBytes[..]);
  }

  /** A valid MAC has exactly five separators; so any other count of ':' is rejected. */
  lemma ValidMacHasFiveSeparators(mac: string)
    ensures ValidMac(mac) ==> multiset(mac)[':'] == 5
  {
    SplitCount(mac, ':');
  }

  // ---------------------------------------------------------------------------
  // The canonical form AA:BB:CC:DD:EE:FF
  // ---------------------------------------------------------------------------

  function HexDigit(v: nat): (c: char)
    requires v < 16
    ensures IsHexDigit(c) && DigitValue(c) == v
  {
    if v < 10 then ('0' as int + v) as char else ('A' as int + v - 10) as char
  }

  /** A byte as two upper-case hexadecimal digits. */
  function FormatByte(b: byte): (s: string)
    ensures |s| == 2 && ':' !in s
  {
    [HexDigit(b as int / 16), HexDigit(b as int % 16)]
  }

  /** Six bytes in the canonical colon-separated form. */
  function FormatMac(mac: seq<byte>): string
    requires |mac| == 6
  {
    Join(seq(6, k requires 0 <= k < 6 => FormatByte(mac[k])), ':')
  }

  /** Six groups of two hexadecimal digits, in any case, joined by ':' parse to their values. */
  lemma {:induction false} TwoDigitGroupsAccepted(groups: seq<string>)
    requires |groups| == 6
    requires forall k :: 0 <= k < 6 ==> |groups[k]| == 2 && IsHexDigit(groups[k][0]) && IsHexDigit(groups[k][1])
    ensures ValidMac(Join(groups, ':'))
    ensures forall k :: 0 <= k < 6 ==>
      MacBytes(Join(groups, ':'))[k] == (16 * DigitValue(groups[k][0]) + DigitValue(groups[k][1])) as byte
  {
    forall k | 0 <= k < 6 ensures ':' !in groups[k] {
      assert groups[k] == [groups[k][0], groups[k][1]];
    }
    SplitJoin(groups, ':');
    forall k | 0 <= k < 6
      ensures ToByteBase16(groups[k]) == Some((16 * DigitValue(groups[k][0]) + DigitValue(groups[k][1])) as byte)
    {
      assert groups[k] == [groups[k][0], groups[k][1]];
      TwoHexDigits(groups[k][0], groups[k][1]);
    }
  }

  /** Parsing the canonical form of any six bytes gives those bytes back. */
  lemma {:induction false} FormatMacRoundTrip(mac: seq<byte>)
    requires |mac| == 6
    ensures ValidMac(FormatMac(mac))
    ensures MacBytes(FormatMac(mac)) == mac
  {
    var groups := seq(6, k requires 0 <= k < 6 => FormatByte(mac[k]));
    TwoDigitGroupsAccepted(groups);
    forall k | 0 <= k < 6 ensures MacBytes(FormatMac(mac))[k] == mac[k] {
      var v := mac[k] as int;
      assert 16 * (v / 16) + v % 16 == v;
    }
  }

  /** A dash-separated address is a single part and is rejected: no other separator is accepted. */
  lemma DashSeparatedRejected()
    ensures !ValidMac("AA-BB-CC-DD-EE-FF")
  {
    var mac := "AA-BB-CC-DD-EE-FF";
    assert forall i :: 0 <= i < |mac| ==> mac[i] != ':';
    WithoutColonRejected(mac);
  }

  /** Text without a colon is one part, not six, and is rejected. */
  lemma WithoutColonRejected(mac: string)
    requires ':' !in mac
    ensures !ValidMac(mac)
  {
    SplitWithoutSeparator(mac, ':');
  }
}
