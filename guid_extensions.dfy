/** `GuidExtensions.ToFhirId`: a FHIR resource id made from a 128-bit
    identifier, written as `Guid.ToString("n")` writes it: the 32 lower-case
    hexadecimal digits of the RFC 4122 string form, without the hyphens. */
module GuidExtensions {
  import opened Base

  type UInt16 = x: nat | x < 0x1_0000
  type UInt32 = x: nat | x < 0x1_0000_0000
  type UInt48 = x: nat | x < 0x1_0000_0000_0000

  /** A Guid by the fields of section 4.1.2 of RFC 4122, in the order in which
      its string form prints them (clock_seq_hi_and_reserved and clock_seq_low
      are printed together as one 16-bit group). */
  datatype Guid = Guid(
    timeLow: UInt32,
    timeMid: UInt16,
    timeHiAndVersion: UInt16,
    clockSeq: UInt16,
    node: UInt48)

  function Pow16(w: nat): (p: nat)
    ensures p >= 1
  {
    if w == 0 then 1 else 16 * Pow16(w - 1)
  }

  lemma Pow16Values()
    ensures Pow16(2) == 0x100 && Pow16(4) == 0x1_0000
    ensures Pow16(8) == 0x1_0000_0000 && Pow16(12) == 0x1_0000_0000_0000
  {
    assert Pow16(1) == 16;
    assert Pow16(2) == 0x100;
    assert Pow16(4) == 0x1_0000;
    assert Pow16(8) == 0x1_0000_0000;
  }

  /** The digits `Guid.ToString` writes: 0-9 and lower-case a-f. */
  predicate IsHexDigit(c: char) {
    '0' <= c <= '9' || 'a' <= c <= 'f'
  }

  predicate AllHexDigits(s: string) {
    forall i :: 0 <= i < |s| ==> IsHexDigit(s[i])
  }

  lemma AllHexDigitsSlice(s: string, i: nat, j: nat)
    requires AllHexDigits(s) && i <= j <= |s|
    ensures AllHexDigits(s[i..j])
  {
    assert forall k :: 0 <= k < j - i ==> s[i..j][k] == s[i + k];
  }

  function Digit(d: nat): (c: char)
    requires d < 16
    ensures IsHexDigit(c)
  {
    if d < 10 then ('0' as int + d) as char else ('a' as int + d - 10) as char
  }

  function DigitValue(c: char): (d: nat)
    requires IsHexDigit(c)
    ensures d < 16 && Digit(d) == c
  {
    if c <= '9' then c as int - '0' as int else c as int - 'a' as int + 10
  }

  /** `n` written with exactly `w` hexadecimal digits, most significant first. */
  function Hex(n: nat, w: nat): (s: string)
    requires n < Pow16(w)
    ensures |s| == w && AllHexDigits(s)
  {
    if w == 0 then []
    else
      assert n / 16 < Pow16(w - 1);
      Hex(n / 16, w - 1) + [Digit(n % 16)]
  }

  /** The number a string of hexadecimal digits denotes. */
  function HexValue(s: string): (n: nat)
    requires AllHexDigits(s)
    ensures n < Pow16(|s|)
  {
    if s == [] then 0
    else
      var p := s[..|s| - 1];
      assert AllHexDigits(p) by { assert forall i :: 0 <= i < |p| ==> p[i] == s[i]; }
      HexValue(p) * 16 + DigitValue(s[|s| - 1])
  }

  lemma {:induction false} HexValueOfHex(n: nat, w: nat)
    requires n < Pow16(w)
    ensures HexValue(Hex(n, w)) == n
  {
    if w > 0 {
      var s := Hex(n, w);
      assert s[..|s| - 1] == Hex(n / 16, w - 1);
      HexValueOfHex(n / 16, w - 1);
    }
  }

  lemma {:induction false} HexOfHexValue(s: string)
    requires AllHexDigits(s)
    ensures Hex(HexValue(s), |s|) == s
  {
    if s != [] {
      var p := s[..|s| - 1];
      assert AllHexDigits(p) by { assert forall i :: 0 <= i < |p| ==> p[i] == s[i]; }
      var v, d := HexValue(p), DigitValue(s[|s| - 1]);
      assert HexValue(s) == v * 16 + d;
      assert (v * 16 + d) / 16 == v && (v * 16 + d) % 16 == d;
      HexOfHexValue(p);
      assert s == p + [s[|s| - 1]];
    }
  }

  /** `ToFhirId(this Guid)`: the "n" format of the Guid. */
  function ToFhirId(g: Guid): (id: string)
    ensures |id| == 32 && AllHexDigits(id)
  {
    Pow16Values();
    Hex(g.timeLow, 8) + Hex(g.timeMid, 4) + Hex(g.timeHiAndVersion, 4)
      + Hex(g.clockSeq, 4) + Hex(g.node, 12)
  }

  /** `ToFhirId(this Guid?)`: null stays null, a value is formatted as above. */
  function ToFhirIdOfNullable(g: Option<Guid>): (id: Option<string>)
    ensures id.None? <==> g.None?
    ensures g.Some? ==> id == Some(ToFhirId(g.value))
  {
    match g
    case None => None
    case Some(v) => Some(ToFhirId(v))
  }

  /** The inverse of `ToFhirId`: the Guid a FHIR id of this shape denotes. */
  function ParseFhirId(id: string): (g: Option<Guid>)
    ensures g.Some? ==> |id| == 32 && AllHexDigits(id)
  {
    if |id| == 32 && AllHexDigits(id) then
      Pow16Values();
      AllHexDigitsSlice(id, 0, 8);
      AllHexDigitsSlice(id, 8, 12);
      AllHexDigitsSlice(id, 12, 16);
      AllHexDigitsSlice(id, 16, 20);
      AllHexDigitsSlice(id, 20, 32);
      Some(Guid(HexValue(id[0..8]), HexValue(id[8..12]), HexValue(id[12..16]),
                HexValue(id[16..20]), HexValue(id[20..32])))
    else
      None
  }

  /** The RFC 4122 string form ("d" format): the five groups joined by hyphens. */
  function ToStringD(g: Guid): (s: string)
    ensures |s| == 36
  {
    Pow16Values();
    Hex(g.timeLow, 8) + "-" + Hex(g.timeMid, 4) + "-" + Hex(g.timeHiAndVersion, 4)
      + "-" + Hex(g.clockSeq, 4) + "-" + Hex(g.node, 12)
  }

  function RemoveHyphens(s: string): (r: string)
    ensures forall i :: 0 <= i < |r| ==> r[i] != '-'
    ensures |r| <= |s|
  {
    if s == [] then []
    else if s[0] == '-' then RemoveHyphens(s[1..])
    else [s[0]] + RemoveHyphens(s[1..])
  }

  lemma {:induction false} RemoveHyphensAppend(a: string, b: string)
    ensures RemoveHyphens(a + b) == RemoveHyphens(a) + RemoveHyphens(b)
  {
    if a == [] {
      assert a + b == b;
    } else {
      assert (a + b)[0] == a[0] && (a + b)[1..] == a[1..] + b;
      RemoveHyphensAppend(a[1..], b);
    }
  }

  lemma {:induction false} RemoveHyphensOfHex(s: string)
    requires AllHexDigits(s)
    ensures RemoveHyphens(s) == s
  {
    if s != [] {
      assert IsHexDigit(s[0]);
      RemoveHyphensOfHex(s[1..]);
    }
  }

  /** The FHIR id is the RFC 4122 string form with its separators removed. */
  lemma FhirIdIsStringFormWithoutHyphens(g: Guid)
    ensures ToFhirId(g) == RemoveHyphens(ToStringD(g))
  {
    Pow16Values();
    var a, b, c, d, e := Hex(g.timeLow, 8), Hex(g.timeMid, 4), Hex(g.timeHiAndVersion, 4),
                         Hex(g.clockSeq, 4), Hex(g.node, 12);
    RemoveHyphensOfHex(a);
    RemoveHyphensJoin(a, b);
    RemoveHyphensJoin(a + "-" + b, c);
    RemoveHyphensJoin(a + "-" + b + "-" + c, d);
    RemoveHyphensJoin(a + "-" + b + "-" + c + "-" + d, e);
  }

  /** Joining a group of digits with a hyphen adds just the digits. */
  lemma RemoveHyphensJoin(x: string, h: string)
    requires AllHexDigits(h)
    ensures RemoveHyphens(x + "-" + h) == RemoveHyphens(x) + h
  {
    assert RemoveHyphens("-") == [];
    RemoveHyphensOfHex(h);
    RemoveHyphensAppend(x + "-", h);
    RemoveHyphensAppend(x, "-");
  }

  /** Parsing a FHIR id gives back the Guid it was made from. */
  lemma ParseToFhirId(g: Guid)
    ensures ParseFhirId(ToFhirId(g)) == Some(g)
  {
    Pow16Values();
    var id := ToFhirId(g);
    assert id[0..8] == Hex(g.timeLow, 8);
    assert id[8..12] == Hex(g.timeMid, 4);
    assert id[12..16] == Hex(g.timeHiAndVersion, 4);
    assert id[16..20] == Hex(g.clockSeq, 4);
    assert id[20..32] == Hex(g.node, 12);
    HexValueOfHex(g.timeLow, 8);
    HexValueOfHex(g.timeMid, 4);
    HexValueOfHex(g.timeHiAndVersion, 4);
    HexValueOfHex(g.clockSeq, 4);
    HexValueOfHex(g.node, 12);
  }

  /** Every string of 32 hexadecimal digits is the FHIR id of exactly the Guid it parses to. */
  lemma ToFhirIdOfParse(id: string)
    requires |id| == 32 && AllHexDigits(id)
    ensures ParseFhirId(id).Some? && ToFhirId(ParseFhirId(id).value) == id
  {
    Pow16Values();
    var p0, p1, p2, p3, p4 := id[0..8], id[8..12], id[12..16], id[16..20], id[20..32];
    AllHexDigitsSlice(id, 0, 8);
    AllHexDigitsSlice(id, 8, 12);
    AllHexDigitsSlice(id, 12, 16);
    AllHexDigitsSlice(id, 16, 20);
    AllHexDigitsSlice(id, 20, 32);
    var g := ParseFhirId(id).value;
    assert g == Guid(HexValue(p0), HexValue(p1), HexValue(p2), HexValue(p3), HexValue(p4));
    HexOfHexValue(p0);
    HexOfHexValue(p1);
    HexOfHexValue(p2);
    HexOfHexValue(p3);
    HexOfHexValue(p4);
    assert ToFhirId(g) == p0 + p1 + p2 + p3 + p4;
    assert id == p0 + p1 + p2 + p3 + p4;
  }

  /** Distinct Guids give distinct FHIR ids. */
  lemma ToFhirIdInjective(g1: Guid, g2: Guid)
    requires ToFhirId(g1) == ToFhirId(g2)
    ensures g1 == g2
  {
    ParseToFhirId(g1);
    ParseToFhirId(g2);
  }
}
