/** The parts of github.com/google/uuid the core relies on: the 16-byte value,
    its canonical text form and the parser used by the context decoder. */
module Uuid {
  import opened Base

  type Byte = b: int | 0 <= b < 256

  type UUID = s: seq<Byte> | |s| == 16 witness [0, 0, 0, 0, 0, 0, 0, 0, 0, 0, 0, 0, 0, 0, 0, 0]

  /** `uuid.UUID{}`, the zero value. */
  const Zero: UUID := [0, 0, 0, 0, 0, 0, 0, 0, 0, 0, 0, 0, 0, 0, 0, 0]


  const InvalidLength := Error("invalid UUID length")
  const InvalidUrnPrefix := Error("invalid urn prefix")
  const InvalidFormat := Error("invalid UUID format")

  /** The value of one hexadecimal digit, either case (the library's `xvalues` table). */
  function HexValue(c: char): (r: Option<int>)
    ensures r.Some? ==> 0 <= r.value < 16
    ensures r.Some? <==> ('0' <= c <= '9' || 'a' <= c <= 'f' || 'A' <= c <= 'F')
  {
    if '0' <= c <= '9' then Some(c as int - '0' as int)
    else if 'a' <= c <= 'f' then Some(c as int - 'a' as int + 10)
    else if 'A' <= c <= 'F' then Some(c as int - 'A' as int + 10)
    else None
  }

  /** The lower-case digit for a value below 16. */
  function HexDigit(n: int): (c: char)
    requires 0 <= n < 16
    ensures c < '\U{80}' && c != '-'
  {
    if n < 10 then ('0' as int + n) as char else ('a' as int + n - 10) as char
  }

  lemma HexValueOfDigit(n: int)
    requires 0 <= n < 16
    ensures HexValue(HexDigit(n)) == Some(n)
  {
  }

  function ByteHex(b: Byte): (s: string)
    ensures |s| == 2
  {
    [HexDigit(b / 16), HexDigit(b % 16)]
  }

  /** Lower-case hexadecimal encoding, two digits per byte. */
  function Hex(bs: seq<Byte>): (s: string)
    ensures |s| == 2 * |bs|
  {
    if bs == [] then "" else ByteHex(bs[0]) + Hex(bs[1..])
  }

  /** Decodes pairs of hexadecimal digits (the library's `xtob` applied pair by pair). */
  function UnHex(s: string): (r: Option<seq<Byte>>)
    requires |s| % 2 == 0
    ensures r.Some? ==> 2 * |r.value| == |s|
  {
    if s == "" then Some([])
    else
      match (HexValue(s[0]), HexValue(s[1]), UnHex(s[2..]))
      case (Some(hi), Some(lo), Some(rest)) => Some([hi * 16 + lo] + rest)
      case _ => None
  }

  /** `UUID.String()`: xxxxxxxx-xxxx-xxxx-xxxx-xxxxxxxxxxxx, lower case. */
  function ToString(u: UUID): (s: string)
    ensures |s| == 36 && s[8] == '-' && s[13] == '-' && s[18] == '-' && s[23] == '-'
  {
    DashedLayout(Hex(u[..4]), Hex(u[4..6]), Hex(u[6..8]), Hex(u[8..10]), Hex(u[10..]));
    Hex(u[..4]) + "-" + Hex(u[4..6]) + "-" + Hex(u[6..8]) + "-" + Hex(u[8..10]) + "-" + Hex(u[10..])
  }

  predicate IsAscii(s: string)
  {
    forall i :: 0 <= i < |s| ==> s[i] < '\U{80}'
  }

  function AsciiLower(c: char): char
  {
    if 'A' <= c <= 'Z' then (c as int - 'A' as int + 'a' as int) as char else c
  }

  /** `strings.EqualFold` restricted to ASCII text. */
  predicate EqualFoldAscii(a: string, b: string)
  {
    |a| == |b| && forall i :: 0 <= i < |a| ==> AsciiLower(a[i]) == AsciiLower(b[i])
  }

  /** A hexadecimal digit of either case. */
  predicate IsHexChar(c: char)
  {
    '0' <= c <= '9' || 'a' <= c <= 'f' || 'A' <= c <= 'F'
  }

  predicate AllHex(s: string)
  {
    forall i :: 0 <= i < |s| ==> IsHexChar(s[i])
  }

  /** The first 36 characters are 8-4-4-4-12 hexadecimal digits joined by dashes. */
  predicate DashedText(s: string)
  {
    && |s| >= 36
    && s[8] == '-' && s[13] == '-' && s[18] == '-' && s[23] == '-'
    && AllHex(s[..8]) && AllHex(s[9..13]) && AllHex(s[14..18]) && AllHex(s[19..23]) && AllHex(s[24..36])
  }

  /** The texts `uuid.Parse` accepts, by layout: the dashed form; `urn:uuid:` in any case
      followed by it; one character followed by it and one more (the library does not look at
      the braces); or 32 bare digits. */
  predicate UuidText(s: string)
  {
    && IsAscii(s)
    && (|| (|s| == 36 && DashedText(s))
        || (|s| == 45 && EqualFoldAscii(s[..9], "urn:uuid:") && DashedText(s[9..]))
        || (|s| == 38 && DashedText(s[1..]))
        || (|s| == 32 && AllHex(s)))
  }

  /** ASCII lower-casing of a whole text. */
  function LowerText(s: string): (t: string)
    ensures |t| == |s| && forall i :: 0 <= i < |s| ==> t[i] == AsciiLower(s[i])
  {
    seq(|s|, i requires 0 <= i < |s| => AsciiLower(s[i]))
  }

  /** The 32 digits of the dashed form, without its dashes. */
  function DashedDigits(s: string): (d: string)
    requires |s| >= 36
    ensures |d| == 32
  {
    s[..8] + s[9..13] + s[14..18] + s[19..23] + s[24..36]
  }

  /** The 36-character form with its four dashes. */
  function ParseDashed(s: string): (r: Ret<UUID>)
    requires |s| >= 36
    ensures r.err.Some? ==> r.value == Zero
    ensures r.err.None? <==> DashedText(s)
    ensures r.err.None? ==> ToString(r.value) == LowerText(s[..36])
  {
    DashedDigitsHex(s);
    UnHexSpec(DashedDigits(s));
    if s[8] != '-' || s[13] != '-' || s[18] != '-' || s[23] != '-' then Ret(Zero, Some(InvalidFormat))
    else
      match UnHex(DashedDigits(s))
      case Some(bs) => DashedDigitsText(s); Ret(bs, None)
      case None => Ret(Zero, Some(InvalidFormat))
  }

  /** `uuid.Parse`: accepts the dashed form, the `urn:uuid:` form, the braced form and 32 bare
      hex digits, and the UUID it returns has as its canonical text the lower-cased digits
      of the input. */
  function Parse(s: string): (r: Ret<UUID>)
    ensures r.err.Some? ==> r.value == Zero
    ensures |s| !in {32, 36, 38, 45} ==> r.err.Some?
    ensures r.err.None? <==> UuidText(s)
    ensures r.err.None? && |s| == 36 ==> ToString(r.value) == LowerText(s)
    ensures r.err.None? && |s| == 45 ==> ToString(r.value) == LowerText(s[9..])
    ensures r.err.None? && |s| == 38 ==> ToString(r.value) == LowerText(s[1..37])
    ensures r.err.None? && |s| == 32 ==> Hex(r.value) == LowerText(s)
  {
    if !IsAscii(s) then Ret(Zero, Some(InvalidFormat))
    else if |s| == 36 then ParseDashed(s)
    else if |s| == 45 then
      if EqualFoldAscii(s[..9], "urn:uuid:") then ParseDashed(s[9..]) else Ret(Zero, Some(InvalidUrnPrefix))
    else if |s| == 38 then ParseDashed(s[1..])
    else if |s| == 32 then
      UnHexSpec(s);
      match UnHex(s)
      case Some(bs) => Ret(bs, None)
      case None => Ret(Zero, Some(InvalidFormat))
    else Ret(Zero, Some(InvalidLength))
  }

  /** The digit a value prints as is the lower-case form of any digit that reads as it. */
  lemma DigitOfValue(c: char)
    requires IsHexChar(c)
    ensures HexDigit(HexValue(c).value) == AsciiLower(c)
  {
  }

  lemma AllHexAppend(a: string, b: string)
    ensures AllHex(a + b) <==> AllHex(a) && AllHex(b)
  {
    if AllHex(a + b) {
      forall i | 0 <= i < |a| ensures IsHexChar(a[i]) { assert a[i] == (a + b)[i]; }
      forall i | 0 <= i < |b| ensures IsHexChar(b[i]) { assert b[i] == (a + b)[|a| + i]; }
    }
    if AllHex(a) && AllHex(b) {
      forall i | 0 <= i < |a + b| ensures IsHexChar((a + b)[i]) {
        if i >= |a| { assert (a + b)[i] == b[i - |a|]; }
      }
    }
  }

  lemma LowerAppend(a: string, b: string)
    ensures LowerText(a + b) == LowerText(a) + LowerText(b)
  {
  }

  /** Two joins of texts with equal-length first parts agree part by part. */
  lemma SplitEqual(a1: string, a2: string, b1: string, b2: string)
    requires a1 + a2 == b1 + b2 && |a1| == |b1|
    ensures a1 == b1 && a2 == b2
  {
    assert a1 == (a1 + a2)[..|a1|] && b1 == (b1 + b2)[..|b1|];
    assert a2 == (a1 + a2)[|a1|..] && b2 == (b1 + b2)[|b1|..];
  }

  /** Pairs of digits decode exactly when all are digits, to bytes that print as the
      lower-cased text. */
  lemma {:induction false} UnHexSpec(s: string)
    requires |s| % 2 == 0
    ensures UnHex(s).Some? <==> AllHex(s)
    ensures UnHex(s).Some? ==> Hex(UnHex(s).value) == LowerText(s)
  {
    if s != "" {
      var t := s[2..];
      UnHexSpec(t);
      assert s == s[..2] + t;
      AllHexAppend(s[..2], t);
      LowerAppend(s[..2], t);
      if UnHex(s).Some? {
        var hi, lo, rest := HexValue(s[0]).value, HexValue(s[1]).value, UnHex(t).value;
        var b := hi * 16 + lo;
        assert UnHex(s).value == [b] + rest;
        assert b / 16 == hi && b % 16 == lo;
        DigitOfValue(s[0]);
        DigitOfValue(s[1]);
        assert ([b] + rest)[1..] == rest;
        assert Hex([b] + rest) == ByteHex(b) + Hex(rest);
        assert LowerText(s[..2]) == ByteHex(b);
      }
    }
  }

  /** The digits of the dashed form are all hexadecimal exactly when each group is. */
  lemma DashedDigitsHex(s: string)
    requires |s| >= 36
    ensures AllHex(DashedDigits(s)) <==>
      AllHex(s[..8]) && AllHex(s[9..13]) && AllHex(s[14..18]) && AllHex(s[19..23]) && AllHex(s[24..36])
  {
    var p1, p2, p3, p4, p5 := s[..8], s[9..13], s[14..18], s[19..23], s[24..36];
    AllHexAppend(p1, p2);
    AllHexAppend(p1 + p2, p3);
    AllHexAppend(p1 + p2 + p3, p4);
    AllHexAppend(p1 + p2 + p3 + p4, p5);
  }

  /** A text with its four dashes in place is its five groups joined by dashes. */
  lemma Reassemble(s: string)
    requires |s| >= 36 && s[8] == '-' && s[13] == '-' && s[18] == '-' && s[23] == '-'
    ensures s[..36] == s[..8] + "-" + s[9..13] + "-" + s[14..18] + "-" + s[19..23] + "-" + s[24..36]
  {
    var p1, p2, p3, p4, p5 := s[..8], s[9..13], s[14..18], s[19..23], s[24..36];
    assert s[..9] == p1 + "-";
    assert s[..13] == s[..9] + p2;
    assert s[..14] == s[..13] + "-";
    assert s[..18] == s[..14] + p3;
    assert s[..19] == s[..18] + "-";
    assert s[..23] == s[..19] + p4;
    assert s[..24] == s[..23] + "-";
    assert s[..36] == s[..24] + p5;
  }

  /** Lower-casing a dashed text lower-cases each group and keeps the dashes. */
  lemma LowerDashed(p1: string, p2: string, p3: string, p4: string, p5: string)
    ensures LowerText(p1 + "-" + p2 + "-" + p3 + "-" + p4 + "-" + p5)
      == LowerText(p1) + "-" + LowerText(p2) + "-" + LowerText(p3) + "-" + LowerText(p4) + "-" + LowerText(p5)
  {
    LowerAppend(p1 + "-" + p2 + "-" + p3 + "-" + p4 + "-", p5);
    LowerAppend(p1 + "-" + p2 + "-" + p3 + "-" + p4, "-");
    LowerAppend(p1 + "-" + p2 + "-" + p3 + "-", p4);
    LowerAppend(p1 + "-" + p2 + "-" + p3, "-");
    LowerAppend(p1 + "-" + p2 + "-", p3);
    LowerAppend(p1 + "-" + p2, "-");
    LowerAppend(p1 + "-", p2);
    LowerAppend(p1, "-");
    assert LowerText("-") == "-";
  }

  /** The canonical text of a UUID is its groups of digits joined by dashes. */
  lemma HexGroups(u: UUID)
    ensures Hex(u) == Hex(u[..4]) + Hex(u[4..6]) + Hex(u[6..8]) + Hex(u[8..10]) + Hex(u[10..])
  {
    HexAppend(u[..4], u[4..6]);
    assert u[..4] + u[4..6] == u[..6];
    HexAppend(u[..6], u[6..8]);
    assert u[..6] + u[6..8] == u[..8];
    HexAppend(u[..8], u[8..10]);
    assert u[..8] + u[8..10] == u[..10];
    HexAppend(u[..10], u[10..]);
    assert u[..10] + u[10..] == u;
  }

  /** Decoded dashed digits give the UUID whose canonical text is the lower-cased input. */
  lemma DashedDigitsText(s: string)
    requires |s| >= 36 && s[8] == '-' && s[13] == '-' && s[18] == '-' && s[23] == '-'
    requires UnHex(DashedDigits(s)).Some?
    ensures ToString(UnHex(DashedDigits(s)).value) == LowerText(s[..36])
  {
    var p1, p2, p3, p4, p5 := s[..8], s[9..13], s[14..18], s[19..23], s[24..36];
    var u: UUID := UnHex(DashedDigits(s)).value;
    UnHexSpec(DashedDigits(s));
    LowerAppend(p1, p2);
    LowerAppend(p1 + p2, p3);
    LowerAppend(p1 + p2 + p3, p4);
    LowerAppend(p1 + p2 + p3 + p4, p5);
    HexGroups(u);
    var h1, h2, h3, h4, h5 := Hex(u[..4]), Hex(u[4..6]), Hex(u[6..8]), Hex(u[8..10]), Hex(u[10..]);
    var l1, l2, l3, l4, l5 := LowerText(p1), LowerText(p2), LowerText(p3), LowerText(p4), LowerText(p5);
    assert h1 + h2 + h3 + h4 + h5 == l1 + l2 + l3 + l4 + l5;
    SplitEqual(h1 + h2 + h3 + h4, h5, l1 + l2 + l3 + l4, l5);
    SplitEqual(h1 + h2 + h3, h4, l1 + l2 + l3, l4);
    SplitEqual(h1 + h2, h3, l1 + l2, l3);
    SplitEqual(h1, h2, l1, l2);
    Reassemble(s);
    LowerDashed(p1, p2, p3, p4, p5);
  }

  lemma {:induction false} UnHexHex(bs: seq<Byte>)
    ensures UnHex(Hex(bs)) == Some(bs)
  {
    if bs != [] {
      var b := bs[0];
      var s := Hex(bs);
      assert s == ByteHex(b) + Hex(bs[1..]);
      assert s[0] == HexDigit(b / 16) && s[1] == HexDigit(b % 16) && s[2..] == Hex(bs[1..]);
      UnHexHex(bs[1..]);
      HexValueOfDigit(b / 16);
      HexValueOfDigit(b % 16);
      assert b / 16 * 16 + b % 16 == b;
      assert [b] + bs[1..] == bs;
    }
  }

  lemma {:induction false} HexAppend(a: seq<Byte>, b: seq<Byte>)
    ensures Hex(a + b) == Hex(a) + Hex(b)
  {
    if a != [] {
      assert (a + b)[1..] == a[1..] + b;
      HexAppend(a[1..], b);
    } else {
      assert a + b == b;
    }
  }

  lemma {:induction false} HexIsAscii(bs: seq<Byte>)
    ensures IsAscii(Hex(bs))
    ensures forall i :: 0 <= i < |Hex(bs)| ==> Hex(bs)[i] != '-'
  {
    if bs != [] {
      HexIsAscii(bs[1..]);
      var s, t := Hex(bs), Hex(bs[1..]);
      assert s == ByteHex(bs[0]) + t;
      forall i | 0 <= i < |s| ensures s[i] < '\U{80}' && s[i] != '-' {
        if i >= 2 { assert s[i] == t[i - 2]; }
      }
    }
  }

  lemma AsciiAppend(a: string, b: string)
    requires IsAscii(a) && IsAscii(b)
    ensures IsAscii(a + b)
  {
    forall i | 0 <= i < |a + b| ensures (a + b)[i] < '\U{80}' {
      if i >= |a| { assert (a + b)[i] == b[i - |a|]; }
    }
  }

  /** The layout of a dashed text: where its dashes are and what lies between them. */
  lemma DashedLayout(a: string, b: string, c: string, d: string, e: string)
    requires |a| == 8 && |b| == 4 && |c| == 4 && |d| == 4 && |e| == 12
    ensures var s := a + "-" + b + "-" + c + "-" + d + "-" + e;
      && |s| == 36 && s[8] == '-' && s[13] == '-' && s[18] == '-' && s[23] == '-'
      && s[..8] + s[9..13] + s[14..18] + s[19..23] + s[24..36] == a + b + c + d + e
  {
    var s := a + "-" + b + "-" + c + "-" + d + "-" + e;
    var p1, p2, p3, p4 := a + "-", a + "-" + b + "-", a + "-" + b + "-" + c + "-", a + "-" + b + "-" + c + "-" + d + "-";
    Slice([], a, "-" + b + "-" + c + "-" + d + "-" + e);
    Slice(p1, b, "-" + c + "-" + d + "-" + e);
    Slice(p2, c, "-" + d + "-" + e);
    Slice(p3, d, "-" + e);
    Slice(p4, e, []);
  }

  lemma Slice(x: string, y: string, z: string)
    ensures (x + y + z)[|x|..|x| + |y|] == y
  {
    assert forall i :: 0 <= i < |y| ==> (x + y + z)[|x| + i] == y[i];
  }

  /** Parsing the canonical text of a UUID gives the UUID back. */
  lemma ParseToString(u: UUID)
    ensures Parse(ToString(u)) == Ret(u, None)
  {
    var s := ToString(u);
    var a, b, c, d, e := Hex(u[..4]), Hex(u[4..6]), Hex(u[6..8]), Hex(u[8..10]), Hex(u[10..]);
    assert s == a + "-" + b + "-" + c + "-" + d + "-" + e;
    HexIsAscii(u[..4]); HexIsAscii(u[4..6]); HexIsAscii(u[6..8]); HexIsAscii(u[8..10]); HexIsAscii(u[10..]);
    assert IsAscii("-");
    AsciiAppend(a, "-"); AsciiAppend(a + "-", b); AsciiAppend(a + "-" + b, "-");
    AsciiAppend(a + "-" + b + "-", c); AsciiAppend(a + "-" + b + "-" + c, "-");
    AsciiAppend(a + "-" + b + "-" + c + "-", d); AsciiAppend(a + "-" + b + "-" + c + "-" + d, "-");
    AsciiAppend(a + "-" + b + "-" + c + "-" + d + "-", e);
    DashedLayout(a, b, c, d, e);
    HexAppend(u[..4], u[4..6]);
    assert u[..4] + u[4..6] == u[..6];
    HexAppend(u[..6], u[6..8]);
    assert u[..6] + u[6..8] == u[..8];
    HexAppend(u[..8], u[8..10]);
    assert u[..8] + u[8..10] == u[..10];
    HexAppend(u[..10], u[10..]);
    assert u[..10] + u[10..] == u;
    assert a + b + c + d + e == Hex(u);
    UnHexHex(u);
  }

  /** Distinct UUIDs have distinct canonical texts. */
  lemma ToStringInjective(u: UUID, v: UUID)
    requires ToString(u) == ToString(v)
    ensures u == v
  {
    ParseToString(u);
    ParseToString(v);
  }
}
