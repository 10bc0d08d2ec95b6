// The hard-coded IP address rule: a string literal that reads as a public
// IPv4 address is reported.

module HardcodedIp {
  import opened Wrappers
  import opened JavaString
  import opened Patterns

  function DigitValue(c: char): nat
    requires IsAsciiDigit(c)
  {
    (c as int - '0' as int) as nat
  }

  predicate AllDigits(s: string) {
    forall i | 0 <= i < |s| :: IsAsciiDigit(s[i])
  }

  /** The value of a run of decimal digits, most significant first. */
  function DigitsValue(s: string): nat
    requires AllDigits(s)
    decreases |s|
  {
    if s == [] then 0 else 10 * DigitsValue(s[..|s| - 1]) + DigitValue(s[|s| - 1])
  }

  /**
   * Integer.parseInt over ASCII digits: an optional sign, at least one
   * digit, and a value that fits in 32 bits; anything else is a
   * NumberFormatException.
   */
  function ParseInt(s: string): (r: Option<int>)
    ensures r.Some? ==> -0x8000_0000 <= r.value <= 0x7fff_ffff
  {
    var signed := |s| > 0 && (s[0] == '-' || s[0] == '+');
    var digits := if signed then s[1..] else s;
    if digits == [] || !AllDigits(digits) then None
    else
      var v := if signed && s[0] == '-' then -(DigitsValue(digits) as int) else DigitsValue(digits) as int;
      if v < -0x8000_0000 || v > 0x7fff_ffff then None else Some(v)
  }

  predicate Octet(piece: string) {
    var n := ParseInt(piece);
    n.Some? && 0 <= n.value <= 255
  }

  /**
   * isSensitiveIp: 7 to 15 characters, four pieces between dots, each an
   * integer from 0 to 255, the first not 127 (loopback), and none of the
   * broadcast address, the unspecified address or a 2.5. object identifier.
   */
  predicate IsSensitiveIp(ip: string) {
    7 <= |ip| <= 15 &&
    var ps := Split(Dot, ip);
    |ps| == 4 && (forall i | 0 <= i < 4 :: Octet(ps[i])) && ParseInt(ps[0]) != Some(127) &&
    ip != "255.255.255.255" && ip != "0.0.0.0" && !StartsWith(ip, "2.5.")
  }

  /** visitLiteralExpression: only string literals with a value are tested. */
  predicate Reported(isStringLiteral: bool, value: Option<string>) {
    isStringLiteral && value.Some? && IsSensitiveIp(value.value)
  }

  /**
   * parseInt is more lenient than dotted-quad notation: a sign and leading
   * zeros are accepted, so "+1", "-0" and "010" are octets; "256", "-1" and
   * an empty piece are not.
   */
  lemma LenientOctets()
    ensures Octet("+1") && Octet("-0") && Octet("010")
    ensures !Octet("256") && !Octet("-1") && !Octet("")
  {
    assert DigitsValue("1") == 1 by { assert "1"[..0] == []; }
    assert DigitsValue("0") == 0 by { assert "0"[..0] == []; }
    assert "+1"[1..] == "1" && "-0"[1..] == "0" && "-1"[1..] == "1";
    assert DigitsValue("01") == 1 by { assert "01"[..1] == "0"; }
    assert "010"[..2] == "01";
    assert DigitsValue("2") == 2 by { assert "2"[..0] == []; }
    assert DigitsValue("25") == 25 by { assert "25"[..1] == "2"; }
    assert "256"[..2] == "25";
  }

  // ---------------------------------------------------------------------
  // The canonical dotted quad
  // ---------------------------------------------------------------------

  function DigitChar(d: nat): (c: char)
    requires d < 10
    ensures IsAsciiDigit(c) && DigitValue(c) == d
  {
    ('0' as int + d) as char
  }

  /** The decimal text of a number, without leading zeros. */
  function Decimal(n: nat): (r: string)
    ensures r != [] && AllDigits(r) && '.' !in r
    ensures |r| == if n < 10 then 1 else if n < 100 then 2 else if n < 1000 then 3 else |r|
    ensures |r| > 1 ==> r[0] != '0'
  {
    if n < 10 then [DigitChar(n)] else Decimal(n / 10) + [DigitChar(n % 10)]
  }

  /** Reading the decimal text back gives the number. */
  lemma {:induction false} DecimalValue(n: nat)
    ensures DigitsValue(Decimal(n)) == n
  {
    if n >= 10 {
      var r := Decimal(n);
      assert r[..|r| - 1] == Decimal(n / 10);
      DecimalValue(n / 10);
    }
  }

  lemma ParseDecimal(n: nat)
    requires n <= 255
    ensures ParseInt(Decimal(n)) == Some(n)
  {
    DecimalValue(n);
  }

  /** The address a.b.c.d as it is normally written. */
  function DottedQuad(a: nat, b: nat, c: nat, d: nat): string {
    Join(".", [Decimal(a), Decimal(b), Decimal(c), Decimal(d)])
  }

  lemma DottedQuadShape(a: nat, b: nat, c: nat, d: nat)
    ensures DottedQuad(a, b, c, d) == Decimal(a) + "." + Decimal(b) + "." + Decimal(c) + "." + Decimal(d)
  {
    JoinCons(".", Decimal(c), [Decimal(d)]);
    JoinCons(".", Decimal(b), [Decimal(c), Decimal(d)]);
    JoinCons(".", Decimal(a), [Decimal(b), Decimal(c), Decimal(d)]);
    assert [Decimal(a), Decimal(b), Decimal(c), Decimal(d)] == [Decimal(a)] + [Decimal(b), Decimal(c), Decimal(d)];
    assert [Decimal(b), Decimal(c), Decimal(d)] == [Decimal(b)] + [Decimal(c), Decimal(d)];
    assert [Decimal(c), Decimal(d)] == [Decimal(c)] + [Decimal(d)];
  }

  lemma DottedQuadPieces(a: nat, b: nat, c: nat, d: nat)
    ensures Split(Dot, DottedQuad(a, b, c, d)) == [Decimal(a), Decimal(b), Decimal(c), Decimal(d)]
  {
    var ps := [Decimal(a), Decimal(b), Decimal(c), Decimal(d)];
    assert forall i | 0 <= i < |ps| :: DotFree(ps[i]);
    SplitOfJoinDot(ps);
  }

  /** A single decimal digit text is the digit. */
  lemma OneDigit(n: nat, c: char)
    requires Decimal(n) == [c]
    ensures n == DigitValue(c)
  {
    DecimalValue(n);
    assert [c][..0] == [];
  }

  /** Only a and b decide whether the address starts with "2.5.". */
  lemma ObjectIdPrefix(a: nat, b: nat, c: nat, d: nat)
    requires a <= 255 && b <= 255
    ensures StartsWith(DottedQuad(a, b, c, d), "2.5.") <==> a == 2 && b == 5
  {
    DottedQuadShape(a, b, c, d);
    var s := DottedQuad(a, b, c, d);
    var da, db := Decimal(a), Decimal(b);
    var rest := "." + Decimal(c) + "." + Decimal(d);
    assert s == da + "." + db + rest;
    if StartsWith(s, "2.5.") {
      assert s[1] == '.';
      assert |da| == 1;
      assert da == [s[0]];
      OneDigit(a, '2');
      assert s[3] == '.';
      assert |db| == 1;
      assert db == [s[2]];
      OneDigit(b, '5');
    }
    if a == 2 && b == 5 {
      assert da == "2" && db == "5";
      assert s[..4] == "2.5.";
    }
  }

  /** Different octets give different texts. */
  lemma QuadInjective(a: nat, b: nat, c: nat, d: nat, a': nat, b': nat, c': nat, d': nat)
    requires DottedQuad(a, b, c, d) == DottedQuad(a', b', c', d')
    ensures a == a' && b == b' && c == c' && d == d'
  {
    DottedQuadPieces(a, b, c, d);
    DottedQuadPieces(a', b', c', d');
    var ps := [Decimal(a), Decimal(b), Decimal(c), Decimal(d)];
    var qs := [Decimal(a'), Decimal(b'), Decimal(c'), Decimal(d')];
    assert ps == qs;
    assert ps[0] == qs[0] && ps[1] == qs[1] && ps[2] == qs[2] && ps[3] == qs[3];
    SameDecimal(a, a');
    SameDecimal(b, b');
    SameDecimal(c, c');
    SameDecimal(d, d');
  }

  /** The broadcast address is the only canonical quad equal to "255.255.255.255". */
  lemma BroadcastText(a: nat, b: nat, c: nat, d: nat)
    ensures DottedQuad(a, b, c, d) == "255.255.255.255" <==> a == 255 && b == 255 && c == 255 && d == 255
  {
    BroadcastLiteral();
    if DottedQuad(a, b, c, d) == DottedQuad(255, 255, 255, 255) {
      QuadInjective(a, b, c, d, 255, 255, 255, 255);
    }
  }

  lemma BroadcastLiteral()
    ensures DottedQuad(255, 255, 255, 255) == "255.255.255.255"
  {
    DottedQuadShape(255, 255, 255, 255);
    assert Decimal(255) == "255" by {
      assert Decimal(2) == "2";
      assert Decimal(25) == Decimal(2) + "5";
    }
  }

  /** The unspecified address is the only canonical quad equal to "0.0.0.0". */
  lemma UnspecifiedText(a: nat, b: nat, c: nat, d: nat)
    ensures DottedQuad(a, b, c, d) == "0.0.0.0" <==> a == 0 && b == 0 && c == 0 && d == 0
  {
    UnspecifiedLiteral();
    if DottedQuad(a, b, c, d) == DottedQuad(0, 0, 0, 0) {
      QuadInjective(a, b, c, d, 0, 0, 0, 0);
    }
  }

  lemma UnspecifiedLiteral()
    ensures DottedQuad(0, 0, 0, 0) == "0.0.0.0"
  {
    DottedQuadShape(0, 0, 0, 0);
    assert Decimal(0) == "0";
  }

  /** Decimal is one-to-one. */
  lemma SameDecimal(m: nat, n: nat)
    requires Decimal(m) == Decimal(n)
    ensures m == n
  {
    DecimalValue(m);
    DecimalValue(n);
  }

  /** A canonical quad of octets is 7 to 15 characters long. */
  lemma QuadLength(a: nat, b: nat, c: nat, d: nat)
    requires a <= 255 && b <= 255 && c <= 255 && d <= 255
    ensures 7 <= |DottedQuad(a, b, c, d)| <= 15
  {
    DottedQuadShape(a, b, c, d);
  }

  /** Its four pieces are octets, and the first reads as 127 only for loopback. */
  lemma QuadOctets(a: nat, b: nat, c: nat, d: nat)
    requires a <= 255 && b <= 255 && c <= 255 && d <= 255
    ensures var ps := Split(Dot, DottedQuad(a, b, c, d));
            |ps| == 4 && (forall i | 0 <= i < 4 :: Octet(ps[i]))
            && (ParseInt(ps[0]) != Some(127) <==> a != 127)
  {
    DottedQuadPieces(a, b, c, d);
    var ps := [Decimal(a), Decimal(b), Decimal(c), Decimal(d)];
    ParseDecimal(a);
    ParseDecimal(b);
    ParseDecimal(c);
    ParseDecimal(d);
    assert Octet(ps[0]) && Octet(ps[1]) && Octet(ps[2]) && Octet(ps[3]);
  }

  /**
   * On canonical addresses the rule is exactly: a public address, i.e. not
   * loopback, broadcast, unspecified or under 2.5.
   */
  lemma CanonicalSensitive(a: nat, b: nat, c: nat, d: nat)
    requires a <= 255 && b <= 255 && c <= 255 && d <= 255
    ensures IsSensitiveIp(DottedQuad(a, b, c, d)) <==>
              a != 127 && !(a == 255 && b == 255 && c == 255 && d == 255)
              && !(a == 0 && b == 0 && c == 0 && d == 0) && !(a == 2 && b == 5)
  {
    QuadLength(a, b, c, d);
    QuadOctets(a, b, c, d);
    ObjectIdPrefix(a, b, c, d);
    BroadcastText(a, b, c, d);
    UnspecifiedText(a, b, c, d);
  }

  /**
   * visitLiteralExpression on a canonical address: reported exactly when
   * the literal is a string literal and the address is public; a literal
   * without a value is never reported.
   */
  lemma LiteralQuadReported(isStringLiteral: bool, a: nat, b: nat, c: nat, d: nat)
    requires a <= 255 && b <= 255 && c <= 255 && d <= 255
    ensures Reported(isStringLiteral, Some(DottedQuad(a, b, c, d))) <==>
              isStringLiteral && a != 127 && !(a == 255 && b == 255 && c == 255 && d == 255)
              && !(a == 0 && b == 0 && c == 0 && d == 0) && !(a == 2 && b == 5)
    ensures !Reported(isStringLiteral, None)
  {
    CanonicalSensitive(a, b, c, d);
  }

  /** A trailing '.' adds only an empty last piece, which the split drops. */
  lemma TrailingDotPieces(a: nat, b: nat, c: nat, d: nat)
    ensures Split(Dot, DottedQuad(a, b, c, d) + ".") == [Decimal(a), Decimal(b), Decimal(c), Decimal(d)]
  {
    var ps := [Decimal(a), Decimal(b), Decimal(c), Decimal(d)];
    assert forall i | 0 <= i < |ps| :: DotFree(ps[i]);
    SplitOfJoinDotTrailing(ps);
  }

  /**
   * Because the split drops trailing empty pieces, a public address
   * followed by one '.' is still reported, as long as it fits in 15
   * characters.
   */
  lemma TrailingDotReported(a: nat, b: nat, c: nat, d: nat)
    requires a <= 255 && b <= 255 && c <= 255 && d <= 255
    requires a != 127 && !(a == 2 && b == 5)
    requires |DottedQuad(a, b, c, d)| < 15
    ensures IsSensitiveIp(DottedQuad(a, b, c, d) + ".")
  {
    var s := DottedQuad(a, b, c, d);
    var t := s + ".";
    QuadLength(a, b, c, d);
    TrailingDotPieces(a, b, c, d);
    QuadOctets(a, b, c, d);
    DottedQuadPieces(a, b, c, d);
    ObjectIdPrefix(a, b, c, d);
    assert t[..4] == s[..4];
    assert t[|t| - 1] == '.';
  }
}
