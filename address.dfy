/**
 * The relay server's address check `isValidIPAddress`: an anchored regular
 * expression made of four copies of the octet group
 * `(25[0-5]|2[0-4][0-9]|[01]?[0-9][0-9]?)` separated by literal dots.
 *
 * `IsValidIPAddress` follows the regular expression: a match is a choice of the
 * three positions of the literal dots such that the four stretches between them
 * each match the octet group. `IsDottedQuad` is the independent description
 * (four dot-separated fields, each one to three decimal digits worth at most
 * 255), and `ValidIffDottedQuad` proves the two agree on every string.
 */
module Address {
  import opened Strings

  predicate IsDigit(c: char) { '0' <= c <= '9' }

  predicate AllDigits(t: string) { forall n | 0 <= n < |t| :: IsDigit(t[n]) }

  function DigitValue(c: char): int
    requires IsDigit(c)
  {
    c as int - '0' as int
  }

  /** The value of a string of decimal digits, most significant first. */
  function DecimalValue(t: string): nat
    requires AllDigits(t)
  {
    if |t| == 0 then 0 else 10 * DecimalValue(t[..|t| - 1]) + DigitValue(t[|t| - 1])
  }

  /**
   * The whole of `t` matches `(25[0-5]|2[0-4][0-9]|[01]?[0-9][0-9]?)`; the third
   * alternative is written out for each presence of its two optional parts.
   */
  predicate OctetMatch(t: string)
  {
    // 25[0-5]
    (|t| == 3 && t[0] == '2' && t[1] == '5' && '0' <= t[2] <= '5')
    // 2[0-4][0-9]
    || (|t| == 3 && t[0] == '2' && '0' <= t[1] <= '4' && IsDigit(t[2]))
    // [0-9]
    || (|t| == 1 && IsDigit(t[0]))
    // [0-9][0-9]
    || (|t| == 2 && IsDigit(t[0]) && IsDigit(t[1]))
    // [01][0-9]
    || (|t| == 2 && (t[0] == '0' || t[0] == '1') && IsDigit(t[1]))
    // [01][0-9][0-9]
    || (|t| == 3 && (t[0] == '0' || t[0] == '1') && IsDigit(t[1]) && IsDigit(t[2]))
  }

  /** The regular expression matches the whole of `ip` with its three literal dots at `i`, `j` and `k`. */
  predicate MatchesWithDotsAt(ip: string, i: int, j: int, k: int): (m: bool)
    requires 0 <= i < j < k < |ip|
    ensures m ==> 1 <= i <= 3 && 2 <= j - i <= 4 && 2 <= k - j <= 4 && 2 <= |ip| - k <= 4
  {
    ip[i] == '.' && ip[j] == '.' && ip[k] == '.' &&
    OctetMatch(ip[..i]) && OctetMatch(ip[i + 1..j]) && OctetMatch(ip[j + 1..k]) && OctetMatch(ip[k + 1..])
  }

  /**
   * `isValidIPAddress(ip)`: the anchored regular expression matches the whole
   * string. Four fields of one to three characters and three dots make an
   * accepted address 7 to 15 characters long.
   */
  predicate IsValidIPAddress(ip: string): (valid: bool)
    ensures valid ==> 7 <= |ip| <= 15
  {
    exists i, j, k | 0 <= i < j < k < |ip| :: MatchesWithDotsAt(ip, i, j, k)
  }

  /** One field of a dotted quad: one to three decimal digits, leading zeros allowed, value at most 255. */
  predicate IsOctet(t: string)
  {
    1 <= |t| <= 3 && AllDigits(t) && DecimalValue(t) <= 255
  }

  /** Four `.`-separated fields, each an octet. */
  predicate IsDottedQuad(ip: string)
  {
    var fields := Split(ip, '.');
    |fields| == 4 && forall n | 0 <= n < 4 :: IsOctet(fields[n])
  }

  /** The octet group of the regular expression accepts exactly the octets. */
  lemma OctetMatchIsOctet(t: string)
    ensures OctetMatch(t) <==> IsOctet(t)
  {
    if 1 <= |t| <= 3 && AllDigits(t) {
      var one := t[..1];
      assert one[..0] == "";
      assert DecimalValue(one) == DigitValue(t[0]);
      if |t| >= 2 {
        var two := t[..2];
        assert two[..1] == one;
        assert DecimalValue(two) == 10 * DigitValue(t[0]) + DigitValue(t[1]);
        if |t| == 3 {
          assert t[..2] == two;
          assert DecimalValue(t) == 100 * DigitValue(t[0]) + 10 * DigitValue(t[1]) + DigitValue(t[2]);
        } else {
          assert t == two;
        }
      } else {
        assert t == one;
      }
    }
  }

  lemma OctetHasNoDot(t: string)
    requires OctetMatch(t)
    ensures '.' !in t
  {
  }

  /** Four fields joined by dots. */
  lemma JoinFour(a: string, b: string, c: string, d: string)
    ensures Join([a, b, c, d], '.') == a + "." + b + "." + c + "." + d
  {
    assert Join([d], '.') == d;
    assert [c, d][1..] == [d];
    assert Join([c, d], '.') == c + "." + d;
    assert [b, c, d][1..] == [c, d];
    assert Join([b, c, d], '.') == b + "." + c + "." + d;
    assert [a, b, c, d][1..] == [b, c, d];
  }

  /** A string is the concatenation of its pieces around three dots. */
  lemma CutAtDots(ip: string, i: int, j: int, k: int)
    requires 0 <= i < j < k < |ip|
    requires ip[i] == '.' && ip[j] == '.' && ip[k] == '.'
    ensures ip == ip[..i] + "." + ip[i + 1..j] + "." + ip[j + 1..k] + "." + ip[k + 1..]
  {
    var a, b, c, d := ip[..i], ip[i + 1..j], ip[j + 1..k], ip[k + 1..];
    var cd := ip[j + 1..];
    assert cd == c + "." + d;
    var bcd := ip[i + 1..];
    assert bcd == b + "." + cd;
    assert ip == a + "." + bcd;
  }

  /** A match of the regular expression cuts the string into a dotted quad. */
  lemma MatchIsDottedQuad(ip: string, i: int, j: int, k: int)
    requires 0 <= i < j < k < |ip|
    requires ip[i] == '.' && ip[j] == '.' && ip[k] == '.'
    requires OctetMatch(ip[..i]) && OctetMatch(ip[i + 1..j]) && OctetMatch(ip[j + 1..k]) && OctetMatch(ip[k + 1..])
    ensures IsDottedQuad(ip)
  {
    var fields := [ip[..i], ip[i + 1..j], ip[j + 1..k], ip[k + 1..]];
    forall n | 0 <= n < 4 ensures '.' !in fields[n] && IsOctet(fields[n]) {
      OctetHasNoDot(fields[n]);
      OctetMatchIsOctet(fields[n]);
    }
    JoinFour(fields[0], fields[1], fields[2], fields[3]);
    CutAtDots(ip, i, j, k);
    SplitJoin(fields, '.');
  }

  /** Four pieces joined by dots are cut back out at the positions of the three dots. */
  lemma JoinedPieces(a: string, b: string, c: string, d: string)
    ensures var ip := a + "." + b + "." + c + "." + d;
      var i := |a|;
      var j := i + 1 + |b|;
      var k := j + 1 + |c|;
      ip[..i] == a && ip[i] == '.' && ip[i + 1..j] == b && ip[j] == '.' &&
      ip[j + 1..k] == c && ip[k] == '.' && ip[k + 1..] == d
  {
    var ip := a + "." + b + "." + c + "." + d;
    var j := |a| + 1 + |b|;
    assert ip[j + 1..] == c + "." + d;
  }

  /** Four stretches that match the octet group, joined by dots, match the whole expression. */
  lemma OctetsJoinedMatch(a: string, b: string, c: string, d: string)
    requires OctetMatch(a) && OctetMatch(b) && OctetMatch(c) && OctetMatch(d)
    ensures IsValidIPAddress(a + "." + b + "." + c + "." + d)
  {
    var ip := a + "." + b + "." + c + "." + d;
    var i := |a|;
    var j := i + 1 + |b|;
    var k := j + 1 + |c|;
    JoinedPieces(a, b, c, d);
    assert MatchesWithDotsAt(ip, i, j, k);
  }

  /** The fields of a dotted quad give the positions of a match of the regular expression. */
  lemma DottedQuadMatches(ip: string)
    requires IsDottedQuad(ip)
    ensures IsValidIPAddress(ip)
  {
    var f := Split(ip, '.');
    JoinSplit(ip, '.');
    assert f == [f[0], f[1], f[2], f[3]];
    JoinFour(f[0], f[1], f[2], f[3]);
    forall n | 0 <= n < 4 ensures OctetMatch(f[n]) {
      OctetMatchIsOctet(f[n]);
    }
    OctetsJoinedMatch(f[0], f[1], f[2], f[3]);
  }

  /** The regular expression accepts a string exactly when it is a dotted quad. */
  lemma ValidIffDottedQuad(ip: string)
    ensures IsValidIPAddress(ip) <==> IsDottedQuad(ip)
  {
    if IsValidIPAddress(ip) {
      var i, j, k :| 0 <= i < j < k < |ip| && MatchesWithDotsAt(ip, i, j, k);
      MatchIsDottedQuad(ip, i, j, k);
    }
    if IsDottedQuad(ip) {
      DottedQuadMatches(ip);
    }
  }

  /**
   * The length bound of `IsValidIPAddress` in the form the relay's handlers use:
   * an accepted address is never the empty string.
   */
  lemma ValidAddressNonEmpty(ip: string)
    requires IsValidIPAddress(ip)
    ensures |ip| >= 7 && ip != ""
  {
  }

  /** Leading zeros are accepted, including an all-zero field. */
  lemma LeadingZerosAccepted()
    ensures IsValidIPAddress("010.000.1.255")
  {
    var ip := "010.000.1.255";
    assert ip[3] == '.' && ip[7] == '.' && ip[9] == '.';
    assert OctetMatch(ip[..3]) && OctetMatch(ip[4..7]) && OctetMatch(ip[8..9]) && OctetMatch(ip[10..]);
    assert MatchesWithDotsAt(ip, 3, 7, 9);
  }

  /** A string made of the given dot-free fields is a dotted quad exactly when they are four octets. */
  lemma FieldsDecide(ip: string, fields: seq<string>)
    requires |fields| >= 1 && Join(fields, '.') == ip
    requires forall n | 0 <= n < |fields| :: '.' !in fields[n]
    ensures IsValidIPAddress(ip) <==> |fields| == 4 && forall n | 0 <= n < 4 :: IsOctet(fields[n])
  {
    SplitJoin(fields, '.');
    ValidIffDottedQuad(ip);
  }

  /** Three fields are rejected. */
  lemma ThreeFieldsRejected()
    ensures !IsValidIPAddress("1.2.3")
  {
    FieldsDecide("1.2.3", ["1", "2", "3"]);
  }

  /** Five fields are rejected. */
  lemma FiveFieldsRejected()
    ensures !IsValidIPAddress("1.2.3.4.5")
  {
    FieldsDecide("1.2.3.4.5", ["1", "2", "3", "4", "5"]);
  }

  /** A four-digit field is rejected. */
  lemma FourDigitFieldRejected()
    ensures !IsValidIPAddress("1234.1.1.1")
  {
    FieldsDecide("1234.1.1.1", ["1234", "1", "1", "1"]);
  }

  /** A field worth more than 255 is rejected. */
  lemma FieldAbove255Rejected()
    ensures !IsValidIPAddress("256.1.1.1")
  {
    assert DecimalValue("256") == 256 by {
      assert "256"[..2] == "25" && "25"[..1] == "2" && "2"[..0] == "";
    }
    assert !IsOctet("256");
    FieldsDecide("256.1.1.1", ["256", "1", "1", "1"]);
  }

  /** A non-digit is rejected. */
  lemma NonDigitRejected()
    ensures !IsValidIPAddress("1.a.1.1")
  {
    FieldsDecide("1.a.1.1", ["1", "a", "1", "1"]);
    assert !IsDigit("a"[0]);
  }
}
