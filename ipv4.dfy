/** The server form's address check `ipValid` (src/scripts/main.js:63-64): the regular
    expression `^(?:\d{1,3}\.){3}\d{1,3}$` followed by a check that every dot-separated
    group is at most 255. */
module Ipv4 {
  import opened Text

  /** Length of the run of ASCII digits at the start of `s`. */
  function DigitRun(s: string): (n: nat)
    ensures n <= |s| && AllDigits(s[..n])
    ensures n < |s| ==> !IsDigit(s[n])
    decreases |s|
  {
    if s != [] && IsDigit(s[0]) then
      var n := DigitRun(s[1..]) + 1;
      assert s[..n] == [s[0]] + s[1..][..n - 1];
      n
    else 0
  }

  /** Whether `(?:\d{1,3}\.){k}\d{1,3}$` matches `s` from its first character. A
      group `\d{1,3}` followed by a dot or by the end must take the whole run of
      digits, since neither a dot nor the end is a digit, so no backtracking is needed. */
  predicate MatchesGroups(s: string, k: nat)
    decreases k
  {
    var n := DigitRun(s);
    1 <= n <= 3 &&
    if k == 0 then n == |s|
    else n < |s| && s[n] == '.' && MatchesGroups(s[n + 1..], k - 1)
  }

  /** `/^(?:\d{1,3}\.){3}\d{1,3}$/.test(ip)`. */
  predicate MatchesDottedQuad(ip: string) {
    MatchesGroups(ip, 3)
  }

  /** `ipValid(ip)`: the pattern matches and every group `n` of `ip.split('.')` has
      `+n >= 0 && +n <= 255`; a digit string is never negative, so only the upper
      bound can fail. */
  predicate IpValid(ip: string) {
    MatchesDottedQuad(ip) && forall part :: part in Split(ip, '.') ==> DecimalValue(part) <= 255
  }

  /** One group of a valid address: one to three ASCII digits worth at most 255. */
  predicate IsOctetText(part: string) {
    1 <= |part| <= 3 && AllDigits(part) && DecimalValue(part) <= 255
  }

  /** Pieces of one to three ASCII digits each. */
  predicate ShortDigitPieces(parts: seq<string>) {
    forall m :: 0 <= m < |parts| ==> 1 <= |parts[m]| <= 3 && AllDigits(parts[m])
  }

  lemma ShortDigitPiecesCons(head: string, rest: seq<string>)
    ensures ShortDigitPieces([head] + rest) <==>
              1 <= |head| <= 3 && AllDigits(head) && ShortDigitPieces(rest)
  {
    var parts := [head] + rest;
    assert parts[0] == head;
    if ShortDigitPieces(parts) {
      forall m | 0 <= m < |rest| ensures 1 <= |rest[m]| <= 3 && AllDigits(rest[m]) {
        assert rest[m] == parts[m + 1];
      }
    }
    if 1 <= |head| <= 3 && AllDigits(head) && ShortDigitPieces(rest) {
      forall m | 0 <= m < |parts| ensures 1 <= |parts[m]| <= 3 && AllDigits(parts[m]) {
        if m > 0 {
          assert parts[m] == rest[m - 1];
        }
      }
    }
  }

  /** How the leading run of digits relates to the first dot: the run never passes it,
      it reaches it when everything before the dot is a digit, and a run that stops at a
      dot stops at the first one. */
  lemma {:induction false} DigitRunAndFirstDot(s: string)
    ensures DigitRun(s) <= IndexOf(s, '.')
    ensures AllDigits(s[..IndexOf(s, '.')]) ==> DigitRun(s) == IndexOf(s, '.')
    ensures DigitRun(s) < |s| && s[DigitRun(s)] == '.' ==> IndexOf(s, '.') == DigitRun(s)
    decreases |s|
  {
    if s != [] && IsDigit(s[0]) {
      DigitRunAndFirstDot(s[1..]);
      var i := IndexOf(s, '.');
      assert s[..i] == [s[0]] + s[1..][..i - 1];
    } else if s != [] && s[0] != '.' && IndexOf(s, '.') > 0 {
      assert s[..IndexOf(s, '.')][0] == s[0];
    }
  }

  /** A match of `k` dotted groups splits into `k + 1` pieces of one to three digits. */
  lemma {:induction false} GroupsSplitIntoPieces(s: string, k: nat)
    requires MatchesGroups(s, k)
    ensures |Split(s, '.')| == k + 1 && ShortDigitPieces(Split(s, '.'))
    decreases k
  {
    var n := DigitRun(s);
    DigitRunAndFirstDot(s);
    if k == 0 {
      assert s[..n] == s;
      assert Split(s, '.') == [s] + [];
      ShortDigitPiecesCons(s, []);
    } else {
      var rest := s[n + 1..];
      GroupsSplitIntoPieces(rest, k - 1);
      assert Split(s, '.') == [s[..n]] + Split(rest, '.');
      ShortDigitPiecesCons(s[..n], Split(rest, '.'));
    }
  }

  /** `k + 1` pieces of one to three digits, joined with dots, match `k` dotted groups. */
  lemma {:induction false} JoinedPiecesMatchGroups(parts: seq<string>, k: nat)
    requires |parts| == k + 1 && ShortDigitPieces(parts)
    ensures MatchesGroups(Join(parts, '.'), k)
    decreases k
  {
    if k == 0 {
      assert Join(parts, '.') == parts[0];
    } else {
      ShortDigitPiecesCons(parts[0], parts[1..]);
      assert parts == [parts[0]] + parts[1..];
      JoinedPiecesMatchGroups(parts[1..], k - 1);
      FirstGroupThenRest(parts, k);
    }
  }

  lemma FirstGroupThenRest(parts: seq<string>, k: nat)
    requires k > 0 && |parts| == k + 1 && 1 <= |parts[0]| <= 3 && AllDigits(parts[0])
    requires MatchesGroups(Join(parts[1..], '.'), k - 1)
    ensures MatchesGroups(Join(parts, '.'), k)
  {
    assert Join(parts, '.') == parts[0] + "." + Join(parts[1..], '.');
    GroupThenDot(parts[0], Join(parts[1..], '.'));
  }

  /** The leading run of digits of `head + "." + rest` is `head` when `head` is all digits. */
  lemma GroupThenDot(head: string, rest: string)
    requires AllDigits(head)
    ensures var s := head + "." + rest;
      DigitRun(s) == |head| && s[|head|] == '.' && s[|head| + 1..] == rest
  {
    var s := head + "." + rest;
    assert s[|head|] == '.' && s[..|head|] == head && s[|head| + 1..] == rest;
    DigitsHaveNoDot(head);
    assert forall j :: 0 <= j < |head| ==> s[j] == head[j];
    assert IndexOf(s, '.') == |head|;
    DigitRunAndFirstDot(s);
  }

  /** `k + 1` pieces of one to three digits between dots match `k` dotted groups. */
  lemma PiecesMatchGroups(s: string, k: nat)
    requires |Split(s, '.')| == k + 1 && ShortDigitPieces(Split(s, '.'))
    ensures MatchesGroups(s, k)
  {
    SplitJoin(s, '.');
    JoinedPiecesMatchGroups(Split(s, '.'), k);
  }

  /** The pattern with `k` dotted groups matches exactly when splitting on dots gives
      `k + 1` pieces, each of one to three digits. */
  lemma MatchesGroupsIff(s: string, k: nat)
    ensures MatchesGroups(s, k) <==> |Split(s, '.')| == k + 1 && ShortDigitPieces(Split(s, '.'))
  {
    if MatchesGroups(s, k) {
      GroupsSplitIntoPieces(s, k);
    }
    if |Split(s, '.')| == k + 1 && ShortDigitPieces(Split(s, '.')) {
      PiecesMatchGroups(s, k);
    }
  }

  /** The address check in plain terms: exactly four dot-separated groups, each of one
      to three ASCII digits with value at most 255. */
  lemma IpValidIff(ip: string)
    ensures IpValid(ip) <==>
              |Split(ip, '.')| == 4 && forall m :: 0 <= m < 4 ==> IsOctetText(Split(ip, '.')[m])
  {
    MatchesGroupsIff(ip, 3);
    var parts := Split(ip, '.');
    if |parts| == 4 {
      assert forall part :: part in parts ==> exists m :: 0 <= m < 4 && parts[m] == part;
    }
  }

  lemma DigitsHaveNoDot(s: string)
    requires AllDigits(s)
    ensures '.' !in s
  {
  }

  /** Four pieces of one to three digits joined with dots have the pattern's shape, and
      splitting the result gives the pieces back. */
  lemma JoinedPiecesHaveQuadShape(parts: seq<string>)
    requires |parts| == 4 && ShortDigitPieces(parts)
    ensures Split(Join(parts, '.'), '.') == parts
    ensures MatchesDottedQuad(Join(parts, '.'))
  {
    forall m | 0 <= m < 4 ensures '.' !in parts[m] {
      DigitsHaveNoDot(parts[m]);
    }
    SplitOfJoin(parts, '.');
    JoinedPiecesMatchGroups(parts, 3);
  }

  /** Four octets joined with dots pass the check. */
  lemma JoinedOctetsAreValid(parts: seq<string>)
    requires |parts| == 4 && forall m :: 0 <= m < 4 ==> IsOctetText(parts[m])
    ensures IpValid(Join(parts, '.'))
    ensures Split(Join(parts, '.'), '.') == parts
  {
    JoinedPiecesHaveQuadShape(parts);
    assert forall part :: part in parts ==> exists m :: 0 <= m < 4 && parts[m] == part;
  }

  /** Four groups of one to three digits, one of them worth more than 255, have the
      pattern's shape and are still rejected: the range check is what refuses them. */
  lemma JoinedLargeGroupIsRejected(parts: seq<string>, m: nat)
    requires |parts| == 4 && ShortDigitPieces(parts)
    requires m < 4 && DecimalValue(parts[m]) > 255
    ensures MatchesDottedQuad(Join(parts, '.')) && !IpValid(Join(parts, '.'))
  {
    JoinedPiecesHaveQuadShape(parts);
    assert parts[m] in Split(Join(parts, '.'), '.');
  }

  /** The address `a.b.c.d` written with canonical decimal numerals. */
  function Dotted(a: nat, b: nat, c: nat, d: nat): string {
    Join([Decimal(a), Decimal(b), Decimal(c), Decimal(d)], '.')
  }

  /** Every address written from four octets passes the check, and its groups read back
      as those octets. */
  lemma DottedIsValid(a: nat, b: nat, c: nat, d: nat)
    requires a <= 255 && b <= 255 && c <= 255 && d <= 255
    ensures IpValid(Dotted(a, b, c, d))
    ensures Split(Dotted(a, b, c, d), '.') == [Decimal(a), Decimal(b), Decimal(c), Decimal(d)]
  {
    var parts := [Decimal(a), Decimal(b), Decimal(c), Decimal(d)];
    forall m | 0 <= m < 4 ensures IsOctetText(parts[m]) {
      DecimalIsShort([a, b, c, d][m]);
    }
    JoinedOctetsAreValid(parts);
  }

  /** `"192.168.1.1"` is accepted. */
  lemma AcceptsPrivateAddress()
    ensures IpValid("192.168.1.1")
  {
    DecimalValueOfShortNumeral('1', '9', '2');
    DecimalValueOfShortNumeral('1', '6', '8');
    DecimalValueOfShortNumeral('1', '0', '0');
    assert Join(["192", "168", "1", "1"], '.') == "192.168.1.1";
    JoinedOctetsAreValid(["192", "168", "1", "1"]);
  }

  /** `"999.1.1.1"` has the shape of an address, four groups of one to three digits,
      and is rejected because its first group exceeds 255. */
  lemma RejectsOutOfRangeGroup()
    ensures MatchesDottedQuad("999.1.1.1") && !IpValid("999.1.1.1")
  {
    DecimalValueOfShortNumeral('9', '9', '9');
    assert Join(["999", "1", "1", "1"], '.') == "999.1.1.1";
    JoinedLargeGroupIsRejected(["999", "1", "1", "1"], 0);
  }
}
