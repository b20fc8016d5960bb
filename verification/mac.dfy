/**
 Recognition and normalisation of one input line as a MAC address
 (`validateMac` and the lower-casing step of `convertToFGsyntax`).
 */
module Mac {
  import opened Text
  import opened Wrappers

  /** The character class `[0-9A-Fa-f]`. */
  predicate IsHexDigit(c: char) {
    '0' <= c <= '9' || 'A' <= c <= 'F' || 'a' <= c <= 'f'
  }

  /** Position `i` holds what the colon-separated layout puts there: `:` after every octet, a hex digit elsewhere. */
  predicate PositionOk(s: string, i: int)
    requires 0 <= i < |s|
  {
    if i % 3 == 2 then s[i] == ':' else IsHexDigit(s[i])
  }

  /**
   `validateMac`: the whole line is six two-digit hex octets joined by colons.
   The pattern is anchored at both ends, so nothing may precede or follow it.
   */
  predicate ValidateMac(s: string) {
    |s| == 17 && forall i :: 0 <= i < |s| ==> PositionOk(s, i)
  }

  /** The hyphen and dotted spellings of an address are rejected: no accepted line holds a `-` or a `.`. */
  lemma OtherSeparatorsRejected(s: string)
    requires '-' in s || '.' in s
    ensures !ValidateMac(s)
  {
    var i :| 0 <= i < |s| && (s[i] == '-' || s[i] == '.');
    SeparatorNotOk(s, i);
  }

  /** Neither a hyphen nor a dot is allowed at any position. */
  lemma SeparatorNotOk(s: string, i: int)
    requires 0 <= i < |s| && (s[i] == '-' || s[i] == '.')
    ensures !PositionOk(s, i)
  {
  }

  /** A whole string matching `[0-9A-Fa-f]{2}`. */
  predicate MatchesOctet(s: string) {
    |s| == 2 && IsHexDigit(s[0]) && IsHexDigit(s[1])
  }

  /**
   A whole string matching `([0-9A-Fa-f]{2}[:]){n}([0-9A-Fa-f]{2})`, read off the
   pattern group by group; `n == 5` is the pattern `validateMac` compiles.
   */
  predicate MatchesGroups(s: string, n: nat)
    decreases n
  {
    if n == 0 then MatchesOctet(s)
    else |s| >= 3 && IsHexDigit(s[0]) && IsHexDigit(s[1]) && s[2] == ':' && MatchesGroups(s[3..], n - 1)
  }

  lemma {:induction false} MatchesGroupsPositions(s: string, n: nat)
    ensures MatchesGroups(s, n) <==> (|s| == 3 * n + 2 && forall i :: 0 <= i < |s| ==> PositionOk(s, i))
    decreases n
  {
    if n == 0 {
      if |s| == 2 {
        assert PositionOk(s, 0) <==> IsHexDigit(s[0]);
        assert PositionOk(s, 1) <==> IsHexDigit(s[1]);
      }
    } else if |s| >= 3 {
      var t := s[3..];
      MatchesGroupsPositions(t, n - 1);
      assert forall i :: 3 <= i < |s| ==> (PositionOk(s, i) <==> PositionOk(t, i - 3));
      if |s| == 3 * n + 2 && forall i :: 0 <= i < |s| ==> PositionOk(s, i) {
        assert PositionOk(s, 0) && PositionOk(s, 1) && PositionOk(s, 2);
        assert forall j :: 0 <= j < |t| ==> PositionOk(t, j) by {
          forall j | 0 <= j < |t| ensures PositionOk(t, j) {
            assert PositionOk(s, j + 3);
          }
        }
      }
      if MatchesGroups(s, n) {
        forall i | 0 <= i < |s| ensures PositionOk(s, i) {
          if i >= 3 {
            assert PositionOk(t, i - 3);
          }
        }
      }
    }
  }

  /** The positional predicate accepts exactly the strings the anchored regular expression matches. */
  lemma ValidateMacIsPattern(s: string)
    ensures ValidateMac(s) <==> MatchesGroups(s, 5)
  {
    MatchesGroupsPositions(s, 5);
  }

  /** An accepted line has no surrounding white space, and one more character on either side makes it rejected. */
  lemma ValidMacIsTight(s: string, c: char)
    requires ValidateMac(s)
    ensures IsTrimmed(s)
    ensures !ValidateMac([c] + s) && !ValidateMac(s + [c])
  {
    assert PositionOk(s, 0) && PositionOk(s, 16);
  }

  /** The name an accepted line is given in the output: `strings.ToLower(strings.TrimSpace(mac))`. */
  function Normalize(mac: string): (n: string)
    ensures |n| <= |mac|
    ensures IsLower(n)
  {
    Lower(TrimSpace(mac))
  }

  /**
   On an accepted line the trim removes nothing, so its name is the line
   lower-cased, and the name is itself an accepted line.
   */
  lemma NormalizeValid(mac: string)
    requires ValidateMac(mac)
    ensures Normalize(mac) == Lower(mac)
    ensures ValidateMac(Normalize(mac))
  {
    ValidMacIsTight(mac, ' ');
    LowerKeepsValid(mac);
  }

  /** Lower-casing keeps every colon and every hex digit in its place. */
  lemma LowerKeepsValid(s: string)
    requires ValidateMac(s)
    ensures ValidateMac(Lower(s))
  {
    var n := Lower(s);
    forall i | 0 <= i < |n| ensures PositionOk(n, i) {
      assert PositionOk(s, i);
    }
  }

  /** Normalising a second time changes nothing, for every string whatever it holds. */
  lemma NormalizeIdempotent(s: string)
    ensures Normalize(Normalize(s)) == Normalize(s)
  {
    var n := Normalize(s);
    LowerKeepsTrimmed(TrimSpace(s));
    assert TrimSpace(n) == n;
  }

  /** Lower-casing leaves white space where it was, so a trimmed string stays trimmed. */
  lemma LowerKeepsTrimmed(t: string)
    requires IsTrimmed(t)
    ensures IsTrimmed(Lower(t))
  {
    var n := Lower(t);
    if n != [] {
      assert n[0] == t[0] || 'a' <= n[0] <= 'z';
      assert n[|n| - 1] == t[|t| - 1] || 'a' <= n[|n| - 1] <= 'z';
    }
  }

  /** A MAC address as the six octets it denotes. */
  type Byte = x: int | 0 <= x < 256

  datatype MacAddress = MacAddress(octets: seq<Byte>) {
    predicate Valid() {
      |octets| == 6
    }
  }

  function HexValue(c: char): (v: int)
    requires IsHexDigit(c)
    ensures 0 <= v < 16
  {
    if '0' <= c <= '9' then c as int - '0' as int
    else if 'a' <= c <= 'f' then c as int - 'a' as int + 10
    else c as int - 'A' as int + 10
  }

  /** The lower-case hex digit of a value below 16. */
  function HexChar(v: int): (c: char)
    requires 0 <= v < 16
    ensures IsHexDigit(c) && !IsUpper(c)
    ensures HexValue(c) == v
  {
    if v < 10 then (v + '0' as int) as char else (v - 10 + 'a' as int) as char
  }

  lemma HexCharOfValue(c: char)
    requires IsHexDigit(c)
    ensures HexChar(HexValue(c)) == LowerChar(c)
  {
  }

  /** Reads the six octets off a line, failing exactly on the lines `validateMac` rejects. */
  function Parse(s: string): (r: Option<MacAddress>)
    ensures r.Some? <==> ValidateMac(s)
    ensures r.Some? ==> r.value.Valid()
  {
    if ValidateMac(s) then
      assert forall i :: 0 <= i < 6 ==> PositionOk(s, 3 * i) && PositionOk(s, 3 * i + 1);
      Some(MacAddress(seq(6, i requires 0 <= i < 6 => HexValue(s[3 * i]) * 16 + HexValue(s[3 * i + 1]))))
    else None
  }

  /** The canonical spelling: six lower-case two-digit octets joined by colons. */
  function Format(m: MacAddress): (s: string)
    requires m.Valid()
    ensures ValidateMac(s) && IsLower(s)
  {
    var s := seq(17, i requires 0 <= i < 17 =>
      if i % 3 == 2 then ':'
      else if i % 3 == 0 then HexChar(m.octets[i / 3] / 16)
      else HexChar(m.octets[i / 3] % 16));
    assert forall i :: 0 <= i < 17 ==> PositionOk(s, i);
    s
  }

  /** Formatting and then parsing gives back the same six octets. */
  lemma ParseFormat(m: MacAddress)
    requires m.Valid()
    ensures Parse(Format(m)) == Some(m)
  {
    var s := Format(m);
    var p := Parse(s);
    forall k | 0 <= k < 6
      ensures p.value.octets[k] == m.octets[k]
    {
      var o := m.octets[k];
      assert (3 * k) % 3 == 0 && (3 * k) / 3 == k;
      assert (3 * k + 1) % 3 == 1 && (3 * k + 1) / 3 == k;
      assert s[3 * k] == HexChar(o / 16);
      assert s[3 * k + 1] == HexChar(o % 16);
      assert p.value.octets[k] == HexValue(s[3 * k]) * 16 + HexValue(s[3 * k + 1]);
    }
    assert p.value.octets == m.octets;
  }

  /** The value of octet `k` of an accepted line, digit by digit. */
  lemma OctetDigits(s: string, k: int)
    requires ValidateMac(s) && 0 <= k < 6
    ensures PositionOk(s, 3 * k) && PositionOk(s, 3 * k + 1)
    ensures Parse(s).value.octets[k] / 16 == HexValue(s[3 * k])
    ensures Parse(s).value.octets[k] % 16 == HexValue(s[3 * k + 1])
  {
    assert (3 * k) % 3 == 0 && (3 * k + 1) % 3 == 1;
    assert PositionOk(s, 3 * k) && PositionOk(s, 3 * k + 1);
    var hi := HexValue(s[3 * k]);
    var lo := HexValue(s[3 * k + 1]);
    assert Parse(s).value.octets[k] == hi * 16 + lo;
  }

  /**
   The name `convertToFGsyntax` gives an accepted line is the canonical spelling of
   the address the line denotes: normalising is parsing and formatting again.
   */
  lemma NormalizeIsCanonical(s: string)
    requires ValidateMac(s)
    ensures Parse(s).Some? && Format(Parse(s).value) == Normalize(s)
  {
    var f := Format(Parse(s).value);
    var n := Lower(s);
    forall i | 0 <= i < 17 ensures f[i] == n[i] {
      if i % 3 == 2 {
        assert PositionOk(s, i) && PositionOk(f, i);
      } else {
        DigitCanonical(s, i / 3, i % 3);
      }
    }
    assert f == n;
    NormalizeValid(s);
  }

  /** Digit `j` of octet `k` is spelled by `Format` as the lower-cased digit of the line. */
  lemma DigitCanonical(s: string, k: int, j: int)
    requires ValidateMac(s) && 0 <= k < 6 && 0 <= j < 2
    ensures Format(Parse(s).value)[3 * k + j] == Lower(s)[3 * k + j]
  {
    var i := 3 * k + j;
    OctetDigits(s, k);
    assert i % 3 == j && i / 3 == k;
    HexCharOfValue(s[i]);
  }
}
