/**
  Hexadecimal and percent-encoding: the encoder loops, the strict hex decoder, and their inverses
  (section 2.1 of RFC 3986 for percent-encoding).
*/
module Hex {
  import opened Prelude

  type nibble = n: nat | n < 16

  function HexDigit(n: nibble): byte {
    if n < 10 then 48 + n else 97 + (n - 10)
  }

  /** `HexDigit` followed by `to_ascii_uppercase`. */
  function UpperHexDigit(n: nibble): byte {
    if n < 10 then 48 + n else 65 + (n - 10)
  }

  function HexValue(b: byte): Option<nibble> {
    if 48 <= b <= 57 then Some(b - 48)
    else if 97 <= b <= 102 then Some(b - 97 + 10)
    else if 65 <= b <= 70 then Some(b - 65 + 10)
    else None
  }

  lemma DigitsExact(n: nibble)
    ensures HexDigit(n) as char == "0123456789abcdef"[n] && UpperHexDigit(n) as char == "0123456789ABCDEF"[n]
  {
  }

  /** Either case is read back, and nothing else has the digit's value. */
  lemma HexValueExact(b: byte, n: nibble)
    ensures HexValue(b) == Some(n) <==> b as char == "0123456789abcdef"[n] || b as char == "0123456789ABCDEF"[n]
    ensures HexValue(b) == Some(n) <==> b == HexDigit(n) || b == UpperHexDigit(n)
  {
    DigitsExact(n);
  }

  // ---------------------------------------------------------------------------------------------
  // Hex text
  // ---------------------------------------------------------------------------------------------

  function ByteHex(b: byte): (s: Text)
    ensures |s| == 2
  {
    [HexDigit(b / 16), HexDigit(b % 16)]
  }

  function HexText(x: Bytes): (s: Text)
    ensures |s| == 2 * |x|
  {
    if x == [] then [] else HexText(x[..|x| - 1]) + ByteHex(x[|x| - 1])
  }

  method ToHex(bytes: Bytes) returns (s: Text)
    ensures s == HexText(bytes)
  {
    hide HexDigit;
    s := [];
    assert bytes[..0] == [];
    for i := 0 to |bytes|
      invariant s == HexText(bytes[..i])
    {
      var b := bytes[i];
      ghost var before := s;
      s := s + [HexDigit(b / 16)];
      s := s + [HexDigit(b % 16)];
      assert bytes[..i + 1][..i] == bytes[..i];
      assert s == before + ByteHex(b);
    }
    assert bytes[..|bytes|] == bytes;
  }

  function ByteOf(high: nibble, low: nibble): byte {
    high as int * 16 + low as int
  }

  /** The pairs of a text of even length, or `None` when some character is not a hex digit. */
  function HexPairs(s: Text): Option<Bytes>
    requires |s| % 2 == 0
  {
    if s == [] then Some([])
    else
      match (HexValue(s[0]), HexValue(s[1]), HexPairs(s[2..]))
      case (Some(high), Some(low), Some(rest)) => Some([ByteOf(high, low)] + rest)
      case _ => None
  }

  /** The `i`-th pair of characters spells `b`, in either case. */
  predicate SpellsAt(s: Text, i: nat, b: byte) {
    2 * i + 1 < |s| && HexValue(s[2 * i]) == Some(b / 16) && HexValue(s[2 * i + 1]) == Some(b % 16)
  }

  predicate Spells(s: Text, x: Bytes) {
    |s| == 2 * |x| && forall i :: 0 <= i < |x| ==> SpellsAt(s, i, x[i])
  }

  lemma SpellsShift(s: Text, i: nat, b: byte)
    requires |s| >= 2
    ensures SpellsAt(s[2..], i, b) == SpellsAt(s, i + 1, b)
  {
  }

  lemma FirstPair(s: Text, b: byte)
    requires |s| >= 2
    ensures SpellsAt(s, 0, b) <==> HexValue(s[0]).Some? && HexValue(s[1]).Some? && ByteOf(HexValue(s[0]).value, HexValue(s[1]).value) == b
  {
    hide HexValue;
    if HexValue(s[0]).Some? && HexValue(s[1]).Some? {
      TwoNibbles(HexValue(s[0]).value, HexValue(s[1]).value);
    }
  }

  lemma TwoNibbles(high: nibble, low: nibble)
    ensures ByteOf(high, low) / 16 == high && ByteOf(high, low) % 16 == low
  {
  }

  /** A text decodes to `x` exactly when it spells `x`. */
  lemma {:induction false} HexPairsExact(s: Text, x: Bytes)
    requires |s| % 2 == 0
    ensures HexPairs(s) == Some(x) <==> Spells(s, x)
    decreases |s|
  {
    hide HexValue, SpellsAt, ByteOf;
    if s != [] && x != [] {
      HexPairsExact(s[2..], x[1..]);
      FirstPair(s, x[0]);
      if SpellsAt(s, 0, x[0]) && Spells(s[2..], x[1..]) {
        forall i | 0 <= i < |x| ensures SpellsAt(s, i, x[i]) {
          if i > 0 {
            assert SpellsAt(s[2..], i - 1, x[1..][i - 1]);
            SpellsShift(s, i - 1, x[i]);
          }
        }
      }
      if Spells(s, x) {
        forall i | 0 <= i < |x| - 1 ensures SpellsAt(s[2..], i, x[1..][i]) {
          SpellsShift(s, i, x[i + 1]);
        }
      }
      assert x == [x[0]] + x[1..];
    }
  }

  lemma {:induction false} HexTextDigits(x: Bytes)
    ensures Spells(HexText(x), x)
  {
    if x != [] {
      var n := |x| - 1;
      HexTextDigits(x[..n]);
      forall i | 0 <= i < |x| ensures SpellsAt(HexText(x), i, x[i]) {
        if i < n {
          assert SpellsAt(HexText(x[..n]), i, x[..n][i]);
          SpellsPrefix(HexText(x[..n]), ByteHex(x[n]), i, x[i]);
        } else {
          LastPair(HexText(x[..n]), n, x[n]);
        }
      }
    }
  }

  lemma SpellsPrefix(s: Text, t: Text, i: nat, b: byte)
    requires SpellsAt(s, i, b)
    ensures SpellsAt(s + t, i, b)
  {
  }

  lemma LastPair(s: Text, n: nat, b: byte)
    requires |s| == 2 * n
    ensures SpellsAt(s + ByteHex(b), n, b)
  {
    HexValueExact(HexDigit(b / 16), b / 16);
    HexValueExact(HexDigit(b % 16), b % 16);
    hide HexValue, HexDigit;
  }

  /** Decoding inverts encoding. */
  lemma HexRoundTrip(x: Bytes)
    ensures HexPairs(HexText(x)) == Some(x)
  {
    HexTextDigits(x);
    HexPairsExact(HexText(x), x);
  }

  // ---------------------------------------------------------------------------------------------
  // Percent-encoding
  // ---------------------------------------------------------------------------------------------

  const PERCENT: byte := 37

  /** The unreserved characters. */
  predicate Unreserved(b: byte) {
    65 <= b <= 90 || 97 <= b <= 122 || 48 <= b <= 57 || b == 45 || b == 95 || b == 46 || b == 126
  }

  function BytePercent(b: byte): (s: Text) {
    if Unreserved(b) then [b] else [PERCENT, UpperHexDigit(b / 16), UpperHexDigit(b % 16)]
  }

  function PercentText(x: Text): (s: Text) {
    if x == [] then [] else PercentText(x[..|x| - 1]) + BytePercent(x[|x| - 1])
  }

  method PercentEncode(s: Text) returns (out: Text)
    ensures out == PercentText(s)
  {
    hide UpperHexDigit, Unreserved;
    out := [];
    assert s[..0] == [];
    for i := 0 to |s|
      invariant out == PercentText(s[..i])
    {
      var b := s[i];
      ghost var before := out;
      if Unreserved(b) {
        out := out + [b];
      } else {
        out := out + [PERCENT];
        out := out + [UpperHexDigit(b / 16)];
        out := out + [UpperHexDigit(b % 16)];
      }
      assert s[..i + 1][..i] == s[..i];
      assert out == before + BytePercent(b);
    }
    assert s[..|s|] == s;
  }

  /** What a receiver does: `%` and two hex digits are one byte, any other character is itself. */
  function PercentDecode(s: Text): Option<Text>
    decreases |s|
  {
    if s == [] then Some([])
    else if s[0] != PERCENT then
      match PercentDecode(s[1..])
      case Some(rest) => Some([s[0]] + rest)
      case None => None
    else if |s| < 3 then None
    else
      match (HexValue(s[1]), HexValue(s[2]), PercentDecode(s[3..]))
      case (Some(high), Some(low), Some(rest)) => Some([ByteOf(high, low)] + rest)
      case _ => None
  }

  lemma BytePercentDecodes(b: byte, s: Text)
    ensures PercentDecode(BytePercent(b) + s) == match PercentDecode(s) { case Some(rest) => Some([b] + rest) case None => None }
  {
    HexValueExact(UpperHexDigit(b / 16), b / 16);
    HexValueExact(UpperHexDigit(b % 16), b % 16);
    hide HexValue, UpperHexDigit;
    var t := BytePercent(b) + s;
    if Unreserved(b) {
      assert t[1..] == s;
    } else {
      assert t[3..] == s;
    }
  }

  lemma {:induction false} PercentDecodesThen(x: Text, s: Text)
    ensures PercentDecode(PercentText(x) + s) == match PercentDecode(s) { case Some(rest) => Some(x + rest) case None => None }
    decreases |x|
  {
    hide PercentDecode, BytePercent;
    if x == [] {
      assert PercentText(x) + s == s;
      if PercentDecode(s).Some? { assert x + PercentDecode(s).value == PercentDecode(s).value; }
    } else {
      var n := |x| - 1;
      var t := BytePercent(x[n]) + s;
      assert PercentText(x) + s == PercentText(x[..n]) + t;
      PercentDecodesThen(x[..n], t);
      BytePercentDecodes(x[n], s);
      if PercentDecode(s).Some? {
        assert x[..n] + ([x[n]] + PercentDecode(s).value) == x + PercentDecode(s).value;
      }
    }
  }

  /** Percent-decoding inverts percent-encoding. */
  lemma PercentRoundTrip(x: Text)
    ensures PercentDecode(PercentText(x)) == Some(x)
  {
    PercentDecodesThen(x, []);
    assert PercentText(x) + [] == PercentText(x) && x + [] == x;
  }

  /** The unreserved characters of section 2.3 of RFC 3986. */
  predicate IsLiteral(c: char) {
    'A' <= c <= 'Z' || 'a' <= c <= 'z' || '0' <= c <= '9' || c in "-._~"
  }

  lemma UnreservedExact(b: byte)
    ensures Unreserved(b) <==> IsLiteral(b as char)
  {
  }

  /** What one byte is written as: itself, or `%` and two upper-case digits. */
  lemma EscapeExact(b: byte)
    ensures IsLiteral(b as char) ==> BytePercent(b) == [b]
    ensures !IsLiteral(b as char) ==>
              var s := BytePercent(b);
              |s| == 3 && s[0] as char == '%' && s[1] as char == "0123456789ABCDEF"[b / 16] && s[2] as char == "0123456789ABCDEF"[b % 16]
  {
    UnreservedExact(b);
    DigitsExact(b / 16);
    DigitsExact(b % 16);
    hide UpperHexDigit, Unreserved, IsLiteral;
  }

  predicate AllLiteral(x: Text) {
    forall i :: 0 <= i < |x| ==> IsLiteral(x[i] as char)
  }

  lemma {:induction false} PercentLength(x: Text)
    ensures |PercentText(x)| >= |x|
    ensures |PercentText(x)| == |x| ==> AllLiteral(x)
    decreases |x|
  {
    hide UpperHexDigit, Unreserved, IsLiteral;
    if x != [] {
      var n := |x| - 1;
      PercentLength(x[..n]);
      UnreservedExact(x[n]);
      if |PercentText(x)| == |x| {
        forall i | 0 <= i < |x| ensures IsLiteral(x[i] as char) {
          if i < n { assert x[..n][i] == x[i]; }
        }
      }
    }
  }

  lemma {:induction false} LiteralsKept(x: Text)
    requires AllLiteral(x)
    ensures PercentText(x) == x
    decreases |x|
  {
    if x != [] {
      var n := |x| - 1;
      forall i | 0 <= i < n ensures IsLiteral(x[..n][i] as char) {
        assert x[..n][i] == x[i];
      }
      hide IsLiteral, Unreserved, UpperHexDigit;
      LiteralsKept(x[..n]);
      UnreservedExact(x[n]);
      assert x == x[..n] + [x[n]];
    }
  }

  /** Only unreserved characters and `%` are written, and exactly the texts of unreserved characters are left as they are. */
  lemma {:induction false} PercentSafe(x: Text)
    ensures forall i :: 0 <= i < |PercentText(x)| ==> IsLiteral(PercentText(x)[i] as char) || PercentText(x)[i] as char == '%'
    ensures PercentText(x) == x <==> AllLiteral(x)
    decreases |x|
  {
    if AllLiteral(x) { LiteralsKept(x); } else { PercentLength(x); }
    if x != [] {
      PercentSafe(x[..|x| - 1]);
      UnreservedExact(x[|x| - 1]);
      assert forall n: nibble :: IsLiteral(UpperHexDigit(n) as char);
    }
  }
}
