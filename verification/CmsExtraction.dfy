/**
  Cutting the CMS out of a signed PDF: strict hex decoding of `/Contents`, the DER length that
  separates it from its zero padding (section 8.1.3 of ITU-T X.690), and the `/ByteRange` check.
*/
module CmsExtraction {
  import opened Prelude
  import opened CborWire
  import opened Hex

  datatype Reason = MalformedByteRange | UnsignedSuffix | InvalidContents

  datatype Cms = Cms(der: Bytes, digest: Bytes)

  const OPEN: byte := 60
  const CLOSE: byte := 62

  function DecodeHex(input: Bytes): Result<Bytes, Reason> {
    if input == [] || |input| % 2 != 0 then Err(InvalidContents)
    else
      match HexPairs(input)
      case Some(x) => Ok(x)
      case None => Err(InvalidContents)
  }

  // ---------------------------------------------------------------------------------------------
  // The DER length
  // ---------------------------------------------------------------------------------------------

  /** Big-endian accumulation with checked arithmetic. */
  function FoldLength(acc: nat, bs: Bytes): Option<nat>
    decreases |bs|
  {
    if bs == [] then Some(acc)
    else
      match CheckedMul(acc, 256)
      case None => None
      case Some(shifted) =>
        match CheckedAdd(shifted, bs[0])
        case None => None
        case Some(next) => FoldLength(next, bs[1..])
  }

  function DerLength(der: Bytes): Option<nat> {
    if |der| < 2 then None
    else if der[1] < 128 then CheckedAdd(2, der[1])
    else
      var width := der[1] % 128;
      if width == 0 || width > 8 || 2 + width > |der| then None
      else
        match FoldLength(0, der[2..2 + width])
        case None => None
        case Some(content) => CheckedAdd(2 + width, content)
  }

  /** One identifier octet, a definite length in short or 1-to-8-octet long form, and the content. */
  predicate IsTlv(t: Bytes) {
    && |t| >= 2
    && if t[1] < 128 then |t| == 2 + t[1]
       else
         var width := t[1] - 128;
         1 <= width <= 8 && 2 + width <= |t| && |t| == 2 + width + FromBigEndian(t[2..2 + width])
  }

  /** The checks lose nothing on at most eight octets. */
  lemma {:induction false} FoldLengthExact(bs: Bytes, i: nat)
    requires i <= |bs| <= 8
    ensures FoldLength(FromBigEndian(bs[..i]), bs[i..]) == Some(FromBigEndian(bs))
    decreases |bs| - i
  {
    hide FromBigEndian, Pow256, FoldLength;
    if i == |bs| {
      assert bs[..i] == bs && bs[i..] == [];
      FoldNothing(FromBigEndian(bs));
    } else {
      FoldLengthExact(bs, i + 1);
      FromBigEndianRoundTrip(bs[..i + 1]);
      PowAtMost(i + 1);
      Snoc(bs, i);
      FoldFits(FromBigEndian(bs[..i]), bs, i);
    }
  }

  lemma FoldNothing(acc: nat)
    ensures FoldLength(acc, []) == Some(acc)
  {
  }

  lemma FoldFits(acc: nat, bs: Bytes, i: nat)
    requires i < |bs| && 256 * acc + bs[i] <= USIZE_MAX
    ensures FoldLength(acc, bs[i..]) == FoldLength(256 * acc + bs[i], bs[i + 1..])
  {
    assert bs[i..][1..] == bs[i + 1..];
  }

  lemma Snoc(bs: Bytes, i: nat)
    requires i < |bs|
    ensures FromBigEndian(bs[..i + 1]) == 256 * FromBigEndian(bs[..i]) + bs[i]
  {
    assert bs[..i + 1][..i] == bs[..i];
  }

  lemma PowAtMost(k: nat)
    requires k <= 8
    ensures Pow256(k) <= USIZE_MAX + 1
  {
    assert Pow256(4) == 0x1_0000_0000 && Pow256(8) == 0x1_0000_0000 * Pow256(4);
    assert Pow256(1) == 0x100 && Pow256(2) == 0x1_0000 && Pow256(3) == 0x100_0000;
    assert Pow256(5) == 0x100 * Pow256(4) && Pow256(6) == 0x1_0000 * Pow256(4) && Pow256(7) == 0x100_0000 * Pow256(4);
  }

  /** `der_length` is `n` exactly when the first `n` bytes are one TLV, as far as the input holds them. */
  lemma DerLengthExact(der: Bytes, n: nat)
    requires n <= |der| <= SLICE_MAX
    ensures DerLength(der) == Some(n) <==> IsTlv(der[..n])
  {
    hide FoldLength, FromBigEndian;
    if |der| >= 2 && der[1] >= 128 {
      var width := der[1] - 128;
      if 1 <= width <= 8 && 2 + width <= |der| {
        var octets := der[2..2 + width];
        FoldLengthExact(octets, 0);
        assert octets[..0] == [] && octets[0..] == octets;
        EmptyIsZero();
        if 2 + width <= n { assert der[..n][2..2 + width] == octets; }
      }
    }
  }

  lemma EmptyIsZero()
    ensures FromBigEndian([]) == 0
  {
  }

  function Zeros(k: nat): (z: Bytes)
    ensures |z| == k && forall i :: 0 <= i < k ==> z[i] == 0
  {
    seq(k, _ => 0)
  }

  /** `decoded` is one TLV and zero padding. */
  ghost predicate Padded(decoded: Bytes, der: Bytes) {
    IsTlv(der) && exists k: nat :: decoded == der + Zeros(k)
  }

  /** The cut at the DER length, refused unless only zeros follow. */
  function CutPadding(decoded: Bytes): Result<Bytes, Reason> {
    match DerLength(decoded)
    case None => Err(InvalidContents)
    case Some(n) =>
      if n > |decoded| || exists i :: n <= i < |decoded| && decoded[i] != 0 then Err(InvalidContents)
      else Ok(decoded[..n])
  }

  /** A TLV followed by any number of zeros is cut back to that TLV, and nothing else is accepted. */
  lemma CutPaddingExact(decoded: Bytes, der: Bytes)
    requires |decoded| <= SLICE_MAX
    ensures CutPadding(decoded) == Ok(der) <==> Padded(decoded, der)
  {
    if |der| <= |decoded| {
      DerLengthExact(decoded, |der|);
      hide DerLength, IsTlv;
      if CutPadding(decoded) == Ok(der) {
        assert decoded == der + Zeros(|decoded| - |der|);
      }
      if Padded(decoded, der) {
        var k: nat :| decoded == der + Zeros(k);
        assert decoded[..|der|] == der;
        assert forall i :: |der| <= i < |decoded| ==> decoded[i] == Zeros(k)[i - |der|];
      }
    }
  }

  // ---------------------------------------------------------------------------------------------
  // ByteRange and Contents
  // ---------------------------------------------------------------------------------------------

  /**
    `extract_cms` from the `/ByteRange` values on.  `parsed` is the `/Contents` string the PDF
    reader found, if any; `sha256` is the digest.
  */
  function ExtractCms(document: Bytes, values: seq<nat>, parsed: Option<Bytes>, sha256: Bytes -> Bytes): Result<Cms, Reason>
    requires |document| <= SLICE_MAX && forall v :: v in values ==> v <= USIZE_MAX
  {
    if |values| != 4 then Err(MalformedByteRange)
    else
      var firstLen, secondStart, secondLen := values[1], values[2], values[3];
      if values[0] != 0 || firstLen == 0 || firstLen >= secondStart then Err(MalformedByteRange)
      else
        match CheckedAdd(secondStart, secondLen)
        case None => Err(MalformedByteRange)
        case Some(end) =>
          if end < |document| then Err(UnsignedSuffix)
          else if end > |document| then Err(MalformedByteRange)
          else Contents(document, firstLen, secondStart, parsed, sha256)
  }

  function Contents(document: Bytes, firstLen: nat, secondStart: nat, parsed: Option<Bytes>, sha256: Bytes -> Bytes): Result<Cms, Reason>
    requires 0 < firstLen < secondStart <= |document| <= SLICE_MAX
  {
    var start, end := firstLen + 1, secondStart - 1;
    if start > end || document[firstLen] != OPEN || document[end] != CLOSE then Err(MalformedByteRange)
    else
      match DecodeHex(document[start..end])
      case Err(e) => Err(e)
      case Ok(decoded) =>
        if parsed != Some(decoded) then Err(InvalidContents)
        else
          match CutPadding(decoded)
          case Err(e) => Err(e)
          case Ok(der) => Ok(Cms(der, ByteRangeDigest(document, start, end, sha256)))
  }

  /** The digest of everything but the hex string and its delimiters. */
  function ByteRangeDigest(staged: Bytes, lo: nat, hi: nat, sha256: Bytes -> Bytes): Bytes
    requires 1 <= lo <= hi < |staged|
  {
    sha256(staged[..lo - 1] + staged[hi + 1..])
  }

  /** A signed document: signed head, `<` hex `>`, signed tail. */
  datatype Layout = Layout(head: Bytes, hex: Bytes, tail: Bytes)

  function Document(l: Layout): Bytes {
    l.head + ['<' as byte] + l.hex + ['>' as byte] + l.tail
  }

  function Values(l: Layout): (vs: seq<nat>)
    ensures |Document(l)| <= SLICE_MAX ==> forall v :: v in vs ==> v <= USIZE_MAX
  {
    [0, |l.head|, |l.head| + |l.hex| + 2, |l.tail|]
  }

  ghost predicate Accepts(l: Layout, parsed: Option<Bytes>, sha256: Bytes -> Bytes, cms: Cms) {
    && l.head != [] && l.hex != []
    && parsed.Some? && Spells(l.hex, parsed.value) && Padded(parsed.value, cms.der)
    && cms.digest == sha256(l.head + l.tail)
  }

  function LayoutOf(document: Bytes, firstLen: nat, secondStart: nat): Layout
    requires firstLen + 2 <= secondStart <= |document|
  {
    Layout(document[..firstLen], document[firstLen + 1..secondStart - 1], document[secondStart..])
  }

  lemma LayoutIsDocument(document: Bytes, firstLen: nat, secondStart: nat)
    requires firstLen + 2 <= secondStart <= |document|
    requires document[firstLen] == OPEN && document[secondStart - 1] == CLOSE
    ensures Document(LayoutOf(document, firstLen, secondStart)) == document
  {
    var l := LayoutOf(document, firstLen, secondStart);
    assert document == document[..firstLen] + [document[firstLen]] + document[firstLen + 1..secondStart - 1]
                       + [document[secondStart - 1]] + document[secondStart..];
  }

  lemma DocumentIsLayout(l: Layout)
    ensures var d, f, s := Document(l), |l.head|, |l.head| + |l.hex| + 2;
            && s <= |d| && LayoutOf(d, f, s) == l && d[f] == OPEN && d[s - 1] == CLOSE
            && |d| == s + |l.tail|
  {
    var d, f, s := Document(l), |l.head|, |l.head| + |l.hex| + 2;
    assert d[..f] == l.head && d[f + 1..s - 1] == l.hex && d[s..] == l.tail;
  }

  lemma DecodeHexExact(hex: Bytes, x: Bytes)
    ensures DecodeHex(hex) == Ok(x) <==> hex != [] && Spells(hex, x)
  {
    hide HexPairs, HexValue;
    if |hex| % 2 == 0 {
      HexPairsExact(hex, x);
    }
  }

  lemma ContentsExact(document: Bytes, firstLen: nat, secondStart: nat, parsed: Option<Bytes>, sha256: Bytes -> Bytes, cms: Cms)
    requires 0 < firstLen && firstLen + 2 <= secondStart <= |document| <= SLICE_MAX
    ensures Contents(document, firstLen, secondStart, parsed, sha256) == Ok(cms)
       <==> && document[firstLen] == OPEN && document[secondStart - 1] == CLOSE
            && Accepts(LayoutOf(document, firstLen, secondStart), parsed, sha256, cms)
  {
    hide DecodeHex, CutPadding, Spells, Padded;
    var hex := document[firstLen + 1..secondStart - 1];
    if parsed.Some? {
      DecodeHexExact(hex, parsed.value);
      if DecodeHex(hex) == Ok(parsed.value) {
        DigitsHalve(hex, parsed.value);
        CutPaddingExact(parsed.value, cms.der);
      }
    }
  }

  lemma DigitsHalve(hex: Bytes, x: Bytes)
    requires Spells(hex, x)
    ensures |hex| == 2 * |x|
  {
  }

  /**
    `extract_cms` returns a CMS exactly when the document is a head, a `<hex>` gap and a tail that
    the four values partition, the hex spells one TLV and zero padding, and the digest covers
    everything outside the gap.
  */
  lemma ExtractCmsExact(document: Bytes, values: seq<nat>, parsed: Option<Bytes>, sha256: Bytes -> Bytes, cms: Cms)
    requires |document| <= SLICE_MAX && forall v :: v in values ==> v <= USIZE_MAX
    ensures ExtractCms(document, values, parsed, sha256) == Ok(cms)
       <==> exists l: Layout :: document == Document(l) && values == Values(l) && Accepts(l, parsed, sha256, cms)
  {
    hide Accepts, Document, LayoutOf;
    if ExtractCms(document, values, parsed, sha256) == Ok(cms) {
      ContentsExact(document, values[1], values[2], parsed, sha256, cms);
      LayoutIsDocument(document, values[1], values[2]);
      var l := LayoutOf(document, values[1], values[2]);
      LayoutValues(document, values[1], values[2]);
      assert document == Document(l) && values == Values(l) && Accepts(l, parsed, sha256, cms);
    }
    forall l: Layout | document == Document(l) && values == Values(l) && Accepts(l, parsed, sha256, cms)
      ensures ExtractCms(document, values, parsed, sha256) == Ok(cms)
    {
      DocumentIsLayout(l);
      AcceptsHead(l, parsed, sha256, cms);
      ContentsExact(document, values[1], values[2], parsed, sha256, cms);
    }
  }

  lemma AcceptsHead(l: Layout, parsed: Option<Bytes>, sha256: Bytes -> Bytes, cms: Cms)
    requires Accepts(l, parsed, sha256, cms)
    ensures |l.head| > 0
  {
  }

  lemma LayoutValues(document: Bytes, firstLen: nat, secondStart: nat)
    requires firstLen + 2 <= secondStart <= |document|
    ensures Values(LayoutOf(document, firstLen, secondStart)) == [0, firstLen, secondStart, |document| - secondStart]
  {
  }

  /** Hex-encoding a TLV with any zero padding into a gap and extracting returns that TLV. */
  lemma ExtractInvertsEmbed(l: Layout, der: Bytes, k: nat, sha256: Bytes -> Bytes)
    requires l.head != [] && IsTlv(der) && l.hex == HexText(der + Zeros(k))
    requires |Document(l)| <= SLICE_MAX
    ensures ExtractCms(Document(l), Values(l), Some(der + Zeros(k)), sha256) == Ok(Cms(der, sha256(l.head + l.tail)))
  {
    hide Accepts, Spells, HexText, IsTlv, ExtractCms, Document, Values;
    var x := der + Zeros(k);
    HexTextDigits(x);
    EmbedAccepted(l, x, der, k, sha256);
    ExtractCmsExact(Document(l), Values(l), Some(x), sha256, Cms(der, sha256(l.head + l.tail)));
  }

  lemma EmbedAccepted(l: Layout, x: Bytes, der: Bytes, k: nat, sha256: Bytes -> Bytes)
    requires l.head != [] && IsTlv(der) && x == der + Zeros(k) && Spells(l.hex, x)
    ensures Accepts(l, Some(x), sha256, Cms(der, sha256(l.head + l.tail)))
  {
    hide SpellsAt, FromBigEndian;
  }

  /** A document with bytes after the signed range is never accepted, and is told apart. */
  lemma UnsignedSuffixExact(document: Bytes, values: seq<nat>, parsed: Option<Bytes>, sha256: Bytes -> Bytes)
    requires |document| <= SLICE_MAX && forall v :: v in values ==> v <= USIZE_MAX
    ensures ExtractCms(document, values, parsed, sha256) == Err(UnsignedSuffix)
       <==> && |values| == 4 && values[0] == 0 && 0 < values[1] < values[2]
            && values[2] + values[3] < |document|
  {
    hide HexPairs, DerLength;
  }

  /** Bytes appended to a signed document are told apart, whatever the document and the bytes. */
  lemma AppendedBytesRefused(l: Layout, suffix: Bytes, parsed: Option<Bytes>, sha256: Bytes -> Bytes)
    requires l.head != [] && suffix != [] && |Document(l) + suffix| <= SLICE_MAX
    ensures ExtractCms(Document(l) + suffix, Values(l), parsed, sha256) == Err(UnsignedSuffix)
  {
    hide ExtractCms;
    DocumentIsLayout(l);
    UnsignedSuffixExact(Document(l) + suffix, Values(l), parsed, sha256);
  }
}
