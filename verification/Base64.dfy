/**
  Base64 (sections 4 and 5 of RFC 4648): the encoder and decoder loops, the sextet view that
  specifies them, and the round trips.
*/
module Base64 {
  import opened Prelude

  const PAD: byte := 61

  /** The standard alphabet. */
  function B64Char(v: nat): byte
    requires v < 64
  {
    if v < 26 then 65 + v
    else if v < 52 then 97 + (v - 26)
    else if v < 62 then 48 + (v - 52)
    else if v == 62 then 43
    else 47
  }

  function Val(c: byte): (v: Option<nat>)
    ensures v.Some? ==> v.value < 64
  {
    if 65 <= c <= 90 then Some(c - 65)
    else if 97 <= c <= 122 then Some(c - 97 + 26)
    else if 48 <= c <= 57 then Some(c - 48 + 52)
    else if c == 43 then Some(62)
    else if c == 47 then Some(63)
    else None
  }

  /** Padding, and the five characters `is_ascii_whitespace` accepts (not vertical tab). */
  predicate Ignored(c: byte) {
    c == PAD || c == 32 || c == 9 || c == 10 || c == 12 || c == 13
  }

  type sextet = v: nat | v < 64

  // ---------------------------------------------------------------------------------------------
  // Encoding
  // ---------------------------------------------------------------------------------------------

  /** One to three bytes as four characters. */
  function EncodeChunk(chunk: Bytes): (s: Text)
    requires 1 <= |chunk| <= 3
    ensures |s| == 4
  {
    var b0 := chunk[0];
    var b1: byte := if |chunk| > 1 then chunk[1] else 0;
    var b2: byte := if |chunk| > 2 then chunk[2] else 0;
    var n := b0 * 65536 + b1 * 256 + b2;
    [B64Char(n / 262144 % 64), B64Char(n / 4096 % 64),
     if |chunk| > 1 then B64Char(n / 64 % 64) else PAD,
     if |chunk| > 2 then B64Char(n % 64) else PAD]
  }

  function Encode(x: Bytes): Text {
    if x == [] then []
    else if |x| <= 3 then EncodeChunk(x)
    else EncodeChunk(x[..3]) + Encode(x[3..])
  }

  method Base64Std(input: Bytes) returns (out: Text)
    ensures out == Encode(input)
  {
    hide EncodeChunk;
    out := [];
    var i := 0;
    assert input[0..] == input;
    while i < |input|
      invariant 0 <= i <= |input|
      invariant out + Encode(input[i..]) == Encode(input)
    {
      hide Encode;
      var end := if i + 3 <= |input| then i + 3 else |input|;
      EncodeStep(input, i, end);
      assert out + (EncodeChunk(input[i..end]) + Encode(input[end..])) == out + EncodeChunk(input[i..end]) + Encode(input[end..]);
      out := out + EncodeChunk(input[i..end]);
      i := end;
    }
    assert i == |input| && input[|input|..] == [];
    assert Encode([]) == [] && out + [] == out;
  }

  lemma EncodeStep(input: Bytes, i: nat, end: nat)
    requires i < |input| && end == if i + 3 <= |input| then i + 3 else |input|
    ensures Encode(input[i..]) == EncodeChunk(input[i..end]) + Encode(input[end..])
  {
    hide EncodeChunk;
    var rest := input[i..];
    assert rest[..end - i] == input[i..end] && rest[end - i..] == input[end..];
    if |rest| <= 3 {
      assert rest == input[i..end] && input[end..] == [];
      assert EncodeChunk(rest) + [] == EncodeChunk(rest);
    }
  }

  // ---------------------------------------------------------------------------------------------
  // Decoding
  // ---------------------------------------------------------------------------------------------

  /** The sextets of a text, or `None` when it holds a character outside the alphabet. */
  function Sextets(s: Text): Option<seq<sextet>> {
    if s == [] then Some([])
    else
      match Sextets(s[..|s| - 1])
      case None => None
      case Some(before) =>
        var c := s[|s| - 1];
        if Ignored(c) then Some(before)
        else
          match Val(c)
          case None => None
          case Some(v) => Some(before + [v])
  }

  function Byte1(q0: sextet, q1: sextet): byte {
    (q0 * 4) % 256 + q1 / 16
  }

  function Byte2(q1: sextet, q2: sextet): byte {
    (q1 * 16) % 256 + q2 / 4
  }

  function Byte3(q2: sextet, q3: sextet): byte {
    (q2 * 64) % 256 + q3
  }

  /** Groups of four sextets are three bytes; two or three left over are one or two bytes. */
  function FromSextets(q: seq<sextet>): Option<Bytes> {
    if |q| == 0 then Some([])
    else if |q| == 1 then None
    else if |q| == 2 then Some([Byte1(q[0], q[1])])
    else if |q| == 3 then Some([Byte1(q[0], q[1]), Byte2(q[1], q[2])])
    else
      match FromSextets(q[4..])
      case None => None
      case Some(rest) => Some([Byte1(q[0], q[1]), Byte2(q[1], q[2]), Byte3(q[2], q[3])] + rest)
  }

  function Decode(s: Text): Option<Bytes> {
    match Sextets(s)
    case None => None
    case Some(q) => FromSextets(q)
  }

  lemma GroupStep(q: seq<sextet>)
    requires |q| >= 4
    ensures FromSextets(q)
         == match FromSextets(q[4..])
            case None => None
            case Some(rest) => Some([Byte1(q[0], q[1]), Byte2(q[1], q[2]), Byte3(q[2], q[3])] + rest)
  {
  }

  lemma {:induction false} GroupsAppend(q: seq<sextet>, r: seq<sextet>)
    requires |q| % 4 == 0
    ensures FromSextets(q).Some?
    ensures FromSextets(q + r) == match FromSextets(r) { case None => None case Some(b) => Some(FromSextets(q).value + b) }
    decreases |q|
  {
    if q == [] {
      assert q + r == r;
      if FromSextets(r).Some? { assert [] + FromSextets(r).value == FromSextets(r).value; }
    } else {
      hide FromSextets, Byte1, Byte2, Byte3;
      assert (q + r)[4..] == q[4..] + r;
      GroupStep(q);
      GroupStep(q + r);
      GroupsAppend(q[4..], r);
      if FromSextets(r).Some? {
        ConcatAssoc([Byte1(q[0], q[1]), Byte2(q[1], q[2]), Byte3(q[2], q[3])], FromSextets(q[4..]).value, FromSextets(r).value);
      }
    }
  }

  /** The slots that are filled. */
  function Pending(q0: sextet, q1: sextet, q2: sextet, n: nat): seq<sextet> {
    if n == 0 then [] else if n == 1 then [q0] else if n == 2 then [q0, q1] else [q0, q1, q2]
  }

  /** One more character of the text. */
  lemma SextetsStep(s: Text, i: nat)
    requires i < |s|
    ensures Sextets(s[..i + 1])
         == match Sextets(s[..i])
            case None => None
            case Some(before) =>
              if Ignored(s[i]) then Some(before)
              else match Val(s[i]) { case None => None case Some(v) => Some(before + [v]) }
  {
    hide Ignored, Val;
    assert s[..i + 1][..i] == s[..i];
  }

  /** One more slot filled. */
  lemma PendingStep(groups: seq<sextet>, q0: sextet, q1: sextet, q2: sextet, n: nat, v: sextet)
    requires n < 4
    ensures groups + Pending(q0, q1, q2, n) + [v]
         == if n == 0 then groups + Pending(v, q1, q2, 1)
            else if n == 1 then groups + Pending(q0, v, q2, 2)
            else if n == 2 then groups + Pending(q0, q1, v, 3)
            else groups + [q0, q1, q2, v] + Pending(q0, q1, q2, 0)
  {
  }

  /** The four-slot decoder. */
  method Base64Decode(input: Text) returns (r: Option<Bytes>)
    ensures r == Decode(input)
  {
    hide FromSextets, Byte1, Byte2, Byte3, Sextets, Pending, Ignored, Val;
    var q0: sextet, q1: sextet, q2: sextet, q3: sextet := 0, 0, 0, 0;
    var n := 0;
    var out: Bytes := [];
    ghost var groups: seq<sextet> := [];
    NothingRead(input);
    for i := 0 to |input|
      invariant 0 <= n < 4 && |groups| % 4 == 0
      invariant FromSextets(groups) == Some(out)
      invariant Sextets(input[..i]) == Some(groups + Pending(q0, q1, q2, n))
    {
      var b := input[i];
      SextetsStep(input, i);
      if Ignored(b) { continue; }
      var v := Val(b);
      if v.None? {
        InvalidStays(input, i + 1);
        return None;
      }
      PendingStep(groups, q0, q1, q2, n, v.value);
      if n == 0 { q0 := v.value; }
      else if n == 1 { q1 := v.value; }
      else if n == 2 { q2 := v.value; }
      else { q3 := v.value; }
      n := n + 1;
      if n == 4 {
        OneGroup(groups, q0, q1, q2, q3);
        groups := groups + [q0, q1, q2, q3];
        out := out + [Byte1(q0, q1), Byte2(q1, q2), Byte3(q2, q3)];
        n := 0;
      }
    }
    assert input[..|input|] == input;
    GroupsAppend(groups, Pending(q0, q1, q2, n));
    TailOf(q0, q1, q2, n);
    assert out + [] == out;
    if n == 0 { r := Some(out); }
    else if n == 2 { r := Some(out + [Byte1(q0, q1)]); }
    else if n == 3 { r := Some(out + [Byte1(q0, q1), Byte2(q1, q2)]); }
    else { r := None; }
  }

  lemma NothingRead(s: Text)
    ensures Sextets(s[..0]) == Some([] + Pending(0, 0, 0, 0)) && FromSextets([]) == Some([])
  {
    assert s[..0] == [] && [] + Pending(0, 0, 0, 0) == [];
  }

  lemma TailOf(q0: sextet, q1: sextet, q2: sextet, n: nat)
    requires n < 4
    ensures FromSextets(Pending(q0, q1, q2, n))
         == if n == 0 then Some([])
            else if n == 1 then None
            else if n == 2 then Some([Byte1(q0, q1)])
            else Some([Byte1(q0, q1), Byte2(q1, q2)])
  {
  }

  lemma OneGroup(groups: seq<sextet>, q0: sextet, q1: sextet, q2: sextet, q3: sextet)
    requires |groups| % 4 == 0 && FromSextets(groups).Some?
    ensures FromSextets(groups + [q0, q1, q2, q3])
         == Some(FromSextets(groups).value + [Byte1(q0, q1), Byte2(q1, q2), Byte3(q2, q3)])
  {
    hide Byte1, Byte2, Byte3;
    var four := [q0, q1, q2, q3];
    var three := [Byte1(q0, q1), Byte2(q1, q2), Byte3(q2, q3)];
    assert four[4..] == [] && FromSextets(four[4..]) == Some([]);
    assert three + [] == three;
    assert FromSextets(four) == Some(three);
    GroupsAppend(groups, four);
  }

  lemma {:induction false} InvalidStays(s: Text, i: nat)
    requires i <= |s| && Sextets(s[..i]) == None
    ensures Sextets(s) == None
    decreases |s| - i
  {
    if i < |s| {
      assert s[..i + 1][..i] == s[..i];
      InvalidStays(s, i + 1);
    } else {
      assert s[..i] == s;
    }
  }

  // ---------------------------------------------------------------------------------------------
  // Round trips
  // ---------------------------------------------------------------------------------------------

  lemma {:induction false} SextetsAppend(a: Text, b: Text)
    ensures Sextets(a + b)
         == match (Sextets(a), Sextets(b)) { case (Some(p), Some(q)) => Some(p + q) case _ => None }
    decreases |b|
  {
    if b == [] {
      assert a + b == a;
      if Sextets(a).Some? { assert Sextets(a).value + [] == Sextets(a).value; }
    } else {
      var init := b[..|b| - 1];
      assert (a + b)[..|a + b| - 1] == a + init;
      SextetsAppend(a, init);
      var c := b[|b| - 1];
      if Sextets(a).Some? && Sextets(init).Some? && Val(c).Some? {
        var p, q, v := Sextets(a).value, Sextets(init).value, Val(c).value;
        assert (p + q) + [v] == p + (q + [v]);
      }
    }
  }

  lemma ValOfChar(v: nat)
    requires v < 64
    ensures Val(B64Char(v)) == Some(v) && !Ignored(B64Char(v))
  {
  }

  lemma Single(c: byte)
    ensures Sextets([c]) == if Ignored(c) then Some([]) else match Val(c) { case None => None case Some(v) => Some([v]) }
  {
    assert [c][..|[c]| - 1] == [];
    if Val(c).Some? { assert [] + [Val(c).value] == [Val(c).value]; }
  }

  lemma Four(a: byte, b: byte, c: byte, d: byte)
    ensures [a, b, c, d] == [a] + ([b] + ([c] + [d]))
  {
  }

  /** The sextets of one encoded chunk decode to the chunk. */
  lemma ChunkDecodes(chunk: Bytes)
    requires 1 <= |chunk| <= 3
    ensures Sextets(EncodeChunk(chunk)).Some?
    ensures FromSextets(Sextets(EncodeChunk(chunk)).value) == Some(chunk)
    ensures |chunk| == 3 ==> |Sextets(EncodeChunk(chunk)).value| == 4
  {
    var b0 := chunk[0];
    var b1: byte := if |chunk| > 1 then chunk[1] else 0;
    var b2: byte := if |chunk| > 2 then chunk[2] else 0;
    var n := b0 * 65536 + b1 * 256 + b2;
    hide Byte1, Byte2, Byte3, FromSextets, Sextets, B64Char, EncodeChunk;
    var q0, q1, q2, q3 := n / 262144 % 64, n / 4096 % 64, n / 64 % 64, n % 64;
    ChunkBits(b0, b1, b2);
    EncodeChunkIs(chunk, q0, q1, q2, q3);
    ChunkSextets(EncodeChunk(chunk), q0, q1, q2, q3, |chunk|);
    GroupOf(q0, q1, q2, q3, |chunk|);
    assert [b0, b1, b2][..|chunk|] == chunk;
  }

  lemma EncodeChunkIs(chunk: Bytes, q0: sextet, q1: sextet, q2: sextet, q3: sextet)
    requires 1 <= |chunk| <= 3
    requires var n: int := chunk[0] as int * 65536 + (if |chunk| > 1 then chunk[1] as int else 0) * 256
                           + (if |chunk| > 2 then chunk[2] as int else 0);
             q0 == n / 262144 % 64 && q1 == n / 4096 % 64 && q2 == n / 64 % 64 && q3 == n % 64
    ensures EncodeChunk(chunk)
         == [B64Char(q0), B64Char(q1), if |chunk| > 1 then B64Char(q2) else PAD, if |chunk| > 2 then B64Char(q3) else PAD]
  {
    hide B64Char;
  }

  lemma GroupOf(q0: sextet, q1: sextet, q2: sextet, q3: sextet, size: nat)
    requires 1 <= size <= 3
    ensures FromSextets([q0, q1, q2, q3][..size + 1]) == Some([Byte1(q0, q1), Byte2(q1, q2), Byte3(q2, q3)][..size])
  {
    hide Byte1, Byte2, Byte3;
    var four, three := [q0, q1, q2, q3], [Byte1(q0, q1), Byte2(q1, q2), Byte3(q2, q3)];
    if size == 1 {
      assert four[..2] == [q0, q1] && three[..1] == [three[0]];
    } else if size == 2 {
      assert four[..3] == [q0, q1, q2] && three[..2] == [three[0], three[1]];
    } else {
      assert four[..4] == four && three[..3] == three && [] + four == four && [] + three == three;
      OneGroup([], q0, q1, q2, q3);
    }
  }

  /** Three bytes are four sextets. */
  lemma ChunkBits(b0: byte, b1: byte, b2: byte)
    ensures var n := b0 * 65536 + b1 * 256 + b2;
            var q0, q1, q2, q3 := n / 262144 % 64, n / 4096 % 64, n / 64 % 64, n % 64;
            Byte1(q0, q1) == b0 && Byte2(q1, q2) == b1 && Byte3(q2, q3) == b2
  {
    var q0, q1 := b0 / 4, b0 % 4 * 16 + b1 / 16;
    var q2, q3 := b1 % 16 * 4 + b2 / 64, b2 % 64;
    hide Byte1, Byte2, Byte3;
    Radix64(q0, q1, q2, q3);
    ByteParts(b0, b1, b2);
    Recombine(b0, b1, b2);
  }

  lemma Recombine(b0: byte, b1: byte, b2: byte)
    ensures b0 * 65536 + b1 * 256 + b2
         == b0 / 4 * 262144 + (b0 % 4 * 16 + b1 / 16) * 4096 + (b1 % 16 * 4 + b2 / 64) * 64 + b2 % 64
  {
  }

  lemma ByteParts(b0: byte, b1: byte, b2: byte)
    ensures Byte1(b0 / 4, b0 % 4 * 16 + b1 / 16) == b0
    ensures Byte2(b0 % 4 * 16 + b1 / 16, b1 % 16 * 4 + b2 / 64) == b1
    ensures Byte3(b1 % 16 * 4 + b2 / 64, b2 % 64) == b2
  {
    var q1, q2 := b0 % 4 * 16 + b1 / 16, b1 % 16 * 4 + b2 / 64;
    assert q1 / 16 == b0 % 4 && b0 / 4 * 4 % 256 == b0 / 4 * 4;
    assert q1 * 16 == b0 % 4 * 256 + b1 / 16 * 16 && q1 * 16 % 256 == b1 / 16 * 16 && q2 / 4 == b1 % 16;
    assert q2 * 64 == b1 % 16 * 256 + b2 / 64 * 64 && q2 * 64 % 256 == b2 / 64 * 64;
  }

  lemma Radix64(q0: sextet, q1: sextet, q2: sextet, q3: sextet)
    ensures var n := q0 * 262144 + q1 * 4096 + q2 * 64 + q3;
            n / 262144 % 64 == q0 && n / 4096 % 64 == q1 && n / 64 % 64 == q2 && n % 64 == q3
  {
    var n := q0 * 262144 + q1 * 4096 + q2 * 64 + q3;
    assert n / 262144 == q0;
    assert n / 4096 == q0 * 64 + q1;
    assert n / 64 == (q0 * 64 + q1) * 64 + q2;
  }

  lemma ChunkSextets(s: Text, q0: sextet, q1: sextet, q2: sextet, q3: sextet, size: nat)
    requires 1 <= size <= 3
    requires s == [B64Char(q0), B64Char(q1), if size > 1 then B64Char(q2) else PAD, if size > 2 then B64Char(q3) else PAD]
    ensures Sextets(s) == Some([q0, q1, q2, q3][..size + 1])
  {
    hide Val, Sextets, B64Char;
    Four(s[0], s[1], s[2], s[3]);
    SextetsAppend([s[2]], [s[3]]);
    SextetsAppend([s[1]], [s[2]] + [s[3]]);
    SextetsAppend([s[0]], [s[1]] + ([s[2]] + [s[3]]));
    Single(s[0]);
    Single(s[1]);
    Single(s[2]);
    Single(s[3]);
    ValOfChar(q0);
    ValOfChar(q1);
    ValOfChar(q2);
    ValOfChar(q3);
    var q := [q0, q1, q2, q3];
    if size == 1 {
      assert q[..2] == [q0] + ([q1] + ([] + []));
    } else if size == 2 {
      assert q[..3] == [q0] + ([q1] + ([q2] + []));
    } else {
      PadIsIgnored();
      assert q[..4] == [q0] + ([q1] + ([q2] + [q3]));
    }
  }

  lemma PadIsIgnored()
    ensures Ignored(PAD)
  {
  }

  lemma {:induction false} DecodeInvertsEncode(x: Bytes)
    ensures Decode(Encode(x)) == Some(x)
    decreases |x|
  {
    hide EncodeChunk;
    if x == [] {
    } else if |x| <= 3 {
      ChunkDecodes(x);
    } else {
      var head, tail := x[..3], x[3..];
      ChunkDecodes(head);
      DecodeInvertsEncode(tail);
      SextetsAppend(EncodeChunk(head), Encode(tail));
      GroupsAppend(Sextets(EncodeChunk(head)).value, Sextets(Encode(tail)).value);
      assert x == head + tail;
    }
  }

  /** Padding and whitespace may be inserted or deleted anywhere. */
  lemma IgnoredAnywhere(a: Text, c: byte, b: Text)
    requires Ignored(c)
    ensures Decode(a + [c] + b) == Decode(a + b)
  {
    hide Sextets, FromSextets;
    SextetsAppend(a + [c], b);
    SextetsAppend(a, [c]);
    SextetsAppend(a, b);
    Single(c);
    if Sextets(a).Some? { assert Sextets(a).value + [] == Sextets(a).value; }
  }

  /** Padding, space, tab, line feed, form feed and carriage return. */
  predicate Skipped(c: byte) {
    c as char == '=' || c as char == ' ' || c as char == '\t' || c as char == '\n' || c == 12 || c as char == '\r'
  }

  /** Those are the only characters a text may carry without changing what it decodes to. */
  lemma IgnoredExact(c: byte)
    ensures Skipped(c) <==> forall a, b :: Decode(a + [c] + b) == Decode(a + b)
  {
    hide Decode;
    if Ignored(c) {
      forall a, b ensures Decode(a + [c] + b) == Decode(a + b) {
        IgnoredAnywhere(a, c, b);
      }
    } else {
      AloneRefused(c);
      assert [] + [c] + [] == [c];
      assert Decode([] + [c] + []) != Decode([] + []);
    }
  }

  lemma AloneRefused(c: byte)
    requires !Ignored(c)
    ensures Decode([c]) == None && Decode([] + []) == Some([])
  {
    Single(c);
  }

  /** A character outside the alphabet that is not skipped makes the whole text invalid, wherever it stands. */
  lemma ForeignRefused(a: Text, c: byte, b: Text)
    requires !Ignored(c) && Val(c).None?
    ensures Decode(a + [c] + b) == None
  {
    hide Sextets, FromSextets;
    SextetsAppend(a + [c], b);
    SextetsAppend(a, [c]);
    Single(c);
  }

  /** Vertical tab (11) is such a character. */
  lemma VerticalTabRefused(a: Text, b: Text)
    ensures Decode(a + [11] + b) == None
  {
    hide Decode;
    ForeignRefused(a, 11, b);
  }

  // ---------------------------------------------------------------------------------------------
  // Character by character
  // ---------------------------------------------------------------------------------------------

  /** Table 1 of RFC 4648. */
  function Letter(v: sextet): char {
    if v < 26 then "ABCDEFGHIJKLMNOPQRSTUVWXYZ"[v]
    else if v < 52 then "abcdefghijklmnopqrstuvwxyz"[v - 26]
    else if v < 62 then "0123456789"[v - 52]
    else "+/"[v - 62]
  }

  lemma LetterExact(v: sextet)
    ensures B64Char(v) as char == Letter(v)
  {
  }

  lemma ValExact(v: sextet, c: byte)
    ensures Val(c) == Some(v) <==> c == B64Char(v)
  {
  }

  lemma AlphabetExact(v: sextet, c: byte)
    ensures B64Char(v) as char == Letter(v)
    ensures Val(c) == Some(v) <==> c as char == Letter(v)
  {
    LetterExact(v);
    ValExact(v, c);
    hide Letter, B64Char, Val;
    assert c as char == B64Char(v) as char ==> c == B64Char(v);
  }

  /** The `i`-th byte, with zeros after the end. */
  function ByteOrZero(x: Bytes, i: nat): byte {
    if i < |x| then x[i] else 0
  }

  /** Group `g` of three bytes, its last one or two perhaps missing, as four characters of six bits each. */
  predicate GroupSpells(s: Text, g: nat, x: Bytes) {
    && 4 * g + 4 <= |s|
    && var b0, b1, b2 := ByteOrZero(x, 3 * g), ByteOrZero(x, 3 * g + 1), ByteOrZero(x, 3 * g + 2);
       && s[4 * g] as char == Letter(b0 / 4)
       && s[4 * g + 1] as char == Letter(b0 % 4 * 16 + b1 / 16)
       && s[4 * g + 2] as char == (if 3 * g + 1 < |x| then Letter(b1 % 16 * 4 + b2 / 64) else '=')
       && s[4 * g + 3] as char == (if 3 * g + 2 < |x| then Letter(b2 % 64) else '=')
  }

  /** The four sextets of three bytes, by their bits. */
  lemma ChunkLetters(chunk: Bytes, b0: byte, b1: byte, b2: byte)
    requires 1 <= |chunk| <= 3 && b0 == chunk[0] && b1 == ByteOrZero(chunk, 1) && b2 == ByteOrZero(chunk, 2)
    ensures EncodeChunk(chunk)
         == [B64Char(b0 / 4), B64Char(b0 % 4 * 16 + b1 / 16),
             if |chunk| > 1 then B64Char(b1 % 16 * 4 + b2 / 64) else PAD, if |chunk| > 2 then B64Char(b2 % 64) else PAD]
  {
    hide B64Char, EncodeChunk;
    SextetsOfBytes(b0, b1, b2);
    EncodeChunkIs(chunk, b0 / 4, b0 % 4 * 16 + b1 / 16, b1 % 16 * 4 + b2 / 64, b2 % 64);
  }

  lemma SextetsOfBytes(b0: byte, b1: byte, b2: byte)
    ensures var n := b0 * 65536 + b1 * 256 + b2;
            && n / 262144 % 64 == b0 / 4 && n / 4096 % 64 == b0 % 4 * 16 + b1 / 16
            && n / 64 % 64 == b1 % 16 * 4 + b2 / 64 && n % 64 == b2 % 64
  {
    Recombine(b0, b1, b2);
    Radix64(b0 / 4, b0 % 4 * 16 + b1 / 16, b1 % 16 * 4 + b2 / 64, b2 % 64);
  }

  lemma ChunkSpells(chunk: Bytes)
    requires 1 <= |chunk| <= 3
    ensures GroupSpells(EncodeChunk(chunk), 0, chunk)
  {
    hide B64Char, EncodeChunk, Letter, GroupSpells;
    var b0, b1, b2 := ByteOrZero(chunk, 0), ByteOrZero(chunk, 1), ByteOrZero(chunk, 2);
    ChunkLetters(chunk, b0, b1, b2);
    var q1, q2 := HighBits(b0, b1), LowBits(b1, b2);
    FourSpell(EncodeChunk(chunk), |chunk|, b0 / 4, q1, q2, b2 % 64);
    SpellsFrom(EncodeChunk(chunk), chunk, b0, b1, b2, q1, q2);
  }

  function HighBits(b0: byte, b1: byte): sextet {
    b0 % 4 * 16 + b1 / 16
  }

  function LowBits(b1: byte, b2: byte): sextet {
    b1 % 16 * 4 + b2 / 64
  }

  lemma SpellsFrom(s: Text, chunk: Bytes, b0: byte, b1: byte, b2: byte, q1: sextet, q2: sextet)
    requires 1 <= |chunk| <= 3 && b0 == chunk[0] && b1 == ByteOrZero(chunk, 1) && b2 == ByteOrZero(chunk, 2)
    requires q1 == HighBits(b0, b1) && q2 == LowBits(b1, b2)
    requires |s| == 4 && s[0] as char == Letter(b0 / 4) && s[1] as char == Letter(q1)
    requires s[2] as char == if |chunk| > 1 then Letter(q2) else '='
    requires s[3] as char == if |chunk| > 2 then Letter(b2 % 64) else '='
    ensures GroupSpells(s, 0, chunk)
  {
    hide Letter;
  }

  lemma FourSpell(s: Text, size: nat, q0: sextet, q1: sextet, q2: sextet, q3: sextet)
    requires s == [B64Char(q0), B64Char(q1), if size > 1 then B64Char(q2) else PAD, if size > 2 then B64Char(q3) else PAD]
    ensures |s| == 4 && s[0] as char == Letter(q0) && s[1] as char == Letter(q1)
    ensures s[2] as char == if size > 1 then Letter(q2) else '='
    ensures s[3] as char == if size > 2 then Letter(q3) else '='
  {
    hide B64Char, Letter;
    LetterExact(q0);
    LetterExact(q1);
    LetterExact(q2);
    LetterExact(q3);
  }

  /** An encoding is its groups in order, and nothing else. */
  lemma {:induction false} EncodeExact(x: Bytes)
    ensures |Encode(x)| == (|x| + 2) / 3 * 4
    ensures forall g: nat :: 3 * g < |x| ==> GroupSpells(Encode(x), g, x)
    decreases |x|
  {
    hide EncodeChunk, Letter, GroupSpells;
    if x != [] {
      var head, tail := if |x| <= 3 then x else x[..3], if |x| <= 3 then [] else x[3..];
      EncodeExact(tail);
      ChunkSpells(head);
      assert Encode(x) == EncodeChunk(head) + Encode(tail);
      forall g: nat | 3 * g < |x| ensures GroupSpells(Encode(x), g, x) {
        if g == 0 { FirstGroup(head, tail); } else { LaterGroup(head, tail, g - 1); }
        assert head + tail == x;
      }
    }
  }

  lemma FirstGroup(head: Bytes, tail: Bytes)
    requires 1 <= |head| <= 3 && (|head| < 3 ==> tail == []) && GroupSpells(EncodeChunk(head), 0, head)
    ensures GroupSpells(EncodeChunk(head) + Encode(tail), 0, head + tail)
  {
    hide EncodeChunk, Encode, Letter;
  }

  lemma LaterGroup(head: Bytes, tail: Bytes, g: nat)
    requires |head| == 3 && GroupSpells(Encode(tail), g, tail)
    ensures GroupSpells(EncodeChunk(head) + Encode(tail), g + 1, head + tail)
  {
    hide EncodeChunk, Encode, Letter;
  }

  /** What is left of a text without the skipped characters. */
  function Kept(s: Text): Text {
    if s == [] then [] else Kept(s[..|s| - 1]) + if Skipped(s[|s| - 1]) then [] else [s[|s| - 1]]
  }

  /** The characters are those of the sextets. */
  predicate SpelledBy(t: Text, q: seq<sextet>) {
    |t| == |q| && forall i :: 0 <= i < |t| ==> t[i] as char == Letter(q[i])
  }

  /** The bytes of group `g`, those that there are, from the bits of its four sextets. */
  predicate GroupHolds(q: seq<sextet>, g: nat, x: Bytes) {
    && (3 * g < |x| ==> 4 * g + 1 < |q| && x[3 * g] == q[4 * g] as int * 4 + q[4 * g + 1] / 16)
    && (3 * g + 1 < |x| ==> 4 * g + 2 < |q| && x[3 * g + 1] == q[4 * g + 1] as int % 16 * 16 + q[4 * g + 2] / 4)
    && (3 * g + 2 < |x| ==> 4 * g + 3 < |q| && x[3 * g + 2] == q[4 * g + 2] as int % 4 * 64 + q[4 * g + 3])
  }

  /** A whole number of bytes, six bits a sextet; fewer than eight bits are left over. */
  ghost predicate BytesOf(q: seq<sextet>, x: Bytes) {
    |q| % 4 != 1 && |x| == |q| * 3 / 4 && forall g: nat :: 3 * g < |x| ==> GroupHolds(q, g, x)
  }

  lemma {:induction false} SextetsExact(s: Text, q: seq<sextet>)
    ensures Sextets(s) == Some(q) <==> SpelledBy(Kept(s), q)
    decreases |s|
  {
    hide Letter, Val;
    if s != [] {
      var c, init := s[|s| - 1], s[..|s| - 1];
      if Skipped(c) {
        SextetsExact(init, q);
        assert Kept(init) + [] == Kept(init);
      } else if q != [] {
        var n := |q| - 1;
        SextetsExact(init, q[..n]);
        AlphabetExact(q[n], c);
        SpelledStep(Kept(init), c, q);
        assert q == q[..n] + [q[n]];
      }
    }
  }

  lemma SpelledStep(t: Text, c: byte, q: seq<sextet>)
    requires q != []
    ensures SpelledBy(t + [c], q) <==> SpelledBy(t, q[..|q| - 1]) && c as char == Letter(q[|q| - 1])
  {
    hide Letter;
    var n := |q| - 1;
    if SpelledBy(t + [c], q) {
      forall i | 0 <= i < |t| ensures t[i] as char == Letter(q[..n][i]) {
        assert (t + [c])[i] == t[i];
      }
      assert (t + [c])[n] == c;
    }
  }

  lemma {:induction false} FromSextetsExact(q: seq<sextet>, x: Bytes)
    ensures FromSextets(q) == Some(x) <==> BytesOf(q, x)
    decreases |q|
  {
    if |q| < 4 {
      ShortExact(q, x);
    } else if |x| >= 3 {
      hide Byte1, Byte2, Byte3;
      FromSextetsExact(q[4..], x[3..]);
      BytesStep(q, x);
      GroupStep(q);
      assert x == [x[0], x[1], x[2]] + x[3..];
    } else {
      GroupStep(q);
    }
  }

  lemma GroupBytes(q0: sextet, q1: sextet, q2: sextet, q3: sextet)
    ensures Byte1(q0, q1) == q0 as int * 4 + q1 / 16
    ensures Byte2(q1, q2) == q1 as int % 16 * 16 + q2 / 4
    ensures Byte3(q2, q3) == q2 as int % 4 * 64 + q3
  {
    assert q1 as int * 16 == q1 / 16 * 256 + q1 % 16 * 16;
    assert q2 as int * 64 == q2 / 4 * 256 + q2 % 4 * 64;
  }

  lemma ShortExact(q: seq<sextet>, x: Bytes)
    requires |q| < 4
    ensures FromSextets(q) == Some(x) <==> BytesOf(q, x)
  {
    hide Byte1, Byte2, Byte3, GroupHolds;
    if BytesOf(q, x) && x != [] { assert GroupHolds(q, 0, x); }
    ShortGroup(q, x);
    forall g: nat | 3 * g < |x| && |x| <= 3 ensures g == 0 {
    }
  }

  lemma ShortGroup(q: seq<sextet>, x: Bytes)
    requires |q| < 4
    ensures |q| == 2 && |x| == 1 ==> (GroupHolds(q, 0, x) <==> x == [Byte1(q[0], q[1])])
    ensures |q| == 3 && |x| == 2 ==> (GroupHolds(q, 0, x) <==> x == [Byte1(q[0], q[1]), Byte2(q[1], q[2])])
  {
    hide Byte1, Byte2, Byte3, GroupHolds;
    if |q| == 2 && |x| == 1 {
      GroupBytes(q[0], q[1], 0, 0);
      OneHolds(q, x);
      assert x == [x[0]];
    }
    if |q| == 3 && |x| == 2 {
      GroupBytes(q[0], q[1], q[2], 0);
      TwoHold(q, x);
      assert x == [x[0], x[1]];
    }
  }

  lemma OneHolds(q: seq<sextet>, x: Bytes)
    requires |q| == 2 && |x| == 1
    ensures GroupHolds(q, 0, x) <==> x[0] == q[0] as int * 4 + q[1] / 16
  {
  }

  lemma TwoHold(q: seq<sextet>, x: Bytes)
    requires |q| == 3 && |x| == 2
    ensures GroupHolds(q, 0, x) <==> x[0] == q[0] as int * 4 + q[1] / 16 && x[1] == q[1] as int % 16 * 16 + q[2] / 4
  {
  }

  lemma HoldsShift(q: seq<sextet>, g: nat, x: Bytes)
    requires |q| >= 4 && |x| >= 3
    ensures GroupHolds(q, g + 1, x) <==> GroupHolds(q[4..], g, x[3..])
  {
  }

  lemma FirstHolds(q: seq<sextet>, x: Bytes)
    requires |q| >= 4 && |x| >= 3
    ensures GroupHolds(q, 0, x) <==> x[0] == Byte1(q[0], q[1]) && x[1] == Byte2(q[1], q[2]) && x[2] == Byte3(q[2], q[3])
  {
    GroupBytes(q[0], q[1], q[2], q[3]);
    hide Byte1, Byte2, Byte3;
  }

  /** The groups of `q` and `x` are the first and those of the rest. */
  lemma HoldsEach(q: seq<sextet>, x: Bytes)
    requires |q| >= 4 && |x| >= 3
    ensures (forall g: nat :: 3 * g < |x| ==> GroupHolds(q, g, x))
       <==> GroupHolds(q, 0, x) && forall g: nat :: 3 * g < |x[3..]| ==> GroupHolds(q[4..], g, x[3..])
  {
    hide GroupHolds;
    if forall g: nat :: 3 * g < |x| ==> GroupHolds(q, g, x) {
      forall g: nat | 3 * g < |x[3..]| ensures GroupHolds(q[4..], g, x[3..]) {
        HoldsShift(q, g, x);
        assert GroupHolds(q, g + 1, x);
      }
    }
    if GroupHolds(q, 0, x) && forall g: nat :: 3 * g < |x[3..]| ==> GroupHolds(q[4..], g, x[3..]) {
      forall g: nat | 3 * g < |x| ensures GroupHolds(q, g, x) {
        if g > 0 {
          assert GroupHolds(q[4..], g - 1, x[3..]);
          HoldsShift(q, g - 1, x);
        }
      }
    }
  }

  lemma BytesStep(q: seq<sextet>, x: Bytes)
    requires |q| >= 4 && |x| >= 3
    ensures BytesOf(q, x)
       <==> && x[0] == Byte1(q[0], q[1]) && x[1] == Byte2(q[1], q[2]) && x[2] == Byte3(q[2], q[3])
            && BytesOf(q[4..], x[3..])
  {
    hide Byte1, Byte2, Byte3, GroupHolds;
    FirstHolds(q, x);
    HoldsEach(q, x);
  }

  /** A text decodes exactly when, skipped characters aside, it spells sextets, and to the bytes of their bit string. */
  lemma DecodeExact(s: Text, x: Bytes)
    ensures Decode(s) == Some(x) <==> exists q: seq<sextet> :: SpelledBy(Kept(s), q) && BytesOf(q, x)
  {
    hide Letter, SpelledBy, BytesOf, Sextets, FromSextets;
    forall q: seq<sextet> ensures SpelledBy(Kept(s), q) <==> Sextets(s) == Some(q) {
      SextetsExact(s, q);
    }
    forall q: seq<sextet> ensures BytesOf(q, x) <==> FromSextets(q) == Some(x) {
      FromSextetsExact(q, x);
    }
  }

  // ---------------------------------------------------------------------------------------------
  // The URL-safe alphabet without padding
  // ---------------------------------------------------------------------------------------------

  function TrimPad(s: Text): (t: Text)
    ensures |t| <= |s|
  {
    if s != [] && s[|s| - 1] == PAD then TrimPad(s[..|s| - 1]) else s
  }

  function ToUrl(c: byte): byte {
    if c == 43 then 45 else if c == 47 then 95 else c
  }

  function FromUrl(c: byte): byte {
    if c == 45 then 43 else if c == 95 then 47 else c
  }

  function MapText(s: Text, f: byte -> byte): (t: Text)
    ensures |t| == |s| && forall i :: 0 <= i < |s| ==> t[i] == f(s[i])
  {
    seq(|s|, i requires 0 <= i < |s| => f(s[i]))
  }

  function Base64UrlNoPad(x: Bytes): Text {
    MapText(TrimPad(Encode(x)), ToUrl)
  }

  predicate Standard(c: byte) {
    c == PAD || Val(c).Some?
  }

  lemma {:induction false} EncodeIsStandard(x: Bytes)
    ensures forall i :: 0 <= i < |Encode(x)| ==> Standard(Encode(x)[i])
    decreases |x|
  {
    if x != [] {
      var head, tail := if |x| <= 3 then x else x[..3], if |x| <= 3 then [] else x[3..];
      EncodeIsStandard(tail);
      ChunkIsStandard(head);
      assert Encode(x) == EncodeChunk(head) + Encode(tail);
    }
  }

  lemma ChunkIsStandard(chunk: Bytes)
    requires 1 <= |chunk| <= 3
    ensures forall i :: 0 <= i < 4 ==> Standard(EncodeChunk(chunk)[i])
  {
  }

  lemma {:induction false} TrimKeepsMeaning(s: Text)
    ensures Decode(TrimPad(s)) == Decode(s) && TrimPad(s) == s[..|TrimPad(s)|]
    ensures TrimPad(s) == [] || TrimPad(s)[|TrimPad(s)| - 1] != PAD
    decreases |s|
  {
    if s != [] && s[|s| - 1] == PAD {
      var init := s[..|s| - 1];
      TrimKeepsMeaning(init);
      IgnoredAnywhere(init, PAD, []);
      assert init + [PAD] + [] == s && init + [] == init;
    }
  }

  /** Mapping the URL alphabet back and decoding returns the bytes. */
  lemma UrlRoundTrip(x: Bytes)
    ensures Decode(MapText(Base64UrlNoPad(x), FromUrl)) == Some(x)
  {
    var t := TrimPad(Encode(x));
    EncodeIsStandard(x);
    TrimKeepsMeaning(Encode(x));
    DecodeInvertsEncode(x);
    assert MapText(Base64UrlNoPad(x), FromUrl) == t;
  }

  /** Padding characters occur only at the end of an encoding. */
  lemma {:induction false} PadOnlyAtEnd(x: Bytes, i: nat)
    requires i < |Encode(x)| && Encode(x)[i] == PAD
    ensures forall j :: i <= j < |Encode(x)| ==> Encode(x)[j] == PAD
    decreases |x|
  {
    if |x| <= 3 {
      ChunkPad(x, i);
    } else {
      assert Encode(x) == EncodeChunk(x[..3]) + Encode(x[3..]);
      if i < 4 {
        ChunkPad(x[..3], i);
      } else {
        PadOnlyAtEnd(x[3..], i - 4);
      }
    }
  }

  lemma ChunkPad(chunk: Bytes, i: nat)
    requires 1 <= |chunk| <= 3 && i < 4 && EncodeChunk(chunk)[i] == PAD
    ensures |chunk| < 3 && i > |chunk| && forall j :: i <= j < 4 ==> EncodeChunk(chunk)[j] == PAD
  {
  }

  lemma TrimmedHasNoPad(x: Bytes, i: nat)
    requires i < |TrimPad(Encode(x))|
    ensures TrimPad(Encode(x))[i] != PAD
  {
    TrimKeepsMeaning(Encode(x));
    if Encode(x)[i] == PAD {
      PadOnlyAtEnd(x, i);
    }
  }

  /** `-` for `+` and `_` for `/`. */
  function UrlChar(c: char): char {
    if c == '+' then '-' else if c == '/' then '_' else c
  }

  /** The standard encoding up to its padding, with the two characters replaced, so no `=`, `+` or `/` is left. */
  lemma UrlSafe(x: Bytes)
    ensures var url, standard := Base64UrlNoPad(x), Encode(x);
            && |url| <= |standard|
            && (forall i :: 0 <= i < |url| ==> url[i] as char == UrlChar(standard[i] as char) && url[i] as char !in "=+/")
            && forall i :: |url| <= i < |standard| ==> standard[i] as char == '='
  {
    TrimKeepsMeaning(Encode(x));
    TrimIsPad(Encode(x));
    hide TrimPad, Encode, Decode;
    forall i | 0 <= i < |TrimPad(Encode(x))| ensures TrimPad(Encode(x))[i] != PAD {
      TrimmedHasNoPad(x, i);
    }
  }

  lemma {:induction false} TrimIsPad(s: Text)
    ensures forall i :: |TrimPad(s)| <= i < |s| ==> s[i] == PAD
    decreases |s|
  {
    if s != [] && s[|s| - 1] == PAD { TrimIsPad(s[..|s| - 1]); }
  }
}
