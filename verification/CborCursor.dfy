/**
  The forward byte cursor: it reads heads and skips nested items with one flat counter.

  Every method is tied to the recursive reading functions of `CborWire`; a failing call promises
  nothing about where the cursor stops.
*/
module CborCursor {
  import opened Prelude
  import opened Utf8
  import opened CborWire

  datatype TextAt = TextAt(text: Text, next: nat)

  datatype TaggedAt = TaggedAt(raw: Bytes, inner: Bytes, next: nat)

  /** The text string at `p`. */
  function TextFrom(s: Bytes, p: nat): Option<TextAt> {
    match ReadHead(s, p)
    case Some(HeadAt(h, q)) =>
      if h.major == 3 && q + h.arg <= |s| && IsUtf8(s[q..q + h.arg]) then
        Some(TextAt(s[q..q + h.arg], q + h.arg))
      else None
    case None => None
  }

  /** The `#6.24(bstr)` element at `p`: its whole span and the byte string's content. */
  function TaggedFrom(s: Bytes, p: nat): Option<TaggedAt> {
    match ReadHead(s, p)
    case None => None
    case Some(HeadAt(tag, q)) =>
      if tag.major != 6 || tag.arg != TAG_ENCODED_CBOR then None
      else
        match ReadHead(s, q)
        case None => None
        case Some(HeadAt(h, c)) =>
          if h.major == 2 && c + h.arg <= |s| then
            Some(TaggedAt(s[p..c + h.arg], s[c..c + h.arg], c + h.arg))
          else None
  }

  /** The entry count of the container of major type `major` at `p`. */
  function LengthFrom(s: Bytes, p: nat, major: nat): Option<HeadAt> {
    match ReadHead(s, p)
    case Some(at) => if at.head.major == major then Some(at) else None
    case None => None
  }

  lemma HeadBounds(s: Bytes, p: nat)
    requires ReadHead(s, p).Some?
    ensures var HeadAt(h, q) := ReadHead(s, p).value;
            p < q <= |s| && h.major < 8 && h.arg < U64_RANGE
  {
    var w := HeadSound(s, p);
    assert Pow256(8) == U64_RANGE && Pow256(4) == 0x1_0000_0000 && Pow256(2) == 65536 && Pow256(1) == 256;
  }

  class Cursor {
    const input: Bytes
    var pos: nat

    ghost predicate Valid()
      reads this
    {
      |input| <= SLICE_MAX && pos <= USIZE_MAX
    }

    constructor (input: Bytes)
      requires |input| <= SLICE_MAX
      ensures Valid() && this.input == input && pos == 0
    {
      this.input := input;
      pos := 0;
    }

    /** The shift of the `u64` accumulator is written with its wrap-around; it never wraps. */
    method ReadUint(n: nat) returns (r: Option<nat>)
      requires Valid() && n <= 8
      modifies this`pos
      ensures Valid()
      ensures r == if old(pos) + n <= |input| then Some(FromBigEndian(input[old(pos)..old(pos) + n])) else None
      ensures pos == if r.Some? then old(pos) + n else old(pos)
    {
      var end := CheckedAdd(pos, n);
      if end.None? || end.value > |input| { return None; }
      var bytes := input[pos..end.value];
      pos := end.value;
      var value := 0;
      for i := 0 to |bytes|
        invariant pos == end.value
        invariant value == FromBigEndian(bytes[..i]) < Pow256(i)
      {
        PowBound(i, n);
        assert bytes[..i + 1][..i] == bytes[..i];
        value := (value * 256) % U64_RANGE + bytes[i];
      }
      assert bytes[..|bytes|] == bytes;
      return Some(value);
    }

    method ReadHead() returns (r: Option<Head>)
      requires Valid()
      modifies this`pos
      ensures Valid()
      ensures match CborWire.ReadHead(input, old(pos))
              case Some(at) => r == Some(at.head) && pos == at.next
              case None => r == None
    {
      if pos >= |input| { return None; }
      var initial := input[pos];
      pos := pos + 1;
      var major, info := initial / 32, initial % 32;
      if info < 24 { return Some(Head(major, info)); }
      if info > 27 { return None; }
      var arg := ReadUint(Extra(WidthOfInfo(info)));
      match arg
      case Some(a) => return Some(Head(major, a));
      case None => return None;
    }

    /** The number of items a head announces, or `None` when it does not fit `usize`. */
    static function HeadChildCount(h: Head): (c: Option<nat>)
      requires h.major < 8 && h.arg < U64_RANGE
      ensures c == if Children(h) <= USIZE_MAX then Some(Children(h)) else None
    {
      if h.major == 4 then Some(h.arg)
      else if h.major == 5 then CheckedMul(h.arg, 2)
      else if h.major == 6 then Some(1)
      else Some(0)
    }

    /** The flat counter accepts what the recursive grammar accepts: it loses nothing to overflow. */
    method SkipPending(count: nat) returns (ok: bool)
      requires Valid() && count <= USIZE_MAX
      modifies this`pos
      ensures Valid()
      ensures ok <==> ItemsEnd(input, old(pos), count).Some?
      ensures ok ==> ItemsEnd(input, old(pos), count) == Some(pos)
    {
      hide ItemsEnd, ItemEnd, CborWire.ReadHead;
      var pending: nat := count;
      while pending > 0
        invariant Valid() && pending <= USIZE_MAX
        invariant ItemsEnd(input, pos, pending) == ItemsEnd(input, old(pos), count)
        decreases if pos <= |input| then |input| - pos else 0
      {
        ghost var start, before := pos, pending;
        SkipStep(input, pos, pending);
        pending := pending - 1;
        var head := ReadHead();
        if head.None? { return false; }
        HeadBounds(input, start);
        var h := head.value;
        if h.major == 2 || h.major == 3 {
          var end := CheckedAdd(pos, h.arg);
          if end.None? { return false; }
          pos := end.value;
          if pos > |input| { return false; }
          continue;
        }
        var children := HeadChildCount(h);
        if children.None? { return false; }
        var sum := CheckedAdd(pending, children.value);
        if sum.None? { return false; }
        pending := sum.value;
      }
      NoItems(input, pos);
      return true;
    }

    method SkipItem() returns (ok: bool)
      requires Valid()
      modifies this`pos
      ensures Valid()
      ensures ok <==> ItemEnd(input, old(pos)).Some?
      ensures ok ==> ItemEnd(input, old(pos)) == Some(pos)
    {
      OneItem(input, pos);
      ok := SkipPending(1);
    }

    method TakeText() returns (r: Option<Text>)
      requires Valid()
      modifies this`pos
      ensures Valid()
      ensures match TextFrom(input, old(pos))
              case Some(at) => r == Some(at.text) && pos == at.next
              case None => r == None
    {
      var head := ReadHead();
      if head.None? || head.value.major != 3 { return None; }
      var end := CheckedAdd(pos, head.value.arg);
      if end.None? || end.value > |input| { return None; }
      var bytes := input[pos..end.value];
      pos := end.value;
      return if IsUtf8(bytes) then Some(bytes) else None;
    }

    method TakeTaggedBstrItem() returns (raw: Bytes, inner: Bytes, ok: bool)
      requires Valid()
      modifies this`pos
      ensures Valid()
      ensures match TaggedFrom(input, old(pos))
              case Some(at) => ok && raw == at.raw && inner == at.inner && pos == at.next
              case None => !ok
    {
      raw, inner, ok := [], [], false;
      var start := pos;
      var tag := ReadHead();
      if tag.None? || tag.value.major != 6 || tag.value.arg != TAG_ENCODED_CBOR { return; }
      HeadBounds(input, start);
      var bstr := ReadHead();
      if bstr.None? || bstr.value.major != 2 { return; }
      HeadBounds(input, CborWire.ReadHead(input, start).value.next);
      var contentStart := pos;
      var contentEnd := CheckedAdd(contentStart, bstr.value.arg);
      if contentEnd.None? || contentEnd.value > |input| { return; }
      pos := contentEnd.value;
      raw, inner, ok := input[start..pos], input[contentStart..pos], true;
    }

    /** `read_map_len` (major 5) and `read_array_len` (major 4). */
    method ReadLen(major: nat) returns (r: Option<nat>)
      requires Valid()
      modifies this`pos
      ensures Valid()
      ensures match LengthFrom(input, old(pos), major)
              case Some(at) => r == Some(at.head.arg) && pos == at.next
              case None => r == None
    {
      var head := ReadHead();
      return if head.Some? && head.value.major == major then Some(head.value.arg) else None;
    }
  }

  lemma {:induction false} PowBound(i: nat, n: nat)
    requires i < n <= 8
    ensures 256 * Pow256(i) <= U64_RANGE
  {
    assert Pow256(0) == 1 && Pow256(1) == 256 && Pow256(2) == 65536 && Pow256(3) == 0x100_0000;
    assert Pow256(4) == 0x1_0000_0000 && Pow256(5) == 0x100_0000_0000;
    assert Pow256(6) == 0x1_0000_0000_0000 && Pow256(7) == 0x100_0000_0000_0000;
  }

  /** One turn of the flat counter: the head's children join the items still to be skipped. */
  lemma SkipStep(s: Bytes, p: nat, pending: nat)
    requires pending > 0
    ensures match ReadHead(s, p)
            case None => ItemsEnd(s, p, pending) == None
            case Some(HeadAt(h, q)) =>
              && (IsString(h) ==>
                    ItemsEnd(s, p, pending)
                    == if q + h.arg <= |s| then ItemsEnd(s, q + h.arg, pending - 1) else None)
              && (!IsString(h) ==>
                    ItemsEnd(s, p, pending) == ItemsEnd(s, q, pending - 1 + Children(h)))
  {
    match ReadHead(s, p)
    case None =>
    case Some(HeadAt(h, q)) =>
      if !IsString(h) {
        ItemsEndAdd(s, q, Children(h), pending - 1);
      }
  }

  /** The bytes are, to the last one, the encoding of a definite-length tree. */
  ghost predicate OneDefiniteItem(s: Bytes) {
    exists t :: CborWire.Valid(t) && Encode(t) == s
  }

  /** Accepting a response as one definite-length item with nothing after it. */
  method RejectIndefiniteLengthCbor(deviceResponse: Bytes) returns (ok: bool)
    requires |deviceResponse| <= SLICE_MAX
    ensures ok <==> OneDefiniteItem(deviceResponse)
  {
    hide OneDefiniteItem, ItemEnd, ItemsEnd;
    var cursor := new Cursor(deviceResponse);
    var skipped := cursor.SkipItem();
    ok := skipped && cursor.pos == |deviceResponse|;
    WholeItem(deviceResponse);
  }

  lemma AtWhole(s: Bytes, bs: Bytes)
    ensures At(s, 0, bs) && |bs| == |s| <==> bs == s
  {
    assert s[0..|s|] == s;
  }

  lemma WholeItem(s: Bytes)
    ensures ItemEnd(s, 0) == Some(|s|) <==> OneDefiniteItem(s)
  {
    hide ItemEnd, ItemsEnd, Encode, CborWire.Valid, At;
    if ItemEnd(s, 0) == Some(|s|) {
      var t := ItemSound(s, 0);
      AtWhole(s, Encode(t));
    }
    if t :| CborWire.Valid(t) && Encode(t) == s {
      AtWhole(s, Encode(t));
      ItemComplete(s, 0, t);
    }
  }
}
