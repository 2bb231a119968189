/**
  The definite-length part of CBOR (section 3 of RFC 8949) as trees and as bytes.

  `Item` is one well-formed data item with the head widths it was written with; `Encode` is its
  wire form.  `ReadHead` and `ItemEnd` read bytes.  The theorems at the end say that reading
  succeeds exactly on the encodings of valid trees.
*/
module CborWire {
  import opened Prelude

  /** How the argument of a head is stored: in the initial byte, or in 1, 2, 4 or 8 more bytes. */
  datatype Width = Direct | One | Two | Four | Eight

  datatype Head = Head(major: nat, arg: nat)

  datatype HeadAt = HeadAt(head: Head, next: nat)

  /** A map holds its keys and values flattened: key, value, key, value. */
  datatype Item =
    | Atom(major: nat, width: Width, arg: nat)
    | Str(major: nat, width: Width, content: Bytes)
    | Arr(width: Width, items: seq<Item>)
    | Map(width: Width, flat: seq<Item>)
    | Tag(width: Width, number: nat, item: Item)

  // ---------------------------------------------------------------------------------------------
  // Trees to bytes
  // ---------------------------------------------------------------------------------------------

  function Extra(w: Width): nat {
    match w
    case Direct => 0
    case One => 1
    case Two => 2
    case Four => 4
    case Eight => 8
  }

  function Pow256(k: nat): nat {
    if k == 0 then 1 else 256 * Pow256(k - 1)
  }

  predicate Fits(w: Width, arg: nat) {
    if w == Direct then arg < 24 else arg < Pow256(Extra(w))
  }

  /** `n` in `k` big-endian bytes. */
  function BigEndian(n: nat, k: nat): (bs: Bytes)
    ensures |bs| == k
  {
    if k == 0 then [] else BigEndian(n / 256, k - 1) + [n % 256]
  }

  function InfoOf(w: Width, arg: nat): nat {
    match w
    case Direct => arg
    case One => 24
    case Two => 25
    case Four => 26
    case Eight => 27
  }

  function EncodeHead(major: nat, w: Width, arg: nat): (bs: Bytes)
    requires major < 8 && Fits(w, arg)
    ensures |bs| == 1 + Extra(w)
  {
    [32 * major + InfoOf(w, arg)] + BigEndian(arg, Extra(w))
  }

  function Major(t: Item): nat {
    match t
    case Atom(m, _, _) => m
    case Str(m, _, _) => m
    case Arr(_, _) => 4
    case Map(_, _) => 5
    case Tag(_, _, _) => 6
  }

  function Arg(t: Item): nat {
    match t
    case Atom(_, _, arg) => arg
    case Str(_, _, content) => |content|
    case Arr(_, items) => |items|
    case Map(_, flat) => |flat| / 2
    case Tag(_, n, _) => n
  }

  predicate Valid(t: Item) {
    && Fits(t.width, Arg(t))
    && match t
       case Atom(m, _, _) => m == 0 || m == 1 || m == 7
       case Str(m, _, _) => m == 2 || m == 3
       case Arr(_, items) => AllValid(items)
       case Map(_, flat) => |flat| % 2 == 0 && AllValid(flat)
       case Tag(_, _, item) => Valid(item)
  }

  predicate AllValid(ts: seq<Item>) {
    ts == [] || (Valid(ts[0]) && AllValid(ts[1..]))
  }

  /** A head, then the content. */
  function Encode(t: Item): (bs: Bytes)
    requires Valid(t)
    ensures |bs| == 1 + Extra(t.width) + |Body(t)|
    decreases t, 1
  {
    EncodeHead(Major(t), t.width, Arg(t)) + Body(t)
  }

  function Body(t: Item): Bytes
    requires Valid(t)
    decreases t, 0
  {
    match t
    case Atom(_, _, _) => []
    case Str(_, _, content) => content
    case Arr(_, items) => EncodeAll(items)
    case Map(_, flat) => EncodeAll(flat)
    case Tag(_, _, item) => Encode(item)
  }

  function EncodeAll(ts: seq<Item>): (bs: Bytes)
    requires AllValid(ts)
    ensures |bs| >= |ts|
    decreases ts, 1
  {
    if ts == [] then [] else Encode(ts[0]) + EncodeAll(ts[1..])
  }

  // ---------------------------------------------------------------------------------------------
  // Reading
  // ---------------------------------------------------------------------------------------------

  function FromBigEndian(bs: Bytes): nat {
    if bs == [] then 0 else 256 * FromBigEndian(bs[..|bs| - 1]) + bs[|bs| - 1]
  }

  function WidthOfInfo(info: nat): Width
    requires 24 <= info <= 27
  {
    if info == 24 then One else if info == 25 then Two else if info == 26 then Four else Eight
  }

  /** The head at offset `p`, and the offset after it; indefinite and reserved forms are refused. */
  function ReadHead(s: Bytes, p: nat): Option<HeadAt> {
    if p >= |s| then None
    else
      var major, info := s[p] / 32, s[p] % 32;
      if info < 24 then Some(HeadAt(Head(major, info), p + 1))
      else if info <= 27 then
        var n := Extra(WidthOfInfo(info));
        if p + 1 + n <= |s| then
          Some(HeadAt(Head(major, FromBigEndian(s[p + 1..p + 1 + n])), p + 1 + n))
        else None
      else None
  }

  /** How many data items follow a head as its content; strings carry bytes, not items. */
  function Children(h: Head): nat {
    if h.major == 4 then h.arg
    else if h.major == 5 then 2 * h.arg
    else if h.major == 6 then 1
    else 0
  }

  predicate IsString(h: Head) {
    h.major == 2 || h.major == 3
  }

  /** Where the item at `p` ends, by recursive descent. */
  function ItemEnd(s: Bytes, p: nat): (e: Option<nat>)
    ensures e.Some? ==> p < e.value <= |s|
    decreases if p <= |s| then |s| - p else 0, 0
  {
    match ReadHead(s, p)
    case None => None
    case Some(HeadAt(h, q)) =>
      if IsString(h) then
        if q + h.arg <= |s| then Some(q + h.arg) else None
      else
        ItemsEnd(s, q, Children(h))
  }

  /** Where `n` consecutive items starting at `p` end; `n` items need at least `n` bytes. */
  function ItemsEnd(s: Bytes, p: nat, n: nat): (e: Option<nat>)
    ensures e.Some? ==> p + n <= e.value && (n > 0 || p <= |s| ==> e.value <= |s|)
    decreases if p <= |s| then |s| - p else 0, 1
  {
    if n == 0 then Some(p)
    else
      match ItemEnd(s, p)
      case None => None
      case Some(q) => ItemsEnd(s, q, n - 1)
  }

  // ---------------------------------------------------------------------------------------------
  // Big-endian arguments
  // ---------------------------------------------------------------------------------------------

  lemma {:induction false} BigEndianRoundTrip(n: nat, k: nat)
    requires n < Pow256(k)
    ensures FromBigEndian(BigEndian(n, k)) == n
  {
    if k > 0 {
      BigEndianRoundTrip(n / 256, k - 1);
      var bs := BigEndian(n, k);
      assert bs[..|bs| - 1] == BigEndian(n / 256, k - 1);
    }
  }

  lemma {:induction false} FromBigEndianRoundTrip(bs: Bytes)
    ensures FromBigEndian(bs) < Pow256(|bs|)
    ensures BigEndian(FromBigEndian(bs), |bs|) == bs
  {
    if bs != [] {
      FromBigEndianRoundTrip(bs[..|bs| - 1]);
      assert bs == bs[..|bs| - 1] + [bs[|bs| - 1]];
    }
  }

  // ---------------------------------------------------------------------------------------------
  // Heads: reading inverts writing, and reads nothing else
  // ---------------------------------------------------------------------------------------------

  lemma HeadComplete(s: Bytes, p: nat, major: nat, w: Width, arg: nat)
    requires major < 8 && Fits(w, arg)
    requires At(s, p, EncodeHead(major, w, arg))
    ensures ReadHead(s, p) == Some(HeadAt(Head(major, arg), p + 1 + Extra(w)))
  {
    hide FromBigEndian, BigEndian, Pow256;
    var info, n := InfoOf(w, arg), Extra(w);
    var initial: byte := 32 * major + info;
    AtConcat(s, p, [initial], BigEndian(arg, n));
    assert s[p] == s[p..p + 1][0] == initial;
    assert initial / 32 == major && initial % 32 == info;
    assert p + 1 + n <= |s| && s[p + 1..p + 1 + n] == BigEndian(arg, n);
    if w != Direct {
      assert WidthOfInfo(info) == w;
      BigEndianRoundTrip(arg, n);
    }
  }

  lemma BigEndianNone(n: nat)
    ensures BigEndian(n, 0) == []
  {
  }

  lemma HeadSound(s: Bytes, p: nat) returns (w: Width)
    requires ReadHead(s, p).Some?
    ensures var HeadAt(h, q) := ReadHead(s, p).value;
            && h.major < 8 && Fits(w, h.arg)
            && q == p + 1 + Extra(w) && At(s, p, EncodeHead(h.major, w, h.arg))
  {
    hide FromBigEndian, BigEndian, Pow256;
    var HeadAt(h, q) := ReadHead(s, p).value;
    var info := s[p] % 32;
    w := if info < 24 then Direct else WidthOfInfo(info);
    if w == Direct {
      BigEndianNone(h.arg);
    } else {
      FromBigEndianRoundTrip(s[p + 1..q]);
    }
    assert s[p..p + 1] == [s[p]];
    AtConcat(s, p, [s[p]], s[p + 1..q]);
    assert EncodeHead(h.major, w, h.arg) == [s[p]] + s[p + 1..q];
  }

  // ---------------------------------------------------------------------------------------------
  // Items: the recursive descent accepts exactly the encodings of valid trees
  // ---------------------------------------------------------------------------------------------

  /** What the reader sees of a tree: its head, then its content. */
  lemma NodeAt(s: Bytes, p: nat, t: Item)
    requires Valid(t) && At(s, p, Encode(t))
    ensures var q := p + 1 + Extra(t.width);
            && At(s, q, Body(t)) && q + |Body(t)| <= |s|
            && ReadHead(s, p) == Some(HeadAt(Head(Major(t), Arg(t)), q))
            && (t.Str? ==> ItemEnd(s, p) == Some(q + |Body(t)|))
            && (!t.Str? ==> ItemEnd(s, p) == ItemsEnd(s, q, Children(Head(Major(t), Arg(t)))))
  {
    AtConcat(s, p, EncodeHead(Major(t), t.width, Arg(t)), Body(t));
    HeadComplete(s, p, Major(t), t.width, Arg(t));
  }

  lemma NoItems(s: Bytes, p: nat)
    ensures ItemsEnd(s, p, 0) == Some(p)
  {
  }

  lemma OneItem(s: Bytes, p: nat)
    ensures ItemsEnd(s, p, 1) == ItemEnd(s, p)
  {
    match ItemEnd(s, p)
    case None =>
    case Some(q) => NoItems(s, q);
  }

  lemma ItemsStep(s: Bytes, p: nat, n: nat, q: nat)
    requires n > 0 && ItemEnd(s, p) == Some(q)
    ensures ItemsEnd(s, p, n) == ItemsEnd(s, q, n - 1)
  {
  }

  /** The first of several consecutive items, and the others after it. */
  lemma FirstAt(s: Bytes, p: nat, ts: seq<Item>)
    requires ts != [] && AllValid(ts) && At(s, p, EncodeAll(ts))
    ensures Valid(ts[0]) && AllValid(ts[1..])
    ensures At(s, p, Encode(ts[0])) && At(s, p + |Encode(ts[0])|, EncodeAll(ts[1..]))
    ensures |EncodeAll(ts)| == |Encode(ts[0])| + |EncodeAll(ts[1..])|
  {
    hide At, Encode, Valid;
    AtConcat(s, p, Encode(ts[0]), EncodeAll(ts[1..]));
  }

  lemma {:induction false} ItemComplete(s: Bytes, p: nat, t: Item)
    requires Valid(t) && At(s, p, Encode(t))
    ensures ItemEnd(s, p) == Some(p + |Encode(t)|)
    decreases t, 0
  {
    hide ItemEnd, ItemsEnd, At, ReadHead, EncodeAll, Encode, Fits, Extra, AllValid;
    NodeAt(s, p, t);
    var q := p + 1 + Extra(t.width);
    match t
    case Atom(_, _, _) => NoItems(s, q);
    case Str(_, _, _) =>
    case Arr(_, items) => ItemsComplete(s, q, items);
    case Map(_, flat) => ItemsComplete(s, q, flat);
    case Tag(_, _, item) =>
      ItemComplete(s, q, item);
      OneItem(s, q);
  }

  lemma {:induction false} ItemsComplete(s: Bytes, p: nat, ts: seq<Item>)
    requires AllValid(ts) && At(s, p, EncodeAll(ts))
    ensures ItemsEnd(s, p, |ts|) == Some(p + |EncodeAll(ts)|)
    decreases ts, 1
  {
    hide ItemEnd, ItemsEnd, Encode, At, Valid, EncodeAll;
    NoItems(s, p);
    if ts == [] {
      EncodeNone();
    } else {
      FirstAt(s, p, ts);
      ItemComplete(s, p, ts[0]);
      ItemsStep(s, p, |ts|, p + |Encode(ts[0])|);
      ItemsComplete(s, p + |Encode(ts[0])|, ts[1..]);
    }
  }

  lemma SliceAt(s: Bytes, p: nat, q: nat)
    requires p <= q <= |s|
    ensures At(s, p, s[p..q])
  {
  }

  /** One level of the descent. */
  lemma ItemEndOf(s: Bytes, p: nat)
    requires ItemEnd(s, p).Some?
    ensures ReadHead(s, p).Some?
    ensures var HeadAt(h, q) := ReadHead(s, p).value;
            && q <= |s|
            && (IsString(h) ==> q + h.arg <= |s| && ItemEnd(s, p) == Some(q + h.arg))
            && (!IsString(h) ==> ItemEnd(s, p) == ItemsEnd(s, q, Children(h)))
  {
  }

  lemma ItemsEndOf(s: Bytes, p: nat, n: nat)
    requires ItemsEnd(s, p, n).Some?
    ensures n == 0 ==> ItemsEnd(s, p, n) == Some(p)
    ensures n > 0 ==> ItemEnd(s, p).Some? && ItemsEnd(s, p, n) == ItemsEnd(s, ItemEnd(s, p).value, n - 1)
  {
  }

  lemma {:induction false} ItemSound(s: Bytes, p: nat) returns (t: Item)
    requires ItemEnd(s, p).Some?
    ensures Valid(t) && At(s, p, Encode(t)) && ItemEnd(s, p) == Some(p + |Encode(t)|)
    decreases if p <= |s| then |s| - p else 0, 0
  {
    hide ItemEnd, ItemsEnd, At, EncodeAll, EncodeHead, AllValid, Body;
    ItemEndOf(s, p);
    var HeadAt(h, q) := ReadHead(s, p).value;
    var w := HeadSound(s, p);
    if IsString(h) {
      t := Str(h.major, w, s[q..q + h.arg]);
      assert Body(t) == s[q..q + h.arg] by { BodyOfString(t); }
      SliceAt(s, q, q + h.arg);
    } else {
      var ts := ItemsSound(s, q, Children(h));
      t := NodeOf(h, w, ts);
    }
    AtConcat(s, p, EncodeHead(h.major, w, h.arg), Body(t));
  }

  lemma BodyOfString(t: Item)
    requires Valid(t) && t.Str?
    ensures Body(t) == t.content
  {
  }

  /** The tree a head and its already read children make. */
  lemma NodeOf(h: Head, w: Width, ts: seq<Item>) returns (t: Item)
    requires h.major < 8 && !IsString(h) && Fits(w, h.arg)
    requires |ts| == Children(h) && AllValid(ts)
    ensures Valid(t) && t.width == w && Major(t) == h.major && Arg(t) == h.arg && Body(t) == EncodeAll(ts)
  {
    if h.major == 4 {
      t := Arr(w, ts);
    } else if h.major == 5 {
      t := Map(w, ts);
    } else if h.major == 6 {
      t := Tag(w, h.arg, ts[0]);
      assert EncodeAll(ts[1..]) == [];
    } else {
      t := Atom(h.major, w, h.arg);
    }
  }

  lemma {:induction false} ItemsSound(s: Bytes, p: nat, n: nat) returns (ts: seq<Item>)
    requires p <= |s| && ItemsEnd(s, p, n).Some?
    ensures |ts| == n && AllValid(ts) && At(s, p, EncodeAll(ts))
    ensures ItemsEnd(s, p, n) == Some(p + |EncodeAll(ts)|)
    decreases |s| - p, 1
  {
    hide ItemEnd, ItemsEnd, Encode, EncodeAll, At, Valid;
    ItemsEndOf(s, p, n);
    if n == 0 {
      ts := [];
      EncodeNone();
      SliceAt(s, p, p);
      assert s[p..p] == [];
    } else {
      var t := ItemSound(s, p);
      var q := ItemEnd(s, p).value;
      var rest := ItemsSound(s, q, n - 1);
      ts := [t] + rest;
      EncodeCons(t, rest);
      AtConcat(s, p, Encode(t), EncodeAll(rest));
    }
  }

  lemma EncodeNone()
    ensures EncodeAll([]) == []
  {
  }

  lemma EncodeCons(t: Item, rest: seq<Item>)
    requires Valid(t) && AllValid(rest)
    ensures AllValid([t] + rest) && EncodeAll([t] + rest) == Encode(t) + EncodeAll(rest)
  {
    assert ([t] + rest)[1..] == rest;
  }

  // ---------------------------------------------------------------------------------------------
  // Main statements
  // ---------------------------------------------------------------------------------------------

  ghost predicate AreItems(bs: Bytes, n: nat) {
    exists ts: seq<Item> :: |ts| == n && AllValid(ts) && EncodeAll(ts) == bs
  }

  /** Reading `n` items from `p` stops at `q` exactly when `s[p..q]` is `n` well-formed items. */
  lemma ItemsEndIsGrammar(s: Bytes, p: nat, n: nat, q: nat)
    requires p <= |s|
    ensures ItemsEnd(s, p, n) == Some(q) <==> p <= q <= |s| && AreItems(s[p..q], n)
  {
    hide ItemEnd, ItemsEnd, EncodeAll, AllValid;
    if ItemsEnd(s, p, n) == Some(q) {
      var ts := ItemsSound(s, p, n);
      assert s[p..q] == EncodeAll(ts);
    }
    if p <= q <= |s| && AreItems(s[p..q], n) {
      var ts: seq<Item> :| |ts| == n && AllValid(ts) && EncodeAll(ts) == s[p..q];
      ItemsComplete(s, p, ts);
    }
  }

  /** CBOR is prefix-free: two trees whose encodings start at one place end at one place. */
  lemma PrefixFree(s: Bytes, p: nat, t: Item, u: Item)
    requires Valid(t) && Valid(u) && At(s, p, Encode(t)) && At(s, p, Encode(u))
    ensures Encode(t) == Encode(u)
  {
    ItemComplete(s, p, t);
    ItemComplete(s, p, u);
  }

  /** Reading a run of `a` items and then `b` more is reading `a + b` items. */
  lemma {:induction false} ItemsEndAdd(s: Bytes, p: nat, a: nat, b: nat)
    ensures ItemsEnd(s, p, a + b)
         == match ItemsEnd(s, p, a) { case None => None case Some(q) => ItemsEnd(s, q, b) }
    decreases a
  {
    if a > 0 {
      match ItemEnd(s, p)
      case None =>
      case Some(q) => ItemsEndAdd(s, q, a - 1, b);
    }
  }

  /** Equal bytes are equal trees: every byte string encodes at most one tree, widths included. */
  lemma {:induction false} EncodeInjective(t: Item, u: Item)
    requires Valid(t) && Valid(u) && Encode(t) == Encode(u)
    ensures t == u
    decreases t, 0
  {
    hide ItemEnd, ItemsEnd, At, ReadHead, EncodeAll, EncodeHead, Fits, AllValid;
    var s := Encode(t);
    Whole(s);
    NodeAt(s, 0, t);
    NodeAt(s, 0, u);
    SameWidth(t, u);
    SameBody(t, u);
    match t
    case Atom(_, _, _) =>
    case Str(_, _, _) =>
    case Arr(_, items) => EncodeAllInjective(items, u.items);
    case Map(_, flat) => EncodeAllInjective(flat, u.flat);
    case Tag(_, _, item) => EncodeInjective(item, u.item);
  }

  lemma Whole(s: Bytes)
    ensures At(s, 0, s)
  {
    assert s[0..|s|] == s;
  }

  lemma SameWidth(t: Item, u: Item)
    requires Valid(t) && Valid(u) && Encode(t) == Encode(u)
    ensures t.width == u.width
  {
    hide BigEndian, Body, Pow256;
    var a, b := InfoOf(t.width, Arg(t)), InfoOf(u.width, Arg(u));
    assert Encode(t)[0] == 32 * Major(t) + a && Encode(u)[0] == 32 * Major(u) + b;
    assert a == b;
  }

  lemma SameBody(t: Item, u: Item)
    requires Valid(t) && Valid(u) && Encode(t) == Encode(u) && t.width == u.width
    ensures Body(t) == Body(u)
  {
    hide EncodeHead, Body;
    var n := 1 + Extra(t.width);
    assert Encode(t)[n..] == Body(t) && Encode(u)[n..] == Body(u);
  }

  lemma {:induction false} EncodeAllInjective(ts: seq<Item>, us: seq<Item>)
    requires AllValid(ts) && AllValid(us) && |ts| == |us| && EncodeAll(ts) == EncodeAll(us)
    ensures ts == us
    decreases ts, 1
  {
    hide ItemEnd, ItemsEnd, At, Encode, Valid;
    if ts != [] {
      var s := EncodeAll(ts);
      Whole(s);
      FirstAt(s, 0, ts);
      FirstAt(s, 0, us);
      PrefixFree(s, 0, ts[0], us[0]);
      var n := |Encode(ts[0])|;
      assert s[n..] == EncodeAll(ts[1..]) && s[n..] == EncodeAll(us[1..]);
      EncodeInjective(ts[0], us[0]);
      EncodeAllInjective(ts[1..], us[1..]);
      assert ts == [ts[0]] + ts[1..] && us == [us[0]] + us[1..];
    }
  }

  // ---------------------------------------------------------------------------------------------
  // The examples of the standard
  // ---------------------------------------------------------------------------------------------

  lemma HeadBytes(major: nat, arg: nat)
    requires major < 8
    ensures arg < 24 ==> Fits(Direct, arg) && EncodeHead(major, Direct, arg) == [32 * major + arg]
    ensures arg < 256 ==> Fits(One, arg) && EncodeHead(major, One, arg) == [32 * major + 24, arg]
    ensures arg < 65536 ==> Fits(Two, arg) && EncodeHead(major, Two, arg) == [32 * major + 25, arg / 256, arg % 256]
  {
    assert Pow256(1) == 256 && Pow256(2) == 65536;
    if arg < 65536 {
      assert BigEndian(arg, 1) == [] + [arg % 256];
      assert BigEndian(arg, 2) == BigEndian(arg / 256, 1) + [arg % 256];
      assert BigEndian(arg / 256, 1) == [] + [arg / 256 % 256];
    }
  }

  lemma SingleItem(t: Item)
    requires Valid(t)
    ensures AllValid([t]) && EncodeAll([t]) == Encode(t)
  {
    assert [t][1..] == [];
  }

  lemma TwoItems(t: Item, u: Item)
    requires Valid(t) && Valid(u)
    ensures AllValid([t, u]) && EncodeAll([t, u]) == Encode(t) + Encode(u)
  {
    SingleItem(u);
    assert [t, u][1..] == [u];
  }

  /** Rows of appendix A of RFC 8949: 1000, true, null, h'01020304' and "IETF"; -1000 beside them. */
  lemma ScalarExamples()
    ensures Valid(Atom(0, Two, 1000)) && Encode(Atom(0, Two, 1000)) == [0x19, 0x03, 0xE8]
    ensures Valid(Atom(1, Two, 999)) && Encode(Atom(1, Two, 999)) == [0x39, 0x03, 0xE7]
    ensures Valid(Atom(7, Direct, 21)) && Encode(Atom(7, Direct, 21)) == [0xF5]
    ensures Valid(Atom(7, Direct, 22)) && Encode(Atom(7, Direct, 22)) == [0xF6]
    ensures Valid(Str(2, Direct, [1, 2, 3, 4])) && Encode(Str(2, Direct, [1, 2, 3, 4])) == [0x44, 1, 2, 3, 4]
    ensures Valid(Str(3, Direct, Lit("IETF"))) && Encode(Str(3, Direct, Lit("IETF"))) == [0x64, 0x49, 0x45, 0x54, 0x46]
  {
    hide EncodeHead, BigEndian, Pow256;
    HeadBytes(0, 1000);
    HeadBytes(1, 999);
    HeadBytes(7, 21);
    HeadBytes(7, 22);
    HeadBytes(2, 4);
    HeadBytes(3, 4);
  }

  /** [1, 2], {"a": 1} and 24(h'61'). */
  lemma ContainerExamples()
    ensures var pair := Arr(Direct, [Atom(0, Direct, 1), Atom(0, Direct, 2)]); Valid(pair) && Encode(pair) == [0x82, 0x01, 0x02]
    ensures var entry := Map(Direct, [Str(3, Direct, [0x61]), Atom(0, Direct, 1)]);
            Valid(entry) && Encode(entry) == [0xA1, 0x61, 0x61, 0x01]
    ensures var tagged := Tag(One, 24, Str(2, Direct, [0x61])); Valid(tagged) && Encode(tagged) == [0xD8, 0x18, 0x41, 0x61]
  {
    hide EncodeHead, BigEndian, Pow256, EncodeAll, AllValid;
    var one, two, a := Atom(0, Direct, 1), Atom(0, Direct, 2), Str(3, Direct, [0x61]);
    HeadBytes(0, 1);
    HeadBytes(0, 2);
    HeadBytes(2, 1);
    HeadBytes(3, 1);
    HeadBytes(4, 2);
    HeadBytes(5, 1);
    HeadBytes(6, 24);
    TwoItems(one, two);
    TwoItems(a, one);
  }
}
