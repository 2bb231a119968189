/**
  JSON pointers (RFC 6901) of a disclosure tree: token escaping, the pointer of a node, and the walk
  that finds every disclosure the holder may conceal.
*/
module JsonPointer {
  import opened Prelude
  import opened Json
  import opened Decimals

  const SLASH: byte := 47
  const TILDE: byte := 126

  // ---------------------------------------------------------------------------------------------
  // Reference tokens
  // ---------------------------------------------------------------------------------------------

  /** `str::replace` of one character. */
  function ReplaceByte(s: Text, from: byte, to: Text): Text {
    if s == [] then [] else (if s[0] == from then to else [s[0]]) + ReplaceByte(s[1..], from, to)
  }

  /** `str::replace` of a pair of characters, left to right without overlap. */
  function ReplacePair(s: Text, a: byte, b: byte, to: byte): Text {
    if |s| < 2 then s
    else if s[0] == a && s[1] == b then [to] + ReplacePair(s[2..], a, b, to)
    else [s[0]] + ReplacePair(s[1..], a, b, to)
  }

  /** `~` becomes `~0`, then `/` becomes `~1`. */
  function EscapeJsonPointer(key: Text): Text {
    ReplaceByte(ReplaceByte(key, TILDE, [TILDE, 48]), SLASH, [TILDE, 49])
  }

  /** `~1` becomes `/`, then `~0` becomes `~` (section 4 of RFC 6901). */
  function Unescape(token: Text): Text {
    ReplacePair(ReplacePair(token, '~' as byte, '1' as byte, '/' as byte), '~' as byte, '0' as byte, '~' as byte)
  }

  lemma ReplaceByteCons(c: byte, s: Text, from: byte, to: Text)
    ensures ReplaceByte([c] + s, from, to) == (if c == from then to else [c]) + ReplaceByte(s, from, to)
  {
    assert ([c] + s)[1..] == s;
  }

  /** The first pass of the escape, seen one key character at a time. */
  lemma EscapeCons(c: byte, s: Text)
    ensures EscapeJsonPointer([c] + s)
         == (if c == TILDE then [TILDE, 48] else if c == SLASH then [TILDE, 49] else [c]) + EscapeJsonPointer(s)
  {
    hide ReplaceByte;
    var rest := ReplaceByte(s, TILDE, [TILDE, 48]);
    ReplaceByteCons(c, s, TILDE, [TILDE, 48]);
    if c == TILDE {
      assert [TILDE, 48] + rest == [TILDE] + ([48] + rest);
      ReplaceByteCons(TILDE, [48] + rest, SLASH, [TILDE, 49]);
      ReplaceByteCons(48, rest, SLASH, [TILDE, 49]);
      assert [TILDE] + ([48] + EscapeJsonPointer(s)) == [TILDE, 48] + EscapeJsonPointer(s);
    } else {
      ReplaceByteCons(c, rest, SLASH, [TILDE, 49]);
    }
  }

  /** Undoing the second replacement leaves the first. */
  lemma {:induction false} UndoSlash(key: Text)
    ensures ReplacePair(EscapeJsonPointer(key), TILDE, 49, SLASH) == ReplaceByte(key, TILDE, [TILDE, 48])
  {
    if key == [] {
    } else {
      var c, s := key[0], key[1..];
      assert key == [c] + s;
      EscapeCons(c, s);
      ReplaceByteCons(c, s, TILDE, [TILDE, 48]);
      UndoSlash(s);
      hide EscapeJsonPointer, ReplaceByte;
      var t := EscapeJsonPointer(s);
      if c == TILDE {
        PairSkips(TILDE, [48] + t, TILDE, 49, SLASH);
        assert [TILDE, 48] + t == [TILDE] + ([48] + t);
        PairSkips(48, t, TILDE, 49, SLASH);
        assert [TILDE] + ([48] + ReplacePair(t, TILDE, 49, SLASH)) == [TILDE, 48] + ReplacePair(t, TILDE, 49, SLASH);
      } else if c == SLASH {
        assert ([TILDE, 49] + t)[2..] == t;
      } else {
        PairSkips(c, t, TILDE, 49, SLASH);
      }
    }
  }

  /** A character that does not start the pair is kept. */
  lemma PairSkips(c: byte, s: Text, a: byte, b: byte, to: byte)
    requires c != a || (s != [] && s[0] != b)
    ensures ReplacePair([c] + s, a, b, to) == [c] + ReplacePair(s, a, b, to)
  {
    assert ([c] + s)[1..] == s;
    if s == [] { assert ReplacePair(s, a, b, to) == [] && [c] + [] == [c]; }
  }

  lemma {:induction false} UndoTilde(key: Text)
    ensures ReplacePair(ReplaceByte(key, TILDE, [TILDE, 48]), TILDE, 48, TILDE) == key
  {
    if key == [] {
    } else {
      var c, s := key[0], key[1..];
      assert key == [c] + s;
      ReplaceByteCons(c, s, TILDE, [TILDE, 48]);
      UndoTilde(s);
      var t := ReplaceByte(s, TILDE, [TILDE, 48]);
      if c == TILDE {
        assert ([TILDE, 48] + t)[2..] == t;
      } else {
        PairSkips(c, t, TILDE, 48, TILDE);
      }
    }
  }

  /** Unescaping inverts escaping. */
  lemma EscapeRoundTrip(key: Text)
    ensures Unescape(EscapeJsonPointer(key)) == key
  {
    UndoSlash(key);
    UndoTilde(key);
  }

  lemma {:induction false} EscapeHasNoSlash(key: Text)
    ensures SLASH !in EscapeJsonPointer(key)
  {
    if key == [] {
    } else {
      assert key == [key[0]] + key[1..];
      EscapeCons(key[0], key[1..]);
      EscapeHasNoSlash(key[1..]);
    }
  }

  /** An array index in decimal. */
  function Decimal(n: nat): (s: Text)
    ensures |s| > 0 && SLASH !in s && AllDigits(s)
  {
    if n < 10 then [48 + n] else Decimal(n / 10) + [48 + n % 10]
  }

  /** An array index token: digits without a leading zero (section 4 of RFC 6901). */
  function ParseIndex(token: Text): Option<nat> {
    if token == [] || !AllDigits(token) || (|token| > 1 && token[0] == 48) then None
    else
      DecimalNonNegative(token);
      Some(DecimalValue(token))
  }

  lemma {:induction false} DecimalRoundTrip(n: nat)
    ensures DecimalValue(Decimal(n)) == n && (n > 0 ==> Decimal(n)[0] != 48) && (n == 0 ==> |Decimal(n)| == 1)
  {
    if n < 10 {
      assert Decimal(n)[..0] == [];
    } else {
      DecimalRoundTrip(n / 10);
      var init, last := Decimal(n / 10), 48 + n % 10;
      assert Decimal(n) == init + [last] && (init + [last])[..|init|] == init && last - 48 == n % 10;
    }
  }

  lemma IndexRoundTrip(n: nat)
    ensures ParseIndex(Decimal(n)) == Some(n)
  {
    DecimalRoundTrip(n);
  }

  // ---------------------------------------------------------------------------------------------
  // Paths and pointers
  // ---------------------------------------------------------------------------------------------

  datatype Step = Key(key: Text) | Index(index: nat)

  type Path = seq<Step>

  function Child(v: Json, step: Step): Option<Json> {
    match (v, step)
    case (Obj(es), Key(k)) => Lookup(es, k)
    case (Arr(items), Index(i)) => if i < |items| then Some(items[i]) else None
    case _ => None
  }

  /** The node of `v` at a path. */
  function Follow(v: Json, path: Path): Option<Json>
    decreases |path|
  {
    if path == [] then Some(v)
    else
      match Child(v, path[0])
      case Some(c) => Follow(c, path[1..])
      case None => None
  }

  function Token(step: Step): (t: Text)
    ensures |t| > 0 && t[0] == SLASH
  {
    [SLASH] + match step case Key(k) => EscapeJsonPointer(k) case Index(i) => Decimal(i)
  }

  function Pointer(path: Path): Text {
    if path == [] then [] else Token(path[0]) + Pointer(path[1..])
  }

  lemma {:induction false} PointerAppend(p: Path, q: Path)
    ensures Pointer(p + q) == Pointer(p) + Pointer(q)
  {
    hide Token;
    if p == [] {
      assert p + q == q && [] + Pointer(q) == Pointer(q);
    } else {
      PointerAppend(p[1..], q);
      var pq := p + q;
      assert pq[0] == p[0] && pq[1..] == p[1..] + q;
      assert Pointer(pq) == Token(p[0]) + Pointer(pq[1..]);
      ConcatAssoc(Token(p[0]), Pointer(p[1..]), Pointer(q));
    }
  }

  lemma PointerSnoc(p: Path, step: Step)
    ensures Pointer(p + [step]) == Pointer(p) + Token(step)
  {
    PointerAppend(p, [step]);
    assert [step][1..] == [] && Token(step) + [] == Token(step);
    assert Pointer([step]) == Token(step) + Pointer([]);
  }

  /** How many characters precede the next `/`. */
  function UpToSlash(s: Text): (n: nat)
    ensures n <= |s|
  {
    if s == [] || s[0] == SLASH then 0 else 1 + UpToSlash(s[1..])
  }

  function ResolveToken(v: Json, token: Text): Option<Json> {
    match v
    case Obj(es) => Lookup(es, Unescape(token))
    case Arr(items) =>
      (match ParseIndex(token)
       case Some(i) => if i < |items| then Some(items[i]) else None
       case None => None)
    case _ => None
  }

  /** Evaluating a pointer text against a document (section 4 of RFC 6901). */
  function Resolve(v: Json, pointer: Text): Option<Json>
    decreases |pointer|
  {
    if pointer == [] then Some(v)
    else if pointer[0] != SLASH then None
    else
      var n := UpToSlash(pointer[1..]);
      match ResolveToken(v, pointer[1..1 + n])
      case Some(c) => Resolve(c, pointer[1 + n..])
      case None => None
  }

  lemma {:induction false} UpToSlashIs(token: Text, rest: Text)
    requires SLASH !in token && (rest == [] || rest[0] == SLASH)
    ensures UpToSlash(token + rest) == |token|
  {
    if token == [] {
      assert token + rest == rest;
    } else {
      assert (token + rest)[1..] == token[1..] + rest;
      UpToSlashIs(token[1..], rest);
    }
  }

  lemma TokenSplits(step: Step, rest: Text)
    requires rest == [] || rest[0] == SLASH
    ensures var s, t := Token(step) + rest, Token(step);
            && SLASH !in t[1..] && UpToSlash(s[1..]) == |t| - 1 && s[1..|t|] == t[1..] && s[|t|..] == rest
  {
    var s, t := Token(step) + rest, Token(step);
    if step.Key? { EscapeHasNoSlash(step.key); }
    assert s[1..] == t[1..] + rest;
    UpToSlashIs(t[1..], rest);
  }

  lemma TokenResolves(v: Json, step: Step)
    requires Child(v, step).Some?
    ensures ResolveToken(v, Token(step)[1..]) == Child(v, step)
  {
    match step {
      case Key(k) => EscapeRoundTrip(k); assert Token(step)[1..] == EscapeJsonPointer(k);
      case Index(i) => IndexRoundTrip(i); assert Token(step)[1..] == Decimal(i);
    }
  }

  lemma PointerStart(path: Path)
    ensures Pointer(path) == [] || Pointer(path)[0] == SLASH
    ensures Pointer(path) == [] <==> path == []
  {
    hide Token;
  }

  /** The pointer of a node resolves to that node. */
  lemma {:induction false} PointerResolves(v: Json, path: Path)
    requires Follow(v, path).Some?
    ensures Resolve(v, Pointer(path)) == Follow(v, path)
    decreases |path|
  {
    hide Token, ResolveToken, UpToSlash;
    if path == [] {
    } else {
      var rest := Pointer(path[1..]);
      PointerStart(path[1..]);
      TokenSplits(path[0], rest);
      TokenResolves(v, path[0]);
      PointerResolves(Child(v, path[0]).value, path[1..]);
    }
  }

  lemma TokenInjective(v: Json, a: Step, b: Step)
    requires Child(v, a).Some? && Child(v, b).Some? && Token(a) == Token(b)
    ensures a == b
  {
    assert Token(a)[1..] == Token(b)[1..];
    match (a, b) {
      case (Key(j), Key(k)) =>
        assert Token(a)[1..] == EscapeJsonPointer(j) && Token(b)[1..] == EscapeJsonPointer(k);
        EscapeRoundTrip(j);
        EscapeRoundTrip(k);
      case (Index(i), Index(j)) =>
        assert Token(a)[1..] == Decimal(i) && Token(b)[1..] == Decimal(j);
        IndexRoundTrip(i);
        IndexRoundTrip(j);
      case _ =>
    }
  }

  /** Distinct nodes of one document have distinct pointers. */
  lemma {:induction false} PointerInjective(v: Json, p: Path, q: Path)
    requires Follow(v, p).Some? && Follow(v, q).Some? && Pointer(p) == Pointer(q)
    ensures p == q
    decreases |p|
  {
    PointerStart(p);
    PointerStart(q);
    hide Token, UpToSlash, Child;
    if p != [] {
      PointerStart(p[1..]);
      PointerStart(q[1..]);
      TokenSplits(p[0], Pointer(p[1..]));
      TokenSplits(q[0], Pointer(q[1..]));
      assert Token(p[0]) == [SLASH] + Token(p[0])[1..] && Token(q[0]) == [SLASH] + Token(q[0])[1..];
      TokenInjective(v, p[0], q[0]);
      PointerInjective(Child(v, p[0]).value, p[1..], q[1..]);
      assert p == [p[0]] + p[1..] && q == [q[0]] + q[1..];
    }
  }
}
