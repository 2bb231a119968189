/** Splitting a text at a separator, and joining the pieces again. */
module Splitting {
  import opened Prelude

  /** `str::split_once`: the text before and after the first separator. */
  function SplitOnce(s: Text, sep: byte): Option<(Text, Text)> {
    if s == [] then None
    else if s[0] == sep then Some(([], s[1..]))
    else
      match SplitOnce(s[1..], sep)
      case None => None
      case Some((a, b)) => Some(([s[0]] + a, b))
  }

  /** `str::split`, which yields at least one piece. */
  function Split(s: Text, sep: byte): (pieces: seq<Text>)
    ensures |pieces| >= 1
    decreases |s|
  {
    match SplitOnce(s, sep)
    case None => [s]
    case Some((a, b)) =>
      SplitOnceSound(s, sep);
      [a] + Split(b, sep)
  }

  lemma {:induction false} SplitOnceSound(s: Text, sep: byte)
    ensures match SplitOnce(s, sep)
            case None => sep !in s
            case Some((a, b)) => s == a + ([sep] + b) && sep !in a
    decreases |s|
  {
    if s != [] && s[0] == sep {
      assert s == [] + ([sep] + s[1..]);
    } else if s != [] {
      var first, rest := [s[0]], s[1..];
      SplitOnceSound(rest, sep);
      assert s == first + rest;
      match SplitOnce(rest, sep)
      case None =>
      case Some((a, b)) => ConcatAssoc(first, a, [sep] + b);
    }
  }

  lemma {:induction false} SplitOnceComplete(a: Text, sep: byte, b: Text)
    requires sep !in a
    ensures SplitOnce(a + ([sep] + b), sep) == Some((a, b))
    decreases |a|
  {
    var s := a + ([sep] + b);
    if a == [] {
      assert s == [sep] + b;
    } else {
      assert s[1..] == a[1..] + ([sep] + b);
      SplitOnceComplete(a[1..], sep, b);
      assert a == [a[0]] + a[1..];
    }
  }

  lemma {:induction false} SplitOnceNone(s: Text, sep: byte)
    requires sep !in s
    ensures SplitOnce(s, sep) == None
    decreases |s|
  {
    if s != [] {
      SplitOnceNone(s[1..], sep);
    }
  }

  /** Three pieces are the text with two separators between them. */
  lemma SplitThree(s: Text, sep: byte)
    requires |Split(s, sep)| == 3
    ensures var p := Split(s, sep);
            && s == p[0] + ([sep] + (p[1] + ([sep] + p[2])))
            && sep !in p[0] && sep !in p[1] && sep !in p[2]
  {
    hide SplitOnce;
    SplitOnceSound(s, sep);
    var (a, b) := SplitOnce(s, sep).value;
    assert Split(s, sep) == [a] + Split(b, sep);
    SplitOnceSound(b, sep);
    var (c, d) := SplitOnce(b, sep).value;
    assert Split(b, sep) == [c] + Split(d, sep);
    SplitOnceSound(d, sep);
    assert |Split(d, sep)| == 1 && SplitOnce(d, sep) == None;
  }

  lemma JoinThree(a: Text, b: Text, c: Text, sep: byte)
    requires sep !in a && sep !in b && sep !in c
    ensures Split(a + ([sep] + (b + ([sep] + c))), sep) == [a, b, c]
  {
    hide SplitOnce;
    SplitOnceComplete(a, sep, b + ([sep] + c));
    SplitOnceComplete(b, sep, c);
    SplitOnceNone(c, sep);
    assert Split(c, sep) == [c];
    assert Split(b + ([sep] + c), sep) == [b] + [c];
  }

  /** The piece before the first separator, and the pieces of the rest. */
  lemma SplitCons(a: Text, sep: byte, rest: Text)
    requires sep !in a
    ensures Split(a + [sep] + rest, sep) == [a] + Split(rest, sep)
  {
    hide SplitOnce;
    assert a + [sep] + rest == a + ([sep] + rest);
    SplitOnceComplete(a, sep, rest);
  }

  lemma SplitNone(a: Text, sep: byte)
    requires sep !in a
    ensures Split(a, sep) == [a]
  {
    hide SplitOnce;
    SplitOnceNone(a, sep);
  }
}
