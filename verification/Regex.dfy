/** Regular expressions over bytes with their usual meaning as sets of words. */
module Regex {
  import opened Bytes

  datatype Re =
    | Eps
    | Cls(has: byte -> bool)
    | Cat(first: Re, second: Re)
    | Alt(left: Re, right: Re)
    | Star(body: Re)

  ghost predicate In(r: Re, w: seq<byte>)
    decreases r, |w|
  {
    match r
    case Eps => w == []
    case Cls(has) => |w| == 1 && has(w[0])
    case Cat(a, b) => exists k :: 0 <= k <= |w| && In(a, w[..k]) && In(b, w[k..])
    case Alt(a, b) => In(a, w) || In(b, w)
    case Star(a) => w == [] || exists k :: 0 < k <= |w| && In(a, w[..k]) && In(r, w[k..])
  }

  function Opt(r: Re): Re { Alt(Eps, r) }
  function Plus(r: Re): Re { Cat(r, Star(r)) }
  function Chr(c: byte): Re { Cls(x => x == c) }

  /** How a word of a concatenation starts, when the first factor is one character. */
  lemma CatCls(p: byte -> bool, r: Re, w: seq<byte>)
    ensures In(Cat(Cls(p), r), w) <==> w != [] && p(w[0]) && In(r, w[1..])
  {
    if w != [] && p(w[0]) && In(r, w[1..]) {
      assert In(Cls(p), w[..1]);
    }
  }

  lemma CatOpt(a: Re, r: Re, w: seq<byte>)
    ensures In(Cat(Opt(a), r), w) <==> In(r, w) || In(Cat(a, r), w)
  {
    if In(r, w) {
      assert w[..0] == [] && w[0..] == w;
      assert In(Opt(a), w[..0]);
    }
    if In(Cat(a, r), w) {
      var k :| 0 <= k <= |w| && In(a, w[..k]) && In(r, w[k..]);
      assert In(Opt(a), w[..k]);
    }
    if In(Cat(Opt(a), r), w) {
      var k :| 0 <= k <= |w| && In(Opt(a), w[..k]) && In(r, w[k..]);
      if In(a, w[..k]) {
        assert In(Cat(a, r), w);
      } else {
        assert In(Eps, w[..k]);
        assert w[k..] == w;
      }
    }
  }

  lemma CatEps(r: Re, w: seq<byte>)
    ensures In(Cat(r, Eps), w) <==> In(r, w)
  {
    assert w[..|w|] == w && w[|w|..] == [];
    if In(Cat(r, Eps), w) {
      var k :| 0 <= k <= |w| && In(r, w[..k]) && In(Eps, w[k..]);
      assert w[..k] == w;
    }
  }

  /** One unfolding of an iteration that is followed by something else. */
  lemma CatStar(a: Re, r: Re, w: seq<byte>)
    ensures In(Cat(Star(a), r), w)
       <==> In(r, w) || exists k :: 0 < k <= |w| && In(a, w[..k]) && In(Cat(Star(a), r), w[k..])
  {
    if In(Cat(Star(a), r), w) && !In(r, w) {
      var k := CatStarUnfold(a, r, w);
    }
    if In(r, w) {
      assert w[..0] == [] && w[0..] == w;
      assert In(Star(a), w[..0]);
    }
    if k :| 0 < k <= |w| && In(a, w[..k]) && In(Cat(Star(a), r), w[k..]) {
      CatStarFold(a, r, w, k);
    }
  }

  lemma CatStarUnfold(a: Re, r: Re, w: seq<byte>) returns (k: nat)
    requires In(Cat(Star(a), r), w) && !In(r, w)
    ensures 0 < k <= |w| && In(a, w[..k]) && In(Cat(Star(a), r), w[k..])
  {
    var j :| 0 <= j <= |w| && In(Star(a), w[..j]) && In(r, w[j..]);
    assert w[0..] == w;
    k :| 0 < k <= j && In(a, w[..j][..k]) && In(Star(a), w[..j][k..]);
    assert w[..j][..k] == w[..k] && w[..j][k..] == w[k..][..j - k] && w[j..] == w[k..][j - k..];
  }

  lemma CatStarFold(a: Re, r: Re, w: seq<byte>, k: nat)
    requires 0 < k <= |w| && In(a, w[..k]) && In(Cat(Star(a), r), w[k..])
    ensures In(Cat(Star(a), r), w)
  {
    var j :| 0 <= j <= |w[k..]| && In(Star(a), w[k..][..j]) && In(r, w[k..][j..]);
    assert w[..k + j][..k] == w[..k] && w[..k + j][k..] == w[k..][..j] && w[k + j..] == w[k..][j..];
    assert In(Star(a), w[..k + j]);
  }

  /** The same unfolding when the iterated expression is one character. */
  lemma CatStarCls(p: byte -> bool, r: Re, w: seq<byte>)
    ensures In(Cat(Star(Cls(p)), r), w)
       <==> In(r, w) || (w != [] && p(w[0]) && In(Cat(Star(Cls(p)), r), w[1..]))
  {
    CatStar(Cls(p), r, w);
    if w != [] && p(w[0]) && In(Cat(Star(Cls(p)), r), w[1..]) {
      assert In(Cls(p), w[..1]);
    }
  }
}
