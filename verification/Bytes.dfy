/** Bytes, byte strings and the few sequence facts every other module uses. */
module Bytes {

  type Byte = b: int | 0 <= b < 256

  const NUL: Byte := 0
  const LF: Byte := 10
  const CR: Byte := 13
  const SPACE: Byte := 32
  const DOT: Byte := 46
  const SLASH: Byte := 47
  const DIGIT_ZERO: Byte := 48

  /** The last `n` elements of `s`, or all of `s` when it is shorter. */
  function LastN<T>(s: seq<T>, n: nat): (r: seq<T>)
    ensures |r| == if |s| <= n then |s| else n
  {
    if |s| <= n then s else s[|s| - n..]
  }

  lemma LastNOfSuffix<T>(p: seq<T>, t: seq<T>, n: nat)
    requires n <= |t|
    ensures LastN(p + t, n) == LastN(t, n)
  {
    assert (p + t)[|p + t| - n..] == t[|t| - n..];
  }

  /** Dropping old elements early never changes which elements survive. */
  lemma LastNOfAppend<T>(s: seq<T>, d: seq<T>, n: nat)
    ensures LastN(LastN(s, n) + d, n) == LastN(s + d, n)
    ensures LastN(s + LastN(d, n), n) == LastN(s + d, n)
  {
    if |s| > n {
      var p, t := s[..|s| - n], LastN(s, n);
      assert s + d == p + (t + d);
      LastNOfSuffix(p, t + d, n);
    }
    if |d| > n {
      var q, u := d[..|d| - n], LastN(d, n);
      assert s + d == (s + q) + u;
      LastNOfSuffix(s + q, u, n);
      LastNOfSuffix(s, u, n);
    }
  }

  lemma LastNDropFirst<T>(s: seq<T>, n: nat)
    requires n < |s|
    ensures LastN(s[1..], n) == LastN(s, n)
  {
    assert s == [s[0]] + s[1..];
    LastNOfSuffix([s[0]], s[1..], n);
  }

  lemma Assoc<T>(x: seq<T>, y: seq<T>, z: seq<T>)
    ensures (x + y) + z == x + (y + z)
  {
  }

  lemma CutAround<T>(s: seq<T>, i: nat)
    requires i < |s|
    ensures s[..i + 1] == s[..i] + [s[i]] && s == s[..i + 1] + s[i + 1..]
  {
  }

  /** Moving the first `n` elements of the rest over to the part already done. */
  lemma MoveOver<T>(done: seq<T>, rest: seq<T>, n: nat)
    requires n <= |rest|
    ensures done + rest == (done + rest[..n]) + rest[n..] == done + (rest[..n] + rest[n..])
  {
    assert rest == rest[..n] + rest[n..];
  }

  function Concat<T>(chunks: seq<seq<T>>): seq<T> {
    if chunks == [] then [] else chunks[0] + Concat(chunks[1..])
  }

  lemma {:induction false} ConcatAppend<T>(a: seq<seq<T>>, b: seq<seq<T>>)
    ensures Concat(a + b) == Concat(a) + Concat(b)
  {
    if a == [] {
      assert a + b == b;
    } else {
      assert (a + b)[0] == a[0] && (a + b)[1..] == a[1..] + b;
      ConcatAppend(a[1..], b);
    }
  }

  lemma ConcatSnoc<T>(a: seq<seq<T>>, c: seq<T>)
    ensures Concat(a + [c]) == Concat(a) + c
  {
    ConcatAppend(a, [c]);
    assert Concat([c]) == c + Concat<T>([]);
  }

  function Zeros(n: nat): (z: seq<Byte>)
    ensures |z| == n && forall i :: 0 <= i < n ==> z[i] == 0
  {
    seq(n, _ => 0)
  }
}
