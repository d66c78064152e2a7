/** Byte strings, powers of two, big-endian numbers and concatenation. */
module ByteStrings {
  type byte = b: int | 0 <= b < 256

  type Bytes = seq<byte>

  function Min(a: nat, b: nat): nat { if a < b then a else b }

  /** The bytes of an ASCII text. */
  function Ascii(s: string): (r: Bytes)
    ensures |r| == |s|
  {
    if s == "" then [] else Ascii(s[..|s| - 1]) + [s[|s| - 1] as int % 256]
  }

  function Pow2(k: nat): (r: nat)
    ensures r >= 1
  {
    if k == 0 then 1 else 2 * Pow2(k - 1)
  }

  lemma {:induction false} Pow2Add(a: nat, b: nat)
    ensures Pow2(a + b) == Pow2(a) * Pow2(b)
    decreases b
  {
    if b == 0 {
    } else {
      Pow2Add(a, b - 1);
      assert Pow2(a + b) == 2 * Pow2(a + (b - 1));
    }
  }

  lemma Distribute(a: nat, b: nat, m: nat)
    ensures (a + b) * m == a * m + b * m
  {
  }

  lemma ProductGap(q: nat, q': nat, m: nat)
    requires q < q'
    ensures q * m + m <= q' * m
  {
    Distribute(q + 1, q' - q - 1, m);
    Distribute(q, 1, m);
  }

  lemma RemainderUnique(m: nat, q: nat, r: nat, q': nat, r': nat)
    requires r < m && r' < m && q * m + r == q' * m + r'
    ensures q == q' && r == r'
  {
    if q < q' {
      ProductGap(q, q', m);
    } else if q' < q {
      ProductGap(q', q, m);
    }
  }

  /** `n` in `width` bytes, most significant first; higher digits are dropped. */
  function BigEndian(n: nat, width: nat): (r: Bytes)
    ensures |r| == width
  {
    if width == 0 then [] else BigEndian(n / 256, width - 1) + [n % 256]
  }

  /** Byte `i` is the base-256 digit of that place. */
  lemma {:induction false} BigEndianAt(n: nat, width: nat, i: nat)
    requires i < width
    ensures BigEndian(n, width)[i] == n / Pow256(width - 1 - i) % 256
    decreases width
  {
    if i < width - 1 {
      BigEndianAt(n / 256, width - 1, i);
      DivideTwice(n, Pow256(width - 2 - i));
    }
  }

  lemma QuotientIs(n: nat, d: nat, q: nat, r: nat)
    requires r < d && n == q * d + r
    ensures n / d == q
  {
    var q', r' := n / d, n % d;
    assert n == q' * d + r';
    RemainderUnique(d, q, r, q', r');
  }

  lemma Regroup(s: nat, p: nat)
    ensures s * (256 * p) == 256 * (s * p)
  {
  }

  lemma DivideTwice(n: nat, p: nat)
    requires p > 0
    ensures n / 256 / p == n / (256 * p)
  {
    var q, r := n / 256, n % 256;
    var s, t := q / p, q % p;
    assert q == s * p + t;
    Regroup(s, p);
    QuotientIs(n, 256 * p, s, 256 * t + r);
  }

  function BigEndianValue(s: Bytes): nat {
    if s == [] then 0 else 256 * BigEndianValue(s[..|s| - 1]) + s[|s| - 1]
  }

  function Pow256(k: nat): (r: nat)
    ensures r >= 1
  {
    if k == 0 then 1 else 256 * Pow256(k - 1)
  }

  lemma {:induction false} ValueOfBigEndian(n: nat, width: nat)
    requires n < Pow256(width)
    ensures BigEndianValue(BigEndian(n, width)) == n
  {
    if width > 0 {
      ValueOfBigEndian(n / 256, width - 1);
      var init := BigEndian(n / 256, width - 1);
      assert (init + [n % 256])[..width - 1] == init;
    }
  }

  lemma {:induction false} BigEndianOfValue(s: Bytes)
    ensures BigEndianValue(s) < Pow256(|s|) && BigEndian(BigEndianValue(s), |s|) == s
  {
    if s != [] {
      var init, last := s[..|s| - 1], s[|s| - 1];
      BigEndianOfValue(init);
      var v := BigEndianValue(init);
      assert (256 * v + last) / 256 == v && (256 * v + last) % 256 == last;
    }
  }

  /** The number of binary digits of `n`, as `int.bit_length` counts them. */
  function BitLength(n: nat): nat {
    if n == 0 then 0 else 1 + BitLength(n / 2)
  }

  function Concat<T>(parts: seq<seq<T>>): seq<T> {
    if parts == [] then [] else parts[0] + Concat(parts[1..])
  }

  lemma {:induction false} ConcatAppend<T>(parts: seq<seq<T>>, more: seq<seq<T>>)
    ensures Concat(parts + more) == Concat(parts) + Concat(more)
  {
    if parts == [] {
      assert parts + more == more;
    } else {
      assert (parts + more)[1..] == parts[1..] + more;
      ConcatAppend(parts[1..], more);
    }
  }

  lemma ConcatSnoc<T>(parts: seq<seq<T>>, last: seq<T>)
    ensures Concat(parts + [last]) == Concat(parts) + last
  {
    ConcatAppend(parts, [last]);
    assert Concat([last]) == last;
  }

  lemma ConcatOne<T>(part: seq<T>)
    ensures Concat([part]) == part
  {
    assert [part][1..] == [];
  }

  /** The concatenated images of the elements of `s`. */
  function FlatMap<S, T>(f: S -> seq<T>, s: seq<S>): seq<T> {
    if s == [] then [] else FlatMap(f, s[..|s| - 1]) + f(s[|s| - 1])
  }

  lemma FlatMapLast<S, T>(f: S -> seq<T>, s: seq<S>, x: S)
    ensures FlatMap(f, s + [x]) == FlatMap(f, s) + f(x)
  {
    assert (s + [x])[..|s|] == s;
  }

  lemma {:induction false} FlatMapAppend<S, T>(f: S -> seq<T>, a: seq<S>, b: seq<S>)
    ensures FlatMap(f, a + b) == FlatMap(f, a) + FlatMap(f, b)
    decreases |b|
  {
    if b == [] {
      assert a + b == a;
    } else {
      hide FlatMap;
      var init, last := b[..|b| - 1], b[|b| - 1];
      assert b == init + [last];
      FlatMapLast(f, init, last);
      FlatMapAppend(f, a, init);
      FlatMapLast(f, a + init, last);
      assert a + b == a + init + [last];
    }
  }

  lemma {:induction false} FlatMapFixed<T>(f: T -> seq<T>, s: seq<T>)
    requires forall i :: 0 <= i < |s| ==> f(s[i]) == [s[i]]
    ensures FlatMap(f, s) == s
  {
    if s != [] {
      FlatMapFixed(f, s[..|s| - 1]);
    }
  }
}
