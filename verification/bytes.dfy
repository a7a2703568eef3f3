/** Bytes, big-endian integers and the XOR keystreams that the framings share. */
module Bytes {
  type byte = b: int | 0 <= b < 256 witness 0

  /** A fallible outcome, for the source's (value, error) returns. */
  datatype Result<+T, +E> = Ok(value: T) | Err(error: E)

  datatype Option<+T> = None | Some(value: T)

  function Min(a: nat, b: nat): nat {
    if a < b then a else b
  }

  /** Go's conversion byte(n): the low eight bits. */
  function Low(n: nat): byte {
    n % 256
  }

  function Pow256(k: nat): (p: nat)
    ensures p > 0
  {
    if k == 0 then 1 else 256 * Pow256(k - 1)
  }

  /** The k big-endian bytes binary.BigEndian.PutUintX stores for n; higher bits are lost. */
  function Be(n: nat, k: nat): (s: seq<byte>)
    ensures |s| == k
  {
    if k == 0 then [] else Be(n / 256, k - 1) + [Low(n)]
  }

  /** The integer binary.BigEndian.UintX reads. */
  function FromBe(s: seq<byte>): (n: nat)
  {
    if s == [] then 0 else FromBe(s[..|s| - 1]) * 256 + s[|s| - 1]
  }

  lemma DivSplit(n: nat, p: nat)
    requires p > 0
    ensures n % (256 * p) == (n / 256 % p) * 256 + n % 256
  {
    var q, r := n / 256, n % 256;
    var a, b := q / p, q % p;
    assert n == 256 * (p * a + b) + r;
    assert n == (256 * p) * a + (256 * b + r);
    assert 256 * b + r < 256 * p;
    ModUnique(n, 256 * p, a, 256 * b + r);
  }

  lemma ModUnique(n: nat, m: nat, a: nat, r: nat)
    requires n == m * a + r && r < m
    ensures n % m == r
  {
    var d, s := n / m - a, n % m;
    assert n == m * (n / m) + s;
    assert m * (n / m) == m * a + m * d;
    assert m * d == r - s;
    if d >= 1 {
      MulAtLeast(m, d);
    } else if d <= -1 {
      MulAtLeast(m, -d);
    }
  }

  lemma MulAtLeast(m: nat, d: int)
    requires d >= 1
    ensures m * d >= m
  {}

  /** Storing and loading keeps exactly the low 8k bits. */
  lemma {:induction false} BeRoundTrip(n: nat, k: nat)
    ensures FromBe(Be(n, k)) == n % Pow256(k)
  {
    if k > 0 {
      BeRoundTrip(n / 256, k - 1);
      DivSplit(n, Pow256(k - 1));
    }
  }

  lemma DivTwice(n: nat, a: nat, b: nat)
    requires a > 0 && b > 0
    ensures a * b > 0 && n / (a * b) == n / a / b
  {
    var q, r := n / a, n % a;
    var q', r' := q / b, q % b;
    assert n == a * (b * q' + r') + r;
    assert a * (b * q' + r') == (a * b) * q' + a * r';
    MulBelow(a, r', b);
    assert 0 <= a * r' + r < a * b;
    QuotientUnique(n, a * b, q', a * r' + r);
  }

  lemma MulBelow(a: nat, x: nat, b: nat)
    requires x < b
    ensures 0 <= a * x && a * x + a <= a * b
  {
    assert a * b == a * x + a * (b - x);
    assert a * (b - x) == a + a * (b - x - 1);
  }

  lemma QuotientUnique(n: nat, m: nat, q: nat, r: nat)
    requires n == m * q + r && r < m
    ensures n / m == q
  {
    ModUnique(n, m, q, r);
    assert m * (n / m) == m * q;
  }

  /** Most significant byte first. */
  lemma {:induction false} BeAt(n: nat, k: nat, i: nat)
    requires i < k
    ensures Be(n, k)[i] == n / Pow256(k - 1 - i) % 256
  {
    if i < k - 1 {
      BeAt(n / 256, k - 1, i);
      DivTwice(n, 256, Pow256(k - 2 - i));
    }
  }

  /** Storing what was loaded gives the same bytes back. */
  lemma {:induction false} FromBeStored(s: seq<byte>)
    ensures Be(FromBe(s), |s|) == s
  {
    if s != [] {
      var front, last := s[..|s| - 1], s[|s| - 1];
      FromBeStored(front);
      QuotientUnique(FromBe(s), 256, FromBe(front), last);
      ModUnique(FromBe(s), 256, FromBe(front), last);
      assert s == front + [last];
    }
  }

  lemma {:induction false} FromBeBound(s: seq<byte>)
    ensures FromBe(s) < Pow256(|s|)
  {
    if s != [] {
      FromBeBound(s[..|s| - 1]);
    }
  }

  function XorBits(a: nat, b: nat): nat
    decreases a + b
  {
    if a == 0 && b == 0 then 0 else (a % 2 + b % 2) % 2 + 2 * XorBits(a / 2, b / 2)
  }

  lemma {:induction false} XorBound(a: nat, b: nat, bound: nat, k: nat)
    requires bound == Pow2(k) && a < bound && b < bound
    ensures XorBits(a, b) < bound
    decreases k
  {
    if k > 0 {
      XorBound(a / 2, b / 2, Pow2(k - 1), k - 1);
    }
  }

  function Pow2(k: nat): (p: nat)
    ensures p > 0
  {
    if k == 0 then 1 else 2 * Pow2(k - 1)
  }

  /** Upper and lower parts are combined on their own. */
  lemma {:induction false} XorSplit(a: nat, b: nat, c: nat, d: nat, k: nat)
    requires b < Pow2(k) && d < Pow2(k)
    ensures XorBits(Pow2(k) * a + b, Pow2(k) * c + d) == Pow2(k) * XorBits(a, c) + XorBits(b, d)
    decreases k
  {
    hide XorBits;
    if k == 0 {
      XorStep(0, 0);
    } else {
      var p, q := Pow2(k), Pow2(k - 1);
      HalfOf(q, a, b);
      HalfOf(q, c, d);
      XorSplit(a, b / 2, c, d / 2, k - 1);
      XorStep(p * a + b, p * c + d);
      XorStep(b, d);
      assert 2 * (q * XorBits(a, c)) == p * XorBits(a, c);
    }
  }

  lemma HalfOf(q: nat, a: nat, b: nat)
    ensures (2 * q) * a + b == 2 * (q * a + b / 2) + b % 2
    ensures ((2 * q) * a + b) / 2 == q * a + b / 2 && ((2 * q) * a + b) % 2 == b % 2
  {
    assert (2 * q) * a == 2 * (q * a);
  }

  /** Each binary digit of the result is the exclusive or of the two digits in its place. */
  lemma {:induction false} XorDigit(a: nat, b: nat, k: nat)
    ensures XorBits(a, b) / Pow2(k) % 2 == (a / Pow2(k) % 2 + b / Pow2(k) % 2) % 2
  {
    hide XorBits, Pow2;
    XorEnds(a, b);
    if k == 0 {
      PlaceOfOnes(XorBits(a, b));
      PlaceOfOnes(a);
      PlaceOfOnes(b);
    } else {
      XorDigit(a / 2, b / 2, k - 1);
      DivPow2(XorBits(a, b), k);
      DivPow2(a, k);
      DivPow2(b, k);
    }
  }

  lemma XorEnds(a: nat, b: nat)
    ensures XorBits(a, b) % 2 == (a % 2 + b % 2) % 2 && XorBits(a, b) / 2 == XorBits(a / 2, b / 2)
  {
    hide XorBits;
    XorStep(a, b);
  }

  lemma PlaceOfOnes(n: nat)
    ensures n / Pow2(0) == n
  {}

  lemma DivPow2(n: nat, k: nat)
    requires k > 0
    ensures n / Pow2(k) == n / 2 / Pow2(k - 1)
  {
    DivTwice(n, 2, Pow2(k - 1));
  }

  lemma ByteBound()
    ensures Pow2(8) == 256
  {
    assert Pow2(4) == 16;
  }

  lemma {:induction false} XorBitsCancel(a: nat, k: nat)
    ensures XorBits(XorBits(a, k), k) == a
    decreases a + k
  {
    if a > 0 || k > 0 {
      var x, h := XorBits(a, k), XorBits(a / 2, k / 2);
      XorBitsCancel(a / 2, k / 2);
      XorHalf(a, k, x, h);
      XorBitsCommute(x, k);
      XorBitsCommute(h, k / 2);
      XorOver(k, x, h, (a % 2 + k % 2) % 2);
      ParityCancel(a, k);
    }
  }

  lemma ParityCancel(a: nat, k: nat)
    ensures (k % 2 + (a % 2 + k % 2) % 2) % 2 == a % 2
  {}

  lemma {:induction false} XorBitsCommute(a: nat, b: nat)
    ensures XorBits(a, b) == XorBits(b, a)
    decreases a + b
  {
    if a + b > 0 {
      XorBitsCommute(a / 2, b / 2);
    }
  }

  lemma {:induction false} XorBitsSwap(a: nat, b: nat, c: nat)
    ensures XorBits(a, XorBits(b, c)) == XorBits(b, XorBits(a, c))
    decreases a + b + c
  {
    if a + b + c > 0 {
      XorBitsSwap(a / 2, b / 2, c / 2);
      XorThree(a, b, c, XorBits(b, c), XorBits(b / 2, c / 2));
      XorThree(b, a, c, XorBits(a, c), XorBits(a / 2, c / 2));
    }
  }

  lemma XorThree(a: nat, b: nat, c: nat, x: nat, h: nat)
    requires x == XorBits(b, c) && h == XorBits(b / 2, c / 2)
    ensures XorBits(a, x) == 2 * XorBits(a / 2, h) + (a + b + c) % 2
  {
    hide XorBits;
    XorHalf(b, c, x, h);
    XorOver(a, x, h, (b % 2 + c % 2) % 2);
    ParityThree(a, b, c);
  }

  lemma XorHalf(b: nat, c: nat, x: nat, h: nat)
    requires x == XorBits(b, c) && h == XorBits(b / 2, c / 2)
    ensures x == 2 * h + (b % 2 + c % 2) % 2
  {}

  lemma XorOver(a: nat, x: nat, h: nat, r: nat)
    requires x == 2 * h + r && r < 2
    ensures XorBits(a, x) == 2 * XorBits(a / 2, h) + (a % 2 + r) % 2
  {
    hide XorBits;
    assert x / 2 == h && x % 2 == r;
    XorStep(a, x);
  }

  lemma ParityThree(a: nat, b: nat, c: nat)
    ensures (a % 2 + (b % 2 + c % 2) % 2) % 2 == (a + b + c) % 2
  {}

  lemma XorStep(a: nat, b: nat)
    ensures XorBits(a, b) == 2 * XorBits(a / 2, b / 2) + (a % 2 + b % 2) % 2
  {}

  /** Go's a ^ b on bytes. */
  function Xor(a: byte, b: byte): byte {
    ByteBound();
    XorBound(a, b, 256, 8);
    XorBits(a, b)
  }

  /** One more binary digit. */
  lemma XorAppend(a: nat, b: nat, i: nat, j: nat)
    requires i < 2 && j < 2
    ensures XorBits(2 * a + i, 2 * b + j) == 2 * XorBits(a, b) + if i == j then 0 else 1
  {
    hide XorBits;
    XorStep(2 * a + i, 2 * b + j);
    assert (2 * a + i) / 2 == a && (2 * b + j) / 2 == b;
  }

  /** Exclusive or of two hexadecimal digits by their bits. */
  lemma XorOfDigits(a: nat, b: nat, c: nat, d: nat, a': nat, b': nat, c': nat, d': nat)
    requires a < 2 && b < 2 && c < 2 && d < 2 && a' < 2 && b' < 2 && c' < 2 && d' < 2
    ensures XorBits(8 * a + 4 * b + 2 * c + d, 8 * a' + 4 * b' + 2 * c' + d')
            == (if a == a' then 0 else 8) + (if b == b' then 0 else 4) + (if c == c' then 0 else 2)
               + (if d == d' then 0 else 1)
  {
    hide XorBits;
    XorStep(0, 0);
    XorAppend(0, 0, a, a');
    XorAppend(a, a', b, b');
    XorAppend(2 * a + b, 2 * a' + b', c, c');
    XorAppend(4 * a + 2 * b + c, 4 * a' + 2 * b' + c', d, d');
  }

  /** Exclusive or of two bytes by their hexadecimal digits. */
  lemma XorOfBytes(a: nat, b: nat, c: nat, d: nat)
    requires a < 16 && b < 16 && c < 16 && d < 16
    ensures XorBits(16 * a + b, 16 * c + d) == 16 * XorBits(a, c) + XorBits(b, d)
  {
    hide XorBits;
    assert Pow2(4) == 16;
    XorSplit(a, b, c, d, 4);
  }

  /** Repeating-key XOR: byte i is combined with key byte i mod |key|. */
  function XorWith(data: seq<byte>, key: seq<byte>): (r: seq<byte>)
    requires |key| > 0
    ensures |r| == |data|
  {
    seq(|data|, i requires 0 <= i < |data| => Xor(data[i], key[i % |key|]))
  }

  lemma XorTwice(data: seq<byte>, key: seq<byte>)
    requires |key| > 0
    ensures XorWith(XorWith(data, key), key) == data
  {
    var once := XorWith(data, key);
    forall i | 0 <= i < |data|
      ensures XorWith(once, key)[i] == data[i]
    {
      XorBitsCancel(data[i], key[i % |key|]);
    }
  }

  lemma XorPrefix(data: seq<byte>, key: seq<byte>, n: nat)
    requires |key| > 0 && n <= |data|
    ensures XorWith(data, key)[..n] == XorWith(data[..n], key)
  {}

  function Zeros(n: nat): (z: seq<byte>)
    ensures |z| == n && forall i :: 0 <= i < n ==> z[i] == 0
  {
    seq(n, _ => 0)
  }

  /** The key starts over behind every whole number of its lengths. */
  lemma XorRepeats(a: seq<byte>, b: seq<byte>, key: seq<byte>)
    requires |key| > 0 && |a| % |key| == 0
    ensures XorWith(a + b, key) == XorWith(a, key) + XorWith(b, key)
  {
    forall i | 0 <= i < |b|
      ensures XorWith(a + b, key)[|a| + i] == XorWith(b, key)[i]
    {
      AddMultiple(i, |a|, |key|);
    }
  }

  lemma AddMultiple(i: nat, a: nat, m: nat)
    requires m > 0 && a % m == 0
    ensures (a + i) % m == i % m
  {
    var q := a / m + i / m;
    assert m * (a / m) + m * (i / m) == m * q;
    ModUnique(a + i, m, q, i % m);
  }

  /** Concatenation of a list of byte strings. */
  function Concat(ss: seq<seq<byte>>): seq<byte> {
    if ss == [] then [] else ss[0] + Concat(ss[1..])
  }

  lemma ConcatNext(s: seq<byte>, ss: seq<seq<byte>>)
    ensures Concat([s] + ss) == s + Concat(ss)
  {
    assert ([s] + ss)[1..] == ss;
  }

  lemma {:induction false} ConcatAppend(ss: seq<seq<byte>>, ts: seq<seq<byte>>)
    ensures Concat(ss + ts) == Concat(ss) + Concat(ts)
    decreases |ss|
  {
    if ss == [] {
      assert ss + ts == ts;
    } else {
      hide Concat;
      var s, tail := ss[0], ss[1..];
      ConcatAppend(tail, ts);
      ConcatNext(s, tail);
      ConcatNext(s, tail + ts);
      SplitFirst(ss, ts);
      Associative(s, Concat(tail), Concat(ts));
    }
  }

  lemma SplitFirst<T>(ss: seq<T>, ts: seq<T>)
    requires ss != []
    ensures ss == [ss[0]] + ss[1..] && ss + ts == [ss[0]] + (ss[1..] + ts)
  {}

  lemma Associative<T>(a: seq<T>, b: seq<T>, c: seq<T>)
    ensures a + b + c == a + (b + c)
  {}

  lemma ConcatOne(s: seq<byte>)
    ensures Concat([s]) == s
  {
    assert Concat([s]) == s + Concat([]);
  }
}
