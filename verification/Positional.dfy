/**
 Positional number systems, least significant digit first (limbs, little-endian bytes)
 and most significant digit first (big-endian bytes, decimal text).
 */
module Positional {
  import opened Machine

  function Pow(b: nat, e: nat): (p: nat)
    ensures 0 < b ==> 0 < p
  {
    if e == 0 then 1 else b * Pow(b, e - 1)
  }

  lemma {:induction false} PowAdd(b: nat, m: nat, n: nat)
    ensures Pow(b, m + n) == Pow(b, m) * Pow(b, n)
  {
    if m == 0 {
      assert Pow(b, n) == 1 * Pow(b, n);
    } else {
      PowAdd(b, m - 1, n);
      MulAssociative(b, Pow(b, m - 1), Pow(b, n));
    }
  }

  /** One more digit position: the bound on the rest gives the bound on the whole. */
  lemma BoundStep(d: int, b: nat, v: int, p: int)
    requires 0 <= d < b && 0 <= v < p
    ensures 0 <= d + b * v < b * p
  {
    MulMonotone(0, v, b);
    MulMonotone(v + 1, p, b);
    MulDistributive(b, v, 1);
    assert b * (v + 1) == (v + 1) * b && b * p == p * b && b * v == v * b;
  }

  lemma {:induction false} PowMonotone(b: nat, m: nat, n: nat)
    requires 0 < b && m <= n
    ensures Pow(b, m) <= Pow(b, n)
  {
    if m == n {
    } else {
      PowMonotone(b, m, n - 1);
      MulMonotone(1, b, Pow(b, n - 1));
    }
  }

  lemma MulMonotone(x: int, y: int, z: nat)
    requires x <= y
    ensures x * z <= y * z
  {
  }

  lemma MulBound(x: int, y: int, b: nat)
    requires 0 <= x <= b && 0 <= y <= b
    ensures 0 <= x * y <= b * b
  {
    MulMonotone(0, x, y);
    MulMonotone(x, b, y);
    MulMonotone(y, b, b);
  }

  lemma DivFacts(n: nat, d: nat)
    requires 0 < d
    ensures n == (n / d) * d + n % d && 0 <= n % d < d && 0 <= n / d
  {
  }

  lemma MulAssociative(x: int, y: int, z: int)
    ensures (x * y) * z == x * (y * z)
  {
  }

  lemma MulDistributive(x: int, y: int, z: int)
    ensures x * (y + z) == x * y + x * z
  {
  }

  /** `Pow(2, d)` by doubling, so that naming it brings no nonlinear term into a proof. */
  function Pow2(d: nat): (n: nat)
    ensures n > 0
  {
    if d == 0 then 1 else 2 * Pow2(d - 1)
  }

  lemma {:induction false} Pow2IsPow(d: nat)
    ensures Pow2(d) == Pow(2, d)
  {
    if d == 0 {
    } else {
      Pow2IsPow(d - 1);
    }
  }

  lemma Pow2Add(m: nat, n: nat, p: nat, q: nat)
    requires Pow2(m) == p && Pow2(n) == q
    ensures Pow2(m + n) == p * q
  {
    PowAdd(2, m, n);
    Pow2IsPow(m);
    Pow2IsPow(n);
    Pow2IsPow(m + n);
  }

  lemma Pow2Of32()
    ensures Pow2(16) == 0x1_0000 && Pow2(32) == 0x1_0000_0000
  {
    assert Pow2(8) == 0x100;
    Pow2Add(8, 8, 0x100, 0x100);
    Pow2Add(16, 16, 0x1_0000, 0x1_0000);
  }

  lemma Pow2Monotone(m: nat, n: nat)
    requires m <= n
    ensures Pow2(m) <= Pow2(n)
  {
    PowMonotone(2, m, n);
    Pow2IsPow(m);
    Pow2IsPow(n);
  }

  ghost predicate AllBelow(s: seq<int>, b: int)
  {
    forall i :: 0 <= i < |s| ==> 0 <= s[i] < b
  }

  // ---------- least significant digit first ----------

  function LeVal(s: seq<int>, b: nat): int
  {
    if s == [] then 0 else s[0] + b * LeVal(s[1..], b)
  }

  lemma {:induction false} LeBound(s: seq<int>, b: nat)
    requires AllBelow(s, b)
    ensures 0 <= LeVal(s, b) < Pow(b, |s|)
  {
    if s == [] {
    } else {
      var t := s[1..];
      LeBound(t, b);
      BoundStep(s[0], b, LeVal(t, b), Pow(b, |t|));
    }
  }

  lemma {:induction false} LeAppend(s: seq<int>, t: seq<int>, b: nat)
    ensures LeVal(s + t, b) == LeVal(s, b) + Pow(b, |s|) * LeVal(t, b)
  {
    if s == [] {
      assert s + t == t;
    } else {
      assert (s + t)[1..] == s[1..] + t;
      LeAppend(s[1..], t, b);
      var p, v := Pow(b, |s| - 1), LeVal(t, b);
      MulDistributive(b, LeVal(s[1..], b), p * v);
      MulAssociative(b, p, v);
    }
  }

  lemma {:induction false} LeZeros(n: nat, b: nat)
    ensures LeVal(seq(n, _ => 0), b) == 0
  {
    if n == 0 {
    } else {
      assert seq(n, _ => 0)[1..] == seq(n - 1, _ => 0);
      LeZeros(n - 1, b);
    }
  }

  lemma LePad(s: seq<int>, n: nat, b: nat)
    ensures LeVal(s + seq(n, _ => 0), b) == LeVal(s, b)
  {
    var z: seq<int> := seq(n, _ => 0);
    LeZeros(n, b);
    LeAppend(s, z, b);
    assert LeVal(z, b) == 0;
  }

  /** Equal length and equal value leave no freedom in the digits. */
  lemma {:induction false} LeInjective(s: seq<int>, t: seq<int>, b: nat)
    requires AllBelow(s, b) && AllBelow(t, b)
    requires |s| == |t| && LeVal(s, b) == LeVal(t, b)
    ensures s == t
  {
    if s == [] {
    } else {
      SameDigitSameRest(s[0], LeVal(s[1..], b), t[0], LeVal(t[1..], b), b);
      LeInjective(s[1..], t[1..], b);
    }
  }

  lemma SameDigitSameRest(c: int, x: int, d: int, y: int, b: nat)
    requires 0 <= c < b && 0 <= d < b && c + b * x == d + b * y
    ensures c == d && x == y
  {
    MulDistributive(b, x, -y);
    if x > y {
      MulMonotone(1, x - y, b);
    } else if x < y {
      MulMonotone(1, y - x, b);
    }
  }

  // ---------- most significant digit first ----------

  function BeVal(s: seq<int>, b: nat): int
  {
    if s == [] then 0 else b * BeVal(s[..|s| - 1], b) + s[|s| - 1]
  }

  lemma {:induction false} BeBound(s: seq<int>, b: nat)
    requires AllBelow(s, b)
    ensures 0 <= BeVal(s, b) < Pow(b, |s|)
  {
    if s == [] {
    } else {
      var t := s[..|s| - 1];
      BeBound(t, b);
      BoundStep(s[|s| - 1], b, BeVal(t, b), Pow(b, |t|));
    }
  }

  lemma {:induction false} BeAppend(s: seq<int>, t: seq<int>, b: nat)
    ensures BeVal(s + t, b) == BeVal(s, b) * Pow(b, |t|) + BeVal(t, b)
  {
    if t == [] {
      assert s + t == s;
    } else {
      var u := t[..|t| - 1];
      assert (s + t)[..|s + t| - 1] == s + u;
      BeAppend(s, u, b);
      MulDistributive(b, BeVal(s, b) * Pow(b, |u|), BeVal(u, b));
      assert b * (BeVal(s, b) * Pow(b, |u|)) == BeVal(s, b) * (b * Pow(b, |u|)) by {
        MulAssociative(b, BeVal(s, b), Pow(b, |u|));
        MulAssociative(BeVal(s, b), b, Pow(b, |u|));
      }
    }
  }

  lemma {:induction false} BeZeros(n: nat, b: nat)
    ensures BeVal(seq(n, _ => 0), b) == 0
  {
    if n == 0 {
    } else {
      assert seq(n, _ => 0)[..n - 1] == seq(n - 1, _ => 0);
      BeZeros(n - 1, b);
    }
  }

  lemma BePad(n: nat, s: seq<int>, b: nat)
    ensures BeVal(seq(n, _ => 0) + s, b) == BeVal(s, b)
  {
    var z: seq<int> := seq(n, _ => 0);
    BeZeros(n, b);
    BeAppend(z, s, b);
    assert BeVal(z, b) == 0;
  }

  lemma {:induction false} BeInjective(s: seq<int>, t: seq<int>, b: nat)
    requires AllBelow(s, b) && AllBelow(t, b)
    requires |s| == |t| && BeVal(s, b) == BeVal(t, b)
    ensures s == t
  {
    if s == [] {
    } else {
      var n := |s| - 1;
      SameDigitSameRest(s[n], BeVal(s[..n], b), t[n], BeVal(t[..n], b), b);
      BeInjective(s[..n], t[..n], b);
      assert s == s[..n] + [s[n]] && t == t[..n] + [t[n]];
    }
  }

  /** The order Rust derives for byte arrays of one length. */
  predicate LexLess(s: seq<int>, t: seq<int>)
    requires |s| == |t|
  {
    s != [] && (s[0] < t[0] || (s[0] == t[0] && LexLess(s[1..], t[1..])))
  }

  lemma LeadingDigitDecides(c: int, x: int, d: int, y: int, p: nat)
    requires 0 <= x < p && 0 <= y < p && c != d
    ensures c < d <==> c * p + x < d * p + y
  {
    if c < d {
      MulMonotone(c + 1, d, p);
    } else {
      MulMonotone(d + 1, c, p);
    }
  }

  lemma BeCons(s: seq<int>, b: nat)
    requires s != []
    ensures BeVal(s, b) == s[0] * Pow(b, |s| - 1) + BeVal(s[1..], b)
  {
    assert s == [s[0]] + s[1..];
    BeAppend([s[0]], s[1..], b);
    assert BeVal([s[0]], b) == s[0];
  }

  /** On equally long digit strings, lexicographic order is numeric order. */
  lemma {:induction false} LexIsNumeric(s: seq<int>, t: seq<int>, b: nat)
    requires |s| == |t| && AllBelow(s, b) && AllBelow(t, b)
    ensures LexLess(s, t) <==> BeVal(s, b) < BeVal(t, b)
  {
    if s == [] {
    } else {
      var u, v, p := s[1..], t[1..], Pow(b, |s| - 1);
      BeCons(s, b);
      BeCons(t, b);
      BeBound(u, b);
      BeBound(v, b);
      if s[0] == t[0] {
        LexIsNumeric(u, v, b);
      } else {
        LeadingDigitDecides(s[0], BeVal(u, b), t[0], BeVal(v, b), p);
      }
    }
  }

  // ---------- bytes ----------

  function LeBytes(v: nat, len: nat): (s: seq<byte>)
    ensures |s| == len
  {
    if len == 0 then [] else [v % 256] + LeBytes(v / 256, len - 1)
  }

  function BeBytes(v: nat, len: nat): (s: seq<byte>)
    ensures |s| == len
  {
    if len == 0 then [] else BeBytes(v / 256, len - 1) + [v % 256]
  }

  lemma {:induction false} LeBytesValue(v: nat, len: nat)
    requires v < Pow(256, len)
    ensures LeVal(LeBytes(v, len), 256) == v
  {
    if len == 0 {
    } else {
      LeBytesValue(v / 256, len - 1);
      assert LeBytes(v, len)[1..] == LeBytes(v / 256, len - 1);
    }
  }

  lemma LeValueBytes(s: seq<int>)
    requires AllBelow(s, 256)
    ensures 0 <= LeVal(s, 256) && LeBytes(LeVal(s, 256), |s|) == s
  {
    LeBound(s, 256);
    LeBytesValue(LeVal(s, 256), |s|);
    LeInjective(LeBytes(LeVal(s, 256), |s|), s, 256);
  }

  lemma {:induction false} BeBytesValue(v: nat, len: nat)
    requires v < Pow(256, len)
    ensures BeVal(BeBytes(v, len), 256) == v
  {
    if len == 0 {
    } else {
      BeBytesValue(v / 256, len - 1);
      assert BeBytes(v, len)[..len - 1] == BeBytes(v / 256, len - 1);
    }
  }

  lemma BeValueBytes(s: seq<int>)
    requires AllBelow(s, 256)
    ensures 0 <= BeVal(s, 256) && BeBytes(BeVal(s, 256), |s|) == s
  {
    BeBound(s, 256);
    BeBytesValue(BeVal(s, 256), |s|);
    BeInjective(BeBytes(BeVal(s, 256), |s|), s, 256);
  }

  /** The powers the fixed encodings need, as numbers. */
  lemma PowersOf256()
    ensures Pow(256, 8) == 0x1_0000_0000_0000_0000
    ensures Pow(256, 11) == 0x1_0000_0000_0000_0000_0000_00
    ensures Pow(256, 16) == 0x1_0000_0000_0000_0000_0000_0000_0000_0000
    ensures Pow(256, 32) == 0x1_0000_0000_0000_0000_0000_0000_0000_0000_0000_0000_0000_0000_0000_0000_0000_0000
  {
    assert Pow(256, 3) == 0x100_0000;
    PowAdd(256, 3, 5);
    PowAdd(256, 8, 3);
    PowAdd(256, 8, 8);
    PowAdd(256, 16, 16);
  }
}
