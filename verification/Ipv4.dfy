/** IPv4 addresses as numbers, CIDR blocks (section 3.1 of RFC 4632) and the
    allocator that hands out a subnet's private addresses. */
module Ipv4 {
  import opened Common

  const SPACE: nat := 0x1_0000_0000

  function Pow2(n: nat): (r: nat)
    ensures r > 0
  {
    if n == 0 then 1 else 2 * Pow2(n - 1)
  }

  datatype Cidr = Cidr(addr: nat, len: nat)

  /** Any address with a length from 0 to 32; host bits are ignored, as `strict=False` asks. */
  type Prefix = c: Cidr | c.addr < SPACE && c.len <= 32 witness Cidr(0, 0)

  function Size(p: Prefix): nat {
    Pow2(32 - p.len)
  }

  /** The address with its host bits cleared. */
  function Base(p: Prefix): (b: nat)
    ensures b <= p.addr < b + Size(p)
  {
    AlignDown(p.addr, Size(p))
  }

  /** The largest multiple of `s` up to `a`. */
  function AlignDown(a: nat, s: nat): (b: nat)
    requires s > 0
    ensures b <= a < b + s
  {
    if a < s then 0 else AlignDown(a - s, s) + s
  }

  lemma {:induction false} AlignedForm(a: nat, s: nat) returns (k: nat)
    requires s > 0
    ensures AlignDown(a, s) == s * k
  {
    if a < s {
      k := 0;
    } else {
      k := AlignedForm(a - s, s);
      k := k + 1;
    }
  }

  function Broadcast(p: Prefix): nat {
    Base(p) + Size(p) - 1
  }

  predicate Holds(p: Prefix, ip: nat) {
    Base(p) <= ip <= Broadcast(p)
  }

  /** The library's test: an end of one block lies in the other. */
  predicate Overlaps(a: Prefix, b: Prefix) {
    Holds(b, Base(a)) || Holds(b, Broadcast(a)) || Holds(a, Base(b)) || Holds(a, Broadcast(b))
  }

  predicate SubnetOf(a: Prefix, b: Prefix) {
    Base(b) <= Base(a) && Broadcast(a) <= Broadcast(b)
  }

  // ---------- blocks are nested or disjoint ----------

  lemma Pow2Splits(m: nat, n: nat)
    requires m <= n
    ensures Pow2(n) == Pow2(m) * Pow2(n - m)
  {
    if m < n {
      Pow2Splits(m, n - 1);
      assert Pow2(m) * (2 * Pow2(n - 1 - m)) == 2 * (Pow2(m) * Pow2(n - 1 - m));
    }
  }

  /** Two intervals aligned to `s`, one of length `s` and one of length `s * k`, that meet are nested. */
  lemma {:induction false} AlignedMeet(i: nat, m: nat, s: nat, k: nat)
    requires s > 0 && k > 0
    requires s * m < s * i + s && s * i < s * m + s * k
    ensures s * m <= s * i && s * i + s <= s * m + s * k
  {
    assert s * i + s == s * (i + 1);
    assert s * m + s * k == s * (m + k);
    MulOrder(s, m, i + 1);
    MulOrder(s, i, m + k);
    MulMonotone(s, m, i);
    MulMonotone(s, i + 1, m + k);
  }

  lemma MulOrder(s: nat, a: nat, b: nat)
    requires s > 0 && s * a < s * b
    ensures a < b
  {
    if a >= b {
      MulMonotone(s, b, a);
    }
  }

  lemma MulMonotone(s: nat, a: nat, b: nat)
    requires a <= b
    ensures s * a <= s * b
  {
    assert s * b == s * a + s * (b - a);
  }

  lemma SmallerMeetsLarger(a: Prefix, b: Prefix)
    requires a.len >= b.len
    requires Base(a) <= Broadcast(b) && Base(b) <= Broadcast(a)
    ensures SubnetOf(a, b)
  {
    SizeMultiple(a, b);
    var i := AlignedForm(a.addr, Size(a));
    var j := AlignedForm(b.addr, Size(b));
    MeetNested(Base(a), Base(b), i, j, Size(a), Size(b));
  }

  lemma {:induction false} MeetNested(x: nat, y: nat, i: nat, j: nat, s: nat, t: nat)
    requires s > 0 && x == s * i && y == t * j && exists k :: Times(t, s, k)
    requires x <= y + t - 1 && y <= x + s - 1
    ensures y <= x && x + s - 1 <= y + t - 1
  {
    BlocksMeet(i, j, s, t);
  }

  predicate Times(t: nat, s: nat, k: nat) {
    k > 0 && t == s * k
  }

  lemma SizeMultiple(a: Prefix, b: Prefix)
    requires a.len >= b.len
    ensures exists k :: Times(Size(b), Size(a), k)
  {
    Pow2Splits(32 - a.len, 32 - b.len);
    assert Times(Size(b), Size(a), Pow2(a.len - b.len));
  }

  lemma {:induction false} BlocksMeet(i: nat, j: nat, s: nat, t: nat)
    requires s > 0 && exists k :: Times(t, s, k)
    requires t * j < s * i + s && s * i < t * j + t
    ensures t * j <= s * i && s * i + s <= t * j + t
  {
    var k :| Times(t, s, k);
    var m := Product(k, j);
    Associate(s, k, j, m);
    AlignedMeet(i, m, s, k);
  }

  function Product(a: nat, b: nat): nat {
    a * b
  }

  lemma Associate(s: nat, k: nat, j: nat, m: nat)
    requires m == k * j
    ensures (s * k) * j == s * m
  {
  }

  /** The library's overlap test holds exactly when the blocks share an address, and
      then one block contains the other. */
  lemma NestedOrDisjoint(a: Prefix, b: Prefix)
    ensures Overlaps(a, b) <==> exists ip :: Holds(a, ip) && Holds(b, ip)
    ensures Overlaps(a, b) <==> SubnetOf(a, b) || SubnetOf(b, a)
  {
    if ip :| Holds(a, ip) && Holds(b, ip) {
      if a.len >= b.len {
        SmallerMeetsLarger(a, b);
      } else {
        SmallerMeetsLarger(b, a);
      }
    }
    if Overlaps(a, b) {
      assert Holds(a, Base(a)) && Holds(b, Base(b)) && Holds(a, Broadcast(a)) && Holds(b, Broadcast(b));
    }
  }

  // ---------- what a block holds ----------

  lemma {:induction false} AlignDownUnique(a: nat, s: nat, q: nat)
    requires s > 0 && s * q <= a < s * q + s
    ensures AlignDown(a, s) == s * q
  {
    var k := AlignedForm(a, s);
    assert s * (k + 1) == s * k + s && s * (q + 1) == s * q + s;
    MulOrder(s, k, q + 1);
    MulOrder(s, q, k + 1);
  }

  /** A block holds the addresses with the same network part, whatever host bits it is written with. */
  lemma BlockExactly(p: Prefix, net: nat, size: nat)
    requires size == Size(p) && size * net <= p.addr < size * net + size
    ensures forall ip: nat :: Holds(p, ip) <==> size * net <= ip < size * net + size
  {
    AlignDownUnique(p.addr, size, net);
  }

  /** Two to the 32nd addresses in the shortest prefix, one in the longest, and half as many for each bit more. */
  lemma BlockSizes(p: Prefix)
    ensures p.len == 0 ==> Size(p) == SPACE
    ensures p.len == 32 ==> Size(p) == 1
    ensures p.len < 32 ==> Size(p) == 2 * Size(Cidr(p.addr, p.len + 1))
  {
    Powers();
  }

  lemma Powers()
    ensures Pow2(8) == 0x100 && Pow2(16) == 0x1_0000 && Pow2(32) == 0x1_0000_0000
  {
    assert Pow2(4) == 16;
    Pow2Splits(4, 8);
    Pow2Splits(8, 16);
    Pow2Splits(16, 32);
  }

  // ---------- the allocator ----------

  function FirstFree(lo: nat, hi: nat, used: set<nat>): Option<nat>
    decreases hi - lo
  {
    if lo >= hi then None
    else if lo !in used then Some(lo)
    else FirstFree(lo + 1, hi, used)
  }

  /** The least free host from the fifth address up to the broadcast address. */
  function Allocate(p: Prefix, used: set<nat>): Option<nat> {
    FirstFree(Base(p) + 4, Broadcast(p), used)
  }

  lemma {:induction false} FirstFreeIsLeast(lo: nat, hi: nat, used: set<nat>)
    ensures match FirstFree(lo, hi, used)
            case Some(ip) => lo <= ip < hi && ip !in used && forall k :: lo <= k < ip ==> k in used
            case None => forall k :: lo <= k < hi ==> k in used
    decreases hi - lo
  {
    if lo < hi && lo in used {
      FirstFreeIsLeast(lo + 1, hi, used);
    }
  }

  /** An allocated address is usable, free and the least such; none is refused while one is free. */
  lemma AllocateIsLeast(p: Prefix, used: set<nat>)
    ensures match Allocate(p, used)
            case Some(ip) => Holds(p, ip) && Base(p) + 4 <= ip < Broadcast(p) && ip !in used
                             && forall k :: Base(p) + 4 <= k < ip ==> k in used
            case None => forall k :: Base(p) + 4 <= k < Broadcast(p) ==> k in used
  {
    FirstFreeIsLeast(Base(p) + 4, Broadcast(p), used);
  }

  /** What the library's `hosts()` enumerates: all but the two ends, except in the two shortest blocks. */
  function HostCount(p: Prefix): nat {
    if p.len == 32 then 1 else if p.len == 31 then 2 else Size31(p); Size(p) - 2
  }

  lemma Size31(p: Prefix)
    requires p.len <= 30
    ensures Size(p) >= 4
  {
    Pow2Splits(2, 32 - p.len);
    assert Pow2(2) == 4;
    var k := Pow2(30 - p.len);
    assert 4 * k >= 4;
  }

  function FirstHost(p: Prefix): nat {
    if p.len >= 31 then Base(p) else Base(p) + 1
  }

  /** The loop of `_alloc_private_ip`: skips three hosts and takes the first one not in use. */
  method AllocPrivateIp(p: Prefix, used: set<nat>) returns (r: Option<nat>)
    ensures r == Allocate(p, used)
  {
    var n := 0;
    assert p.len >= 31 ==> Size(p) <= 2 by {
      assert Pow2(0) == 1 && Pow2(1) == 2;
    }
    while n < HostCount(p)
      invariant 0 <= n <= HostCount(p)
      invariant n <= 3 || FirstFree(Base(p) + 4, Broadcast(p), used) == FirstFree(FirstHost(p) + n, Broadcast(p), used)
    {
      var host := FirstHost(p) + n;
      n := n + 1;
      if n - 1 < 3 {
        continue;
      }
      if host == Broadcast(p) {
        break;
      }
      if host !in used {
        return Some(host);
      }
    }
    return None;
  }
}
