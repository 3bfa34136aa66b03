/** BIT STRING comparison (skeletons/BIT_STRING.c). */
module BitStrings {
  // ----- Bits of an octet string, continued with zeros -----

  /** Bit k of an octet, counted from the most significant one. */
  predicate Bit(x: bv8, k: nat)
    requires k < 8
  {
    match k
    case 0 => x & 0x80 != 0
    case 1 => x & 0x40 != 0
    case 2 => x & 0x20 != 0
    case 3 => x & 0x10 != 0
    case 4 => x & 0x08 != 0
    case 5 => x & 0x04 != 0
    case 6 => x & 0x02 != 0
    case _ => x & 0x01 != 0
  }

  /** Bit k of the octets, which are continued with zeros. */
  predicate One(s: seq<bv8>, k: nat) {
    k / 8 < |s| && Bit(s[k / 8], k % 8)
  }

  /** The last one bit is the n-th bit. */
  ghost predicate EndsAt(s: seq<bv8>, n: nat) {
    (forall k: nat :: n <= k ==> !One(s, k)) && (n > 0 ==> One(s, n - 1))
  }

  ghost predicate Agree(s: seq<bv8>, t: seq<bv8>, n: nat) {
    forall k: nat :: k < n ==> One(s, k) == One(t, k)
  }

  /** Lexicographic order: at the first difference s has the zero. */
  ghost predicate Less(s: seq<bv8>, t: seq<bv8>) {
    exists k: nat :: Agree(s, t, k) && !One(s, k) && One(t, k)
  }

  ghost predicate Same(s: seq<bv8>, t: seq<bv8>) {
    forall k: nat :: One(s, k) == One(t, k)
  }

  /** order is the sign of the lexicographic comparison. */
  ghost predicate Orders(order: int, s: seq<bv8>, t: seq<bv8>) {
    && (order < 0 <==> Less(s, t))
    && (order > 0 <==> Less(t, s))
    && (order == 0 <==> Same(s, t))
  }

  lemma LessExcludes(s: seq<bv8>, t: seq<bv8>)
    requires Less(s, t)
    ensures !Less(t, s) && !Same(s, t)
  {
    var k: nat :| Agree(s, t, k) && !One(s, k) && One(t, k);
    forall j: nat | Agree(t, s, j) ensures One(t, j) || !One(s, j) {
      assert j <= k;
    }
  }

  lemma LessTransitive(s: seq<bv8>, t: seq<bv8>, u: seq<bv8>)
    requires Less(s, t) && Less(t, u)
    ensures Less(s, u)
  {
    var k: nat :| Agree(s, t, k) && !One(s, k) && One(t, k);
    var j: nat :| Agree(t, u, j) && !One(t, j) && One(u, j);
    var i := if k < j then k else j;
    assert Agree(s, u, i) && !One(s, i) && One(u, i);
  }

  lemma {:induction false} FirstDifference(s: seq<bv8>, t: seq<bv8>, k: nat)
    requires One(s, k) != One(t, k)
    ensures exists j: nat :: Agree(s, t, j) && One(s, j) != One(t, j)
  {
    if !Agree(s, t, k) {
      var i: nat :| i < k && One(s, i) != One(t, i);
      FirstDifference(s, t, i);
    }
  }

  // ----- Octets and their bits -----

  /** At bit k, the first one that differs, the greater octet has the one. */
  ghost predicate DecidedBy(x: bv8, y: bv8, k: nat) {
    && k < 8
    && (forall j: nat :: j < k ==> Bit(x, j) == Bit(y, j))
    && Bit(x, k) == (x > y)
    && Bit(y, k) == (x < y)
  }

  lemma LeadingDifference(x: bv8, y: bv8) returns (k: nat)
    requires x != y
    ensures DecidedBy(x, y, k)
  {
    if x & 0x80 != y & 0x80 {
      k := 0;
    } else if x & 0x40 != y & 0x40 {
      k := 1;
    } else if x & 0x20 != y & 0x20 {
      k := 2;
    } else if x & 0x10 != y & 0x10 {
      k := 3;
    } else if x & 0x08 != y & 0x08 {
      k := 4;
    } else if x & 0x04 != y & 0x04 {
      k := 5;
    } else if x & 0x02 != y & 0x02 {
      k := 6;
    } else {
      k := 7;
    }
    OrderByMask(x, y);
  }

  lemma OrderByMask(x: bv8, y: bv8)
    ensures if x & 0x80 != y & 0x80 then (x & 0x80 != 0) == (x > y) && (y & 0x80 != 0) == (x < y)
            else if x & 0x40 != y & 0x40 then (x & 0x40 != 0) == (x > y) && (y & 0x40 != 0) == (x < y)
            else if x & 0x20 != y & 0x20 then (x & 0x20 != 0) == (x > y) && (y & 0x20 != 0) == (x < y)
            else if x & 0x10 != y & 0x10 then (x & 0x10 != 0) == (x > y) && (y & 0x10 != 0) == (x < y)
            else if x & 0x08 != y & 0x08 then (x & 0x08 != 0) == (x > y) && (y & 0x08 != 0) == (x < y)
            else if x & 0x04 != y & 0x04 then (x & 0x04 != 0) == (x > y) && (y & 0x04 != 0) == (x < y)
            else if x & 0x02 != y & 0x02 then (x & 0x02 != 0) == (x > y) && (y & 0x02 != 0) == (x < y)
            else if x & 0x01 != y & 0x01 then (x & 0x01 != 0) == (x > y) && (y & 0x01 != 0) == (x < y)
            else true
  {
  }

  /** Number of zero bits after the last one bit, as the three masks find it from that bit alone. */
  function TrailingZeros(x: bv8): nat {
    var v := x & (0 - x);
    7 - (if v & 0x0F != 0 then 4 else 0) - (if v & 0x33 != 0 then 2 else 0) - (if v & 0x55 != 0 then 1 else 0)
  }

  lemma TrailingZerosCount(x: bv8)
    requires x != 0
    ensures TrailingZeros(x) <= 7 && Bit(x, 7 - TrailingZeros(x))
    ensures forall k: nat :: 7 - TrailingZeros(x) < k < 8 ==> !Bit(x, k)
  {
    var t := TrailingZeros(x);
    if x & 0x01 != 0 {
      assert t == 0;
    } else if x & 0x02 != 0 {
      assert t == 1;
    } else if x & 0x04 != 0 {
      assert t == 2;
    } else if x & 0x08 != 0 {
      assert t == 3;
    } else if x & 0x10 != 0 {
      assert t == 4;
    } else if x & 0x20 != 0 {
      assert t == 5;
    } else if x & 0x40 != 0 {
      assert t == 6;
    } else {
      assert t == 7;
    }
  }

  // ----- The operations -----

  /** An octet buffer, how many of its octets count, and how many bits of the last one do not. */
  class BitString {
    var buf: array<bv8>
    var size: nat
    var unused: nat

    constructor (buf: array<bv8>, size: nat, unused: nat)
      ensures this.buf == buf && this.size == size && this.unused == unused
    {
      this.buf, this.size, this.unused := buf, size, unused;
    }

    predicate Valid()
      reads this
    {
      size <= buf.Length && unused <= 7 && (size == 0 ==> unused == 0)
    }

    function Octets(): seq<bv8>
      reads this, buf
      requires Valid()
    {
      buf[..size]
    }

    function Length(): nat
      reads this
      requires Valid()
    {
      8 * size - unused
    }
  }

  /** The octets up to the last one that is not zero, and the zero bits that one ends with. */
  predicate Trimmed(s: seq<bv8>, size: nat, unused: nat) {
    && size <= |s|
    && (forall i :: size <= i < |s| ==> s[i] == 0)
    && (if size == 0 then unused == 0 else s[size - 1] != 0 && unused == TrailingZeros(s[size - 1]))
  }

  /** A bit string for the octets that are left without trailing zeros; it shares the buffer. */
  method Compactify(st: BitString, tmp: BitString) returns (r: BitString)
    requires st.Valid() && st != tmp
    modifies tmp
    ensures r == if st.size == 0 then st else tmp
    ensures r.buf == st.buf && Trimmed(st.Octets(), r.size, r.unused)
  {
    if st.size == 0 {
      return st;
    }
    var b := st.size - 1;
    while b > 0 && st.buf[b] == 0
      invariant 0 <= b < st.size
      invariant forall i :: b < i < st.size ==> st.buf[i] == 0
    {
      b := b - 1;
    }
    var x := st.buf[b];
    if x != 0 {
      tmp.size, tmp.unused := b + 1, TrailingZeros(x);
    } else {
      tmp.size, tmp.unused := b, 0;
    }
    tmp.buf := st.buf;
    r := tmp;
  }

  /** What is left has the same bits and ends with the last one bit. */
  lemma TrimmedEnds(s: seq<bv8>, size: nat, unused: nat)
    requires Trimmed(s, size, unused)
    ensures unused <= 7 && (size == 0 ==> unused == 0)
    ensures EndsAt(s, 8 * size - unused) && EndsAt(s[..size], 8 * size - unused)
  {
    if size > 0 {
      TrailingZerosCount(s[size - 1]);
      LastOctet(s, size - 1, 7 - unused);
      LastOctet(s[..size], size - 1, 7 - unused);
    }
  }

  lemma LastOctet(s: seq<bv8>, b: nat, k: nat)
    requires b < |s| && k < 8 && Bit(s[b], k) && forall j :: k < j < 8 ==> !Bit(s[b], j)
    requires forall i :: b < i < |s| ==> s[i] == 0
    ensures EndsAt(s, 8 * b + k + 1)
  {
    assert (8 * b + k) / 8 == b && (8 * b + k) % 8 == k;
    forall n: nat | 8 * b + k + 1 <= n ensures !One(s, n) {
      if n / 8 == b {
        assert n % 8 > k;
      }
    }
  }

  /** Order of the first octets that differ, over a length both have. */
  function MemoryOrder(s: seq<bv8>, t: seq<bv8>, i: nat, n: nat): (r: int)
    requires i <= n <= |s| && n <= |t|
    ensures r == 0 <==> s[i..n] == t[i..n]
    decreases n - i
  {
    if i == n then 0
    else if s[i] != t[i] then s[i] as int - t[i] as int
    else
      assert s[i..n] == [s[i]] + s[i + 1..n] && t[i..n] == [t[i]] + t[i + 1..n];
      MemoryOrder(s, t, i + 1, n)
  }

  /** Order by the common octets, then by the number of octets, then by the unused bits. */
  function Branches(s: seq<bv8>, unusedS: nat, t: seq<bv8>, unusedT: nat): int {
    var prefix := if |s| <= |t| then |s| else |t|;
    var ret := MemoryOrder(s, t, 0, prefix);
    if ret != 0 then ret
    else if |s| < |t| then -1
    else if |s| > |t| then 1
    else if unusedS > unusedT then -1
    else if unusedS < unusedT then 1
    else 0
  }

  /** The sign is that of the lexicographic order of the octets' bits, whatever is in the unused ones. */
  method Compare(a: BitString, b: BitString) returns (order: int)
    requires a.Valid() && b.Valid()
    ensures Orders(order, a.Octets(), b.Octets())
  {
    var compactA := new BitString(a.buf, 0, 0);
    var compactB := new BitString(b.buf, 0, 0);
    var ca := Compactify(a, compactA);
    var cb := Compactify(b, compactB);
    order := Branches(ca.buf[..ca.size], ca.unused, cb.buf[..cb.size], cb.unused);
    CompactOrder(a.Octets(), ca.size, ca.unused, b.Octets(), cb.size, cb.unused);
    assert ca.buf[..ca.size] == a.Octets()[..ca.size] && cb.buf[..cb.size] == b.Octets()[..cb.size];
  }

  lemma CompactOrder(a: seq<bv8>, m: nat, ua: nat, b: seq<bv8>, n: nat, ub: nat)
    requires Trimmed(a, m, ua) && Trimmed(b, n, ub)
    ensures Orders(Branches(a[..m], ua, b[..n], ub), a, b)
  {
    TrimmedSame(a, m, ua);
    TrimmedSame(b, n, ub);
    var s, t := a[..m], b[..n];
    BranchesOrder(s, ua, t, ub);
    OrdersSame(Branches(a[..m], ua, b[..n], ub), a[..m], a, b[..n], b);
  }

  lemma TrimmedSame(s: seq<bv8>, size: nat, unused: nat)
    requires Trimmed(s, size, unused)
    ensures unused <= 7 && (size == 0 ==> unused == 0)
    ensures EndsAt(s[..size], 8 * size - unused) && Same(s[..size], s)
  {
    TrimmedEnds(s, size, unused);
    SameTrimmed(s[..size], s, 8 * size - unused);
  }

  lemma SameTrimmed(s: seq<bv8>, whole: seq<bv8>, n: nat)
    requires |s| <= |whole| && s == whole[..|s|]
    requires EndsAt(s, n) && EndsAt(whole, n) && n <= 8 * |s|
    ensures Same(s, whole)
  {
    forall k: nat ensures One(s, k) == One(whole, k) {
      if k / 8 < |s| {
        assert s[k / 8] == whole[k / 8];
      }
    }
  }

  lemma OrdersSame(order: int, s: seq<bv8>, s': seq<bv8>, t: seq<bv8>, t': seq<bv8>)
    requires Same(s, s') && Same(t, t') && Orders(order, s, t)
    ensures Orders(order, s', t')
  {
    LessSame(s, s', t, t');
    LessSame(s', s, t', t);
    LessSame(t, t', s, s');
    LessSame(t', t, s', s);
    if Same(s', t') {
      assert Same(s, t);
    }
  }

  lemma LessSame(s: seq<bv8>, s': seq<bv8>, t: seq<bv8>, t': seq<bv8>)
    requires Same(s, s') && Same(t, t')
    ensures Less(s, t) ==> Less(s', t')
  {
    if Less(s, t) {
      var k: nat :| Agree(s, t, k) && !One(s, k) && One(t, k);
      assert Agree(s', t', k) && !One(s', k) && One(t', k);
    }
  }

  lemma {:induction false} MemoryOrderBits(s: seq<bv8>, t: seq<bv8>, i: nat, n: nat)
    requires i <= n <= |s| && n <= |t| && s[..i] == t[..i]
    ensures MemoryOrder(s, t, i, n) < 0 ==> Less(s, t)
    ensures MemoryOrder(s, t, i, n) > 0 ==> Less(t, s)
    decreases n - i
  {
    if i < n {
      if s[i] == t[i] {
        assert s[..i + 1] == s[..i] + [s[i]] && t[..i + 1] == t[..i] + [t[i]];
        MemoryOrderBits(s, t, i + 1, n);
      } else {
        var k := LeadingDifference(s[i], t[i]);
        DifferAt(s, t, i, k);
      }
    }
  }

  lemma DifferAt(s: seq<bv8>, t: seq<bv8>, i: nat, k: nat)
    requires i < |s| && i < |t| && s[..i] == t[..i] && k < 8
    requires forall j: nat :: j < k ==> Bit(s[i], j) == Bit(t[i], j)
    requires Bit(s[i], k) != Bit(t[i], k)
    ensures Bit(t[i], k) ==> Less(s, t)
    ensures Bit(s[i], k) ==> Less(t, s)
  {
    var n := 8 * i + k;
    assert n / 8 == i && n % 8 == k;
    forall j: nat | j < n ensures One(s, j) == One(t, j) {
      if j / 8 < i {
        assert s[j / 8] == s[..i][j / 8] == t[..i][j / 8] == t[j / 8];
      } else {
        assert j / 8 == i && j % 8 < k;
      }
    }
    assert Agree(s, t, n) && Agree(t, s, n);
  }

  /** A proper prefix is smaller, when the longer one does not continue with zeros. */
  lemma PrefixLess(s: seq<bv8>, t: seq<bv8>, n: nat)
    requires |s| < |t| && s == t[..|s|]
    requires EndsAt(t, n) && n > 8 * |s|
    ensures Less(s, t)
  {
    FirstDifference(s, t, n - 1);
    var k: nat :| Agree(s, t, k) && One(s, k) != One(t, k);
    assert k / 8 < |s| ==> s[k / 8] == t[k / 8];
  }

  lemma EndUnique(s: seq<bv8>, n: nat, m: nat)
    requires EndsAt(s, n) && EndsAt(s, m)
    ensures n == m
  {
  }

  /** Same octets as far as both go: sizes, then unused bits, decide. */
  lemma SizesOrder(s: seq<bv8>, us: nat, t: seq<bv8>, ut: nat)
    requires us <= 7 && ut <= 7 && (s == [] ==> us == 0) && (t == [] ==> ut == 0)
    requires EndsAt(s, 8 * |s| - us) && EndsAt(t, 8 * |t| - ut)
    requires var n := if |s| <= |t| then |s| else |t|; s[0..n] == t[0..n]
    ensures |s| < |t| ==> Less(s, t)
    ensures |s| > |t| ==> Less(t, s)
    ensures |s| == |t| ==> s == t && us == ut
  {
    if |s| < |t| {
      assert s == t[..|s|];
      PrefixLess(s, t, 8 * |t| - ut);
    } else if |s| > |t| {
      assert t == s[..|t|];
      PrefixLess(t, s, 8 * |s| - us);
    } else {
      assert s == t;
      EndUnique(s, 8 * |s| - us, 8 * |t| - ut);
    }
  }

  lemma BranchesOrder(s: seq<bv8>, us: nat, t: seq<bv8>, ut: nat)
    requires us <= 7 && ut <= 7 && (s == [] ==> us == 0) && (t == [] ==> ut == 0)
    requires EndsAt(s, 8 * |s| - us) && EndsAt(t, 8 * |t| - ut)
    ensures Orders(Branches(s, us, t, ut), s, t)
  {
    hide EndsAt, Less;
    var n := if |s| <= |t| then |s| else |t|;
    MemoryOrderBits(s, t, 0, n);
    if MemoryOrder(s, t, 0, n) == 0 {
      assert s[0..n] == t[0..n];
      SizesOrder(s, us, t, ut);
    }
    if Less(s, t) {
      LessExcludes(s, t);
    }
    if Less(t, s) {
      LessExcludes(t, s);
    }
  }

  // ----- What the order means for bit strings -----

  /** The bits of a bit string of n bits. */
  ghost predicate BitAt(s: seq<bv8>, n: nat, k: nat) {
    k < n && One(s, k)
  }

  ghost predicate ZeroPadded(s: seq<bv8>, n: nat) {
    forall k: nat :: n <= k ==> !One(s, k)
  }

  /** One of the two bit strings is the other one followed by zeros. */
  ghost predicate DifferInTrailingZeros(s: seq<bv8>, n: nat, t: seq<bv8>, m: nat) {
    && (forall k: nat :: k < n && k < m ==> BitAt(s, n, k) == BitAt(t, m, k))
    && (forall k: nat :: m <= k < n ==> !BitAt(s, n, k))
    && (forall k: nat :: n <= k < m ==> !BitAt(t, m, k))
  }

  /** Section 22.7 of X.680 (08/2015): equal are the values that differ only in trailing zero bits. */
  lemma EqualUpToTrailingZeros(s: seq<bv8>, n: nat, t: seq<bv8>, m: nat)
    requires ZeroPadded(s, n) && ZeroPadded(t, m)
    ensures ComparedRight(s, n, t, m)
  {
    if DifferInTrailingZeros(s, n, t, m) {
      forall k: nat ensures One(s, k) == One(t, k) {
        if k < n && k < m {
          assert BitAt(s, n, k) == BitAt(t, m, k);
        } else if k < n {
          assert !BitAt(s, n, k);
        } else if k < m {
          assert !BitAt(t, m, k);
        }
      }
    } else if Same(s, t) {
      assert forall k: nat :: k < n && k < m ==> BitAt(s, n, k) == BitAt(t, m, k);
    }
  }

  /** The comparison of two bit strings is 0 just when they differ only in trailing zeros. */
  ghost predicate ComparedRight(s: seq<bv8>, n: nat, t: seq<bv8>, m: nat) {
    Same(s, t) <==> DifferInTrailingZeros(s, n, t, m)
  }

  /** The first k bits of an octet. */
  function FirstBits(x: bv8, k: nat): bv8
    requires k < 8
  {
    match k
    case 0 => 0
    case 1 => x & 0x80
    case 2 => x & 0xC0
    case 3 => x & 0xE0
    case 4 => x & 0xF0
    case 5 => x & 0xF8
    case 6 => x & 0xFC
    case _ => x & 0xFE
  }

  lemma FirstBitsAre(x: bv8, k: nat, j: nat)
    requires k < 8 && j < 8
    ensures Bit(FirstBits(x, k), j) <==> j < k && Bit(x, j)
  {
  }

  /** The octets of the first n bits, padded with zeros. */
  function ZeroPad(s: seq<bv8>, n: nat): seq<bv8>
    requires n <= 8 * |s|
  {
    s[..n / 8] + if n % 8 == 0 then [] else [FirstBits(s[n / 8], n % 8)]
  }

  lemma ZeroPadBits(s: seq<bv8>, n: nat, k: nat)
    requires n <= 8 * |s|
    ensures One(ZeroPad(s, n), k) <==> k < n && One(s, k)
  {
    if k / 8 == n / 8 && n % 8 != 0 {
      FirstBitsAre(s[n / 8], n % 8, k % 8);
    }
  }

  /** A bit string is compared rightly with every zero-padded one if and only if it is zero-padded itself. */
  lemma PaddingIff(s: seq<bv8>, n: nat)
    requires n <= 8 * |s|
    ensures ZeroPadded(s, n) <==>
              forall t: seq<bv8>, m: nat :: m <= 8 * |t| && ZeroPadded(t, m) ==> ComparedRight(s, n, t, m)
  {
    if ZeroPadded(s, n) {
      forall t: seq<bv8>, m: nat | m <= 8 * |t| && ZeroPadded(t, m) ensures ComparedRight(s, n, t, m) {
        EqualUpToTrailingZeros(s, n, t, m);
      }
    } else {
      var t := ZeroPad(s, n);
      forall k: nat ensures One(t, k) <==> k < n && One(s, k) {
        ZeroPadBits(s, n, k);
      }
      assert n <= 8 * |t| && ZeroPadded(t, n) && DifferInTrailingZeros(s, n, t, n);
      assert !ComparedRight(s, n, t, n);
    }
  }

  /** A one in the padding is compared too: the strings '0'B and '00'B differ when one has it. */
  lemma PaddingIsCompared(order: int)
    requires Orders(order, [0x01], [0x00])
    ensures DifferInTrailingZeros([0x01], 1, [0x00], 2) && order > 0
  {
    assert One([0x01], 7) && !One([0x00], 7);
    FirstDifference([0x01], [0x00], 7);
    var k: nat :| Agree([0x01], [0x00], k) && One([0x01], k) != One([0x00], k);
    assert k < 8;
    assert Agree([0x00], [0x01], k);
    assert Less([0x00], [0x01]);
  }

  /** Comparisons are those of a total order. */
  lemma TotalOrder(s: seq<bv8>, t: seq<bv8>, u: seq<bv8>, st: int, ts: int, tu: int, su: int)
    requires Orders(st, s, t) && Orders(ts, t, s) && Orders(tu, t, u) && Orders(su, s, u)
    ensures (st < 0 <==> ts > 0) && (st == 0 <==> ts == 0)
    ensures st <= 0 && tu <= 0 ==> su <= 0
    ensures st <= 0 && tu <= 0 && (st < 0 || tu < 0) ==> su < 0
  {
    if st < 0 && tu < 0 {
      LessTransitive(s, t, u);
    }
    if st == 0 && tu < 0 {
      assert Same(t, s) && Same(u, u);
      LessSame(t, s, u, u);
    }
    if st < 0 && tu == 0 {
      assert Same(s, s);
      LessSame(s, s, t, u);
    }
  }

  /** Any two octet strings are ordered. */
  lemma Trichotomy(s: seq<bv8>, t: seq<bv8>)
    ensures Less(s, t) || Less(t, s) || Same(s, t)
    ensures !(Less(s, t) && Less(t, s)) && !(Less(s, t) && Same(s, t))
  {
    if !Same(s, t) {
      var k: nat :| One(s, k) != One(t, k);
      FirstDifference(s, t, k);
      var j: nat :| Agree(s, t, j) && One(s, j) != One(t, j);
      assert Agree(t, s, j);
    }
    if Less(s, t) {
      LessExcludes(s, t);
    }
  }
}
