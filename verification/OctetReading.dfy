/** Reading an INTEGER that is kept as octets into a C variable (skeletons/INTEGER.c). */
module OctetReading {
  import opened Wrappers
  import opened IntegerOctets

  /** Octets of a `uintmax_t`. */
  const WIDTH := 8

  /** The octets taken without a sign. */
  function Unsigned(s: seq<Octet>): (v: nat) {
    if s == [] then 0 else 256 * Unsigned(s[..|s| - 1]) + s[|s| - 1]
  }

  function Power(n: nat): (r: nat)
    ensures r > 0
  {
    if n == 0 then 1 else 256 * Power(n - 1)
  }

  lemma {:induction false} UnsignedBelow(s: seq<Octet>)
    ensures Unsigned(s) < Power(|s|)
    ensures s != [] ==> Unsigned(s) >= s[0] * Power(|s| - 1)
  {
    if s != [] {
      var init := s[..|s| - 1];
      UnsignedBelow(init);
      if init != [] {
        assert 256 * (s[0] * Power(|init| - 1)) == s[0] * (256 * Power(|init| - 1));
      }
    }
  }

  lemma {:induction false} UnsignedSkips(s: seq<Octet>)
    requires s != [] && s[0] == 0
    ensures Unsigned(s) == Unsigned(s[1..])
  {
    var init := s[..|s| - 1];
    if init != [] {
      UnsignedSkips(init);
      assert s[1..][..|s| - 2] == init[1..];
    }
  }

  /** The first bit is the sign; with it, the unsigned value is a different one. */
  lemma {:induction false} SignBit(s: seq<Octet>)
    requires s != []
    ensures Value(s) < 0 <==> s[0] >= 128
    ensures Value(s) >= 0 ==> Unsigned(s) == Value(s)
  {
    if |s| > 1 {
      SignBit(s[..|s| - 1]);
    } else {
      assert Unsigned(s[..0]) == 0;
    }
  }

  /** Every integer has octets. */
  lemma {:induction false} OctetsOf(v: int) returns (s: seq<Octet>)
    ensures s != [] && Value(s) == v
    decreases if v < 0 then -v else v
  {
    if 0 <= v < 128 {
      s := [v];
    } else if -128 <= v < 0 {
      s := [v + 256];
    } else {
      s := OctetsOf(v / 256);
      s := s + [v % 256];
      assert s[..|s| - 1] + [v % 256] == s;
    }
  }

  /** Numbers of 32 bits that need all of them are the unsigned values of negative ones. */
  lemma NegativeOctets(u: int) returns (s: seq<Octet>)
    requires 0x8000_0000 <= u <= 0xFFFF_FFFF
    ensures s != [] && Unsigned(s) == u && Value(s) < 0
  {
    var a, b, c, d := u / 0x100_0000, u / 0x1_0000 % 256, u / 256 % 256, u % 256;
    s := [a, b, c, d];
    SignBit(s);
    UnsignedNext(s, 0);
    UnsignedNext(s, 1);
    UnsignedNext(s, 2);
    UnsignedNext(s, 3);
    assert s[..0] == [] && s[..4] == s;
    InOctets(u);
  }

  lemma InOctets(u: int)
    requires u >= 0
    ensures u == 256 * (256 * (256 * (u / 0x100_0000) + u / 0x1_0000 % 256) + u / 256 % 256) + u % 256
  {
    assert u / 0x100_0000 == u / 0x1_0000 / 256 && u / 0x1_0000 == u / 256 / 256;
  }

  lemma UnsignedNext(t: seq<Octet>, k: nat)
    requires k < |t|
    ensures Unsigned(t[..k + 1]) == 256 * Unsigned(t[..k]) + t[k]
  {
    assert t[..k + 1][..k] == t[..k];
  }

  /** What the value is before any octet: its sign extended. */
  function SignOnly(s: seq<Octet>): int
    requires s != []
  {
    if s[0] >= 128 then -1 else 0
  }

  lemma ValueNext(t: seq<Octet>, k: nat)
    requires k < |t|
    ensures Value(t[..k + 1]) == 256 * (if k == 0 then SignOnly(t) else Value(t[..k])) + t[k]
  {
    assert t[..k + 1][..k] == t[..k];
  }

  /** Read as `uintmax_t`: the value without a sign, if it fits. */
  method ToUmax(s: seq<Octet>) returns (r: Option<int>)
    requires s != []
    ensures r == if Unsigned(s) < Power(WIDTH) then Some(Unsigned(s)) else None
  {
    hide Power;
    var i := 0;
    while |s| - i > WIDTH
      invariant 0 <= i < |s| && Unsigned(s[i..]) == Unsigned(s)
      decreases |s| - i
    {
      if s[i] != 0 {
        TooWide(s[i..]);
        return None;
      }
      UnsignedSkips(s[i..]);
      assert s[i..][1..] == s[i + 1..];
      i := i + 1;
    }
    ghost var t := s[i..];
    UnsignedBelow(t);
    PowersGrow(|t|, WIDTH);
    var value: int, j := 0, i;
    assert Unsigned(t[..0]) == 0;
    while j < |s|
      invariant i <= j <= |s| && value == Unsigned(t[..j - i])
    {
      UnsignedNext(t, j - i);
      value := value * 256 + s[j];
      j := j + 1;
    }
    assert t[..|t|] == t;
    return Some(value);
  }

  lemma Multiple(a: int, b: nat)
    requires a > 0
    ensures a * b >= b
  {
  }

  lemma TooWide(t: seq<Octet>)
    requires |t| > WIDTH && t[0] != 0
    ensures Unsigned(t) >= Power(WIDTH)
  {
    hide Power, Unsigned;
    UnsignedBelow(t);
    PowersGrow(WIDTH, |t| - 1);
    Multiple(t[0], Power(|t| - 1));
  }

  lemma {:induction false} PowersGrow(m: nat, n: nat)
    requires m <= n
    ensures Power(m) <= Power(n)
  {
    if m < n {
      PowersGrow(m, n - 1);
    }
  }

  /** The first octet only repeats the sign bit of the next one. */
  predicate FirstRedundant(s: seq<Octet>) {
    |s| > 1 && ((s[0] == 0 && s[1] < 128) || (s[0] == 255 && s[1] >= 128))
  }

  lemma {:induction false} ValueSkips(s: seq<Octet>)
    requires FirstRedundant(s)
    ensures Value(s) == Value(s[1..])
  {
    var init := s[..|s| - 1];
    if |init| > 1 {
      ValueSkips(init);
      assert s[1..][..|s| - 2] == init[1..];
    }
  }

  lemma {:induction false} RangesGrow(v: int, m: nat, n: nat)
    requires 0 < m <= n && InRange(v, m)
    ensures InRange(v, n)
  {
    if m < n {
      RangesGrow(v, m, n - 1);
    }
  }

  /** Read as `intmax_t`: the value, if it fits, even when it is written with more octets. */
  method ToImax(s: seq<Octet>) returns (r: Option<int>)
    requires s != []
    ensures r == if InRange(Value(s), WIDTH) then Some(Value(s)) else None
  {
    hide Value, InRange;
    var i := 0;
    if |s| > WIDTH {
      while i < |s| - 1 && FirstRedundant(s[i..])
        invariant 0 <= i < |s| && Value(s[i..]) == Value(s)
      {
        ValueSkips(s[i..]);
        assert s[i..][1..] == s[i + 1..];
        i := i + 1;
      }
      if |s| - i > WIDTH {
        StillTooWide(s[i..]);
        return None;
      }
    }
    ghost var t := s[i..];
    ValueInRange(t);
    RangesGrow(Value(t), |t|, WIDTH);
    // As an unsigned number the result wraps around; the cast to the signed type gives it back.
    var value: int, j := if s[i] >= 128 then -1 else 0, i;
    while j < |s|
      invariant i <= j <= |s|
      invariant value == if j == i then SignOnly(t) else Value(t[..j - i])
    {
      ValueNext(t, j - i);
      value := value * 256 + s[j];
      j := j + 1;
    }
    assert t[..|t|] == t;
    return Some(value);
  }

  lemma StillTooWide(t: seq<Octet>)
    requires |t| > WIDTH && !FirstRedundant(t)
    ensures !InRange(Value(t), WIDTH)
  {
    MinimalOutside(t);
    if InRange(Value(t), WIDTH) {
      RangesGrow(Value(t), WIDTH, |t| - 1);
    }
  }
}
