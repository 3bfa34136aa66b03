/** Identifier octets: from the compiler's tags to those of the runtime and back (skeletons/ber_tlv_tag.c). */
module TagOctets {
  import opened Wrappers
  import opened IntegerOctets

  const LIMIT := 0x1_0000_0000

  /** A tag of the runtime: four times its number, and the class in the two lowest bits. */
  type BerTag = t: nat | t < LIMIT

  function ClassOf(tag: BerTag): nat {
    tag % 4
  }

  function NumberOf(tag: BerTag): nat {
    tag / 4
  }

  /** What is printed for a tag of a compiler's class from UNIVERSAL (1) to PRIVATE (4). */
  function Emitted(cls: int, value: int): (tag: BerTag)
    requires 1 <= cls <= 4 && 0 <= value < LIMIT / 8
    ensures ClassOf(tag) == cls - 1 && NumberOf(tag) == value
  {
    match cls
    case 1 => value * 4
    case 2 => value * 4 + 1
    case 3 => value * 4 + 2
    case _ => value * 4 + 3
  }

  // ----- Identifier octets, section 8.1.2 of X.690 -----

  /** The groups of seven bits of v, the highest first, each with a further one to follow. */
  function More(v: nat): (s: seq<Octet>)
    ensures v > 0 ==> s != [] && 128 < s[0]
    ensures forall i :: 0 <= i < |s| ==> s[i] >= 128
  {
    if v == 0 then [] else More(v / 128) + [128 + v % 128]
  }

  /** The identifier octets of a primitive encoding. */
  function Octets(tag: BerTag): (s: seq<Octet>)
    ensures s != []
  {
    var v := NumberOf(tag);
    if v <= 30 then [64 * ClassOf(tag) + v] else [64 * ClassOf(tag) + 31] + More(v / 128) + [v % 128]
  }

  // ----- Reading -----

  datatype Fetched = Tag(tag: BerTag, length: nat) | WantMore | TooLarge

  /** Reading the number from position i on, with the bits before it in v. */
  function NumberFrom(s: seq<Octet>, i: nat, v: nat, cls: nat): Fetched
    requires i <= |s| && v < 0x80_0000 && cls < 4
    decreases |s| - i
  {
    if i == |s| then WantMore
    else if s[i] < 128 then Tag((128 * v + s[i]) * 4 + cls, i + 1)
    else
      var w := 128 * v + s[i] - 128;
      if w >= 0x80_0000 then TooLarge else NumberFrom(s, i + 1, w, cls)
  }

  /** The tag at the start of s; whether the encoding is constructed plays no part. */
  function TagAt(s: seq<Octet>): Fetched {
    if s == [] then WantMore
    else if s[0] % 32 != 31 then Tag(s[0] % 32 * 4 + s[0] / 64, 1)
    else NumberFrom(s, 1, 0, s[0] / 64)
  }

  method Fetch(s: seq<Octet>) returns (r: Fetched)
    ensures r == TagAt(s)
  {
    if |s| == 0 {
      return WantMore;
    }
    var val: nat, cls: nat := s[0] % 32, s[0] / 64;
    if val != 31 {
      return Tag(val * 4 + cls, 1);
    }
    val := 0;
    var skipped := 2;
    while skipped <= |s|
      invariant 2 <= skipped <= |s| + 1 && 0 <= val < 0x80_0000
      invariant TagAt(s) == NumberFrom(s, skipped - 1, val, cls)
    {
      var oct := s[skipped - 1];
      if oct >= 128 {
        val := val * 128 + oct - 128;
        if val >= 0x80_0000 {
          return TooLarge;
        }
      } else {
        val := val * 128 + oct;
        return Tag(val * 4 + cls, skipped);
      }
      skipped := skipped + 1;
    }
    return WantMore;
  }

  /** Reading goes over the groups of v to what follows them. */
  lemma {:induction false} ReadsMore(s: seq<Octet>, i: nat, v: nat, cls: nat)
    requires v < 0x80_0000 && cls < 4 && i + |More(v)| <= |s| && s[i..i + |More(v)|] == More(v)
    ensures NumberFrom(s, i, 0, cls) == NumberFrom(s, i + |More(v)|, v, cls)
  {
    if v > 0 {
      var n := |More(v / 128)|;
      assert s[i..i + n] == s[i..i + n + 1][..n];
      ReadsMore(s, i, v / 128, cls);
      assert s[i + n] == s[i..i + n + 1][n];
    }
  }

  lemma FirstOctet(cls: nat, x: nat)
    requires cls < 4 && x < 32
    ensures (64 * cls + x) % 32 == x && (64 * cls + x) / 64 == cls && (64 * cls + x) / 32 % 2 == 0
  {
  }

  lemma ReadsLong(s: seq<Octet>, v: nat, cls: nat, n: nat)
    requires v < LIMIT / 4 && cls < 4 && n == |More(v / 128)| && n + 2 <= |s|
    requires s[1..1 + n] == More(v / 128) && s[1 + n] == v % 128
    ensures NumberFrom(s, 1, 0, cls) == Tag(4 * v + cls, n + 2)
  {
    hide More;
    ReadsMore(s, 1, v / 128, cls);
  }

  /** What is written is read back, whatever follows it. */
  lemma RoundTrip(tag: BerTag, rest: seq<Octet>)
    ensures TagAt(Octets(tag) + rest) == Tag(tag, |Octets(tag)|)
  {
    hide More, NumberFrom;
    var s, v := Octets(tag) + rest, NumberOf(tag);
    FirstOctet(ClassOf(tag), if v <= 30 then v else 31);
    if v > 30 {
      var n := |More(v / 128)|;
      assert s[1..1 + n] == More(v / 128) && s[1 + n] == v % 128;
      ReadsLong(s, v, ClassOf(tag), n);
    }
  }

  /** So no identifier octets begin others. */
  lemma NoneBegins(a: BerTag, b: BerTag)
    requires Octets(a) <= Octets(b)
    ensures a == b
  {
    hide Octets, TagAt;
    var rest := Octets(b)[|Octets(a)|..];
    assert Octets(b) == Octets(a) + rest;
    RoundTrip(a, rest);
    RoundTrip(b, []);
    assert Octets(b) + [] == Octets(b);
  }

  /** A primitive encoding in as few octets as possible, sections 8.1.2.2 and 8.1.2.4 of X.690. */
  predicate Shortest(s: seq<Octet>)
    requires s != []
  {
    && s[0] / 32 % 2 == 0
    && (s[0] % 32 == 31 ==> |s| > 1 && s[1] != 128 && (s[1] < 128 ==> s[1] > 30))
  }

  lemma MoreNext(v: nat, o: Octet)
    requires o >= 128 && (v > 0 || o > 128)
    ensures More(128 * v + o - 128) == More(v) + [o]
  {
  }

  lemma SliceFirst(s: seq<Octet>, i: nat, j: nat)
    requires i < j <= |s|
    ensures s[i..j] == [s[i]] + s[i + 1..j]
  {
  }

  lemma Joined(a: seq<Octet>, x: Octet, b: seq<Octet>)
    ensures a + [x] + b == a + ([x] + b)
  {
  }

  lemma LastGroup(v: nat, o: Octet, cls: nat)
    requires v < 0x80_0000 && o < 128 && cls < 4
    ensures var tag: BerTag := (128 * v + o) * 4 + cls;
            ClassOf(tag) == cls && NumberOf(tag) / 128 == v && NumberOf(tag) % 128 == o
            && (NumberOf(tag) <= 30 <==> v == 0 && o <= 30)
  {
  }

  /** The number read from position i on is that of the groups before and of those up to its end. */
  lemma {:induction false} WrittenAgain(s: seq<Octet>, i: nat, v: nat, cls: nat)
    requires i <= |s| && v < 0x80_0000 && cls < 4 && NumberFrom(s, i, v, cls).Tag?
    requires v > 0 || (i < |s| && s[i] != 128)
    ensures var r := NumberFrom(s, i, v, cls);
            && i < r.length <= |s| && ClassOf(r.tag) == cls && NumberOf(r.tag) % 128 == s[r.length - 1]
            && More(v) + s[i..r.length - 1] == More(NumberOf(r.tag) / 128)
            && (NumberOf(r.tag) <= 30 <==> v == 0 && s[i] <= 30)
    decreases |s| - i
  {
    hide More, ClassOf, NumberOf;
    var r := NumberFrom(s, i, v, cls);
    if s[i] < 128 {
      LastGroup(v, s[i], cls);
      assert More(v) + s[i..i] == More(v);
    } else {
      WrittenAgain(s, i + 1, 128 * v + s[i] - 128, cls);
      MoreNext(v, s[i]);
      SliceFirst(s, i, r.length - 1);
      Joined(More(v), s[i], s[i + 1..r.length - 1]);
    }
  }

  lemma ReadsWithin(s: seq<Octet>, i: nat, v: nat, cls: nat)
    requires i <= |s| && v < 0x80_0000 && cls < 4 && NumberFrom(s, i, v, cls).Tag?
    ensures i < NumberFrom(s, i, v, cls).length <= |s| && ClassOf(NumberFrom(s, i, v, cls).tag) == cls
    decreases |s| - i
  {
  }

  /** What is read would be written just so if and only if it was the shortest primitive encoding. */
  lemma WrittenJustSoIff(s: seq<Octet>)
    requires TagAt(s).Tag?
    ensures var r := TagAt(s);
            0 < r.length <= |s| && (Octets(r.tag) == s[..r.length] <==> Shortest(s))
  {
    var r := TagAt(s);
    if s[0] % 32 != 31 {
      assert s[..1] == [s[0]];
    } else {
      ReadsWithin(s, 1, 0, s[0] / 64);
      if s[1] != 128 {
        WrittenAgain(s, 1, 0, s[0] / 64);
        LongForm(s, r.tag, r.length);
      } else {
        assert s[..r.length][1] == 128;
      }
    }
  }

  lemma LongForm(s: seq<Octet>, tag: BerTag, n: nat)
    requires 1 < n <= |s| && s[0] % 32 == 31 && s[0] / 64 == ClassOf(tag) && NumberOf(tag) % 128 == s[n - 1]
    requires [] + s[1..n - 1] == More(NumberOf(tag) / 128)
    ensures Octets(tag) == s[..n] <==> NumberOf(tag) > 30 && s[0] / 32 % 2 == 0
  {
    hide More;
    assert s[..n] == [s[0]] + s[1..n - 1] + [s[n - 1]];
    assert s[..n][0] == s[0];
    FirstOctet(ClassOf(tag), if NumberOf(tag) <= 30 then NumberOf(tag) else 31);
    assert s[0] / 32 % 2 == 0 ==> s[0] == 64 * ClassOf(tag) + 31;
  }

  // ----- Writing -----

  /** v shifted right by k groups. */
  function Shifted(v: nat, k: nat): nat {
    if k == 0 then v else Shifted(v, k - 1) / 128
  }

  /** The k groups above the lowest one, the highest first. */
  function Groups(v: nat, k: nat): (s: seq<Octet>)
    ensures |s| == k
  {
    if k == 0 then [] else [128 + Shifted(v, k) % 128] + Groups(v, k - 1)
  }

  lemma {:induction false} MoreIsGroups(v: nat, k: nat)
    requires Shifted(v, k) > 0
    ensures More(v / 128) == More(Shifted(v, k + 1)) + Groups(v, k)
    decreases k
  {
    if k > 0 {
      MoreIsGroups(v, k - 1);
      assert More(Shifted(v, k)) == More(Shifted(v, k + 1)) + [128 + Shifted(v, k) % 128];
    }
  }

  lemma FiveGroups(v: nat)
    requires v < LIMIT / 4
    ensures Shifted(v, 5) == 0
  {
    assert Shifted(v, 1) < 0x80_0000;
    assert Shifted(v, 2) < 0x1_0000;
    assert Shifted(v, 3) < 0x200;
    assert Shifted(v, 4) < 4;
  }

  /** How many octets follow the first one. */
  method RequiredSize(v: nat) returns (required: nat)
    requires 0 < v < LIMIT / 4
    ensures required > 0 && Groups(v, required - 1) == More(v / 128)
  {
    required := 1;
    while required < 5 && Shifted(v, required) > 0
      invariant 1 <= required <= 5 && Shifted(v, required - 1) > 0
    {
      required := required + 1;
    }
    FiveGroups(v);
    MoreIsGroups(v, required - 1);
  }

  /** Write the identifier octets if they fit; the result is how many there are. */
  method Serialize(tag: BerTag, buf: array<Octet>) returns (n: nat)
    modifies buf
    ensures n == |Octets(tag)|
    ensures n <= buf.Length ==> buf[..n] == Octets(tag) && buf[n..] == old(buf[n..])
    ensures n > buf.Length > 0 ==> buf[0] == Octets(tag)[0] && buf[1..] == old(buf[1..])
  {
    hide More, Groups;
    var cls, v := ClassOf(tag), NumberOf(tag);
    if v <= 30 {
      if buf.Length > 0 {
        buf[0] := 64 * cls + v;
      }
      return 1;
    }
    if buf.Length > 0 {
      buf[0] := 64 * cls + 31;
    }
    var required := RequiredSize(v);
    n := required + 1;
    if buf.Length >= n {
      WriteGroups(v, required, buf);
      assert buf[n..] == old(buf[n..]);
    }
  }

  /** Write the groups of v after the first octet. */
  method WriteGroups(v: nat, required: nat, buf: array<Octet>)
    requires 0 < required < buf.Length
    modifies buf
    ensures buf[..required + 1] == [old(buf[0])] + Groups(v, required - 1) + [v % 128]
    ensures forall k :: required < k < buf.Length ==> buf[k] == old(buf[k])
  {
    hide Shifted;
    var i := 1;
    while i < required
      invariant 1 <= i <= required && buf[0] == old(buf[0])
      invariant buf[1..i] + Groups(v, required - i) == Groups(v, required - 1)
      invariant forall k :: required < k < buf.Length ==> buf[k] == old(buf[k])
    {
      buf[i] := 128 + Shifted(v, required - i) % 128;
      assert buf[1..i + 1] == buf[1..i] + [buf[i]];
      i := i + 1;
    }
    buf[required] := v % 128;
    assert buf[..required + 1] == [buf[0]] + buf[1..required] + [buf[required]];
  }
}
