/**
 The PER lookup tables of a permitted alphabet (libasn1compiler/asn1c_constraint.c,
 `asn1c_emit_constraint_tables`, and libasn1compiler/asn1c_C.c, `PER_FROM_alphabet_characters`
 with the generated value-to-code and code-to-value functions).
 */
module AlphabetTables {
  import opened Edges
  import opened Crange

  /** The values left..right of a bounded piece, in ascending order. */
  function Run(left: int, right: int): (r: seq<int>)
    requires left <= right + 1
  {
    seq(right - left + 1, i => left + i)
  }

  predicate Bounded(ps: seq<Piece>, limit: nat) {
    forall i :: 0 <= i < |ps| ==>
      && ps[i].left.Value? && ps[i].right.Value?
      && 0 <= ps[i].left.value <= ps[i].right.value < limit
  }

  /** All members of the alphabet in ascending order. */
  function Members(ps: seq<Piece>, limit: nat): seq<int>
    requires Bounded(ps, limit)
  {
    if ps == [] then []
    else Members(ps[..|ps| - 1], limit) + Run(ps[|ps| - 1].left.value, ps[|ps| - 1].right.value)
  }

  ghost predicate Increasing(s: seq<int>) {
    forall i, j :: 0 <= i < j < |s| ==> s[i] < s[j]
  }

  lemma RunHas(p: Piece, x: int)
    requires p.left.Value? && p.right.Value? && p.left.value <= p.right.value
    ensures x in Run(p.left.value, p.right.value) <==> In(p, x)
  {
    var run := Run(p.left.value, p.right.value);
    if In(p, x) {
      assert run[x - p.left.value] == x;
    }
  }

  lemma {:induction false} MembersHave(ps: seq<Piece>, limit: nat, x: int)
    requires Bounded(ps, limit)
    ensures x in Members(ps, limit) <==> InSome(ps, x)
    ensures x in Members(ps, limit) ==> 0 <= x < limit
  {
    if ps != [] {
      var init, p := ps[..|ps| - 1], ps[|ps| - 1];
      MembersHave(init, limit, x);
      assert ps == init + [p];
      InSomeConcat(init, [p], x);
      InSomeCons(p, [], x);
      assert [p] + [] == [p];
      RunHas(p, x);
    }
  }

  lemma IncreasingConcat(a: seq<int>, b: seq<int>)
    requires Increasing(a) && Increasing(b)
    requires forall x, y :: x in a && y in b ==> x < y
    ensures Increasing(a + b)
  {
    forall i, j | 0 <= i < j < |a + b| ensures (a + b)[i] < (a + b)[j] {
      if i < |a| <= j {
        assert a[i] in a && b[j - |a|] in b;
      }
    }
  }

  lemma {:induction false} MembersIncrease(ps: seq<Piece>, limit: nat)
    requires Bounded(ps, limit) && Separated(ps)
    ensures Increasing(Members(ps, limit))
  {
    if ps != [] {
      var init, p := ps[..|ps| - 1], ps[|ps| - 1];
      MembersIncrease(init, limit);
      var run := Run(p.left.value, p.right.value);
      forall x, y | x in Members(init, limit) && y in run ensures x < y {
        MembersHave(init, limit, x);
        RunHas(p, y);
        var k :| 0 <= k < |init| && In(init[k], x);
        assert Key(ps[k].right) + 1 < Key(ps[|ps| - 1].left);
      }
      IncreasingConcat(Members(init, limit), run);
    }
  }

  /** The members are those of the range, in ascending order, and end with its right edge. */
  lemma MembersAre(ps: seq<Piece>, limit: nat)
    requires Bounded(ps, limit) && Separated(ps) && ps != []
    ensures var ms := Members(ps, limit);
            && Increasing(ms) && ms != [] && ms[|ms| - 1] == ps[|ps| - 1].right.value
            && (forall x: int :: x in ms <==> InSome(ps, x))
            && (forall x: int :: x in ms ==> 0 <= x < limit)
  {
    MembersIncrease(ps, limit);
    forall x: int
      ensures x in Members(ps, limit) <==> InSome(ps, x)
      ensures x in Members(ps, limit) ==> 0 <= x < limit
    {
      MembersHave(ps, limit, x);
    }
    var last := Run(ps[|ps| - 1].left.value, ps[|ps| - 1].right.value);
    assert last[|last| - 1] == ps[|ps| - 1].right.value;
  }

  /** Filled up to the members ms: each has its code plus one, everything else has 0. */
  ghost predicate Numbered(table: seq<int>, ms: seq<int>) {
    && (forall k :: 0 <= k < |ms| ==> 0 <= ms[k] < |table| && table[ms[k]] == k + 1)
    && (forall c :: 0 <= c < |table| ==> CodeBelongs(table, ms, c))
  }

  /** The code of c, if it has one, is that of the member c. */
  predicate CodeBelongs(table: seq<int>, ms: seq<int>, c: int)
    requires 0 <= c < |table|
  {
    table[c] != 0 ==> 1 <= table[c] <= |ms| && ms[table[c] - 1] == c
  }

  lemma NumberNext(table: seq<int>, ms: seq<int>, v: int)
    requires Numbered(table, ms) && 0 <= v < |table| && v !in ms
    ensures Numbered(table[v := |ms| + 1], ms + [v])
  {
    var table', ms' := table[v := |ms| + 1], ms + [v];
    forall c | 0 <= c < |table| ensures CodeBelongs(table', ms', c) {
      assert CodeBelongs(table, ms, c);
    }
  }

  /** Give the members ascending codes, counted from 1 in the table. */
  method FillTable(ps: seq<Piece>, size: nat, table: array<int>)
    requires Bounded(ps, size) && Separated(ps) && table.Length == size
    modifies table
    ensures Numbered(table[..], Members(ps, size))
  {
    for i := 0 to table.Length
      invariant forall k :: 0 <= k < i ==> table[k] == 0
    {
      table[i] := 0;
    }
    var n := 0;
    for i := 0 to |ps|
      invariant n == |Members(ps[..i], size)|
      invariant Numbered(table[..], Members(ps[..i], size))
    {
      MembersBelow(ps, i, size);
      n := FillRun(ps[i].left.value, ps[i].right.value, table, n, Members(ps[..i], size));
      assert ps[..i + 1][..i] == ps[..i];
    }
    assert ps[..|ps|] == ps;
  }

  /** Give v the next code. */
  method PutCode(table: array<int>, v: int, n: int, ghost ms: seq<int>)
    requires Numbered(table[..], ms) && 0 <= v < table.Length && v !in ms && n == |ms| + 1
    modifies table
    ensures Numbered(table[..], ms + [v])
  {
    ghost var before := table[..];
    table[v] := n;
    assert table[..] == before[v := n];
    NumberNext(before, ms, v);
  }

  /** Give left..right the codes after those of ms, which are below left. */
  method FillRun(left: int, right: int, table: array<int>, start: int, ghost ms: seq<int>) returns (n: int)
    requires 0 <= left <= right < table.Length && forall x :: x in ms ==> x < left
    requires start == |ms| && Numbered(table[..], ms)
    modifies table
    ensures n == |ms + Run(left, right)| && Numbered(table[..], ms + Run(left, right))
  {
    n := start;
    var v := left;
    assert ms + Run(left, v - 1) == ms;
    while v <= right
      invariant left <= v <= right + 1
      invariant n == |ms + Run(left, v - 1)|
      invariant Numbered(table[..], ms + Run(left, v - 1))
    {
      assert ms + Run(left, v) == ms + Run(left, v - 1) + [v];
      n := n + 1;
      PutCode(table, v, n, ms + Run(left, v - 1));
      v := v + 1;
    }
  }

  lemma MembersBelow(ps: seq<Piece>, i: nat, size: nat)
    requires Bounded(ps, size) && Separated(ps) && i < |ps|
    ensures forall x :: x in Members(ps[..i], size) ==> x < ps[i].left.value
  {
    forall x | x in Members(ps[..i], size) ensures x < ps[i].left.value {
      MembersHave(ps[..i], size, x);
      var k :| 0 <= k < i && In(ps[..i][k], x);
      assert Key(ps[k].right) + 1 < Key(ps[i].left);
    }
  }

  /** The members below c. */
  ghost predicate CountsBelow(ms: seq<int>, c: int, k: nat) {
    k <= |ms| && (forall j :: 0 <= j < k ==> ms[j] < c) && (forall j :: k <= j < |ms| ==> ms[j] >= c)
  }

  lemma CountStep(table: seq<int>, ms: seq<int>, c: nat, k: nat)
    requires Numbered(table, ms) && Increasing(ms) && c < |table| && CountsBelow(ms, c, k)
    ensures table[c] != 0 ==> k < |ms| && ms[k] == c && CountsBelow(ms, c + 1, k + 1)
    ensures table[c] == 0 ==> CountsBelow(ms, c + 1, k)
  {
    assert CodeBelongs(table, ms, c);
  }

  /** Collect the members by scanning the whole table. */
  method FillCodeToValue(table: array<int>, ghost ms: seq<int>) returns (code2value: seq<int>)
    requires Numbered(table[..], ms) && Increasing(ms)
    ensures code2value == ms
  {
    code2value := [];
    for c := 0 to table.Length
      invariant CountsBelow(ms, c, |code2value|) && code2value == ms[..|code2value|]
    {
      CountStep(table[..], ms, c, |code2value|);
      if table[c] != 0 {
        code2value := code2value + [c];
      }
    }
    forall j | 0 <= j < |ms| ensures ms[j] < table.Length {
    }
    assert |code2value| == |ms|;
  }

  /** Count the members over the rounded-up part of the table that is written out. */
  method Cardinal(table: array<int>, until: nat, ghost ms: seq<int>) returns (cardinal: nat)
    requires Numbered(table[..], ms) && Increasing(ms) && until <= table.Length
    requires forall k :: 0 <= k < |ms| ==> ms[k] < until
    ensures cardinal == |ms|
  {
    cardinal := 0;
    for c := 0 to until
      invariant CountsBelow(ms, c, cardinal)
    {
      CountStep(table[..], ms, c, cardinal);
      cardinal := cardinal + if table[c] != 0 then 1 else 0;
    }
  }

  /** The number of characters, added up piece by piece. */
  method AlphabetCharacters(ps: seq<Piece>, limit: nat) returns (numchars: int)
    requires Bounded(ps, limit)
    ensures numchars == |Members(ps, limit)|
  {
    numchars := 0;
    for i := 0 to |ps|
      invariant numchars == |Members(ps[..i], limit)|
    {
      numchars := numchars + 1 + (ps[i].right.value - ps[i].left.value);
      assert ps[..i + 1][..i] == ps[..i];
    }
    assert ps[..|ps|] == ps;
  }

  /**
   The tables of a canonical alphabet whose members are below the table size (256, or 128 for UTF8String).
   */
  method EmitTables(range: Range, size: nat) returns (table: array<int>, code2value: seq<int>, cardinal: nat)
    requires size == 256 || size == 128
    requires Canonical(range.AsView()) && !range.emptyConstraint && range.elements != []
    requires Bounded(range.elements, size)
    ensures fresh(table) && table.Length == size
    ensures Numbered(table[..], code2value) && Increasing(code2value)
    ensures forall x: int :: x in code2value <==> Has(range.AsView(), x)
    ensures code2value == Members(range.elements, size) && cardinal == |code2value|
  {
    var ps := range.elements;
    table := new int[size];
    FillTable(ps, size, table);
    ghost var ms := Members(ps, size);
    MembersAre(ps, size);
    EachBelowLast(ms);
    cardinal := Cardinal(table, RoundUp(range.right.value + 1), ms);
    code2value := FillCodeToValue(table, ms);
  }

  lemma EachBelowLast(ms: seq<int>)
    requires Increasing(ms) && ms != []
    ensures forall k :: 0 <= k < |ms| ==> ms[k] <= ms[|ms| - 1]
  {
  }

  /** The next multiple of 16: tables are written out in whole lines. */
  function RoundUp(n: int): (r: int)
    ensures n <= r < n + 16
    ensures n <= 128 ==> r <= 128
    ensures n <= 256 ==> r <= 256
  {
    n + if n % 16 != 0 then 16 - n % 16 else 0
  }

  // ----- The generated lookup functions -----

  function ValueToCode(table: seq<int>, value: nat): int {
    if value >= |table| then -1 else table[value] - 1
  }

  function CodeToValue(code2value: seq<int>, code: nat): int {
    if code >= |code2value| then -1 else code2value[code]
  }

  /** The lookups are inverse to each other, keep the order, and answer -1 outside the alphabet. */
  lemma LookupsAreInverse(table: seq<int>, code2value: seq<int>)
    requires Numbered(table, code2value) && Increasing(code2value)
    requires forall x :: x in code2value ==> 0 <= x < |table|
    ensures forall v: nat :: v in code2value <==> ValueToCode(table, v) != -1
    ensures forall v: nat :: v in code2value ==>
              var c := ValueToCode(table, v); 0 <= c < |code2value| && CodeToValue(code2value, c) == v
    ensures forall c: nat :: c < |code2value| ==>
              var v := CodeToValue(code2value, c); v >= 0 && ValueToCode(table, v) == c
    ensures forall c: nat :: c >= |code2value| ==> CodeToValue(code2value, c) == -1
    ensures forall v: nat, w: nat :: v in code2value && w in code2value ==>
              (v < w <==> ValueToCode(table, v) < ValueToCode(table, w))
  {
    forall v: nat | ValueToCode(table, v) != -1 ensures v in code2value {
      assert CodeBelongs(table, code2value, v);
    }
    forall v: nat, w: nat | v in code2value && w in code2value
      ensures v < w <==> ValueToCode(table, v) < ValueToCode(table, w)
    {
      var i :| 0 <= i < |code2value| && code2value[i] == v;
      var j :| 0 <= j < |code2value| && code2value[j] == w;
      assert table[v] == i + 1 && table[w] == j + 1;
    }
  }
}
