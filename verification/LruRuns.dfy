/**
 Runs of a hash with a limit and without iterators, from the empty hash through the switch to buckets: which
 entries an addition evicts (libasn1common/genhash.c).
 */
module LruRuns {
  import opened NodeLists
  import opened HashModel
  import opened Genhash

  /** An entry, the time of its last use, and whether that was a lookup which left it where it was in a list. */
  datatype Used<K, V> = Used(entry: (K, V), at: nat, overlooked: bool)

  type Stamped<K, V> = seq<Used<K, V>>

  ghost function Plain<K, V>(es: Stamped<K, V>): (r: seq<(K, V)>)
    ensures |r| == |es| && forall i :: 0 <= i < |es| ==> r[i] == es[i].entry
  {
    seq(|es|, i requires 0 <= i < |es| => es[i].entry)
  }

  datatype Use<K, V> = Add(key: K, value: V) | Touch(key: K) | Discard(key: K) | SetLimit(limit: int)

  /**
   A hash without iterators: the last unmoved entries of a NORMAL one came from the slots and were not moved
   since. The slots are filled in turn if nothing was found or deleted in TINY mode.
   */
  datatype State<K, V> = State(tiny: bool, es: Stamped<K, V>, limit: nat, moved: nat, inTurn: bool)

  /** How many entries come before those that were left where the switch put them. */
  ghost function Front<K, V>(st: State<K, V>): nat {
    if st.tiny then 0 else st.moved
  }

  ghost function Unmoved<K, V>(st: State<K, V>): int {
    |st.es| - Front(st)
  }

  /** What remains when room is made for one more. */
  ghost function Kept<K, V>(st: State<K, V>): Stamped<K, V> {
    MakeRoom(st.es, st.limit)
  }

  function Less(a: nat, b: nat): nat {
    if a < b then a else b
  }

  ghost function AfterAdd<K, V>(st: State<K, V>, e: (K, V), now: nat): State<K, V> {
    if st.tiny && |st.es| < IH_VALUES then st.(es := st.es + [Used(e, now, false)])
    else st.(tiny := false, es := [Used(e, now, false)] + Kept(st), moved := 1 + Less(Front(st), |Kept(st)|))
  }

  /** A lookup in buckets moves the entry to the front if there is a limit, and overlooks it if there is none. */
  ghost function AfterTouch<K, V>(st: State<K, V>, i: nat, now: nat): State<K, V>
    requires i < |st.es|
  {
    var e := st.es[i].entry;
    if st.tiny then st.(es := st.es[i := Used(e, now, false)], inTurn := false)
    else if st.limit == 0 then st.(es := st.es[i := Used(e, now, true)])
    else st.(es := [Used(e, now, false)] + Without(st.es, i), moved := if i < st.moved then st.moved else st.moved + 1)
  }

  ghost function AfterDiscard<K, V>(st: State<K, V>, i: nat): State<K, V>
    requires i < |st.es|
  {
    if st.tiny then st.(es := SwapRemove(st.es, i), inTurn := false)
    else st.(es := Without(st.es, i), moved := if i < st.moved then st.moved - 1 else st.moved)
  }

  ghost function After<K, V>(st: State<K, V>, use: Use<K, V>, now: nat): State<K, V> {
    match use
    case Add(k, v) => AfterAdd(st, (k, v), now)
    case Touch(k) => var i := Find(Plain(st.es), k); if i < |st.es| then AfterTouch(st, i, now) else st
    case Discard(k) => var i := Find(Plain(st.es), k); if i < |st.es| then AfterDiscard(st, i) else st
    case SetLimit(value) => if value >= 0 then st.(limit := value) else st
  }

  ghost function AfterAll<K, V>(st: State<K, V>, uses: seq<Use<K, V>>, now: nat): State<K, V>
    decreases |uses|
  {
    if uses == [] then st else AfterAll(After(st, uses[0], now), uses[1..], now + 1)
  }

  ghost function NewState<K, V>(): State<K, V> {
    State(true, [], 0, 0, true)
  }

  // ----- The order of a list -----

  ghost predicate Newer<K, V>(es: Stamped<K, V>, i: int, j: int)
    requires 0 <= i < |es| && 0 <= j < |es|
  {
    es[j].at < es[i].at
  }

  /**
   The order of the list tells nothing about the last uses of i and a later j: j was overlooked since it got
   its place, or both are where the slots put them.
   */
  ghost predicate InDoubt<K, V>(es: Stamped<K, V>, r: nat, i: int, j: int)
    requires 0 <= i < |es| && 0 <= j < |es|
  {
    es[j].overlooked || (r <= i && !es[i].overlooked)
  }

  /** Otherwise what comes first was used last. */
  ghost predicate ByRecency<K, V>(es: Stamped<K, V>, r: nat) {
    forall i, j :: 0 <= i < j < |es| && !InDoubt(es, r, i, j) ==> Newer(es, i, j)
  }

  /** Behind r, what was not overlooked is in the reverse order of last use. */
  ghost predicate ByAge<K, V>(es: Stamped<K, V>, r: nat) {
    forall i, j :: r <= i < j < |es| && !es[i].overlooked && !es[j].overlooked ==> Newer(es, j, i)
  }

  ghost predicate Before<K, V>(es: Stamped<K, V>, now: nat) {
    forall i :: 0 <= i < |es| ==> es[i].at < now
  }

  ghost predicate NoneOverlooked<K, V>(es: Stamped<K, V>) {
    forall i :: 0 <= i < |es| ==> !es[i].overlooked
  }

  ghost predicate Sound<K, V>(st: State<K, V>, now: nat) {
    && Front(st) <= |st.es| && Before(st.es, now)
    && (st.tiny ==> NoneOverlooked(st.es) && |st.es| <= IH_VALUES)
    && ByRecency(st.es, Front(st)) && (st.inTurn ==> ByAge(st.es, Front(st)))
  }

  /** b is made of entries of a, some left out, those before r staying before q. */
  ghost predicate Thinned<K, V>(a: Stamped<K, V>, r: nat, b: Stamped<K, V>, q: nat, from: int -> int) {
    && q <= |b|
    && (forall j {:trigger from(j)} :: 0 <= j < |b| ==>
          0 <= from(j) < |a| && b[j] == a[from(j)] && (j < q <==> from(j) < r))
    && (forall j, k {:trigger from(j), from(k)} :: 0 <= j < k < |b| ==> from(j) < from(k))
  }

  lemma ThinnedOrder<K, V>(a: Stamped<K, V>, r: nat, b: Stamped<K, V>, q: nat, from: int -> int, now: nat)
    requires Thinned(a, r, b, q, from) && Before(a, now) && ByRecency(a, r)
    ensures Before(b, now) && ByRecency(b, q) && (ByAge(a, r) ==> ByAge(b, q))
  {
    forall j | 0 <= j < |b| ensures b[j].at < now {
      assert b[j] == a[from(j)];
    }
    forall j, k | 0 <= j < k < |b| && !InDoubt(b, q, j, k) ensures Newer(b, j, k) {
      assert from(j) < from(k) && !InDoubt(a, r, from(j), from(k));
    }
    if ByAge(a, r) {
      forall j, k | q <= j < k < |b| && !b[j].overlooked && !b[k].overlooked ensures Newer(b, k, j) {
        assert from(j) < from(k) && Newer(a, from(k), from(j));
      }
    }
  }

  lemma WithoutOrder<K, V>(es: Stamped<K, V>, r: nat, i: nat, now: nat)
    requires i < |es| && r <= |es| && Before(es, now) && ByRecency(es, r)
    ensures var w, q := Without(es, i), if i < r then r - 1 else r;
            q <= |w| && Before(w, now) && ByRecency(w, q) && (ByAge(es, r) ==> ByAge(w, q))
  {
    ThinnedOrder(es, r, Without(es, i), if i < r then r - 1 else r, j => if j < i then j else j + 1, now);
  }

  lemma PrefixOrder<K, V>(es: Stamped<K, V>, r: nat, m: nat, now: nat)
    requires m <= |es| && r <= |es| && Before(es, now) && ByRecency(es, r)
    ensures Before(es[..m], now) && ByRecency(es[..m], Less(r, m)) && (ByAge(es, r) ==> ByAge(es[..m], Less(r, m)))
  {
    ThinnedOrder(es, r, es[..m], Less(r, m), j => j, now);
  }

  lemma ConsOrder<K, V>(e: (K, V), now: nat, es: Stamped<K, V>, r: nat)
    requires Before(es, now) && r <= |es| && ByRecency(es, r)
    ensures var c := [Used(e, now, false)] + es;
            Before(c, now + 1) && ByRecency(c, r + 1) && (ByAge(es, r) ==> ByAge(c, r + 1))
  {
    var c := [Used(e, now, false)] + es;
    assert forall j :: 0 < j < |c| ==> c[j] == es[j - 1];
    forall j, k | 0 <= j < k < |c| && !InDoubt(c, r + 1, j, k) ensures Newer(c, j, k) {
      if j > 0 {
        assert !InDoubt(es, r, j - 1, k - 1);
      }
    }
    if ByAge(es, r) {
      forall j, k | r + 1 <= j < k < |c| && !c[j].overlooked && !c[k].overlooked ensures Newer(c, k, j) {
        assert Newer(es, k - 1, j - 1);
      }
    }
  }

  /** A lookup without a limit; the entry is newer than all others. */
  lemma OverlookOrder<K, V>(es: Stamped<K, V>, r: nat, i: nat, now: nat)
    requires i < |es| && Before(es, now) && ByRecency(es, r)
    ensures var c := es[i := Used(es[i].entry, now, true)];
            Before(c, now + 1) && ByRecency(c, r) && (ByAge(es, r) ==> ByAge(c, r))
  {
    var c := es[i := Used(es[i].entry, now, true)];
    forall j, k | 0 <= j < k < |c| && !InDoubt(c, r, j, k) ensures Newer(c, j, k) {
      if j != i {
        assert !InDoubt(es, r, j, k);
      }
    }
    if ByAge(es, r) {
      forall j, k | r <= j < k < |c| && !c[j].overlooked && !c[k].overlooked ensures Newer(c, k, j) {
        assert Newer(es, k, j);
      }
    }
  }

  lemma SlotAdded<K, V>(st: State<K, V>, e: (K, V), now: nat)
    requires Sound(st, now) && st.tiny && |st.es| < IH_VALUES
    ensures Sound(AfterAdd(st, e, now), now + 1)
  {
    var es := st.es + [Used(e, now, false)];
    if st.inTurn {
      forall j, k | 0 <= j < k < |es| ensures Newer(es, k, j) {
        if k < |st.es| {
          assert Newer(st.es, k, j);
        }
      }
    }
  }

  lemma AddSound<K, V>(st: State<K, V>, e: (K, V), now: nat)
    requires Sound(st, now)
    ensures Sound(AfterAdd(st, e, now), now + 1)
  {
    if st.tiny && |st.es| < IH_VALUES {
      SlotAdded(st, e, now);
    } else {
      var r, kept := Front(st), Kept(st);
      assert kept == st.es[..|kept|];
      PrefixOrder(st.es, r, |kept|, now);
      ConsOrder(e, now, kept, Less(r, |kept|));
    }
  }

  lemma TouchSound<K, V>(st: State<K, V>, i: nat, now: nat)
    requires Sound(st, now) && i < |st.es|
    ensures Sound(AfterTouch(st, i, now), now + 1)
  {
    if !st.tiny && st.limit == 0 {
      OverlookOrder(st.es, st.moved, i, now);
    } else if !st.tiny {
      WithoutOrder(st.es, st.moved, i, now);
      ConsOrder(st.es[i].entry, now, Without(st.es, i), if i < st.moved then st.moved - 1 else st.moved);
    }
  }

  lemma DiscardSound<K, V>(st: State<K, V>, i: nat, now: nat)
    requires Sound(st, now) && i < |st.es|
    ensures Sound(AfterDiscard(st, i), now + 1)
  {
    if st.tiny {
      var b := SwapRemove(st.es, i);
      assert forall j :: 0 <= j < |b| ==> b[j] == st.es[if j == i then |st.es| - 1 else j];
    } else {
      WithoutOrder(st.es, st.moved, i, now);
    }
  }

  lemma UseSound<K, V>(st: State<K, V>, use: Use<K, V>, now: nat)
    requires Sound(st, now)
    ensures Sound(After(st, use, now), now + 1)
  {
    var i := if use.Touch? || use.Discard? then Find(Plain(st.es), use.key) else 0;
    match use
    case Add(k, v) => AddSound(st, (k, v), now);
    case Touch(_) => if i < |st.es| { TouchSound(st, i, now); }
    case Discard(_) => if i < |st.es| { DiscardSound(st, i, now); }
    case SetLimit(_) =>
  }

  /**
   From any list on: where nothing was overlooked, what was used since comes first, in the order of last use,
   and the rest is as it was; an overlooked entry is newer than those behind it that were not.
   */
  lemma {:induction false} RunSound<K, V>(st: State<K, V>, uses: seq<Use<K, V>>, now: nat)
    requires Sound(st, now)
    ensures Sound(AfterAll(st, uses, now), now + |uses|)
    decreases |uses|
  {
    if uses != [] {
      UseSound(st, uses[0], now);
      RunSound(After(st, uses[0], now), uses[1..], now + 1);
    }
  }

  // ----- What an addition evicts -----

  /** Everything evicted was last used before everything kept. */
  ghost predicate EvictsOldest<K, V>(es: Stamped<K, V>, kept: nat) {
    forall i, j :: 0 <= i < kept <= j < |es| ==> Newer(es, i, j)
  }

  /** The next addition goes into buckets, and so makes room. */
  ghost predicate MakesRoom<K, V>(st: State<K, V>) {
    st.tiny ==> |st.es| == IH_VALUES
  }

  /** Where the order of the list tells nothing, what is kept is newer than what is evicted all the same. */
  ghost predicate NewerInDoubt<K, V>(es: Stamped<K, V>, r: nat, kept: nat) {
    forall i, j :: 0 <= i < kept <= j < |es| && InDoubt(es, r, i, j) ==> Newer(es, i, j)
  }

  lemma OldestIff<K, V>(es: Stamped<K, V>, r: nat, kept: nat)
    requires r <= |es| && kept <= |es| && ByRecency(es, r)
    ensures EvictsOldest(es, kept) <==> NewerInDoubt(es, r, kept)
  {
    if NewerInDoubt(es, r, kept) {
      forall i, j | 0 <= i < kept <= j < |es| ensures Newer(es, i, j) {
        assert InDoubt(es, r, i, j) ==> Newer(es, i, j);
      }
    }
  }

  /** All unmoved entries that are kept were overlooked. */
  ghost predicate KeptOverlooked<K, V>(es: Stamped<K, V>, r: nat, kept: nat) {
    forall i :: r <= i < kept <= |es| ==> es[i].overlooked
  }

  lemma InTurnIff<K, V>(es: Stamped<K, V>, r: nat, kept: nat)
    requires r <= |es| && kept <= |es| && ByRecency(es, r) && ByAge(es, r) && NoneOverlooked(es[kept..])
    ensures EvictsOldest(es, kept) <==> kept == |es| || KeptOverlooked(es, r, kept)
  {
    assert forall j :: kept <= j < |es| ==> es[j] == es[kept..][j - kept];
    if kept == |es| || KeptOverlooked(es, r, kept) {
      forall i, j | 0 <= i < kept <= j < |es| ensures Newer(es, i, j) {
        assert !InDoubt(es, r, i, j);
      }
    } else {
      var i :| r <= i < kept && !es[i].overlooked;
      assert Newer(es, kept, i) && !Newer(es, i, kept);
    }
  }

  /**
   In every run from the empty hash, an addition evicts the least recently used entries if and only if what is
   kept is newer wherever that is in doubt: where the evicted entry was overlooked, or neither was used since
   the switch. The limit has no effect before it.
   */
  lemma EvictsOldestIff<K, V>(uses: seq<Use<K, V>>)
    ensures var st := AfterAll(NewState<K, V>(), uses, 0);
            MakesRoom(st) ==> (EvictsOldest(st.es, |Kept(st)|) <==> NewerInDoubt(st.es, Front(st), |Kept(st)|))
  {
    RunSound(NewState<K, V>(), uses, 0);
    var st := AfterAll(NewState<K, V>(), uses, 0);
    OldestIff(st.es, Front(st), |Kept(st)|);
  }

  /**
   If the slots were filled in turn and nothing evicted was overlooked, that is exactly when nothing is evicted
   or all unmoved entries that are kept were overlooked. For a list at its limit, of which one entry goes, and
   in which nothing was overlooked, it is so exactly while at most one entry is unmoved.
   */
  lemma InTurnEvictsOldestIff<K, V>(uses: seq<Use<K, V>>)
    ensures var st := AfterAll(NewState<K, V>(), uses, 0);
            var kept := |Kept(st)|;
            MakesRoom(st) && st.inTurn && NoneOverlooked(st.es[kept..]) ==>
              && (EvictsOldest(st.es, kept) <==> kept == |st.es| || KeptOverlooked(st.es, Front(st), kept))
              && (NoneOverlooked(st.es) && |st.es| == st.limit > 0 ==>
                    (EvictsOldest(st.es, kept) <==> Unmoved(st) <= 1))
  {
    RunSound(NewState<K, V>(), uses, 0);
    var st := AfterAll(NewState<K, V>(), uses, 0);
    var r, kept := Front(st), |Kept(st)|;
    if st.inTurn && NoneOverlooked(st.es[kept..]) {
      InTurnIff(st.es, r, kept);
      assert r < kept && NoneOverlooked(st.es) ==> !st.es[r].overlooked;
    }
  }

  /** An addition to a NORMAL hash leaves no more than the limit, the new entry first. */
  lemma LimitHolds<K, V>(st: State<K, V>, e: (K, V), now: nat)
    ensures var st' := AfterAdd(st, e, now);
            !st'.tiny ==>
              && st'.es[0] == Used(e, now, false) && st'.es[1..] == Kept(st) <= st.es
              && (st.limit > 0 ==> |st'.es| <= st.limit)
  {
  }

  // ----- The hash does this -----

  ghost predicate Looks<K(!new), V>(h: Hash<K, V>, es: seq<(K, V)>, tiny: bool, limit: nat)
    reads h, h.nodes
  {
    h.Valid() && h.cursors == [] && h.Entries() == es && (h.numbuckets == 0 <==> tiny) && h.lruLimit == limit
  }

  ghost predicate Shows<K(!new), V>(h: Hash<K, V>, st: State<K, V>)
    reads h, h.nodes
  {
    Looks(h, Plain(st.es), st.tiny, st.limit)
  }

  lemma PlainAdd<K, V>(st: State<K, V>, e: (K, V), now: nat)
    ensures Plain(AfterAdd(st, e, now).es) ==
              if st.tiny && |st.es| < IH_VALUES then Plain(st.es) + [e] else [e] + MakeRoom(Plain(st.es), st.limit)
  {
  }

  lemma PlainTouch<K, V>(st: State<K, V>, i: nat, now: nat)
    requires i < |st.es|
    ensures Plain(AfterTouch(st, i, now).es) ==
              if !st.tiny && st.limit > 0 then MoveFront(Plain(st.es), i) else Plain(st.es)
  {
    var es, plain := AfterTouch(st, i, now).es, Plain(st.es);
    if !st.tiny && st.limit > 0 {
      var w := Without(st.es, i);
      assert Plain(w) == Without(plain, i);
      assert es == [Used(st.es[i].entry, now, false)] + w;
      assert Plain(es) == [plain[i]] + Plain(w);
    } else {
      assert Plain(es) == plain;
    }
  }

  lemma PlainDiscard<K, V>(st: State<K, V>, i: nat)
    requires i < |st.es|
    ensures Plain(AfterDiscard(st, i).es) ==
              if st.tiny then SwapRemove(Plain(st.es), i) else Without(Plain(st.es), i)
  {
  }

  method UseAdd<K(==, !new), V(==)>(h: Hash<K, V>, key: K, value: V, ghost st: State<K, V>, ghost now: nat)
    requires Shows(h, st)
    modifies h, h.nodes
    ensures Shows(h, AfterAdd(st, (key, value), now)) && fresh(h.nodes - old(h.nodes))
  {
    hide Hash.Valid;
    PlainAdd(st, (key, value), now);
    h.Counted();
    assert h.HasSlot() <==> st.tiny && |st.es| < IH_VALUES;
    h.Add(key, value);
  }

  method UseTouch<K(==, !new), V(==)>(h: Hash<K, V>, key: K, ghost st: State<K, V>, ghost now: nat)
    requires Shows(h, st)
    modifies h, h.nodes
    ensures Shows(h, After(st, Touch(key), now)) && h.nodes == old(h.nodes)
  {
    hide Hash.Valid;
    PlainTouched(st, key, now);
    TouchEntries(h, key, Plain(st.es), st.tiny, st.limit);
  }

  method TouchEntries<K(==, !new), V(==)>(h: Hash<K, V>, key: K, ghost es: seq<(K, V)>, ghost tiny: bool,
                                          ghost limit: nat)
    requires Looks(h, es, tiny, limit)
    modifies h, h.nodes
    ensures Looks(h, Touched(es, key, tiny, limit), tiny, limit) && h.nodes == old(h.nodes)
  {
    hide Hash.Valid;
    var _ := h.Get(key);
  }

  /** The entries after a lookup without iterators. */
  ghost function Touched<K, V>(es: seq<(K, V)>, key: K, tiny: bool, limit: nat): seq<(K, V)> {
    if Find(es, key) < |es| && !tiny && limit > 0 then MoveFront(es, Find(es, key)) else es
  }

  lemma PlainTouched<K, V>(st: State<K, V>, key: K, now: nat)
    ensures var st' := After(st, Touch(key), now);
            && Plain(st'.es) == Touched(Plain(st.es), key, st.tiny, st.limit)
            && st'.tiny == st.tiny && st'.limit == st.limit
  {
    var i := Find(Plain(st.es), key);
    if i < |st.es| {
      PlainTouch(st, i, now);
    }
  }

  method UseDiscard<K(==, !new), V(==)>(h: Hash<K, V>, key: K, ghost st: State<K, V>, ghost now: nat)
    requires Shows(h, st)
    modifies h, h.nodes
    ensures Shows(h, After(st, Discard(key), now)) && h.nodes == old(h.nodes)
  {
    hide Hash.Valid;
    PlainDiscarded(st, key, now);
    DiscardEntry(h, key, Plain(st.es), st.tiny, st.limit);
  }

  method DiscardEntry<K(==, !new), V(==)>(h: Hash<K, V>, key: K, ghost es: seq<(K, V)>, ghost tiny: bool,
                                          ghost limit: nat)
    requires Looks(h, es, tiny, limit)
    modifies h, h.nodes
    ensures Looks(h, Hash.Deleted(es, key, tiny), tiny, limit) && h.nodes == old(h.nodes)
  {
    hide Hash.Valid;
    var _ := h.Del(key);
  }

  lemma PlainDiscarded<K(!new), V>(st: State<K, V>, key: K, now: nat)
    ensures var st' := After(st, Discard(key), now);
            && Plain(st'.es) == Hash.Deleted(Plain(st.es), key, st.tiny)
            && st'.tiny == st.tiny && st'.limit == st.limit
  {
    var i := Find(Plain(st.es), key);
    if i < |st.es| {
      PlainDiscard(st, i);
    }
  }

  /** One use of a hash without iterators, in either mode. */
  method UseHash<K(==, !new), V(==)>(h: Hash<K, V>, use: Use<K, V>, ghost st: State<K, V>, ghost now: nat)
    requires Shows(h, st)
    modifies h, h.nodes
    ensures Shows(h, After(st, use, now)) && fresh(h.nodes - old(h.nodes))
  {
    hide Hash.Valid;
    match use
    case Add(k, v) => UseAdd(h, k, v, st, now);
    case Touch(k) => UseTouch(h, k, st, now);
    case Discard(k) => UseDiscard(h, k, st, now);
    case SetLimit(value) => var _ := h.SetLruLimit(value);
  }

  /** Any number of them. */
  method UseAll<K(==, !new), V(==)>(h: Hash<K, V>, uses: seq<Use<K, V>>, ghost st: State<K, V>, ghost now: nat)
    requires Shows(h, st)
    modifies h, h.nodes
    ensures Shows(h, AfterAll(st, uses, now)) && fresh(h.nodes - old(h.nodes))
    decreases |uses|
  {
    hide Hash.Valid;
    if uses != [] {
      UseHash(h, uses[0], st, now);
      UseAll(h, uses[1..], After(st, uses[0], now), now + 1);
    }
  }

  // ----- An older entry stays -----

  lemma OneUse<K, V>(st: State<K, V>, use: Use<K, V>, rest: seq<Use<K, V>>, now: nat)
    ensures AfterAll(st, [use] + rest, now) == AfterAll(After(st, use, now), rest, now + 1)
  {
    assert ([use] + rest)[1..] == rest;
  }

  /** Number n, added at that time. */
  function Nth(n: nat): Used<int, int> {
    Used((n, n), n, false)
  }

  function AddNth(n: nat): Use<int, int> {
    Add(n, n)
  }

  /** After n additions, all in slots. */
  function Slots(n: nat, limit: nat): State<int, int> {
    State(true, seq(n, i requires 0 <= i => Nth(i + 1)), limit, 0, true)
  }

  lemma SlotsFill(n: nat, limit: nat, rest: seq<Use<int, int>>)
    requires n < IH_VALUES
    ensures AfterAll(Slots(n, limit), [AddNth(n + 1)] + rest, n + 1) == AfterAll(Slots(n + 1, limit), rest, n + 2)
  {
    hide AfterAll;
    OneUse(Slots(n, limit), AddNth(n + 1), rest, n + 1);
    assert After(Slots(n, limit), AddNth(n + 1), n + 1).es == Slots(n + 1, limit).es;
  }

  /** After a fifth addition. */
  function Five(limit: nat): State<int, int> {
    State(false, [Nth(5), Nth(1), Nth(2), Nth(3), Nth(4)], limit, 1, true)
  }

  /** A limit, five additions, and what is done then. */
  function FiveAdditions(limit: nat, rest: seq<Use<int, int>>): seq<Use<int, int>> {
    [SetLimit(limit)] + ([AddNth(1)] + ([AddNth(2)] + ([AddNth(3)] + ([AddNth(4)] + ([AddNth(5)] + rest)))))
  }

  lemma FourAdded(limit: nat, rest: seq<Use<int, int>>)
    ensures AfterAll(Slots(0, limit), [AddNth(1)] + ([AddNth(2)] + ([AddNth(3)] + ([AddNth(4)] + rest))), 1)
         == AfterAll(Slots(4, limit), rest, 5)
  {
    hide AfterAll;
    var four := [AddNth(4)] + rest;
    var three := [AddNth(3)] + four;
    var two := [AddNth(2)] + three;
    SlotsFill(0, limit, two);
    SlotsFill(1, limit, three);
    SlotsFill(2, limit, four);
    SlotsFill(3, limit, rest);
  }

  lemma FifthAdded(limit: nat, rest: seq<Use<int, int>>)
    requires limit == 0 || limit >= 5
    ensures AfterAll(Slots(4, limit), [AddNth(5)] + rest, 5) == AfterAll(Five(limit), rest, 6)
  {
    hide AfterAll;
    OneUse(Slots(4, limit), AddNth(5), rest, 5);
    assert After(Slots(4, limit), AddNth(5), 5).es == Five(limit).es;
  }

  lemma FiveAdded(limit: nat, rest: seq<Use<int, int>>)
    requires limit == 0 || limit >= 5
    ensures AfterAll(NewState<int, int>(), FiveAdditions(limit, rest), 0) == AfterAll(Five(limit), rest, 6)
  {
    hide AfterAll;
    var five := [AddNth(5)] + rest;
    assert After(NewState<int, int>(), SetLimit(limit), 0).es == Slots(0, limit).es;
    OneUse(NewState<int, int>(), SetLimit(limit),
           [AddNth(1)] + ([AddNth(2)] + ([AddNth(3)] + ([AddNth(4)] + five))), 0);
    FourAdded(limit, five);
    FifthAdded(limit, rest);
  }

  /** A sixth addition under a limit of 5 evicts entry 4, which was used after entry 1, which stays. */
  lemma OlderKept()
    ensures var st := Five(5);
            && Newer(st.es, 4, 1) && !EvictsOldest(st.es, |Kept(st)|)
            && Plain(AfterAll(st, [AddNth(6)] + [], 6).es) == [(6, 6), (5, 5), (1, 1), (2, 2), (3, 3)]
  {
    var st := Five(5);
    OneUse(st, AddNth(6), [], 6);
    assert |Kept(st)| == 4 && !Newer(st.es, 1, 4);
  }

  /** Entry 4 is evicted, while entry 1, which was never used after it was added before, stays. */
  method OlderStays() returns (h: Hash<int, int>)
    ensures h.Valid() && fresh(h)
    ensures h.Entries() == [(6, 6), (5, 5), (1, 1), (2, 2), (3, 3)]
  {
    h := new Hash((k: int) => if k < 0 then 0 else k, 100);
    UseAll(h, FiveAdditions(5, [AddNth(6)] + []), NewState(), 0);
    FiveAdded(5, [AddNth(6)] + []);
    OlderKept();
  }

  // ----- The entry used last goes -----

  /** Without a limit: a sixth addition and a lookup of 4; then a limit of 6. */
  function SixAndLookup(rest: seq<Use<int, int>>): seq<Use<int, int>> {
    [AddNth(6)] + ([Touch(4)] + ([SetLimit(6)] + rest))
  }

  function Six(limit: nat, last: Used<int, int>): State<int, int> {
    State(false, [Nth(6), Nth(5), Nth(1), Nth(2), Nth(3), last], limit, 2, true)
  }

  lemma SixthAdded(rest: seq<Use<int, int>>)
    ensures AfterAll(Five(0), [AddNth(6)] + rest, 6) == AfterAll(Six(0, Nth(4)), rest, 7)
  {
    hide AfterAll;
    OneUse(Five(0), AddNth(6), rest, 6);
    assert After(Five(0), AddNth(6), 6).es == Six(0, Nth(4)).es;
  }

  lemma LookedUp(rest: seq<Use<int, int>>)
    ensures AfterAll(Six(0, Nth(4)), [Touch(4)] + rest, 7) == AfterAll(Six(0, Used((4, 4), 7, true)), rest, 8)
  {
    hide AfterAll;
    var st := Six(0, Nth(4));
    OneUse(st, Touch(4), rest, 7);
    FindIs(Plain(st.es), 4, 5);
    assert After(st, Touch(4), 7).es == Six(0, Used((4, 4), 7, true)).es;
  }

  lemma FourLookedUp(rest: seq<Use<int, int>>)
    ensures AfterAll(Five(0), SixAndLookup(rest), 6) == AfterAll(Six(6, Used((4, 4), 7, true)), rest, 9)
  {
    hide AfterAll;
    var limited := [SetLimit(6)] + rest;
    SixthAdded([Touch(4)] + limited);
    LookedUp(limited);
    OneUse(Six(0, Used((4, 4), 7, true)), SetLimit(6), rest, 8);
  }

  /** A seventh addition evicts entry 4, which was used after all others. */
  lemma NewestEvicted()
    ensures var st := Six(6, Used((4, 4), 7, true));
            && (forall i :: 0 <= i < 5 ==> Newer(st.es, 5, i)) && !EvictsOldest(st.es, |Kept(st)|)
            && Plain(AfterAll(st, [AddNth(7)] + [], 9).es) == [(7, 7), (6, 6), (5, 5), (1, 1), (2, 2), (3, 3)]
  {
    var st := Six(6, Used((4, 4), 7, true));
    OneUse(st, AddNth(7), [], 9);
    assert |Kept(st)| == 5 && !Newer(st.es, 0, 5);
  }

  /** Entry 4 was looked up after the last addition before the limit was set, and is evicted. */
  method NewestGoes() returns (h: Hash<int, int>)
    ensures h.Valid() && fresh(h)
    ensures h.Entries() == [(7, 7), (6, 6), (5, 5), (1, 1), (2, 2), (3, 3)]
  {
    h := new Hash((k: int) => if k < 0 then 0 else k, 100);
    UseAll(h, FiveAdditions(0, SixAndLookup([AddNth(7)] + [])), NewState(), 0);
    FiveAdded(0, SixAndLookup([AddNth(7)] + []));
    FourLookedUp([AddNth(7)] + []);
    NewestEvicted();
  }
}
