/** Transitive activation of file dependency chains (libasn1compiler/asn1c_fdeps.c, `asn1c_activate_dependency`). */
module Fdeps {
  import opened Wrappers

  /** A dependency chain: an observed name, the names that depend on it, and whether it is in use. */
  class Chain {
    const deps: seq<string>
    var active: bool
    var activatedBy: string

    constructor (deps: seq<string>, active: bool)
      ensures this.deps == deps && this.active == active
    {
      this.deps, this.active, this.activatedBy := deps, active, "";
    }
  }

  // ----- The name an activation asks for -----

  /** Position of the first c at or after i, or the length of s. */
  function IndexOf(s: string, c: char, i: nat): (r: nat)
    requires i <= |s|
    ensures i <= r <= |s| && (r < |s| ==> s[r] == c)
    ensures forall k :: i <= k < r ==> s[k] != c
    decreases |s| - i
  {
    if i == |s| || s[i] == c then i else IndexOf(s, c, i + 1)
  }

  /** The text after the first opening mark up to the next closing mark. */
  function Between(s: string, open: char, close: char): Option<string>
    requires IndexOf(s, open, 0) < |s|
  {
    var start := IndexOf(s, open, 0) + 1;
    var end := IndexOf(s, close, start);
    if end < |s| then Some(s[start..end]) else None
  }

  /** A file name, or the name inside an #include line; None when there is nothing to look for. */
  function FileName(data: string): Option<string> {
    if data == "" then None
    else if data[0] != '#' then Some(data)
    else if IndexOf(data, '<', 0) < |data| then Between(data, '<', '>')
    else if IndexOf(data, '\"', 0) < |data| then Between(data, '\"', '\"')
    else None
  }

  /** "#include <name>" asks for name. */
  lemma IncludeLine(name: string)
    requires '>' !in name
    ensures FileName("#include <" + name + ">") == Some(name)
  {
    var data := "#include <" + name + ">";
    IndexIs(data, '<', 0, 9);
    IndexIs(data, '>', 10, 10 + |name|);
    assert data[10..10 + |name|] == name;
  }

  /** So does "#include \"name\"", when no opening angle bracket comes before. */
  lemma QuotedLine(name: string)
    requires '\"' !in name && '<' !in name
    ensures FileName("#include \"" + name + "\"") == Some(name)
  {
    var data := "#include \"" + name + "\"";
    assert IndexOf(data, '<', 0) == |data|;
    IndexIs(data, '\"', 0, 9);
    IndexIs(data, '\"', 10, 10 + |name|);
    assert data[10..10 + |name|] == name;
  }

  lemma IndexIs(s: string, c: char, i: nat, r: nat)
    requires i <= r < |s| && s[r] == c && forall k :: i <= k < r ==> s[k] != c
    ensures IndexOf(s, c, i) == r
  {
  }

  /** A file name that is written as it is. */
  predicate Plain(name: string) {
    name != "" && name[0] != '#'
  }

  /** s is marked text: open, name and close, before which there is no other opening or closing mark. */
  ghost predicate Marks(s: string, open: char, name: string, close: char) {
    exists before: string, after: string ::
      s == before + [open] + name + [close] + after && open !in before && close !in name
  }

  /** A line asks for its text in angle marks, or in quotes if none of these opens; anything else for itself. */
  lemma FileNameIff(data: string, name: string)
    ensures FileName(data) == Some(name) <==>
              if Plain(data) then name == data
              else if '<' in data then Marks(data, '<', name, '>')
              else Marks(data, '\"', name, '\"')
  {
    if !Plain(data) && data != "" {
      if '<' in data {
        MarkedIff(data, '<', name, '>');
      } else {
        MarkedIff(data, '\"', name, '\"');
      }
    }
  }

  lemma MarkedIff(s: string, open: char, name: string, close: char)
    ensures Marks(s, open, name, close) <==> IndexOf(s, open, 0) < |s| && Between(s, open, close) == Some(name)
  {
    if Marks(s, open, name, close) {
      var before, after :| s == before + [open] + name + [close] + after && open !in before && close !in name;
      FindsMarked(before, open, name, close, after);
    }
    if IndexOf(s, open, 0) < |s| && Between(s, open, close) == Some(name) {
      MarkedWhereFound(s, open, close);
    }
  }

  lemma FindsMarked(before: string, open: char, name: string, close: char, after: string)
    requires open !in before && close !in name
    ensures var s := before + [open] + name + [close] + after;
            IndexOf(s, open, 0) < |s| && Between(s, open, close) == Some(name)
  {
    hide IndexOf;
    var s := before + [open] + name + [close] + after;
    var start, end := |before| + 1, |before| + 1 + |name|;
    assert s[..start - 1] == before && s[start - 1] == open;
    assert s[start..end] == name && s[end] == close;
    forall k | 0 <= k < start - 1 ensures s[k] != open {
      assert s[k] == before[k];
    }
    forall k | start <= k < end ensures s[k] != close {
      assert s[k] == name[k - start];
    }
    IndexIs(s, open, 0, start - 1);
    IndexIs(s, close, start, end);
  }

  lemma MarkedWhereFound(s: string, open: char, close: char)
    requires IndexOf(s, open, 0) < |s| && Between(s, open, close).Some?
    ensures Marks(s, open, Between(s, open, close).value, close)
  {
    hide IndexOf;
    var start := IndexOf(s, open, 0);
    var end := IndexOf(s, close, start + 1);
    var before, name, after := s[..start], s[start + 1..end], s[end + 1..];
    assert s == before + [open] + name + [close] + after;
  }

  // ----- Reachability -----

  /** Asking for data activates chain c, if that is inactive. */
  predicate Asks(data: string, c: Chain) {
    c.deps != [] && FileName(data) == Some(c.deps[0])
  }

  ghost predicate Mentions(c: Chain, d: Chain) {
    exists j :: 0 <= j < |c.deps| && Asks(c.deps[j], d)
  }

  /** path leads from data through chains outside active, each mentioning the next. */
  ghost predicate Leads(data: string, older path: seq<Chain>, all: set<Chain>, active: set<Chain>) {
    && path != [] && Asks(data, path[0])
    && (forall i :: 0 <= i < |path| ==> path[i] in all && path[i] !in active)
    && (forall i :: 0 <= i < |path| - 1 ==> Mentions(path[i], path[i + 1]))
  }

  ghost predicate Reachable(data: string, c: Chain, all: set<Chain>, active: set<Chain>) {
    exists path: seq<Chain> :: Leads(data, path, all, active) && path[|path| - 1] == c
  }

  /** Everything that c mentions is active. */
  ghost predicate Closed(c: Chain, all: set<Chain>, active: set<Chain>) {
    forall d, j :: d in all && 0 <= j < |c.deps| && Asks(c.deps[j], d) ==> d in active
  }

  lemma ReachDirect(data: string, c: Chain, all: set<Chain>, active: set<Chain>)
    requires c in all && c !in active && Asks(data, c)
    ensures Reachable(data, c, all, active)
  {
    assert Leads(data, [c], all, active) && [c][|[c]| - 1] == c;
  }

  /** What is reachable from a name c mentions, with more chains active, is reachable through c. */
  lemma ReachThrough(data: string, c: Chain, j: nat, d: Chain, all: set<Chain>, active: set<Chain>, more: set<Chain>)
    requires c in all && c !in active && Asks(data, c) && j < |c.deps|
    requires active <= more && Reachable(c.deps[j], d, all, more)
    ensures Reachable(data, d, all, active)
  {
    var path: seq<Chain> :| Leads(c.deps[j], path, all, more) && path[|path| - 1] == d;
    var longer := [c] + path;
    assert Mentions(c, path[0]);
    forall i | 0 <= i < |longer| - 1 ensures Mentions(longer[i], longer[i + 1]) {
      if i > 0 {
        assert Mentions(path[i - 1], path[i]);
      }
    }
    assert Leads(data, longer, all, active) && longer[|longer| - 1] == d;
  }

  /** A set that has what data asks for, and is closed beyond the first one, has everything reachable. */
  lemma {:induction false} ClosedReaches(data: string, path: seq<Chain>, all: set<Chain>,
                                           before: set<Chain>, after: set<Chain>)
    requires Leads(data, path, all, before)
    requires forall c :: c in all && Asks(data, c) ==> c in after
    requires forall c :: c in after && c !in before ==> Closed(c, all, after)
    ensures path[|path| - 1] in after
  {
    if |path| > 1 {
      var init := path[..|path| - 1];
      forall i | 0 <= i < |init| - 1 ensures Mentions(init[i], init[i + 1]) {
        assert Mentions(path[i], path[i + 1]);
      }
      ClosedReaches(data, init, all, before, after);
      assert Mentions(path[|path| - 2], path[|path| - 1]);
    }
  }

  // ----- Reachability by plain names -----

  /** The chain is that of a name which is written as it is. */
  predicate HeadedBy(c: Chain, name: string) {
    c.deps != [] && c.deps[0] == name && Plain(name)
  }

  /** path goes from the chain that is headed by name to chains that are headed by names listed before. */
  ghost predicate NamesLead(name: string, older path: seq<Chain>, all: set<Chain>, active: set<Chain>) {
    && path != [] && HeadedBy(path[0], name)
    && (forall i :: 0 <= i < |path| ==> path[i] in all && path[i] !in active)
    && (forall i :: 0 <= i < |path| - 1 ==> Lists(path[i], path[i + 1]))
  }

  ghost predicate Lists(c: Chain, d: Chain) {
    exists j :: 0 <= j < |c.deps| && HeadedBy(d, c.deps[j])
  }

  ghost predicate ReachableByName(name: string, c: Chain, all: set<Chain>, active: set<Chain>) {
    exists path: seq<Chain> :: NamesLead(name, path, all, active) && path[|path| - 1] == c
  }

  /** No name is an include line. */
  ghost predicate AllPlain(all: set<Chain>) {
    forall c, j :: c in all && 0 <= j < |c.deps| ==> Plain(c.deps[j])
  }

  lemma AsksForItself(name: string, c: Chain)
    ensures HeadedBy(c, name) ==> Asks(name, c)
    ensures Plain(name) && Asks(name, c) ==> HeadedBy(c, name)
  {
    if c.deps != [] {
      FileNameIff(name, c.deps[0]);
    }
  }

  lemma ListsIsMentions(c: Chain, d: Chain)
    ensures Lists(c, d) ==> Mentions(c, d)
    ensures (forall j :: 0 <= j < |c.deps| ==> Plain(c.deps[j])) && Mentions(c, d) ==> Lists(c, d)
  {
    forall j | 0 <= j < |c.deps|
      ensures HeadedBy(d, c.deps[j]) ==> Asks(c.deps[j], d)
      ensures Plain(c.deps[j]) && Asks(c.deps[j], d) ==> HeadedBy(d, c.deps[j])
    {
      AsksForItself(c.deps[j], d);
    }
  }

  /** What plain names lead to is reachable; among plain names nothing else is. */
  lemma ReachedByNames(name: string, c: Chain, all: set<Chain>, active: set<Chain>)
    ensures ReachableByName(name, c, all, active) ==> Reachable(name, c, all, active)
    ensures Plain(name) && AllPlain(all) && Reachable(name, c, all, active) ==> ReachableByName(name, c, all, active)
  {
    hide Asks, HeadedBy, Lists, Mentions, Plain;
    if ReachableByName(name, c, all, active) {
      var path: seq<Chain> :| NamesLead(name, path, all, active) && path[|path| - 1] == c;
      AsksForItself(name, path[0]);
      forall i | 0 <= i < |path| - 1 ensures Mentions(path[i], path[i + 1]) {
        ListsIsMentions(path[i], path[i + 1]);
      }
      assert Leads(name, path, all, active);
    }
    if Plain(name) && AllPlain(all) && Reachable(name, c, all, active) {
      var path: seq<Chain> :| Leads(name, path, all, active) && path[|path| - 1] == c;
      AsksForItself(name, path[0]);
      forall i | 0 <= i < |path| - 1 ensures Lists(path[i], path[i + 1]) {
        ListsIsMentions(path[i], path[i + 1]);
      }
      assert NamesLead(name, path, all, active);
    }
  }

  // ----- The activation -----

  /** A set of chains; entries are distinct objects. */
  class ChainSet {
    const chains: seq<Chain>

    constructor (chains: seq<Chain>)
      requires forall i, j :: 0 <= i < j < |chains| ==> chains[i] != chains[j]
      ensures this.chains == chains
    {
      this.chains := chains;
    }

    ghost function All(): set<Chain> {
      set c | c in chains
    }

    ghost function Active(): set<Chain>
      reads chains
    {
      set c | c in chains && c.active
    }

    ghost function Inactive(): set<Chain>
      reads chains
    {
      set c | c in chains && !c.active
    }

    /** The chains activated since bear the reason, and all others the one they had. */
    twostate predicate Labelled(reason: string)
      reads chains
    {
      forall c :: c in chains ==>
        && (old(c.active) ==> c.active)
        && c.activatedBy == if c.active && !old(c.active) then reason else old(c.activatedBy)
    }

    twostate lemma LabelledStep(reason: string)
      requires Labelled(reason)
      ensures forall c :: c in chains && old(c.active) ==> c.active && c.activatedBy == old(c.activatedBy)
      ensures forall c :: c in chains && !c.active ==> !old(c.active) && c.activatedBy == old(c.activatedBy)
      ensures forall c :: c in chains && c.active && !old(c.active) ==> c.activatedBy == reason
    {
    }

    /**
     Activate the chains of the named file and, through the names they list, all further ones.
     Exactly the chains reachable through chains that were inactive become active; by plain names, these are the
     chains headed by the name, by a name that such a chain lists, and so on.
     */
    method Activate(data: string, reason: string)
      requires data != "" ==> chains != []
      modifies chains
      ensures forall c :: c in chains ==>
                (c in Active() <==> c in old(Active()) || Reachable(data, c, All(), old(Active())))
      ensures forall c :: c in chains && ReachableByName(data, c, All(), old(Active())) ==> c in Active()
      ensures Plain(data) && AllPlain(All()) ==>
                forall c :: c in Active() ==> c in old(Active()) || ReachableByName(data, c, All(), old(Active()))
      ensures Advanced(data, old(Active()), Active(), All())
      ensures Labelled(reason)
      decreases Inactive(), 4
    {
      var fname := FileName(data);
      ghost var before := Active();
      if fname.Some? {
        ActivateNamed(data, fname.value, reason);
      }
      AdvancedIff(data, before, Active(), All());
      hide Asks, Reachable, ReachableByName, Plain, AllPlain, Grown, Closed, Advanced;
      forall c | c in chains
        ensures ReachableByName(data, c, All(), before) ==> Reachable(data, c, All(), before)
        ensures Plain(data) && AllPlain(All()) && Reachable(data, c, All(), before) ==>
                  ReachableByName(data, c, All(), before)
      {
        ReachedByNames(data, c, All(), before);
      }
    }

    method ActivateNamed(data: string, fname: string, reason: string)
      requires FileName(data) == Some(fname)
      modifies chains
      ensures Grown(data, old(Active()), Active(), {}, All()) && Asked(data, |chains|, Active())
      ensures Labelled(reason)
      decreases Inactive(), 3
    {
      ghost var before := Active();
      for i := 0 to |chains|
        invariant Grown(data, before, Active(), {}, All()) && Asked(data, i, Active())
        invariant Inactive() <= old(Inactive()) && Labelled(reason)
      {
        label Before:
        ActivateIfNamed(data, chains[i], fname, reason, before);
        LabelledStep@Before(reason);
      }
    }

    /** The first n chains are active if data asks for them. */
    ghost predicate Asked(data: string, n: nat, now: set<Chain>) {
      forall k :: 0 <= k < n <= |chains| && Asks(data, chains[k]) ==> chains[k] in now
    }

    method ActivateIfNamed(data: string, ch: Chain, fname: string, reason: string, ghost before: set<Chain>)
      requires ch in chains && FileName(data) == Some(fname)
      requires Grown(data, before, Active(), {}, All())
      modifies chains
      ensures Grown(data, before, Active(), {}, All())
      ensures Asks(data, ch) ==> ch in Active()
      ensures old(Active()) <= Active() && Inactive() <= old(Inactive())
      ensures Labelled(reason)
      decreases Inactive(), 2
    {
      if !ch.active && |ch.deps| > 0 && ch.deps[0] == fname {
        ActivateChain(data, ch, reason, before);
      }
    }

    /** Activate ch, which data asks for, and all that its names ask for. */
    method ActivateChain(data: string, ch: Chain, reason: string, ghost before: set<Chain>)
      requires ch in chains && !ch.active && Asks(data, ch)
      requires Grown(data, before, Active(), {}, All())
      modifies chains
      ensures Grown(data, before, Active(), {}, All())
      ensures old(Active()) + {ch} <= Active() && Inactive() <= old(Inactive())
      ensures Labelled(reason)
      decreases Inactive(), 1
    {
      ghost var start := Active() + {ch};
      ReachDirect(data, ch, All(), before);
      hide Asks, Grown;
      ch.activatedBy := reason;
      ch.active := true;
      assert Active() == start && Inactive() == old(Inactive()) - {ch};
      OpenChain(data, before, old(Active()), All(), ch);
      for j := 0 to |ch.deps|
        invariant start <= Active() && Inactive() <= old(Inactive()) - {ch}
        invariant Grown(data, before, Active(), {ch}, All())
        invariant ClosedUpTo(ch, j, All(), Active())
        invariant Labelled(reason)
      {
        ActivateNext(data, ch, j, reason, before);
      }
      CloseChain(data, before, Active(), All(), ch);
    }

    method ActivateNext(data: string, ch: Chain, j: nat, reason: string, ghost before: set<Chain>)
      requires ch in chains && ch !in before && Asks(data, ch) && j < |ch.deps|
      requires Grown(data, before, Active(), {ch}, All()) && ClosedUpTo(ch, j, All(), Active())
      modifies chains
      ensures Grown(data, before, Active(), {ch}, All()) && ClosedUpTo(ch, j + 1, All(), Active())
      ensures old(Active()) <= Active() && Inactive() <= old(Inactive())
      ensures Labelled(reason)
      decreases Inactive(), 5
    {
      ghost var pre := Active();
      Activate(ch.deps[j], reason);
      GrowStep(data, before, pre, Active(), All(), ch, j);
      assert Inactive() == All() - Active();
    }
  }

  /** The names of ch before the j-th have been dealt with. */
  ghost predicate ClosedUpTo(ch: Chain, j: nat, all: set<Chain>, now: set<Chain>) {
    forall d, k :: d in all && 0 <= k < j && k < |ch.deps| && Asks(ch.deps[k], d) ==> d in now
  }

  /** What one activation adds: reachable chains, closed, and the ones asked for. */
  ghost predicate Advanced(data: string, before: set<Chain>, now: set<Chain>, all: set<Chain>) {
    && before <= now <= all
    && (forall c :: c in now && c !in before ==> Reachable(data, c, all, before) && Closed(c, all, now))
    && (forall c :: c in all && Asks(data, c) ==> c in now)
  }

  lemma AdvancedIff(data: string, before: set<Chain>, now: set<Chain>, all: set<Chain>)
    requires Grown(data, before, now, {}, all) && forall c :: c in all && Asks(data, c) ==> c in now
    ensures Advanced(data, before, now, all)
    ensures forall c :: c in all ==> (c in now <==> c in before || Reachable(data, c, all, before))
  {
    forall c | c in all && Reachable(data, c, all, before) ensures c in now {
      var path: seq<Chain> :| Leads(data, path, all, before) && path[|path| - 1] == c;
      ClosedReaches(data, path, all, before, now);
    }
  }

  /**
   The active chains grew from before to now by chains reachable from data, and except for those still
   open everything that the new ones mention is active.
   */
  ghost predicate Grown(data: string, before: set<Chain>, now: set<Chain>, open: set<Chain>, all: set<Chain>) {
    && before <= now <= all
    && (forall c :: c in now && c !in before ==> Reachable(data, c, all, before))
    && (forall c :: c in now && c !in before && c !in open ==> Closed(c, all, now))
  }

  lemma OpenChain(data: string, before: set<Chain>, now: set<Chain>, all: set<Chain>, ch: Chain)
    requires Grown(data, before, now, {}, all) && ch in all && Reachable(data, ch, all, before)
    ensures Grown(data, before, now + {ch}, {ch}, all)
  {
    hide Asks, Reachable;
  }

  lemma CloseChain(data: string, before: set<Chain>, now: set<Chain>, all: set<Chain>, ch: Chain)
    requires Grown(data, before, now, {ch}, all) && ClosedUpTo(ch, |ch.deps|, all, now)
    ensures Grown(data, before, now, {}, all)
  {
    hide Asks, Reachable;
  }

  lemma GrowStep(data: string, before: set<Chain>, pre: set<Chain>, post: set<Chain>, all: set<Chain>,
                 ch: Chain, j: nat)
    requires Grown(data, before, pre, {ch}, all) && ClosedUpTo(ch, j, all, pre)
    requires ch in all && ch !in before && Asks(data, ch) && j < |ch.deps|
    requires Advanced(ch.deps[j], pre, post, all)
    ensures Grown(data, before, post, {ch}, all) && ClosedUpTo(ch, j + 1, all, post)
  {
    forall c | c in post && c !in before ensures Reachable(data, c, all, before) {
      if c !in pre {
        ReachThrough(data, ch, j, c, all, before, pre);
      }
    }
  }
}
