/** Collecting the tags of a type (libasn1fix/asn1fix_tags.c). */
module Tags {
  import opened Wrappers
  import IntegerOctets
  import TagOctets

  datatype Mode = Default | Implicit | Explicit

  datatype Tag = Tag(cls: int, value: int, mode: Mode)

  const UNIVERSAL := 1
  const PRIVATE := 4

  /** The order of tags: by class, then by number. */
  predicate Lesser(a: Tag, b: Tag) {
    a.cls < b.cls || (a.cls == b.cls && a.value < b.value)
  }

  /** A tag with a class, and a number that the generated code can hold. */
  predicate Printable(t: Tag) {
    1 <= t.cls <= 4 && 0 <= t.value < TagOctets.LIMIT / 8
  }

  /** Those that the generated codec writes for the tag. */
  function IdentifierOctets(t: Tag): seq<IntegerOctets.Octet>
    requires Printable(t)
  {
    TagOctets.Octets(TagOctets.Emitted(t.cls, t.value))
  }

  /** Numbers up to 30 go into one octet, with the class before; these octets are ordered as the tags are. */
  lemma LesserIff(a: Tag, b: Tag)
    requires Printable(a) && Printable(b) && a.value <= 30 && b.value <= 30
    ensures IdentifierOctets(a) == [64 * (a.cls - 1) + a.value]
    ensures Lesser(a, b) <==> IdentifierOctets(a)[0] < IdentifierOctets(b)[0]
  {
    hide TagOctets.Emitted;
  }

  /** What an expression is; a basic type without a universal tag has the number 0. */
  datatype Kind = ExtensionMark | BasicType(universal: nat) | AnyType | ChoiceType | TypeRef | Other

  datatype Flags = Flags(imaginaryAny: bool, outmost: bool, full: bool, canonical: bool)

  /** An expression; the alternatives of a CHOICE are nested less deep. */
  class Expr {
    const tag: Option<Tag>
    const kind: Kind
    const members: seq<Expr>
    ghost const depth: nat
    var mark: bool

    constructor (tag: Option<Tag>, kind: Kind, members: seq<Expr>, ghost depth: nat)
      ensures this.tag == tag && this.kind == kind && this.members == members && this.depth == depth && !mark
    {
      this.tag, this.kind, this.members, this.depth, mark := tag, kind, members, depth, false;
    }
  }

  /** How many members come before the extension marker. */
  function Roots(ms: seq<Expr>): (n: nat)
    ensures n <= |ms| && forall i :: 0 <= i < n ==> ms[i].kind != ExtensionMark
    ensures n < |ms| ==> ms[n].kind == ExtensionMark
  {
    if ms == [] || ms[0].kind == ExtensionMark then 0 else 1 + Roots(ms[1..])
  }

  /** What a reference leads to; an external type may be known by name only. */
  datatype Lookup = Found(expr: Expr) | Unknown | KnownExternal

  // ----- Lists of tags -----

  /** The tags of a type tagged with outer: IMPLICIT replaces the outermost tag, EXPLICIT adds one. */
  function TaggedWith(outer: Tag, inner: seq<Tag>): seq<Tag> {
    if outer.mode == Implicit && inner != [] then [outer] + inner[1..] else [outer] + inner
  }

  /** The tags of a type written with these tags, outermost first. Section 8.14 of X.690. */
  function Effective(written: seq<Tag>): seq<Tag> {
    if written == [] then [] else TaggedWith(written[0], Effective(written[1..]))
  }

  lemma EffectiveFirst(written: seq<Tag>)
    ensures written != [] ==> Effective(written) != [] && Effective(written)[0] == written[0]
    ensures written == [] ==> Effective(written) == []
  {
  }

  /** The first n tags but those that come right after an IMPLICIT one. */
  function KeptTags(written: seq<Tag>, n: nat): (r: seq<Tag>)
    requires n <= |written|
    ensures n > 0 ==> r != []
  {
    if n == 0 then []
    else KeptTags(written, n - 1) + if n > 1 && written[n - 2].mode == Implicit then [] else [written[n - 1]]
  }

  lemma {:induction false} KeptAfter(written: seq<Tag>, n: nat)
    requires n < |written|
    ensures var rest := KeptTags(written[1..], n);
            KeptTags(written, n + 1) ==
              [written[0]] + if written[0].mode == Implicit && rest != [] then rest[1..] else rest
  {
    if n > 0 {
      KeptAfter(written, n - 1);
    }
  }

  /** The tags of the recursive definition are these. */
  lemma {:induction false} EffectiveIsKept(written: seq<Tag>)
    ensures Effective(written) == KeptTags(written, |written|)
  {
    if written != [] {
      EffectiveIsKept(written[1..]);
      KeptAfter(written, |written| - 1);
    }
  }

  /** One pass over the written tags that leaves out as many as skip says; an IMPLICIT one adds to it. */
  function Added(written: seq<Tag>, skip: nat, full: bool): seq<Tag> {
    if written == [] then []
    else if skip > 0 && !full then
      Added(written[1..], if written[0].mode != Implicit then skip - 1 else skip, full)
    else
      [written[0]] + Added(written[1..], if written[0].mode == Implicit then skip + 1 else skip, full)
  }

  function Drop(s: seq<Tag>, k: nat): seq<Tag> {
    if k <= |s| then s[k..] else []
  }

  /** Skipping k drops the k outermost tags of the recursive definition. */
  lemma {:induction false} SkipDrops(written: seq<Tag>, skip: nat)
    ensures Added(written, skip, false) == Drop(Effective(written), skip)
  {
    if written != [] {
      var inner := Effective(written[1..]);
      SkipDrops(written[1..], skip);
      if skip > 0 {
        SkipDrops(written[1..], skip - 1);
      } else if written[0].mode == Implicit {
        SkipDrops(written[1..], 1);
      }
    }
  }

  lemma AddedFirst(t: Tag, rest: seq<Tag>, skip: nat, full: bool)
    ensures Added([t] + rest, skip, full) ==
              (if skip > 0 && !full then [] else [t]) + Added(rest, SkipAfter(t, skip, full), full)
  {
    assert ([t] + rest)[1..] == rest;
  }

  /** Full collection leaves nothing out. */
  lemma {:induction false} FullAddsAll(written: seq<Tag>, skip: nat)
    ensures Added(written, skip, true) == written
  {
    if written != [] {
      FullAddsAll(written[1..], if written[0].mode == Implicit then skip + 1 else skip);
    }
  }

  /** The skip counter after t. */
  function SkipAfter(t: Tag, skip: nat, full: bool): nat {
    if skip > 0 && !full then if t.mode != Implicit then skip - 1 else skip
    else if t.mode == Implicit then skip + 1 else skip
  }

  // ----- The chain of references -----

  /**
   How a chain ends: with a type that has a tag, an untagged CHOICE, of which the least tag may be wanted, an
   external type, or none of them.
   */
  datatype End = Complete | Untagged(least: Option<Tag>) | External | Failed

  datatype Written = Written(tags: seq<Tag>, end: End)

  /** The result: the number of tags, or -1. */
  datatype Outcome = Outcome(count: int, tags: seq<Tag>)

  /** The outcome when added come after the tags so far. */
  function Result(tags: seq<Tag>, added: seq<Tag>, end: End, outmost: bool): Outcome {
    var all := tags + added;
    if outmost && added != [] then Outcome(|tags| + 1, tags + [added[0]])
    else
      match end
      case Complete => Outcome(|all|, all)
      case Untagged(Some(t)) => if all == [] then Outcome(1, [t]) else Outcome(|all|, all)
      case Untagged(None) => Outcome(if all == [] then -1 else |all|, all)
      case External => Outcome(if all == [] || all[|all| - 1].mode == Implicit then |all| else -1, all)
      case Failed => Outcome(-1, all)
  }

  /** The outcome for a type with these written tags. */
  function OutcomeOf(written: Written, flags: Flags): Outcome {
    var added := if flags.full then written.tags else Effective(written.tags);
    var result := Result([], added, written.end, flags.outmost);
    if result.count <= 0 then Outcome(result.count, []) else result
  }

  /** The first tag of the outcome, if it has any. */
  function FirstTag(written: Written, flags: Flags): Option<Tag> {
    if OutcomeOf(written, flags).count <= 0 then None
    else if written.tags != [] then Some(written.tags[0])
    else if written.end.Untagged? then written.end.least
    else None
  }

  lemma FirstTagIsFirst(written: Written, flags: Flags)
    ensures var o := OutcomeOf(written, flags);
            o.count > 0 ==> o.tags != [] && FirstTag(written, flags) == Some(o.tags[0])
  {
    EffectiveFirst(written.tags);
  }

  lemma OutmostTag(written: Written, flags: Flags)
    requires flags.outmost
    ensures FirstTag(written, flags) ==
              if written.tags != [] then Some(written.tags[0])
              else if written.end.Untagged? then written.end.least else None
  {
    EffectiveFirst(written.tags);
  }

  /** The smaller of the least tag so far and the one of another alternative. */
  function Smaller(least: Option<Tag>, t: Option<Tag>): Option<Tag> {
    if t.Some? && (least.None? || Lesser(t.value, least.value)) then t else least
  }

  /** The written tags are collected after the ones before, with the given count. */
  predicate Fetched(before: seq<Tag>, written: Written, skip: nat, flags: Flags, count: int, after: seq<Tag>) {
    var result := Result(before, Added(written.tags, skip, flags.full), written.end, flags.outmost);
    count == result.count && (count != -1 ==> after == result.tags)
  }

  /** A tag t is skipped, or added and then either the only one or followed by the rest. */
  lemma FetchedFirst(before: seq<Tag>, t: Tag, rest: Written, skip: nat, flags: Flags,
                     mid: seq<Tag>, count: int, after: seq<Tag>)
    requires mid == before + if skip > 0 && !flags.full then [] else [t]
    requires if flags.outmost && mid != before then count == |mid| && after == mid
             else Fetched(mid, rest, SkipAfter(t, skip, flags.full), flags, count, after)
    ensures Fetched(before, Written([t] + rest.tags, rest.end), skip, flags, count, after)
  {
    var added := Added(rest.tags, SkipAfter(t, skip, flags.full), flags.full);
    AddedFirst(t, rest.tags, skip, flags.full);
    if skip > 0 && !flags.full {
      assert [] + added == added;
      assert before + [] == before;
    } else {
      ResultStep(before, t, added, rest.end, flags.outmost);
    }
  }

  lemma ResultStep(before: seq<Tag>, t: Tag, added: seq<Tag>, end: End, outmost: bool)
    ensures Result(before, [t] + added, end, outmost) ==
            if outmost then Outcome(|before| + 1, before + [t]) else Result(before + [t], added, end, outmost)
  {
    assert before + ([t] + added) == before + [t] + added;
  }

  class Modules {
    ghost const exprs: set<Expr>
    const lookup: Expr -> Lookup

    constructor (ghost exprs: set<Expr>, lookup: Expr -> Lookup)
      ensures this.exprs == exprs && this.lookup == lookup
    {
      this.exprs, this.lookup := exprs, lookup;
    }

    /** References lead to expressions, alternatives are expressions nested less deep, and tags have a class. */
    ghost predicate Valid() {
      forall e :: e in exprs ==>
        && (lookup(e).Found? ==> lookup(e).expr in exprs)
        && (forall i :: 0 <= i < |e.members| ==> e.members[i] in exprs && e.members[i].depth < e.depth)
        && (e.tag.Some? ==> e.tag.value.cls <= 4)
    }

    ghost function Marked(): set<Expr>
      reads exprs
    {
      set e | e in exprs && e.mark
    }

    ghost function Unmarked(): set<Expr>
      reads exprs
    {
      set e | e in exprs && !e.mark
    }

    lemma UnmarkedAreOthers()
      ensures Unmarked() == exprs - Marked()
    {
    }

    function Own(e: Expr): seq<Tag> {
      if e.tag.Some? then [e.tag.value] else []
    }

    /** What comes after the own tag of an expression that leads no further; least is that of a CHOICE. */
    function Ending(e: Expr, imaginaryAny: bool, least: Option<Tag>): Written {
      match e.kind
      case ExtensionMark => Written([Tag(-1, 0, Default)], Complete)
      case BasicType(n) => if n == 0 then Written([], Failed) else Written([Tag(UNIVERSAL, n, Default)], Complete)
      case AnyType => if imaginaryAny then Written([Tag(UNIVERSAL, -1, Default)], Complete) else Written([], Failed)
      case ChoiceType => Written([], Untagged(least))
      case TypeRef => Written([], if lookup(e).KnownExternal? then External else Failed)
      case Other => Written([], Failed)
    }

    predicate LeadsOn(e: Expr) {
      e.kind == TypeRef && lookup(e).Found?
    }

    function Tagged(e: Expr, rest: Written): Written {
      Written(Own(e) + rest.tags, rest.end)
    }

    /** All tags are of a class up to PRIVATE, which is 4. */
    predicate Classed(w: Written) {
      && (forall i :: 0 <= i < |w.tags| ==> w.tags[i].cls <= 4)
      && (w.end.Untagged? && w.end.least.Some? ==> w.end.least.value.cls <= 4)
    }

    /** The tags written along the chain of e, which must not come back to a reference in avoid. */
    ghost function Chain(e: Expr, avoid: set<Expr>, flags: Flags): (w: Written)
      requires Valid() && e in exprs
      ensures Classed(w)
      decreases exprs - avoid, e.depth, 2, 0
    {
      Tagged(e, Rest(e, avoid, flags))
    }

    /** The ones after the own tag of e. */
    ghost function Rest(e: Expr, avoid: set<Expr>, flags: Flags): (w: Written)
      requires Valid() && e in exprs
      ensures Classed(w)
      decreases exprs - avoid, e.depth, 1, 0
    {
      if !LeadsOn(e) then
        Ending(e, flags.imaginaryAny, if flags.canonical then Least(e, Roots(e.members), avoid, flags) else None)
      else if e in avoid then Written([], Failed)
      else Chain(lookup(e).expr, avoid + {e}, flags)
    }

    /** The least of the first tags of the first n alternatives. */
    ghost function Least(e: Expr, n: nat, avoid: set<Expr>, flags: Flags): (t: Option<Tag>)
      requires Valid() && e in exprs && n <= |e.members|
      ensures t.Some? ==> t.value.cls <= 4
      decreases exprs - avoid, e.depth, 0, n
    {
      if n == 0 then None
      else Smaller(Least(e, n - 1, avoid, flags), First(e.members[n - 1], avoid, flags))
    }

    ghost function First(e: Expr, avoid: set<Expr>, flags: Flags): (t: Option<Tag>)
      requires Valid() && e in exprs
      ensures t.Some? ==> t.value.cls <= 4
      decreases exprs - avoid, e.depth, 3, 0
    {
      FirstTag(Chain(e, avoid, flags), flags)
    }

    /** The chain of e leads on n times. */
    ghost predicate EndsAfter(e: Expr, n: nat) {
      if LeadsOn(e) then n > 0 && EndsAfter(lookup(e).expr, n - 1) else n == 0
    }

    /** Without the least tag of a CHOICE. */
    function Plainly(w: Written): Written {
      if w.end.Untagged? then w.(end := Untagged(None)) else w
    }

    /** The tags written along n references and at what they lead to, a CHOICE being left untagged. */
    ghost function Along(e: Expr, n: nat, imaginaryAny: bool): Written {
      Tagged(e, if n == 0 || !LeadsOn(e) then Ending(e, imaginaryAny, None)
                else Along(lookup(e).expr, n - 1, imaginaryAny))
    }

    lemma {:induction false} EndsOnce(e: Expr, n: nat, m: nat)
      requires EndsAfter(e, n) && EndsAfter(e, m)
      ensures n == m
    {
      if LeadsOn(e) {
        EndsOnce(lookup(e).expr, n - 1, m - 1);
      }
    }

    /** A chain that ends does not come back to a reference it went through. */
    lemma {:induction false} ChainEnds(e: Expr, avoid: set<Expr>, n: nat, flags: Flags)
      requires Valid() && e in exprs && EndsAfter(e, n)
      requires forall x, m: nat :: x in avoid && EndsAfter(x, m) ==> m > n
      ensures Plainly(Chain(e, avoid, flags)) == Along(e, n, flags.imaginaryAny)
      ensures !flags.canonical ==> Chain(e, avoid, flags) == Along(e, n, flags.imaginaryAny)
      decreases n
    {
      if LeadsOn(e) {
        forall m: nat | EndsAfter(e, m) ensures m > n - 1 {
          EndsOnce(e, n, m);
        }
        ChainEnds(lookup(e).expr, avoid + {e}, n - 1, flags);
      }
    }

    lemma {:induction false} ChainFails(e: Expr, avoid: set<Expr>, flags: Flags)
      requires Valid() && e in exprs && forall n: nat :: !EndsAfter(e, n)
      ensures Chain(e, avoid, flags).end == Failed
      decreases exprs - avoid
    {
      assert !EndsAfter(e, 0);
      if e !in avoid {
        forall n: nat ensures !EndsAfter(lookup(e).expr, n) {
          assert !EndsAfter(e, n + 1);
        }
        ChainFails(lookup(e).expr, avoid + {e}, flags);
      }
    }

    // ----- All tags -----

    /** What n references lead to. */
    function Target(e: Expr, n: nat): Expr {
      if n == 0 || !LeadsOn(e) then e else Target(lookup(e).expr, n - 1)
    }

    /** The tags of e and of the expressions that n references lead through. */
    function OwnTags(e: Expr, n: nat): seq<Tag> {
      (if e.tag.Some? then [e.tag.value] else []) + if n == 0 || !LeadsOn(e) then [] else OwnTags(lookup(e).expr, n - 1)
    }

    /**
     All tags from own on, for a chain that ends with last: a built-in type adds its number in class UNIVERSAL, an
     ANY -1, and an extension marker 0 in no class.
     */
    function AllTags(own: seq<Tag>, last: Expr, imaginaryAny: bool): Outcome {
      match last.kind
      case BasicType(u) => if u > 0 then Outcome(|own| + 1, own + [Tag(1, u, Default)]) else Outcome(-1, [])
      case AnyType => if imaginaryAny then Outcome(|own| + 1, own + [Tag(1, -1, Default)]) else Outcome(-1, [])
      case ExtensionMark => Outcome(|own| + 1, own + [Tag(-1, 0, Default)])
      case ChoiceType => Outcome(if own == [] then -1 else |own|, own)
      case TypeRef =>
        if lookup(last).KnownExternal? && (own == [] || own[|own| - 1].mode == Implicit) then Outcome(|own|, own)
        else Outcome(-1, [])
      case Other => Outcome(-1, [])
    }

    /** After all own tags, the identifier octet of a built-in type is its number. Section 8.1.2 of X.690. */
    lemma BuiltInOctet(own: seq<Tag>, last: Expr, imaginaryAny: bool)
      requires last.kind.BasicType? && 0 < last.kind.universal <= 30
      ensures var o := AllTags(own, last, imaginaryAny);
              && o.count == |o.tags| == |own| + 1 && o.tags[..|own|] == own
              && Printable(o.tags[|own|]) && IdentifierOctets(o.tags[|own|]) == [last.kind.universal]
    {
      LesserIff(Tag(1, last.kind.universal, Default), Tag(1, last.kind.universal, Default));
    }

    lemma Appended(w: Written, own: seq<Tag>, rest: seq<Tag>, end: Written)
      requires w == Written(own + (rest + end.tags), end.end)
      ensures w == Written(own + rest + end.tags, end.end)
    {
      assert own + (rest + end.tags) == own + rest + end.tags;
    }

    lemma {:induction false} AlongIs(e: Expr, n: nat, imaginaryAny: bool)
      ensures var end := Ending(Target(e, n), imaginaryAny, None);
              Along(e, n, imaginaryAny) == Written(OwnTags(e, n) + end.tags, end.end)
    {
      hide Ending;
      var end := Ending(Target(e, n), imaginaryAny, None);
      if n > 0 && LeadsOn(e) {
        AlongIs(lookup(e).expr, n - 1, imaginaryAny);
        Appended(Along(e, n, imaginaryAny), Own(e), OwnTags(lookup(e).expr, n - 1), end);
      } else {
        assert Own(e) + [] == Own(e);
      }
    }

    /** With full collection, that is the outcome; without any own tags, it is so anyway. */
    lemma AllCollected(e: Expr, n: nat, flags: Flags)
      requires EndsAfter(e, n) && ((flags.full && !flags.outmost) || OwnTags(e, n) == [])
      ensures OutcomeOf(Along(e, n, flags.imaginaryAny), flags) ==
                AllTags(OwnTags(e, n), Target(e, n), flags.imaginaryAny)
    {
      hide *;
      AlongIs(e, n, flags.imaginaryAny);
      TargetEnds(e, n);
      if flags.full && !flags.outmost {
        FullOutcome(OwnTags(e, n), Target(e, n), flags);
      } else {
        BareOutcome(Target(e, n), flags);
      }
    }

    lemma FullOutcome(own: seq<Tag>, last: Expr, flags: Flags)
      requires !LeadsOn(last) && flags.full && !flags.outmost
      ensures var end := Ending(last, flags.imaginaryAny, None);
              OutcomeOf(Written(own + end.tags, end.end), flags) == AllTags(own, last, flags.imaginaryAny)
    {
      var end := Ending(last, flags.imaginaryAny, None);
      var all := own + end.tags;
      assert [] + all == all;
      if end.tags == [] {
        assert all == own;
      }
    }

    lemma BareOutcome(last: Expr, flags: Flags)
      requires !LeadsOn(last)
      ensures var end := Ending(last, flags.imaginaryAny, None);
              OutcomeOf(Written([] + end.tags, end.end), flags) == AllTags([], last, flags.imaginaryAny)
    {
      var ts := Ending(last, flags.imaginaryAny, None).tags;
      assert [] + ts == ts;
      if ts != [] {
        assert ts == [ts[0]] && Effective(ts[1..]) == [] && Effective(ts) == [ts[0]] + [];
      }
    }

    lemma UntaggedChoice(e: Expr, n: nat, imaginaryAny: bool)
      requires EndsAfter(e, n) && Along(e, n, imaginaryAny) == Written([], Untagged(None))
      ensures OwnTags(e, n) == [] && Target(e, n).kind == ChoiceType
    {
      hide OwnTags, Along, Target;
      AlongIs(e, n, imaginaryAny);
    }

    lemma {:induction false} TargetEnds(e: Expr, n: nat)
      requires EndsAfter(e, n)
      ensures !LeadsOn(Target(e, n))
    {
      if n > 0 {
        TargetEnds(lookup(e).expr, n - 1);
      }
    }

    // ----- The outermost tag -----

    /** Within n steps, e has t as its own tag, or leads to an expression that has, or one of its alternatives does. */
    ghost predicate Offers(e: Expr, t: Tag, n: nat, flags: Flags)
      decreases n, 0
    {
      if e.tag.Some? then t == e.tag.value
      else
        match e.kind
        case ChoiceType => flags.canonical && n > 0 && SomeOffers(e.members, Roots(e.members), t, n - 1, flags)
        case TypeRef => n > 0 && LeadsOn(e) && Offers(lookup(e).expr, t, n - 1, flags)
        case BasicType(u) => u > 0 && t == Tag(1, u, Default)
        case AnyType => flags.imaginaryAny && t == Tag(1, -1, Default)
        case ExtensionMark => t == Tag(-1, 0, Default)
        case Other => false
    }

    ghost predicate SomeOffers(ms: seq<Expr>, k: nat, t: Tag, n: nat, flags: Flags)
      requires k <= |ms|
      decreases n, 1
    {
      exists i :: 0 <= i < k && Offers(ms[i], t, n, flags)
    }

    lemma {:induction false} OffersLater(e: Expr, t: Tag, n: nat, flags: Flags)
      requires Offers(e, t, n, flags)
      ensures Offers(e, t, n + 1, flags)
      decreases n
    {
      if e.tag.None? && e.kind == TypeRef {
        OffersLater(lookup(e).expr, t, n - 1, flags);
      } else if e.tag.None? && e.kind == ChoiceType {
        var i :| 0 <= i < Roots(e.members) && Offers(e.members[i], t, n - 1, flags);
        OffersLater(e.members[i], t, n - 1, flags);
      }
    }

    /** Where the first tag comes from. */
    lemma FirstStep(e: Expr, avoid: set<Expr>, flags: Flags)
      requires Valid() && e in exprs && flags.outmost
      ensures e.tag.Some? ==> First(e, avoid, flags) == e.tag
      ensures e.tag.None? && LeadsOn(e) ==>
                First(e, avoid, flags) == if e in avoid then None else First(lookup(e).expr, avoid + {e}, flags)
      ensures e.tag.None? && e.kind == ChoiceType ==>
                First(e, avoid, flags) == if flags.canonical then Least(e, Roots(e.members), avoid, flags) else None
      ensures e.tag.None? && e.kind != ChoiceType && !LeadsOn(e) ==>
                var ts := Ending(e, flags.imaginaryAny, None).tags;
                First(e, avoid, flags) == if ts == [] then None else Some(ts[0])
    {
      hide FirstTag, Least;
      var rest := Rest(e, avoid, flags);
      OutmostTag(Chain(e, avoid, flags), flags);
      assert e.tag.None? ==> Own(e) + rest.tags == rest.tags;
      if e.tag.None? && LeadsOn(e) && e !in avoid {
        OutmostTag(Chain(lookup(e).expr, avoid + {e}, flags), flags);
      }
    }

    /** The tag found is offered. */
    lemma {:induction false} FirstIsOffered(e: Expr, avoid: set<Expr>, flags: Flags) returns (n: nat)
      requires Valid() && e in exprs && flags.outmost && First(e, avoid, flags).Some?
      ensures Offers(e, First(e, avoid, flags).value, n, flags)
      decreases exprs - avoid, e.depth
    {
      hide First, Least;
      FirstStep(e, avoid, flags);
      n := 0;
      if e.tag.None? && LeadsOn(e) {
        n := FirstIsOffered(lookup(e).expr, avoid + {e}, flags);
        n := n + 1;
      } else if e.tag.None? && e.kind == ChoiceType {
        var i := LeastIsFirst(e, Roots(e.members), avoid, flags);
        n := FirstIsOffered(e.members[i], avoid, flags);
        n := n + 1;
      }
    }

    lemma {:induction false} LeastIsFirst(e: Expr, k: nat, avoid: set<Expr>, flags: Flags) returns (i: nat)
      requires Valid() && e in exprs && k <= |e.members| && Least(e, k, avoid, flags).Some?
      ensures i < k && Least(e, k, avoid, flags) == First(e.members[i], avoid, flags)
    {
      hide First;
      i := k - 1;
      if Least(e, k, avoid, flags) != First(e.members[i], avoid, flags) {
        i := LeastIsFirst(e, k - 1, avoid, flags);
      }
    }

    lemma {:induction false} LeastIsLeast(e: Expr, k: nat, i: nat, avoid: set<Expr>, flags: Flags)
      requires Valid() && e in exprs && i < k <= |e.members| && First(e.members[i], avoid, flags).Some?
      ensures var least := Least(e, k, avoid, flags);
              least.Some? && !Lesser(First(e.members[i], avoid, flags).value, least.value)
    {
      hide First;
      if i < k - 1 {
        LeastIsLeast(e, k - 1, i, avoid, flags);
      }
    }

    /** No tag that is offered is less than the one found: marks cut off no tag that is not found otherwise. */
    lemma {:induction false} FirstIsLeast(e: Expr, avoid: set<Expr>, t: Tag, n: nat, flags: Flags)
      requires Valid() && e in exprs && flags.outmost && Offers(e, t, n, flags)
      requires forall x :: x in avoid ==> !Offers(x, t, n, flags)
      ensures First(e, avoid, flags).Some? && !Lesser(t, First(e, avoid, flags).value)
      decreases n
    {
      hide First, Least;
      FirstStep(e, avoid, flags);
      if n > 0 {
        forall x | x in avoid ensures !Offers(x, t, n - 1, flags) {
          if Offers(x, t, n - 1, flags) {
            OffersLater(x, t, n - 1, flags);
          }
        }
      }
      if e.tag.None? && e.kind == TypeRef {
        if Offers(e, t, n - 1, flags) {
          FirstIsLeast(e, avoid, t, n - 1, flags);
        } else {
          FirstIsLeast(lookup(e).expr, avoid + {e}, t, n - 1, flags);
        }
      } else if e.tag.None? && e.kind == ChoiceType {
        var i :| 0 <= i < Roots(e.members) && Offers(e.members[i], t, n - 1, flags);
        FirstIsLeast(e.members[i], avoid, t, n - 1, flags);
        LeastIsLeast(e, Roots(e.members), i, avoid, flags);
      }
    }

    /** t is the least tag that e offers. */
    ghost predicate LeastOffered(e: Expr, t: Tag, flags: Flags) {
      && (exists n: nat :: Offers(e, t, n, flags))
      && (forall u: Tag, n: nat :: Offers(e, u, n, flags) ==> !Lesser(u, t))
    }

    lemma OutmostIs(e: Expr, flags: Flags)
      requires Valid() && e in exprs && flags.outmost
      ensures First(e, {}, flags).Some? ==> LeastOffered(e, First(e, {}, flags).value, flags)
      ensures First(e, {}, flags).None? ==> forall t: Tag, n: nat :: !Offers(e, t, n, flags)
    {
      if First(e, {}, flags).Some? {
        var n := FirstIsOffered(e, {}, flags);
      }
      forall t: Tag, n: nat | Offers(e, t, n, flags)
        ensures First(e, {}, flags).Some? && !Lesser(t, First(e, {}, flags).value)
      {
        FirstIsLeast(e, {}, t, n, flags);
      }
    }
  }

  /** The tags collected so far. */
  class Collector {
    const modules: Modules
    const flags: Flags
    var tags: seq<Tag>

    constructor (modules: Modules, flags: Flags)
      ensures this.modules == modules && this.flags == flags && tags == []
    {
      this.modules, this.flags, tags := modules, flags, [];
    }

    /** Add a tag, or skip it; stop tells that it was added and no other is wanted. */
    method AddTag(skip: nat, tag: Tag) returns (newSkip: nat, stop: bool)
      modifies this`tags
      ensures newSkip == SkipAfter(tag, skip, flags.full)
      ensures tags == old(tags) + if skip > 0 && !flags.full then [] else [tag]
      ensures stop <==> flags.outmost && |tags| > |old(tags)|
    {
      newSkip := skip;
      if skip > 0 && !flags.full {
        if tag.mode != Implicit {
          newSkip := skip - 1;
        }
        return newSkip, false;
      }
      if tag.mode == Implicit {
        newSkip := skip + 1;
      }
      tags := tags + [tag];
      stop := flags.outmost;
    }

    /** Collect the tags of e and of what it refers to. */
    method FetchFrom(e: Expr, skip0: nat) returns (count: int)
      requires modules.Valid() && e in modules.exprs && (tags == [] ==> skip0 == 0)
      modifies this`tags, modules.exprs`mark
      ensures modules.Marked() == old(modules.Marked())
      ensures Fetched(old(tags), modules.Chain(e, old(modules.Marked()), flags), skip0, flags, count, tags)
      decreases modules.Unmarked(), e.depth, 5
    {
      ghost var rest := modules.Rest(e, modules.Marked(), flags);
      if e.tag.None? {
        assert modules.Own(e) + rest.tags == rest.tags;
        count := FetchRest(e, skip0);
        return;
      }
      var skip, stop := AddTag(skip0, e.tag.value);
      ghost var mid := tags;
      if stop {
        count := |tags|;
      } else {
        count := FetchRest(e, skip);
      }
      FetchedFirst(old(tags), e.tag.value, rest, skip0, flags, mid, count, tags);
    }

    /** Those after the own tag of e. */
    method FetchRest(e: Expr, skip: nat) returns (count: int)
      requires modules.Valid() && e in modules.exprs && (tags == [] ==> skip == 0)
      modifies this`tags, modules.exprs`mark
      ensures modules.Marked() == old(modules.Marked())
      ensures Fetched(old(tags), modules.Rest(e, old(modules.Marked()), flags), skip, flags, count, tags)
      decreases modules.Unmarked(), e.depth, 4
    {
      match e.kind
      case ExtensionMark =>
        count := AddLast(skip, Tag(-1, 0, Default));
      case BasicType(n) =>
        if n == 0 {
          return -1;
        }
        count := AddLast(skip, Tag(UNIVERSAL, n, Default));
      case AnyType =>
        if !flags.imaginaryAny {
          return -1;
        }
        count := AddLast(skip, Tag(UNIVERSAL, -1, Default));
      case ChoiceType =>
        count := FetchChoice(e, skip);
      case TypeRef =>
        count := FetchReference(e, skip);
      case Other =>
        return -1;
    }

    /** A CHOICE without tags before it may stand for the least tag of its alternatives. */
    method FetchChoice(e: Expr, skip: nat) returns (count: int)
      requires modules.Valid() && e in modules.exprs && e.kind == ChoiceType && (tags == [] ==> skip == 0)
      modifies this`tags, modules.exprs`mark
      ensures modules.Marked() == old(modules.Marked())
      ensures Fetched(old(tags), modules.Rest(e, old(modules.Marked()), flags), skip, flags, count, tags)
      decreases modules.Unmarked(), e.depth, 3
    {
      if tags != [] {
        return |tags|;
      }
      if !flags.canonical {
        return -1;
      }
      var least := LeastRootTag(e);
      if least.None? {
        return -1;
      }
      var _, _ := AddTag(skip, least.value);
      return |tags|;
    }

    /** The least of the outermost tags of the alternatives in the extension root; failing ones are passed over. */
    method LeastRootTag(e: Expr) returns (least: Option<Tag>)
      requires modules.Valid() && e in modules.exprs
      modifies modules.exprs`mark
      ensures modules.Marked() == old(modules.Marked())
      ensures least == modules.Least(e, Roots(e.members), old(modules.Marked()), flags)
      decreases modules.Unmarked(), e.depth, 2
    {
      ghost var avoid := modules.Marked();
      var minTag := Tag(PRIVATE + 1, 0, Default);
      var i := 0;
      while i < |e.members| && e.members[i].kind != ExtensionMark
        invariant 0 <= i <= Roots(e.members)
        invariant modules.Marked() == avoid && modules.Unmarked() == old(modules.Unmarked())
        invariant Tracks(minTag, modules.Least(e, i, avoid, flags))
      {
        var t := FirstOf(e.members[i], avoid);
        if t.Some? && Lesser(t.value, minTag) {
          minTag := t.value;
        }
        i := i + 1;
      }
      least := if minTag.cls == PRIVATE + 1 then None else Some(minTag);
    }

    /** The tag found so far; a class beyond PRIVATE stands for none. */
    predicate Tracks(minTag: Tag, least: Option<Tag>) {
      if least.Some? then minTag == least.value && minTag.cls <= PRIVATE else minTag == Tag(PRIVATE + 1, 0, Default)
    }

    /** The first tag that a fetch of its own finds for an alternative. */
    method FirstOf(v: Expr, ghost avoid: set<Expr>) returns (t: Option<Tag>)
      requires modules.Valid() && v in modules.exprs && avoid == modules.Marked()
      modifies modules.exprs`mark
      ensures modules.Marked() == avoid && modules.Unmarked() == old(modules.Unmarked())
      ensures t == modules.First(v, avoid, flags)
      decreases modules.Unmarked(), v.depth, 6
    {
      modules.UnmarkedAreOthers();
      var collector := new Collector(modules, flags);
      var count := collector.FetchFrom(v, 0);
      modules.UnmarkedAreOthers();
      ghost var written := modules.Chain(v, avoid, flags);
      CollectedIsOutcome(written, flags, count, collector.tags);
      FirstTagIsFirst(written, flags);
      t := if count <= 0 then None else Some(collector.tags[0]);
    }

    method FetchReference(e: Expr, skip: nat) returns (count: int)
      requires modules.Valid() && e in modules.exprs && e.kind == TypeRef && (tags == [] ==> skip == 0)
      modifies this`tags, modules.exprs`mark
      ensures modules.Marked() == old(modules.Marked())
      ensures Fetched(old(tags), modules.Rest(e, old(modules.Marked()), flags), skip, flags, count, tags)
      decreases modules.Unmarked(), e.depth, 3
    {
      var next := modules.lookup(e);
      if next.Unknown? {
        return -1;
      }
      if next.KnownExternal? {
        return if tags == [] || tags[|tags| - 1].mode == Implicit then |tags| else -1;
      }
      if e.mark {
        return -1;
      }
      ghost var before := modules.Marked();
      e.mark := true;
      assert modules.Marked() == before + {e};
      assert modules.Unmarked() == old(modules.Unmarked()) - {e};
      count := FetchFrom(next.expr, skip);
      e.mark := false;
      assert modules.Marked() == before;
    }

    method AddLast(skip: nat, tag: Tag) returns (count: int)
      modifies this`tags
      ensures Fetched(old(tags), Written([tag], Complete), skip, flags, count, tags)
    {
      var newSkip, stop := AddTag(skip, tag);
      AddedFirst(tag, [], skip, flags.full);
      assert [tag] + [] == [tag];
      return |tags|;
    }
  }

  lemma CollectedIsOutcome(written: Written, flags: Flags, count: int, tags: seq<Tag>)
    requires Fetched([], written, 0, flags, count, tags)
    ensures Outcome(count, if count <= 0 then [] else tags) == OutcomeOf(written, flags)
  {
    SkipDrops(written.tags, 0);
    FullAddsAll(written.tags, 0);
  }

  /**
   The tags of e, with no marks set: those of the recursive definition, for what is written along its chain of
   references. An untagged CHOICE has none then, unless the canonical order asks for its least one. A chain
   without an end has no tags. When only the outermost tag is wanted, it is the least one that e offers, in its
   own tag, along references and in the alternatives of choices, however these refer back to each other.
   */
  method FetchTags(modules: Modules, e: Expr, flags: Flags) returns (count: int, tags: seq<Tag>)
    requires modules.Valid() && e in modules.exprs && modules.Marked() == {}
    modifies modules.exprs`mark
    ensures modules.Marked() == {}
    ensures forall n: nat :: modules.EndsAfter(e, n) ==>
              var written := modules.Along(e, n, flags.imaginaryAny);
              (flags.canonical && written == Written([], Untagged(None)))
              || Outcome(count, tags) == OutcomeOf(written, flags)
    ensures forall n: nat :: modules.EndsAfter(e, n) ==>
              var own, last := modules.OwnTags(e, n), modules.Target(e, n);
              (flags.full && !flags.outmost) || own == [] ==>
                (flags.canonical && own == [] && last.kind == ChoiceType)
                || Outcome(count, tags) == modules.AllTags(own, last, flags.imaginaryAny)
    ensures (forall n: nat :: !modules.EndsAfter(e, n)) && !flags.outmost ==> count == -1 && tags == []
    ensures flags.outmost && count > 0 ==> count == |tags| == 1 && modules.LeastOffered(e, tags[0], flags)
    ensures flags.outmost && count <= 0 ==> tags == [] && forall t: Tag, n: nat :: !modules.Offers(e, t, n, flags)
    ensures flags.outmost && (forall n: nat :: !modules.EndsAfter(e, n)) ==> count == 1 || count == -1
  {
    count, tags := FetchWritten(modules, e, flags);
    OutcomeWithEnd(modules, e, flags);
    AllWithEnd(modules, e, flags);
    OutcomeWithoutEnd(modules, e, flags);
    FirstTagIsFirst(modules.Chain(e, {}, flags), flags);
    if flags.outmost {
      modules.OutmostIs(e, flags);
    }
  }

  method FetchWritten(modules: Modules, e: Expr, flags: Flags) returns (count: int, tags: seq<Tag>)
    requires modules.Valid() && e in modules.exprs && modules.Marked() == {}
    modifies modules.exprs`mark
    ensures modules.Marked() == {}
    ensures Outcome(count, tags) == OutcomeOf(modules.Chain(e, {}, flags), flags)
  {
    var collector := new Collector(modules, flags);
    count := collector.FetchFrom(e, 0);
    CollectedIsOutcome(modules.Chain(e, {}, flags), flags, count, collector.tags);
    tags := if count <= 0 then [] else collector.tags;
  }

  lemma OutcomeWithEnd(modules: Modules, e: Expr, flags: Flags)
    requires modules.Valid() && e in modules.exprs
    ensures forall n: nat :: modules.EndsAfter(e, n) ==>
              var written := modules.Along(e, n, flags.imaginaryAny);
              (flags.canonical && written == Written([], Untagged(None)))
              || OutcomeOf(modules.Chain(e, {}, flags), flags) == OutcomeOf(written, flags)
  {
    forall n: nat | modules.EndsAfter(e, n)
      ensures var written := modules.Along(e, n, flags.imaginaryAny);
              (flags.canonical && written == Written([], Untagged(None)))
              || OutcomeOf(modules.Chain(e, {}, flags), flags) == OutcomeOf(written, flags)
    {
      modules.ChainEnds(e, {}, n, flags);
      EffectiveFirst(modules.Chain(e, {}, flags).tags);
    }
  }

  lemma AllWithEnd(modules: Modules, e: Expr, flags: Flags)
    requires modules.Valid() && e in modules.exprs
    ensures forall n: nat :: modules.EndsAfter(e, n) ==>
              var own, last := modules.OwnTags(e, n), modules.Target(e, n);
              (flags.full && !flags.outmost) || own == [] ==>
                (flags.canonical && own == [] && last.kind == ChoiceType)
                || OutcomeOf(modules.Chain(e, {}, flags), flags) == modules.AllTags(own, last, flags.imaginaryAny)
  {
    forall n: nat | modules.EndsAfter(e, n) ensures
      var own, last := modules.OwnTags(e, n), modules.Target(e, n);
      (flags.full && !flags.outmost) || own == [] ==>
        (flags.canonical && own == [] && last.kind == ChoiceType)
        || OutcomeOf(modules.Chain(e, {}, flags), flags) == modules.AllTags(own, last, flags.imaginaryAny)
    {
      OutcomeWithEnd(modules, e, flags);
      modules.AlongIs(e, n, flags.imaginaryAny);
      if modules.Along(e, n, flags.imaginaryAny) == Written([], Untagged(None)) {
        modules.UntaggedChoice(e, n, flags.imaginaryAny);
      }
      if (flags.full && !flags.outmost) || modules.OwnTags(e, n) == [] {
        modules.AllCollected(e, n, flags);
      }
    }
  }

  lemma OutcomeWithoutEnd(modules: Modules, e: Expr, flags: Flags)
    requires modules.Valid() && e in modules.exprs
    ensures (forall n: nat :: !modules.EndsAfter(e, n)) ==>
              var o := OutcomeOf(modules.Chain(e, {}, flags), flags);
              if flags.outmost then o.count == 1 || o.count == -1 else o == Outcome(-1, [])
  {
    if forall n: nat :: !modules.EndsAfter(e, n) {
      modules.ChainFails(e, {}, flags);
      EffectiveFirst(modules.Chain(e, {}, flags).tags);
    }
  }
}
