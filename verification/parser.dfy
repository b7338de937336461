/** The Earley-style parser of the Parsing library (Parsing/Parser.cs): the transition
    closure computed for every label when the parser is built, and the parse loop that
    alternates between scanning terminals at the next word contexts and working off the
    agenda of new constituents, until a final constituent spans the whole input. */
module Parser {
  import opened Results
  import opened Grammar
  import opened Labels
  import opened Edges
  import opened ParseSource

  // ---------------------------------------------------------------------------------
  // Building the parser

  /** What the constructor needs to get through: the root and every non-terminal used
      in a sequence have a rule, and no sequence is empty (the label constructor would
      throw on it). */
  predicate WellFormed(g: Built) {
    && g.root in g.rules
    && (forall nt :: nt in g.rules ==> nt.NonTerminal?)
    && (forall nt, alt :: nt in g.rules && 0 <= alt < |g.rules[nt]| ==> |g.rules[nt][alt]| > 0)
    && (forall nt, alt, k :: nt in g.rules && 0 <= alt < |g.rules[nt]| && 0 <= k < |g.rules[nt][alt]| ==>
          (g.rules[nt][alt][k].NonTerminal? ==> g.rules[nt][alt][k] in g.rules))
  }

  datatype BuildError = EmptySequence | MissingRule

  /** The constructor: building the label chains throws on an empty sequence, and
      looking up the chains of a non-terminal without a rule fails. */
  function Construct(g: Built): (r: Result<Built, BuildError>)
    requires forall nt :: nt in g.rules ==> nt.NonTerminal?
    ensures r.Ok? <==> WellFormed(g)
    ensures r.Ok? ==> r.value == g
  {
    if exists nt, alt :: nt in g.rules && 0 <= alt < |g.rules[nt]| && |g.rules[nt][alt]| == 0 then
      Throws(EmptySequence)
    else if g.root !in g.rules then Throws(MissingRule)
    else if exists nt, alt, k :: (nt in g.rules && 0 <= alt < |g.rules[nt]| && 0 <= k < |g.rules[nt][alt]|
        && g.rules[nt][alt][k].NonTerminal? && g.rules[nt][alt][k] !in g.rules) then
      Throws(MissingRule)
    else Ok(g)
  }

  /** The label of the first position of each sequence: the chains `_activeChains`
      holds. */
  ghost function Heads(g: Built): set<ActiveLabel> {
    set nt, alt | nt in g.rules && 0 <= alt < |g.rules[nt]| :: ActiveLabel(nt, alt, 0)
  }

  /** `l` is the label of the first position of a sequence. */
  predicate IsHead(g: Built, l: ActiveLabel) {
    l.owner in g.rules && l.alt < |g.rules[l.owner]| && l.index == 0
  }

  function Head(nt: Term, alt: nat): ActiveLabel {
    ActiveLabel(nt, alt, 0)
  }

  lemma HeadValid(g: Built, nt: Term, alt: nat)
    requires WellFormed(g) && nt in g.rules && alt < |g.rules[nt]|
    ensures ValidLabel(g, Head(nt, alt)) && IsHead(g, Head(nt, alt))
  {}

  ghost function Elems<T>(s: seq<T>): set<T> {
    set x | x in s
  }

  lemma {:induction false} SubsetCard<T>(a: set<T>, b: set<T>)
    requires a <= b
    ensures |a| <= |b|
    decreases |a|
  {
    if a != {} {
      var x :| x in a;
      SubsetCard(a - {x}, b - {x});
    }
  }

  lemma ProperSubsetCard<T>(a: set<T>, b: set<T>, x: T)
    requires a <= b && x in b && x !in a
    ensures |a| < |b|
  {
    SubsetCard(a, b - {x});
  }

  /** Every label of `s` is the head of a sequence. */
  ghost predicate AllHeads(g: Built, s: seq<ActiveLabel>) {
    forall l :: l in s ==> IsHead(g, l)
  }

  // ---------------------------------------------------------------------------------
  // Transitions

  lemma PrefixTrans<T>(a: seq<T>, b: seq<T>, c: seq<T>)
    requires |a| <= |b| && b[..|a|] == a && |b| <= |c| && c[..|b|] == b
    ensures |a| <= |c| && c[..|a|] == a
  {
    assert c[..|a|] == c[..|b|][..|a|];
  }

  /** Adding a new head and then filling further leaves fewer heads to add. */
  lemma FillShrinks(g: Built, acc: seq<ActiveLabel>, t: ActiveLabel, filled: seq<ActiveLabel>)
    requires IsHead(g, t) && t !in acc
    requires |acc| + 1 <= |filled| && filled[..|acc| + 1] == acc + [t]
    ensures |Heads(g) - Elems(acc + [t])| < |Heads(g) - Elems(acc)|
    ensures |Heads(g) - Elems(filled)| < |Heads(g) - Elems(acc)|
  {
    var added := acc + [t];
    assert t in Heads(g) by { assert t == Head(t.owner, t.alt); }
    ProperSubsetCard(Heads(g) - Elems(added), Heads(g) - Elems(acc), t);
    assert Elems(added) <= Elems(filled) by {
      forall x | x in added ensures x in filled {
        var i :| 0 <= i < |added| && added[i] == x;
        assert filled[..|added|][i] == x;
      }
    }
    SubsetCard(Heads(g) - Elems(filled), Heads(g) - Elems(added));
  }


  /** `fillTransitions` for a label waiting for `term`: nothing unless `term` is a
      non-terminal, else each of its sequences' head labels, each added one recursing
      into the labels that head waits for. `acc` is the set filled so far, in insertion
      order. */
  function FillTerm(g: Built, term: Term, acc: seq<ActiveLabel>): (r: seq<ActiveLabel>)
    requires WellFormed(g) && AllHeads(g, acc)
    requires term.NonTerminal? ==> term in g.rules
    ensures |acc| <= |r| && r[..|acc|] == acc && AllHeads(g, r)
    decreases |Heads(g) - Elems(acc)|, 1
  {
    if !term.NonTerminal? then acc else FillAlts(g, term, 0, acc)
  }

  /** The loop of `fillTransitions` over the sequences `alt..` of `nt`. */
  function FillAlts(g: Built, nt: Term, alt: nat, acc: seq<ActiveLabel>): (r: seq<ActiveLabel>)
    requires WellFormed(g) && AllHeads(g, acc)
    requires nt in g.rules && alt <= |g.rules[nt]|
    ensures |acc| <= |r| && r[..|acc|] == acc && AllHeads(g, r)
    decreases |Heads(g) - Elems(acc)|, 0, |g.rules[nt]| - alt
  {
    if alt == |g.rules[nt]| then acc
    else
      var t := Head(nt, alt);
      if t in acc then FillAlts(g, nt, alt + 1, acc)
      else
        HeadValid(g, nt, alt);
        var added := acc + [t];
        assert added[..|acc| + 1] == added;
        FillShrinks(g, acc, t, added);
        var filled := FillTerm(g, CurrentTerm(g, t), added);
        FillShrinks(g, acc, t, filled);
        var r := FillAlts(g, nt, alt + 1, filled);
        PrefixTrans(acc, added, filled);
        PrefixTrans(acc, filled, r);
        r
  }

  /** `getTrasintions`: the closure of the labels reachable from `l` by predicting. */
  function Transitions(g: Built, l: ActiveLabel): seq<ActiveLabel>
    requires WellFormed(g) && ValidLabel(g, l)
  {
    FillTerm(g, CurrentTerm(g, l), [])
  }

  /** `l` has all the heads of the non-terminal it waits for in `s`. */
  ghost predicate ClosedAt(g: Built, l: ActiveLabel, s: seq<ActiveLabel>)
    requires WellFormed(g) && ValidLabel(g, l)
  {
    var t := CurrentTerm(g, l);
    t.NonTerminal? ==> forall alt :: 0 <= alt < |g.rules[t]| ==> Head(t, alt) in s
  }

  lemma ClosedGrows(g: Built, l: ActiveLabel, s: seq<ActiveLabel>, s': seq<ActiveLabel>)
    requires WellFormed(g) && ValidLabel(g, l) && |s| <= |s'| && s'[..|s|] == s
    requires ClosedAt(g, l, s)
    ensures ClosedAt(g, l, s')
  {
    var t := CurrentTerm(g, l);
    if t.NonTerminal? {
      forall alt | 0 <= alt < |g.rules[t]| ensures Head(t, alt) in s' {
        var i :| 0 <= i < |s| && s[i] == Head(t, alt);
        assert s'[..|s|][i] == s'[i];
      }
    }
  }

  /** What a fill from `acc` to `r` keeps: `acc` is a prefix of `r`, and every label
      added is valid and closed in `r`. */
  ghost predicate FillFacts(g: Built, acc: seq<ActiveLabel>, r: seq<ActiveLabel>)
    requires WellFormed(g)
  {
    && |acc| <= |r| && r[..|acc|] == acc
    && (forall i :: |acc| <= i < |r| ==> ValidLabel(g, r[i]) && ClosedAt(g, r[i], r))
  }

  lemma FillFactsTrans(g: Built, acc: seq<ActiveLabel>, mid: seq<ActiveLabel>, r: seq<ActiveLabel>)
    requires WellFormed(g) && FillFacts(g, acc, mid) && FillFacts(g, mid, r)
    ensures FillFacts(g, acc, r)
  {
    assert r[..|acc|] == r[..|mid|][..|acc|];
    forall i | |acc| <= i < |mid| ensures ValidLabel(g, r[i]) && ClosedAt(g, r[i], r) {
      assert r[..|mid|][i] == r[i];
      ClosedGrows(g, r[i], mid, r);
    }
  }

  /** Adding the head `t` that is not yet in `acc`, then filling what it waits for,
      keeps the facts once the heads `t` waits for are in. */
  lemma FillFactsAdd(g: Built, acc: seq<ActiveLabel>, t: ActiveLabel, filled: seq<ActiveLabel>)
    requires WellFormed(g) && ValidLabel(g, t) && t !in acc
    requires FillFacts(g, acc + [t], filled) && ClosedAt(g, t, filled)
    ensures FillFacts(g, acc, filled)
  {
    var added := acc + [t];
    assert filled[..|acc|] == filled[..|added|][..|acc|];
    assert filled[|acc|] == t by { assert filled[..|added|][|acc|] == t; }
  }

  /** What a fill adds is closed, and the heads of `term` end up in the result. */
  lemma {:induction false} FillTermClosed(g: Built, term: Term, acc: seq<ActiveLabel>)
    requires WellFormed(g) && AllHeads(g, acc)
    requires term.NonTerminal? ==> term in g.rules
    ensures FillFacts(g, acc, FillTerm(g, term, acc))
    ensures term.NonTerminal? ==> forall alt :: 0 <= alt < |g.rules[term]| ==> Head(term, alt) in FillTerm(g, term, acc)
    ensures !term.NonTerminal? ==> FillTerm(g, term, acc) == acc
    decreases |Heads(g) - Elems(acc)|, 1, 0, 0
  {
    if term.NonTerminal? {
      FillAltsClosed(g, term, 0, acc);
    } else {
      assert acc[..|acc|] == acc;
    }
  }

  lemma {:induction false} FillAltsClosed(g: Built, nt: Term, alt: nat, acc: seq<ActiveLabel>)
    requires WellFormed(g) && AllHeads(g, acc)
    requires nt in g.rules && alt <= |g.rules[nt]|
    ensures FillFacts(g, acc, FillAlts(g, nt, alt, acc))
    ensures forall a :: alt <= a < |g.rules[nt]| ==> Head(nt, a) in FillAlts(g, nt, alt, acc)
    decreases |Heads(g) - Elems(acc)|, 0, |g.rules[nt]| - alt, 1
  {
    if alt == |g.rules[nt]| {
      assert acc[..|acc|] == acc;
    } else if Head(nt, alt) in acc {
      FillAltsClosedSkip(g, nt, alt, acc);
    } else {
      FillAltsClosedAdd(g, nt, alt, acc);
    }
  }

  /** The case of a head already filled. */
  lemma {:induction false} FillAltsClosedSkip(g: Built, nt: Term, alt: nat, acc: seq<ActiveLabel>)
    requires WellFormed(g) && AllHeads(g, acc)
    requires nt in g.rules && alt < |g.rules[nt]| && Head(nt, alt) in acc
    ensures FillFacts(g, acc, FillAlts(g, nt, alt, acc))
    ensures forall a :: alt <= a < |g.rules[nt]| ==> Head(nt, a) in FillAlts(g, nt, alt, acc)
    decreases |Heads(g) - Elems(acc)|, 0, |g.rules[nt]| - alt, 0
  {
    var r := FillAlts(g, nt, alt, acc);
    FillAltsClosed(g, nt, alt + 1, acc);
    FillAltsSkip(g, nt, alt, acc);
    var i :| 0 <= i < |acc| && acc[i] == Head(nt, alt);
    assert r[..|acc|][i] == r[i];
  }

  /** The case of a head not yet filled: it is added, then what it waits for. */
  lemma {:induction false} FillAltsClosedAdd(g: Built, nt: Term, alt: nat, acc: seq<ActiveLabel>)
    requires WellFormed(g) && AllHeads(g, acc)
    requires nt in g.rules && alt < |g.rules[nt]| && Head(nt, alt) !in acc
    ensures FillFacts(g, acc, FillAlts(g, nt, alt, acc))
    ensures forall a :: alt <= a < |g.rules[nt]| ==> Head(nt, a) in FillAlts(g, nt, alt, acc)
    decreases |Heads(g) - Elems(acc)|, 0, |g.rules[nt]| - alt, 0
  {
    var t := Head(nt, alt);
    HeadValid(g, nt, alt);
    var added := acc + [t];
    assert added[..|acc| + 1] == added;
    FillShrinks(g, acc, t, added);
    var filled := FillTerm(g, CurrentTerm(g, t), added);
    FillShrinks(g, acc, t, filled);
    FillTermClosed(g, CurrentTerm(g, t), added);
    FillAltsClosed(g, nt, alt + 1, filled);
    FillAltsAssemble(g, nt, alt, acc, filled);
  }

  lemma FillAltsStep(g: Built, nt: Term, alt: nat, acc: seq<ActiveLabel>)
    requires WellFormed(g) && AllHeads(g, acc)
    requires nt in g.rules && alt < |g.rules[nt]| && Head(nt, alt) !in acc && ValidLabel(g, Head(nt, alt))
    ensures FillAlts(g, nt, alt, acc)
      == FillAlts(g, nt, alt + 1, FillTerm(g, CurrentTerm(g, Head(nt, alt)), acc + [Head(nt, alt)]))
  {}

  lemma FillAltsSkip(g: Built, nt: Term, alt: nat, acc: seq<ActiveLabel>)
    requires WellFormed(g) && AllHeads(g, acc)
    requires nt in g.rules && alt < |g.rules[nt]| && Head(nt, alt) in acc
    ensures FillAlts(g, nt, alt, acc) == FillAlts(g, nt, alt + 1, acc)
  {}

  /** The step of `FillAltsClosed` for a head not yet filled, given what the fills
      after it keep. */
  lemma FillAltsAssemble(g: Built, nt: Term, alt: nat, acc: seq<ActiveLabel>, filled: seq<ActiveLabel>)
    requires WellFormed(g) && AllHeads(g, acc)
    requires nt in g.rules && alt < |g.rules[nt]| && Head(nt, alt) !in acc
    requires ValidLabel(g, Head(nt, alt))
    requires filled == FillTerm(g, CurrentTerm(g, Head(nt, alt)), acc + [Head(nt, alt)])
    requires |Heads(g) - Elems(filled)| < |Heads(g) - Elems(acc)|
    requires FillFacts(g, acc + [Head(nt, alt)], filled)
    requires CurrentTerm(g, Head(nt, alt)).NonTerminal? ==>
      forall a :: 0 <= a < |g.rules[CurrentTerm(g, Head(nt, alt))]| ==> Head(CurrentTerm(g, Head(nt, alt)), a) in filled
    requires FillFacts(g, filled, FillAlts(g, nt, alt + 1, filled))
    requires forall a :: alt + 1 <= a < |g.rules[nt]| ==> Head(nt, a) in FillAlts(g, nt, alt + 1, filled)
    ensures FillFacts(g, acc, FillAlts(g, nt, alt, acc))
    ensures forall a :: alt <= a < |g.rules[nt]| ==> Head(nt, a) in FillAlts(g, nt, alt, acc)
  {
    var t := Head(nt, alt);
    var added := acc + [t];
    var r := FillAlts(g, nt, alt + 1, filled);
    FillAltsStep(g, nt, alt, acc);
    FillFactsAdd(g, acc, t, filled);
    FillFactsTrans(g, acc, filled, r);
    assert t in r by {
      assert filled[..|added|][|acc|] == t;
      assert r[..|filled|][|acc|] == r[|acc|];
    }
  }

  /** The transitions of a label: the heads of the non-terminal it waits for and,
      closed under prediction, everything they wait for; nothing for a label waiting
      for a terminal. */
  lemma TransitionsClosed(g: Built, l: ActiveLabel)
    requires WellFormed(g) && ValidLabel(g, l)
    ensures var ts := Transitions(g, l);
      && (forall i :: 0 <= i < |ts| ==> ValidLabel(g, ts[i]) && ts[i].index == 0 && ClosedAt(g, ts[i], ts))
      && ClosedAt(g, l, ts)
      && (CurrentTerm(g, l).IsTerminal() ==> ts == [])
  {
    FillTermClosed(g, CurrentTerm(g, l), []);
    var ts := Transitions(g, l);
    assert FillFacts(g, [], ts);
    forall i | 0 <= i < |ts| ensures ts[i].index == 0 {
      assert IsHead(g, ts[i]);
    }
  }

  // ---------------------------------------------------------------------------------
  // Root transitions

  /** `HashSet.Add` on an insertion-ordered set. */
  function AddOnce<T(==)>(s: seq<T>, x: T): seq<T> {
    if x in s then s else s + [x]
  }

  /** `HashSet.UnionWith`. */
  function AddEach<T(==)>(s: seq<T>, xs: seq<T>): (r: seq<T>)
    ensures Elems(r) == Elems(s) + Elems(xs)
    decreases |xs|
  {
    if |xs| == 0 then s
    else
      var r := AddEach(AddOnce(s, xs[0]), xs[1..]);
      assert Elems(xs) == {xs[0]} + Elems(xs[1..]) by {
        assert xs == [xs[0]] + xs[1..];
      }
      r
  }

  /** The loop of `getRootTransitions` over the root's sequences `alt..`. */
  function RootFrom(g: Built, alt: nat, acc: seq<ActiveLabel>): seq<ActiveLabel>
    requires WellFormed(g) && alt <= |g.rules[g.root]|
    decreases |g.rules[g.root]| - alt
  {
    if alt == |g.rules[g.root]| then acc
    else
      HeadValid(g, g.root, alt);
      var head := Head(g.root, alt);
      RootFrom(g, alt + 1, AddEach(AddOnce(acc, head), Transitions(g, head)))
  }

  function RootTransitions(g: Built): seq<ActiveLabel>
    requires WellFormed(g)
  {
    RootFrom(g, 0, [])
  }

  /** Root transitions: the labels reachable from the root's sequence heads, those
      heads included. */
  ghost predicate FromRoot(g: Built, alt: nat, l: ActiveLabel)
    requires WellFormed(g)
  {
    exists a :: alt <= a < |g.rules[g.root]| && (l == Head(g.root, a) || l in Transitions(g, Head(g.root, a)))
  }

  lemma RootFromStep(g: Built, alt: nat, acc: seq<ActiveLabel>)
    requires WellFormed(g) && alt < |g.rules[g.root]|
    ensures ValidLabel(g, Head(g.root, alt))
    ensures RootFrom(g, alt, acc)
      == RootFrom(g, alt + 1, AddEach(AddOnce(acc, Head(g.root, alt)), Transitions(g, Head(g.root, alt))))
  {
    HeadValid(g, g.root, alt);
  }

  lemma FromRootCons(g: Built, alt: nat, l: ActiveLabel)
    requires WellFormed(g) && alt < |g.rules[g.root]|
    ensures ValidLabel(g, Head(g.root, alt))
    ensures FromRoot(g, alt, l) <==>
        l == Head(g.root, alt) || l in Transitions(g, Head(g.root, alt)) || FromRoot(g, alt + 1, l)
  {
    HeadValid(g, g.root, alt);
    if FromRoot(g, alt, l) && !(l == Head(g.root, alt) || l in Transitions(g, Head(g.root, alt))) {
      var a :| alt <= a < |g.rules[g.root]| && (l == Head(g.root, a) || l in Transitions(g, Head(g.root, a)));
      assert a != alt;
    }
  }

  /** The labels the loop adds from sequence `alt` on. */
  ghost function RootSet(g: Built, alt: nat): set<ActiveLabel>
    requires WellFormed(g) && alt <= |g.rules[g.root]|
    decreases |g.rules[g.root]| - alt
  {
    if alt == |g.rules[g.root]| then {}
    else
      HeadValid(g, g.root, alt);
      {Head(g.root, alt)} + Elems(Transitions(g, Head(g.root, alt))) + RootSet(g, alt + 1)
  }

  lemma AddOnceElems<T>(s: seq<T>, x: T)
    ensures Elems(AddOnce(s, x)) == Elems(s) + {x}
  {
  }

  lemma {:induction false} RootFromSet(g: Built, alt: nat, acc: seq<ActiveLabel>)
    requires WellFormed(g) && alt <= |g.rules[g.root]|
    ensures Elems(RootFrom(g, alt, acc)) == Elems(acc) + RootSet(g, alt)
    decreases |g.rules[g.root]| - alt
  {
    if alt < |g.rules[g.root]| {
      RootFromStep(g, alt, acc);
      var head := Head(g.root, alt);
      var acc' := AddEach(AddOnce(acc, head), Transitions(g, head));
      RootFromSet(g, alt + 1, acc');
      AddOnceElems(acc, head);
    }
  }

  lemma {:induction false} RootSetMeaning(g: Built, alt: nat, l: ActiveLabel)
    requires WellFormed(g) && alt <= |g.rules[g.root]|
    ensures l in RootSet(g, alt) <==> FromRoot(g, alt, l)
    decreases |g.rules[g.root]| - alt
  {
    if alt < |g.rules[g.root]| {
      RootSetMeaning(g, alt + 1, l);
      FromRootCons(g, alt, l);
    }
  }

  lemma RootFromMeaning(g: Built, alt: nat, acc: seq<ActiveLabel>, l: ActiveLabel)
    requires WellFormed(g) && alt <= |g.rules[g.root]|
    ensures l in RootFrom(g, alt, acc) <==> l in acc || FromRoot(g, alt, l)
  {
    RootFromSet(g, alt, acc);
    RootSetMeaning(g, alt, l);
    assert l in RootFrom(g, alt, acc) <==> l in Elems(RootFrom(g, alt, acc));
  }

  /** `getRootTransitions` gathers exactly each root sequence's head and its
      transitions. */
  lemma RootTransitionsMeaning(g: Built, l: ActiveLabel)
    requires WellFormed(g)
    ensures l in RootTransitions(g) <==> FromRoot(g, 0, l)
  {
    RootFromMeaning(g, 0, [], l);
  }

  /** Every root transition is a valid label. */
  lemma RootTransitionsValid(g: Built)
    requires WellFormed(g)
    ensures forall l :: l in RootTransitions(g) ==> ValidLabel(g, l)
  {
    forall l | l in RootTransitions(g) ensures ValidLabel(g, l) {
      RootTransitionsMeaning(g, l);
      var a :| 0 <= a < |g.rules[g.root]| && (l == Head(g.root, a) || l in Transitions(g, Head(g.root, a)));
      HeadValid(g, g.root, a);
      TransitionsClosed(g, Head(g.root, a));
    }
  }

  // ---------------------------------------------------------------------------------
  // The chart

  /** `source` only gains edges: the text stays, and every recorded key stays
      recorded. */
  ghost predicate Grows(d: SourceData, d': SourceData) {
    && d'.text == d.text
    && (forall i :: i in d.incoming ==>
          i in d'.incoming && d.incoming[i].active <= d'.incoming[i].active
          && d.incoming[i].complete <= d'.incoming[i].complete)
  }

  lemma GrowsTrans(a: SourceData, b: SourceData, c: SourceData)
    requires Grows(a, b) && Grows(b, c)
    ensures Grows(a, c)
  {}

  /** The incoming set at `i`, or the empty one `IncomingAt` would create. */
  function IncomingOr(d: SourceData, i: nat): Incoming {
    if i in d.incoming then d.incoming[i] else NoEdges
  }

  lemma IncomingOrIndexed(g: Built, d: SourceData, i: nat)
    requires WellIndexed(g, d)
    ensures Indexed(g, IncomingOr(d, i))
  {
    if i !in d.incoming { EmptyIndexed(g); }
  }

  /** Replacing one incoming set by a well indexed one keeps the chart well indexed, and
      by a larger one makes it grow. */
  lemma UpdateKeeps(g: Built, d: SourceData, i: nat, inc: Incoming)
    requires WellIndexed(g, d) && Indexed(g, inc)
    requires IncomingOr(d, i).active <= inc.active && IncomingOr(d, i).complete <= inc.complete
    ensures WellIndexed(g, d.(incoming := d.incoming[i := inc]))
    ensures Grows(d, d.(incoming := d.incoming[i := inc]))
  {
    var d' := d.(incoming := d.incoming[i := inc]);
    forall j | j in d'.incoming ensures Indexed(g, d'.incoming[j]) {
      if j != i { assert d'.incoming[j] == d.incoming[j]; }
    }
  }

  lemma IndexedIgnoresComplete(g: Built, inc: Incoming, complete: set<CompleteKey>)
    requires Indexed(g, inc)
    ensures Indexed(g, inc.(complete := complete))
  {
    var inc' := inc.(complete := complete);
    forall key | key in inc'.active ensures Filed(g, inc', key) {
      assert Filed(g, inc, key);
    }
    forall l | l in inc'.waiting ensures Matchable(g, l) && Waits(inc', l.at) {
      assert Waits(inc, l.at);
    }
  }

  lemma ConnectActiveAtIs(g: Built, d: SourceData, e: ActiveEdge)
    requires ValidLabel(g, e.activeLabel)
    ensures var i := e.end.Index();
      ConnectActiveAt(g, d, e)
        == (d.(incoming := d.incoming[i := ConnectActive(g, IncomingOr(d, i), e).0]), ConnectActive(g, IncomingOr(d, i), e).1)
  {
    var i := e.end.Index();
    var d1 := IncomingAt(d, i).0;
    assert d1.incoming[i := ConnectActive(g, IncomingOr(d, i), e).0] == d.incoming[i := ConnectActive(g, IncomingOr(d, i), e).0];
  }

  lemma ConnectCompleteAtIs(d: SourceData, c: CompleteEdge)
    ensures var i := c.end.Index();
      ConnectCompleteAt(d, c)
        == (d.(incoming := d.incoming[i := ConnectComplete(IncomingOr(d, i), c).0]), ConnectComplete(IncomingOr(d, i), c).1)
  {
    var i := c.end.Index();
    var d1 := IncomingAt(d, i).0;
    assert d1.incoming[i := ConnectComplete(IncomingOr(d, i), c).0] == d.incoming[i := ConnectComplete(IncomingOr(d, i), c).0];
  }

  /** Connecting an active edge records its key at its end and keeps the chart well
      indexed; a duplicate leaves the chart as it was. */
  lemma ConnectActiveGrows(g: Built, d: SourceData, e: ActiveEdge)
    requires ValidLabel(g, e.activeLabel) && WellIndexed(g, d)
    ensures var (d', added) := ConnectActiveAt(g, d, e);
      && WellIndexed(g, d') && Grows(d, d')
      && e.end.Index() in d'.incoming && KeyOf(e) in d'.incoming[e.end.Index()].active
      && (added <==> KeyOf(e) !in IncomingOr(d, e.end.Index()).active)
      && (!added ==> d' == d)
  {
    var i := e.end.Index();
    var inc := IncomingOr(d, i);
    IncomingOrIndexed(g, d, i);
    ConnectActiveMeaning(g, inc, e);
    ConnectActiveAtIs(g, d, e);
    var (inc', added) := ConnectActive(g, inc, e);
    UpdateKeeps(g, d, i, inc');
    if !added {
      assert d.incoming[i := inc'] == d.incoming;
    }
  }

  lemma ConnectCompleteGrows(g: Built, d: SourceData, c: CompleteEdge)
    requires WellIndexed(g, d)
    ensures var (d', added) := ConnectCompleteAt(d, c);
      && WellIndexed(g, d') && Grows(d, d')
      && c.end.Index() in d'.incoming && CompleteKeyOf(c) in d'.incoming[c.end.Index()].complete
      && (added <==> CompleteKeyOf(c) !in IncomingOr(d, c.end.Index()).complete)
      && (!added ==> d' == d)
  {
    var i := c.end.Index();
    var inc := IncomingOr(d, i);
    IncomingOrIndexed(g, d, i);
    ConnectCompleteAtIs(d, c);
    var (inc', added) := ConnectComplete(inc, c);
    IndexedIgnoresComplete(g, inc, inc'.complete);
    UpdateKeeps(g, d, i, inc');
    if !added {
      assert d.incoming[i := inc'] == d.incoming;
    }
  }

  /** Connects the edges `new ActiveEdge(l, at, at)` for the labels `ls`: the root
      transitions at the start context, and the transitions of a new edge at its
      end. */
  function ConnectSelfEdges(g: Built, d: SourceData, ls: seq<ActiveLabel>, at: Context): (r: SourceData)
    requires WellIndexed(g, d) && forall l :: l in ls ==> ValidLabel(g, l)
    ensures WellIndexed(g, r) && Grows(d, r)
    ensures forall l :: l in ls ==> at.Index() in r.incoming && ActiveKey(l, at, at) in r.incoming[at.Index()].active
    decreases |ls|
  {
    if |ls| == 0 then d
    else
      var e := NewActive(ls[0], at, at);
      ConnectActiveGrows(g, d, e);
      var d1 := ConnectActiveAt(g, d, e).0;
      var r := ConnectSelfEdges(g, d1, ls[1..], at);
      GrowsTrans(d, d1, r);
      assert forall l :: l in ls ==> l == ls[0] || l in ls[1..];
      r
  }

  datatype ParseError = KeyNotFound | CollectionModified | OutOfFuel

  /** The parser's fields during `Parse`: the source data, the agenda (a queue, head
      first), the next word contexts (a hash set in insertion order) and the
      result. */
  datatype Chart = Chart(data: SourceData, agenda: seq<CompleteEdge>, next: seq<Context>, result: Option<CompleteEdge>)

  /** A result is only ever a final constituent spanning the whole text. */
  predicate ResultSound(g: Built, st: Chart) {
    st.result.Some? ==>
      && IsFinalEdge(g, st.result.value)
      && BOF(st.result.value.start) && EOF(st.data.text, st.result.value.end)
  }

  ghost predicate ChartOk(g: Built, st: Chart) {
    WellFormed(g) && WellIndexed(g, st.data) && ResultSound(g, st)
  }

  /** The start of `Parse`: the self-edges of the root transitions at the start
      context, which is the only next word context. */
  function Initial(g: Built, text: string): (st: Chart)
    requires WellFormed(g)
    ensures ChartOk(g, st) && st.data.text == text
    ensures st.agenda == [] && st.next == [Start] && st.result.None?
    ensures forall l :: l in RootTransitions(g) ==> 0 in st.data.incoming && ActiveKey(l, Start, Start) in st.data.incoming[0].active
  {
    RootTransitionsValid(g);
    Chart(ConnectSelfEdges(g, NewData(text), RootTransitions(g), Start), [], [Start], None)
  }

  // ---------------------------------------------------------------------------------
  // Scanning

  /** The interpretations of every context in `ctxs`, in order; reading one that has no
      incoming set throws. */
  function Collect(g: Built, d: SourceData, ctxs: seq<Context>): (r: Result<seq<CompleteEdge>, ParseError>)
    requires WellIndexed(g, d)
    ensures r.Ok? <==> forall k :: 0 <= k < |ctxs| ==> ctxs[k].Index() in d.incoming
    ensures r.Ok? ==> forall k :: 0 <= k < |r.value| ==>
      && r.value[k].start in ctxs
      && r.value[k].matched.Some? && r.value[k].matched.value.Success()
      && r.value[k].complete in d.incoming[r.value[k].start.Index()].waiting
    ensures r.Throws? ==> r.error == ParseError.KeyNotFound
    decreases |ctxs|
  {
    if |ctxs| == 0 then Ok([])
    else
      var here := GetInterpretations(g, d, ctxs[0]);
      if here.Throws? then Throws(ParseError.KeyNotFound)
      else
        var rest := Collect(g, d, ctxs[1..]);
        if rest.Throws? then Throws(rest.error)
        else
          assert forall k :: 1 <= k < |ctxs| ==> ctxs[k] == ctxs[1..][k - 1];
          Ok(here.value + rest.value)
  }

  /** `scan`'s second loop: every interpretation joins the chart, and its end becomes a
      next word context unless it is zero-width and not alone. (The loop also appends
      each to the agenda; `Scan` appends them all at once, which the loop does not
      read.) */
  function Enqueue(g: Built, st: Chart, interps: seq<CompleteEdge>, total: nat): (r: Chart)
    requires WellIndexed(g, st.data)
    ensures WellIndexed(g, r.data) && Grows(st.data, r.data)
    ensures r.agenda == st.agenda && r.result == st.result
    decreases |interps|
  {
    if |interps| == 0 then st
    else
      var c := interps[0];
      ConnectCompleteGrows(g, st.data, c);
      var next := if total < 2 || c.end != c.start then AddOnce(st.next, c.end) else st.next;
      var st1 := st.(data := ConnectCompleteAt(st.data, c).0, next := next);
      var r := Enqueue(g, st1, interps[1..], total);
      GrowsTrans(st.data, st1.data, r.data);
      r
  }

  /** A context is a next word context after enqueueing exactly when it was one
      before or ends an interpretation that is not zero-width, or any interpretation
      when there is only one. */
  /** A context ends an interpretation that becomes a next word context. */
  ghost predicate EndsOne(interps: seq<CompleteEdge>, total: nat, x: Context) {
    exists k :: 0 <= k < |interps| && interps[k].end == x && (total < 2 || interps[k].end != interps[k].start)
  }

  lemma EndsOneCons(interps: seq<CompleteEdge>, total: nat, x: Context)
    requires |interps| > 0
    ensures EndsOne(interps, total, x) <==>
      (interps[0].end == x && (total < 2 || interps[0].end != interps[0].start)) || EndsOne(interps[1..], total, x)
  {
    if EndsOne(interps, total, x) {
      var k :| 0 <= k < |interps| && interps[k].end == x && (total < 2 || interps[k].end != interps[k].start);
      if k > 0 { assert interps[1..][k - 1] == interps[k]; }
    }
    if EndsOne(interps[1..], total, x) {
      var k :| 0 <= k < |interps[1..]| && interps[1..][k].end == x && (total < 2 || interps[1..][k].end != interps[1..][k].start);
      assert interps[1..][k] == interps[k + 1];
    }
  }

  /** A context is a next word context after enqueueing exactly when it was one
      before or ends an interpretation that is not zero-width, or any interpretation
      when there is only one. */
  lemma {:induction false} EnqueueNext(g: Built, st: Chart, interps: seq<CompleteEdge>, total: nat, x: Context)
    requires WellIndexed(g, st.data)
    ensures x in Enqueue(g, st, interps, total).next <==> x in st.next || EndsOne(interps, total, x)
    decreases |interps|
  {
    if |interps| > 0 {
      var c := interps[0];
      ConnectCompleteGrows(g, st.data, c);
      var next := if total < 2 || c.end != c.start then AddOnce(st.next, c.end) else st.next;
      var st1 := st.(data := ConnectCompleteAt(st.data, c).0, next := next);
      EnqueueNext(g, st1, interps[1..], total, x);
      assert Enqueue(g, st, interps, total) == Enqueue(g, st1, interps[1..], total);
      EndsOneCons(interps, total, x);
    }
  }

  /** `scan`: false when no next word context has an interpretation; otherwise the
      interpretations are enqueued and the next word contexts replaced. */
  function Scan(g: Built, st: Chart): (r: Result<(Chart, bool), ParseError>)
    requires ChartOk(g, st)
    ensures r.Ok? ==> ChartOk(g, r.value.0) && Grows(st.data, r.value.0.data) && r.value.0.result == st.result
    ensures r.Throws? ==> r.error == ParseError.KeyNotFound
  {
    var interps := Collect(g, st.data, st.next);
    if interps.Throws? then Throws(interps.error)
    else if |interps.value| == 0 then Ok((st, false))
    else Ok((Enqueue(g, st.(agenda := st.agenda + interps.value, next := []), interps.value, |interps.value|), true))
  }

  /** Scanning fails only on a next word context without incoming edges, reports
      false exactly when there is nothing to read, and otherwise appends every
      interpretation to the agenda; the new next word contexts are the ends of the
      interpretations, leaving out zero-width ones when there are several. */
  lemma ScanMeaning(g: Built, st: Chart)
    requires ChartOk(g, st)
    ensures Scan(g, st).Ok? <==> forall k :: 0 <= k < |st.next| ==> st.next[k].Index() in st.data.incoming
    ensures Scan(g, st).Ok? ==>
      var interps := Collect(g, st.data, st.next).value;
      var (st', more) := Scan(g, st).value;
      && (more <==> |interps| > 0)
      && (!more ==> st' == st)
      && (more ==> st'.agenda == st.agenda + interps)
      && (more ==> forall x :: x in st'.next <==> EndsOne(interps, |interps|, x))
  {
    var interps := Collect(g, st.data, st.next);
    if interps.Ok? && |interps.value| > 0 {
      forall x {
        EnqueueNext(g, st.(agenda := st.agenda + interps.value, next := []), interps.value, |interps.value|, x);
      }
    }
  }

  // ---------------------------------------------------------------------------------
  // Predicting and completing

  /** `predict`: the edge extended by the constituent is connected, and only when it is
      new are the self-edges of its transitions connected at its end. */
  function Predict(g: Built, st: Chart, c: CompleteEdge, e: ActiveEdge): (r: Chart)
    requires ChartOk(g, st) && ValidLabel(g, e.activeLabel) && !WillComplete(g, e.activeLabel)
    ensures ChartOk(g, r) && Grows(st.data, r.data)
    ensures r.agenda == st.agenda && r.next == st.next && r.result == st.result
    ensures c.end.Index() in r.data.incoming && KeyOf(ExtendBy(g, e, c)) in r.data.incoming[c.end.Index()].active
  {
    var ne := ExtendBy(g, e, c);
    ExtendAndComplete(g, e, c);
    ConnectActiveGrows(g, st.data, ne);
    var (d1, added) := ConnectActiveAt(g, st.data, ne);
    if !added then st.(data := d1)
    else
      TransitionsClosed(g, ne.activeLabel);
      var ts := Transitions(g, ne.activeLabel);
      var d2 := ConnectSelfEdges(g, d1, ts, ne.end);
      GrowsTrans(st.data, d1, d2);
      st.(data := d2)
  }

  /** An extended edge already in the chart changes nothing; a new one brings the
      self-edges of all its transitions at the constituent's end. */
  lemma PredictMeaning(g: Built, st: Chart, c: CompleteEdge, e: ActiveEdge)
    requires ChartOk(g, st) && ValidLabel(g, e.activeLabel) && !WillComplete(g, e.activeLabel)
    ensures var ne := ExtendBy(g, e, c);
      var i := c.end.Index();
      && (i in st.data.incoming && KeyOf(ne) in st.data.incoming[i].active ==> Predict(g, st, c, e) == st)
      && (!(i in st.data.incoming && KeyOf(ne) in st.data.incoming[i].active) ==>
            forall t :: t in Transitions(g, ne.activeLabel) ==>
              ActiveKey(t, c.end, c.end) in Predict(g, st, c, e).data.incoming[i].active)
  {
    var ne := ExtendBy(g, e, c);
    ExtendAndComplete(g, e, c);
    ConnectActiveGrows(g, st.data, ne);
  }

  /** `complete`: the constituent completed by the edge is connected and enqueued when
      new; a final constituent from the first to past the last character becomes the
      result and empties the agenda. */
  function Complete(g: Built, st: Chart, c: CompleteEdge, e: ActiveEdge): (r: Chart)
    requires ChartOk(g, st) && ValidLabel(g, e.activeLabel) && WillComplete(g, e.activeLabel)
    ensures ChartOk(g, r) && Grows(st.data, r.data) && r.next == st.next
    ensures c.end.Index() in r.data.incoming && CompleteKeyOf(CompleteBy(g, e, c)) in r.data.incoming[c.end.Index()].complete
  {
    var nc := CompleteBy(g, e, c);
    ExtendAndComplete(g, e, c);
    ConnectCompleteGrows(g, st.data, nc);
    var (d1, added) := ConnectCompleteAt(st.data, nc);
    var agenda := if added then st.agenda + [nc] else st.agenda;
    if IsFinalEdge(g, nc) && EOF(d1.text, nc.end) && BOF(nc.start) then Chart(d1, [], st.next, Some(nc))
    else Chart(d1, agenda, st.next, st.result)
  }

  /** A constituent completed again changes nothing unless it is the result; a new one
      joins the agenda; a final one spanning the whole text becomes the result and
      empties the agenda. */
  lemma CompleteMeaning(g: Built, st: Chart, c: CompleteEdge, e: ActiveEdge)
    requires ChartOk(g, st) && ValidLabel(g, e.activeLabel) && WillComplete(g, e.activeLabel)
    ensures var nc := CompleteBy(g, e, c);
      var i := c.end.Index();
      var r := Complete(g, st, c, e);
      var spans := IsFinalEdge(g, nc) && BOF(nc.start) && EOF(st.data.text, nc.end);
      var known := i in st.data.incoming && CompleteKeyOf(nc) in st.data.incoming[i].complete;
      && (spans ==> r.result == Some(nc) && r.agenda == [])
      && (!spans && known ==> r == st)
      && (!spans && !known ==> r.agenda == st.agenda + [nc] && r.result == st.result)
  {
    var nc := CompleteBy(g, e, c);
    ExtendAndComplete(g, e, c);
    ConnectCompleteGrows(g, st.data, nc);
  }

  /** The work done for one extensible edge: completing it when its label completes
      the sequence, extending it otherwise. */
  function Join(g: Built, st: Chart, c: CompleteEdge, e: ActiveEdge): (r: Chart)
    requires ChartOk(g, st) && ValidLabel(g, e.activeLabel)
    ensures ChartOk(g, r) && Grows(st.data, r.data) && r.next == st.next
    ensures Joined(g, r.data, c, e)
  {
    if WillComplete(g, e.activeLabel) then Complete(g, st, c, e) else Predict(g, st, c, e)
  }

  /** The edge made from `e` and the constituent `c` is in the chart at `c`'s end. */
  ghost predicate Joined(g: Built, d: SourceData, c: CompleteEdge, e: ActiveEdge)
    requires ValidLabel(g, e.activeLabel)
  {
    var i := c.end.Index();
    && i in d.incoming
    && (if WillComplete(g, e.activeLabel) then CompleteKeyOf(CompleteBy(g, e, c)) in d.incoming[i].complete
        else KeyOf(ExtendBy(g, e, c)) in d.incoming[i].active)
  }

  lemma JoinedGrows(g: Built, d: SourceData, d': SourceData, c: CompleteEdge, e: ActiveEdge)
    requires ValidLabel(g, e.activeLabel) && Joined(g, d, c, e) && Grows(d, d')
    ensures Joined(g, d', c, e)
  {}

  // ---------------------------------------------------------------------------------
  // Working off the agenda

  /** The `foreach` of `processAgenda` over a snapshot of the extensible edges, from
      position `k` on. */
  function ProcessEdges(g: Built, st: Chart, c: CompleteEdge, edges: seq<ActiveEdge>, k: nat): (r: Chart)
    requires ChartOk(g, st) && k <= |edges|
    requires forall j :: 0 <= j < |edges| ==> ValidLabel(g, edges[j].activeLabel)
    ensures ChartOk(g, r) && Grows(st.data, r.data) && r.next == st.next
    decreases |edges| - k
  {
    if k == |edges| then st
    else
      var st1 := Join(g, st, c, edges[k]);
      var r := ProcessEdges(g, st1, c, edges, k + 1);
      GrowsTrans(st.data, st1.data, r.data);
      r
  }

  /** Every edge of the snapshot from `k` on is joined with the constituent. */
  lemma {:induction false} ProcessEdgesJoins(g: Built, st: Chart, c: CompleteEdge, edges: seq<ActiveEdge>, k: nat)
    requires ChartOk(g, st) && k <= |edges|
    requires forall j :: 0 <= j < |edges| ==> ValidLabel(g, edges[j].activeLabel)
    ensures forall j :: k <= j < |edges| ==> Joined(g, ProcessEdges(g, st, c, edges, k).data, c, edges[j])
    decreases |edges| - k
  {
    if k < |edges| {
      var st1 := Join(g, st, c, edges[k]);
      var r := ProcessEdges(g, st1, c, edges, k + 1);
      assert ProcessEdges(g, st, c, edges, k) == r;
      ProcessEdgesJoins(g, st1, c, edges, k + 1);
      forall j | k <= j < |edges| ensures Joined(g, r.data, c, edges[j]) {
        if j == k {
          JoinedGrows(g, st1.data, r.data, c, edges[k]);
        }
      }
    }
  }

  /** The incoming set at `i`, created if missing, keeps the chart well indexed. */
  lemma IncomingKeeps(g: Built, d: SourceData, i: nat)
    requires WellIndexed(g, d)
    ensures WellIndexed(g, IncomingAt(d, i).0) && Grows(d, IncomingAt(d, i).0)
  {
    EmptyIndexed(g);
  }

  /** The loop body of `processAgenda` for the constituent `c`, enumerating a snapshot
      of the edges extensible with it. */
  function ProcessConstituent(g: Built, st: Chart, c: CompleteEdge): (r: Chart)
    requires ChartOk(g, st)
    ensures ChartOk(g, r) && Grows(st.data, r.data) && r.next == st.next
  {
    IncomingKeeps(g, st.data, c.start.Index());
    var (d1, inc) := IncomingAt(st.data, c.start.Index());
    var edges := ExtensibleWith(inc, c);
    ExtensibleWithExactly(g, inc, c);
    var r := ProcessEdges(g, st.(data := d1), c, edges, 0);
    GrowsTrans(st.data, d1, r.data);
    r
  }

  /** Each edge ending at the constituent's start and waiting for its parent is
      extended or completed by it, with the result recorded at the constituent's
      end. */
  lemma ProcessConstituentJoins(g: Built, st: Chart, c: CompleteEdge, e: ActiveEdge)
    requires ChartOk(g, st) && ValidLabel(g, e.activeLabel)
    requires c.start.Index() in st.data.incoming && e in ExtensibleWith(st.data.incoming[c.start.Index()], c)
    ensures Joined(g, ProcessConstituent(g, st, c).data, c, e)
  {
    var inc := st.data.incoming[c.start.Index()];
    var edges := ExtensibleWith(inc, c);
    ExtensibleWithExactly(g, inc, c);
    ProcessEdgesJoins(g, st, c, edges, 0);
    var j :| 0 <= j < |edges| && edges[j] == e;
  }

  /** The same loop as written: the hash set being enumerated is the live set, and
      `predict` may add to it (an extended edge that ends where it starts and waits
      for the same term again), after which the enumerator's next step throws. */
  function ProcessEdgesAsWritten(g: Built, st: Chart, c: CompleteEdge, edges: seq<ActiveEdge>, k: nat): (r: Result<Chart, ParseError>)
    requires ChartOk(g, st) && k <= |edges| && c.start.Index() in st.data.incoming
    requires forall j :: 0 <= j < |edges| ==> ValidLabel(g, edges[j].activeLabel)
    ensures r.Throws? ==> r.error == CollectionModified
    decreases |edges| - k
  {
    if k == |edges| then Ok(st)
    else
      var st1 := Join(g, st, c, edges[k]);
      if ExtensibleWith(st1.data.incoming[c.start.Index()], c) != edges then Throws(CollectionModified)
      else ProcessEdgesAsWritten(g, st1, c, edges, k + 1)
  }

  /** When the enumeration is not disturbed, the loop as written does what the
      snapshot loop does. */
  lemma {:induction false} AsWrittenAgrees(g: Built, st: Chart, c: CompleteEdge, edges: seq<ActiveEdge>, k: nat)
    requires ChartOk(g, st) && k <= |edges| && c.start.Index() in st.data.incoming
    requires forall j :: 0 <= j < |edges| ==> ValidLabel(g, edges[j].activeLabel)
    ensures ProcessEdgesAsWritten(g, st, c, edges, k).Ok? ==>
      ProcessEdgesAsWritten(g, st, c, edges, k).value == ProcessEdges(g, st, c, edges, k)
    decreases |edges| - k
  {
    if k < |edges| {
      var st1 := Join(g, st, c, edges[k]);
      if ExtensibleWith(st1.data.incoming[c.start.Index()], c) == edges {
        AsWrittenAgrees(g, st1, c, edges, k + 1);
      }
    }
  }

  /** If some edge of the enumeration is extended, by a constituent ending where it
      starts, into an edge that waits for the constituent's parent again and is not
      already enumerated, the loop as written throws. */
  lemma {:induction false} AsWrittenThrows(g: Built, st: Chart, c: CompleteEdge, edges: seq<ActiveEdge>, k: nat, j: nat)
    requires ChartOk(g, st) && k <= j < |edges| && c.start.Index() == c.end.Index()
    requires c.start.Index() in st.data.incoming && ExtensibleWith(st.data.incoming[c.start.Index()], c) == edges
    requires forall i :: 0 <= i < |edges| ==> ValidLabel(g, edges[i].activeLabel)
    requires !WillComplete(g, edges[j].activeLabel)
    requires CurrentTerm(g, ExtendBy(g, edges[j], c).activeLabel) == c.parent
    requires forall i :: 0 <= i < |edges| ==> KeyOf(edges[i]) != KeyOf(ExtendBy(g, edges[j], c))
    ensures ProcessEdgesAsWritten(g, st, c, edges, k) == Throws(CollectionModified)
    decreases j - k
  {
    var st1 := Join(g, st, c, edges[k]);
    var inc1 := st1.data.incoming[c.start.Index()];
    if k == j {
      var key := KeyOf(ExtendBy(g, edges[j], c));
      ExtensibleWithExactly(g, inc1, c);
      assert key in inc1.active;
      assert exists i :: 0 <= i < |ExtensibleWith(inc1, c)| && KeyOf(ExtensibleWith(inc1, c)[i]) == key;
    } else if ExtensibleWith(inc1, c) == edges {
      AsWrittenThrows(g, st1, c, edges, k + 1, j);
    }
  }

  /** `processAgenda`'s loop body as written, over the live extensible edges: when the
      enumeration is not disturbed it works off the constituent as the snapshot loop
      does; otherwise it throws. */
  function ProcessConstituentAsWritten(g: Built, st: Chart, c: CompleteEdge): (r: Result<Chart, ParseError>)
    requires ChartOk(g, st)
    ensures r.Ok? ==> r.value == ProcessConstituent(g, st, c)
    ensures r.Throws? ==> r.error == CollectionModified
  {
    IncomingKeeps(g, st.data, c.start.Index());
    var (d1, inc) := IncomingAt(st.data, c.start.Index());
    var edges := ExtensibleWith(inc, c);
    ExtensibleWithExactly(g, inc, c);
    AsWrittenAgrees(g, st.(data := d1), c, edges, 0);
    ProcessEdgesAsWritten(g, st.(data := d1), c, edges, 0)
  }

  /** How `processAgenda` enumerates the edges extensible with a constituent: the live
      hash set, as written, or a snapshot taken before the loop, as corrected. */
  datatype Enumeration = LiveSet | Snapshot

  /** One constituent worked off under the chosen enumeration. */
  function WorkOff(en: Enumeration, g: Built, st: Chart, c: CompleteEdge): (r: Result<Chart, ParseError>)
    requires ChartOk(g, st)
    ensures r.Ok? ==> r.value == ProcessConstituent(g, st, c)
    ensures r.Throws? ==> en == LiveSet && r.error == CollectionModified
  {
    match en
    case LiveSet => ProcessConstituentAsWritten(g, st, c)
    case Snapshot => Ok(ProcessConstituent(g, st, c))
  }

  /** `processAgenda` with a bound on the constituents it dequeues (the loop itself has
      none). Only the live enumeration can throw `CollectionModified`. */
  function ProcessAgenda(en: Enumeration, g: Built, st: Chart, fuel: nat): (r: Result<Chart, ParseError>)
    requires ChartOk(g, st)
    ensures r.Ok? ==> ChartOk(g, r.value) && Grows(st.data, r.value.data) && r.value.agenda == []
    ensures r.Throws? ==> r.error == OutOfFuel || (en == LiveSet && r.error == CollectionModified)
    decreases fuel
  {
    if |st.agenda| == 0 then Ok(st)
    else if fuel == 0 then Throws(OutOfFuel)
    else
      match WorkOff(en, g, st.(agenda := st.agenda[1..]), st.agenda[0])
      case Throws(e) => Throws(e)
      case Ok(st1) =>
        var r := ProcessAgenda(en, g, st1, fuel - 1);
        if r.Ok? then GrowsTrans(st.data, st1.data, r.value.data); r else r
  }

  /** The loop of `Parse`: scan and work off the agenda until there is a result or
      nothing more to read, bounded by `fuel` rounds. */
  function Run(en: Enumeration, g: Built, st: Chart, fuel: nat): (r: Result<Chart, ParseError>)
    requires ChartOk(g, st)
    ensures r.Ok? ==> ChartOk(g, r.value) && Grows(st.data, r.value.data)
    decreases fuel
  {
    if st.result.Some? then Ok(st)
    else if fuel == 0 then Throws(OutOfFuel)
    else
      var scanned := Scan(g, st);
      if scanned.Throws? then Throws(scanned.error)
      else
        var (st1, more) := scanned.value;
        if !more then Ok(st1)
        else
          var worked := ProcessAgenda(en, g, st1, fuel);
          if worked.Throws? then Throws(worked.error)
          else
            GrowsTrans(st.data, st1.data, worked.value.data);
            var r := Run(en, g, worked.value, fuel - 1);
            if r.Ok? then GrowsTrans(st.data, worked.value.data, r.value.data); r else r
  }

  /** `Parse` up to the tree: the final constituent found for the text, if any. A
      result is always a constituent of a final non-terminal from the first character
      to the end of the text. `LiveSet` gives the parser as written. */
  function Parse(en: Enumeration, g: Built, text: string, fuel: nat): (r: Result<Option<CompleteEdge>, ParseError>)
    requires WellFormed(g)
    ensures r.Ok? && r.value.Some? ==>
      && IsFinalEdge(g, r.value.value) && LabelParent(r.value.value.complete) in g.final
      && BOF(r.value.value.start) && EOF(text, r.value.value.end)
  {
    var run := Run(en, g, Initial(g, text), fuel);
    if run.Throws? then Throws(run.error) else Ok(run.value.result)
  }

  /** One constituent off the agenda, when it is worked off without an exception;
      `fuel` is what is left after it. */
  lemma AgendaStep(en: Enumeration, g: Built, st: Chart, fuel: nat, w: Chart)
    requires ChartOk(g, st) && |st.agenda| > 0
    requires WorkOff(en, g, st.(agenda := st.agenda[1..]), st.agenda[0]) == Ok(w)
    ensures ChartOk(g, w)
    ensures ProcessAgenda(en, g, st, fuel + 1) == ProcessAgenda(en, g, w, fuel)
  {
  }

  /** Whenever the agenda as written is worked off without an exception, it gives what
      the snapshot enumeration gives. */
  lemma {:induction false} ProcessAgendaAgrees(g: Built, st: Chart, fuel: nat)
    requires ChartOk(g, st)
    ensures ProcessAgenda(LiveSet, g, st, fuel).Ok? ==>
      ProcessAgenda(LiveSet, g, st, fuel) == ProcessAgenda(Snapshot, g, st, fuel)
    decreases fuel
  {
    if |st.agenda| > 0 && fuel > 0 {
      var w := WorkOff(LiveSet, g, st.(agenda := st.agenda[1..]), st.agenda[0]);
      if w.Ok? {
        var f: nat := fuel - 1;
        AgendaStep(LiveSet, g, st, f, w.value);
        AgendaStep(Snapshot, g, st, f, w.value);
        ProcessAgendaAgrees(g, w.value, f);
        assert f + 1 == fuel;
      }
    }
  }

  /** One round of `Run` that scans more words and works off the agenda without an
      exception; `fuel` is what is left after it. */
  lemma RunStep(en: Enumeration, g: Built, st: Chart, fuel: nat, w: Chart)
    requires ChartOk(g, st) && st.result.None?
    requires Scan(g, st).Ok? && Scan(g, st).value.1
    requires ProcessAgenda(en, g, Scan(g, st).value.0, fuel + 1) == Ok(w)
    ensures ChartOk(g, w)
    ensures Run(en, g, st, fuel + 1) == Run(en, g, w, fuel)
  {
  }

  /** Whenever the source's loop returns, the snapshot loop returns the same chart. */
  lemma {:induction false} RunAgrees(g: Built, st: Chart, fuel: nat)
    requires ChartOk(g, st)
    ensures Run(LiveSet, g, st, fuel).Ok? ==> Run(LiveSet, g, st, fuel) == Run(Snapshot, g, st, fuel)
    decreases fuel
  {
    if st.result.None? && fuel > 0 {
      var scanned := Scan(g, st);
      if scanned.Ok? && scanned.value.1 {
        var st1 := scanned.value.0;
        ProcessAgendaAgrees(g, st1, fuel);
        var worked := ProcessAgenda(LiveSet, g, st1, fuel);
        if worked.Ok? {
          var f: nat := fuel - 1;
          RunStep(LiveSet, g, st, f, worked.value);
          RunStep(Snapshot, g, st, f, worked.value);
          RunAgrees(g, worked.value, f);
          assert f + 1 == fuel;
        }
      }
    }
  }

  /** The parser as written and the corrected one differ only by the exception: when the
      source's parse returns, the corrected parse returns the same constituent. */
  lemma ParseAgrees(g: Built, text: string, fuel: nat)
    requires WellFormed(g)
    ensures Parse(LiveSet, g, text, fuel).Ok? ==> Parse(LiveSet, g, text, fuel) == Parse(Snapshot, g, text, fuel)
  {
    RunAgrees(g, Initial(g, text), fuel);
  }

  /** The grammar `R -> X X` with `X` the empty terminal. */
  function RepeatGrammar(): Built {
    var r := NonTerminal(0, Some("R"));
    Built(map[r := [[EmptyTerminal(1), EmptyTerminal(1)]]], r, {r})
  }

  /** The self-edge of `R`'s first label at the start context. */
  function RepeatStartEdge(): ActiveEdge {
    NewActive(Head(RepeatGrammar().root, 0), Start, Start)
  }

  /** The incoming set of the start context once `Parse` has started. */
  function RepeatStartSet(): Incoming {
    var h := Head(RepeatGrammar().root, 0);
    Incoming({KeyOf(RepeatStartEdge())}, {}, [TerminalAt(h)], map[EmptyTerminal(1) := [RepeatStartEdge()]])
  }

  lemma RepeatInitial(text: string)
    ensures WellFormed(RepeatGrammar())
    ensures Initial(RepeatGrammar(), text).data.incoming == map[0 := RepeatStartSet()]
  {
    var g := RepeatGrammar();
    var x := EmptyTerminal(1);
    assert WellFormed(g);
    var h := Head(g.root, 0);
    assert Transitions(g, h) == [];
    assert RootTransitions(g) == [h];
    var e0 := RepeatStartEdge();
    var inc0 := RepeatStartSet();
    var d0 := NewData(text);
    assert IncomingAt(d0, 0) == (d0.(incoming := map[0 := NoEdges]), NoEdges);
    assert TerminalLabelOf(g, h) == Some(TerminalAt(h));
    assert CurrentTerm(g, h) == x;
    assert NoEdges.active + {KeyOf(e0)} == {KeyOf(e0)};
    assert NoEdges.waiting + [TerminalAt(h)] == [TerminalAt(h)];
    assert NoEdges.extensible == map[];
    assert [] + [e0] == [e0];
    assert map[][x := [e0]] == map[x := [e0]];
    assert ConnectActive(g, NoEdges, e0) == (inc0, true);
    var d1 := ConnectActiveAt(g, d0, e0).0;
    assert d1.incoming == map[0 := inc0];
    assert ConnectSelfEdges(g, d0, [h], Start) == ConnectSelfEdges(g, d1, [], Start);
  }

  /** The empty terminal's edge at the start context: what the first scan finds. */
  function RepeatConstituent(): CompleteEdge
    requires WellFormed(RepeatGrammar())
  {
    TerminalEdge(RepeatGrammar(), Head(RepeatGrammar().root, 0), Start, TerminalMatch(Some(Start), ""))
  }

  lemma RepeatInterpretations(text: string)
    ensures WellFormed(RepeatGrammar())
    ensures var g := RepeatGrammar();
      var d := Initial(g, text).data;
      Collect(g, d, [Start]) == Ok([RepeatConstituent()])
  {
    RepeatInitial(text);
    var g := RepeatGrammar();
    var h := Head(g.root, 0);
    var d := Initial(g, text).data;
    var c := RepeatConstituent();
    assert WaitingLabels(d, 0) == Ok([TerminalAt(h)]);
    assert MatchTerminal(text, Start, EmptyTerminal(1)) == TerminalMatch(Some(Start), "");
    assert Interpret(g, text, Start, [TerminalAt(h)]) == [c];
    assert GetInterpretations(g, d, Start) == Ok([c]);
  }

  lemma RepeatScan(text: string)
    ensures WellFormed(RepeatGrammar())
    ensures var g := RepeatGrammar();
      && Scan(g, Initial(g, text)).Ok?
      && var (st, more) := Scan(g, Initial(g, text)).value;
      && more && st.agenda == [RepeatConstituent()]
      && 0 in st.data.incoming
      && ExtensibleWith(st.data.incoming[0], RepeatConstituent()) == [RepeatStartEdge()]
  {
    RepeatInterpretations(text);
    RepeatInitial(text);
    var g := RepeatGrammar();
    var st0 := Initial(g, text);
    var c := RepeatConstituent();
    var st1 := st0.(agenda := st0.agenda + [c], next := []);
    assert Scan(g, st0) == Ok((Enqueue(g, st1, [c], 1), true));
    ConnectCompleteGrows(g, st0.data, c);
    ConnectCompleteAtIs(st0.data, c);
    var d' := ConnectCompleteAt(st0.data, c).0;
    assert d'.incoming[0].extensible == RepeatStartSet().extensible;
    assert Enqueue(g, st1, [c], 1).data == d';
  }

  /** Parsing any text with `R -> X X`: the first scan finds the empty terminal at the
      start, and working off that constituent extends the start self-edge of `R` into
      an edge that waits for `X` at the same position, which lands in the hash set
      being enumerated, so `processAgenda` as written throws. */
  lemma CollectionModifiedExample(text: string)
    ensures var g := RepeatGrammar();
      && WellFormed(g)
      && Scan(g, Initial(g, text)).Ok?
      && var (st, more) := Scan(g, Initial(g, text)).value;
      && more && |st.agenda| == 1
      && ProcessConstituentAsWritten(g, st.(agenda := []), st.agenda[0]) == Throws(CollectionModified)
  {
    RepeatScan(text);
    var g := RepeatGrammar();
    var (st, more) := Scan(g, Initial(g, text)).value;
    var c := RepeatConstituent();
    RepeatExtends();
    ThrowsOnSelfExtension(g, st.(agenda := []), c, RepeatStartEdge());
  }

  /** A constituent that ends where it starts, with one extensible edge whose extension
      by it waits for its parent again: the loop as written throws. */
  lemma ThrowsOnSelfExtension(g: Built, st: Chart, c: CompleteEdge, e: ActiveEdge)
    requires ChartOk(g, st) && c.start.Index() == c.end.Index() && c.start.Index() in st.data.incoming
    requires ExtensibleWith(st.data.incoming[c.start.Index()], c) == [e]
    requires ValidLabel(g, e.activeLabel) && !WillComplete(g, e.activeLabel)
    requires CurrentTerm(g, ExtendBy(g, e, c).activeLabel) == c.parent && KeyOf(e) != KeyOf(ExtendBy(g, e, c))
    ensures ProcessConstituentAsWritten(g, st, c) == Throws(CollectionModified)
  {
    AsWrittenThrows(g, st, c, [e], 0, 0);
    AsWrittenEnumerates(g, st, c);
  }

  /** The constituent ends where it starts, and extending the start edge by it gives an
      edge waiting for its parent again. */
  lemma RepeatExtends()
    ensures WellFormed(RepeatGrammar())
    ensures var g := RepeatGrammar();
      var c := RepeatConstituent();
      var e0 := RepeatStartEdge();
      && c.start.Index() == c.end.Index() && ValidLabel(g, e0.activeLabel) && !WillComplete(g, e0.activeLabel)
      && CurrentTerm(g, ExtendBy(g, e0, c).activeLabel) == c.parent
      && KeyOf(e0) != KeyOf(ExtendBy(g, e0, c))
  {
    RepeatInitial("");
  }

  /** The loop as written enumerates the live extensible edges at the constituent's
      start. */
  lemma AsWrittenEnumerates(g: Built, st: Chart, c: CompleteEdge)
    requires ChartOk(g, st) && c.start.Index() in st.data.incoming
    ensures forall j :: 0 <= j < |ExtensibleWith(st.data.incoming[c.start.Index()], c)| ==>
      ValidLabel(g, ExtensibleWith(st.data.incoming[c.start.Index()], c)[j].activeLabel)
    ensures ProcessConstituentAsWritten(g, st, c)
        == ProcessEdgesAsWritten(g, st, c, ExtensibleWith(st.data.incoming[c.start.Index()], c), 0)
  {
    ExtensibleWithExactly(g, st.data.incoming[c.start.Index()], c);
  }

  /** The source's `Parse` of any text with `R -> X X` throws `CollectionModified` on
      its first round, where the snapshot parser cannot throw it. */
  lemma ParseCollectionModified(text: string, fuel: nat)
    requires fuel > 0
    ensures WellFormed(RepeatGrammar())
    ensures Parse(LiveSet, RepeatGrammar(), text, fuel) == Throws(CollectionModified)
    ensures Parse(Snapshot, RepeatGrammar(), text, fuel) != Throws(CollectionModified)
  {
    CollectionModifiedExample(text);
    var g := RepeatGrammar();
    var st0 := Initial(g, text);
    LiveAgendaThrows(g, Scan(g, st0).value.0, fuel);
    RunThrowsInAgenda(LiveSet, g, st0, fuel);
    ParseSnapshotNeverModified(g, text, fuel);
  }

  /** A one-constituent agenda whose constituent makes the loop as written throw. */
  lemma LiveAgendaThrows(g: Built, st: Chart, fuel: nat)
    requires ChartOk(g, st) && |st.agenda| == 1 && fuel > 0
    requires ProcessConstituentAsWritten(g, st.(agenda := []), st.agenda[0]) == Throws(CollectionModified)
    ensures ProcessAgenda(LiveSet, g, st, fuel) == Throws(CollectionModified)
  {
    assert st.(agenda := st.agenda[1..]) == st.(agenda := []);
    AgendaThrowsFirst(LiveSet, g, st, fuel);
  }

  /** The snapshot parser never throws `CollectionModified`. */
  lemma ParseSnapshotNeverModified(g: Built, text: string, fuel: nat)
    requires WellFormed(g)
    ensures Parse(Snapshot, g, text, fuel) != Throws(CollectionModified)
  {
    RunSnapshotNeverModified(g, Initial(g, text), fuel);
  }

  /** An exception working off the first constituent ends `processAgenda`. */
  lemma AgendaThrowsFirst(en: Enumeration, g: Built, st: Chart, fuel: nat)
    requires ChartOk(g, st) && |st.agenda| > 0 && fuel > 0
    requires WorkOff(en, g, st.(agenda := st.agenda[1..]), st.agenda[0]).Throws?
    ensures ProcessAgenda(en, g, st, fuel) == WorkOff(en, g, st.(agenda := st.agenda[1..]), st.agenda[0])
  {
  }

  /** An exception in `processAgenda` ends the round of `Run` that called it. */
  lemma RunThrowsInAgenda(en: Enumeration, g: Built, st: Chart, fuel: nat)
    requires ChartOk(g, st) && st.result.None? && fuel > 0
    requires Scan(g, st).Ok? && Scan(g, st).value.1
    requires ProcessAgenda(en, g, Scan(g, st).value.0, fuel).Throws?
    ensures Run(en, g, st, fuel) == ProcessAgenda(en, g, Scan(g, st).value.0, fuel)
  {
  }

  /** The snapshot loop never throws `CollectionModified`. */
  lemma {:induction false} RunSnapshotNeverModified(g: Built, st: Chart, fuel: nat)
    requires ChartOk(g, st)
    ensures Run(Snapshot, g, st, fuel) != Throws(CollectionModified)
    decreases fuel
  {
    if st.result.None? && fuel > 0 {
      var scanned := Scan(g, st);
      if scanned.Ok? && scanned.value.1 {
        var worked := ProcessAgenda(Snapshot, g, scanned.value.0, fuel);
        if worked.Ok? {
          var f: nat := fuel - 1;
          RunStep(Snapshot, g, st, f, worked.value);
          RunSnapshotNeverModified(g, worked.value, f);
          assert f + 1 == fuel;
        }
      }
    }
  }
}
