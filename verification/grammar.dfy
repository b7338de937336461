/** The grammar algebra of the Parsing library (Parsing/Terms/Term.cs,
    Parsing/GrammarSequence.cs, Parsing/GrammarRule.cs): terms, sequences of terms that
    must appear in order, and rules that offer alternative sequences. `+` builds the
    cross product of two rules' sequences and `|` puts their sequences side by side. */
module Grammar {
  import opened Results

  datatype TermKind = NonTerminalKind | TerminalKind

  /** A term of the grammar. C# terms are compared by reference, so every term carries
      an `id` standing for its object identity. Pattern and special terminals are not
      part of this model. */
  datatype Term =
    | NonTerminal(id: nat, ntName: Option<string>)
    | KeyTerminal(id: nat, keyName: Option<string>, key: string)
    | EmptyTerminal(id: nat)
  {
    /** `Term.Name`; the empty terminal is always called "EmptyTerminal". */
    function Name(): Option<string> {
      match this
      case NonTerminal(_, n) => n
      case KeyTerminal(_, n, _) => n
      case EmptyTerminal(_) => Some("EmptyTerminal")
    }

    function Kind(): TermKind {
      if NonTerminal? then NonTerminalKind else TerminalKind
    }

    predicate IsTerminal() { Kind() == TerminalKind }
  }

  /** `ToString` of a term: a key terminal shows its key, an unnamed non-terminal shows
      "[Unnamed]", any other term its name (a null name joins as the empty text). */
  function TermText(t: Term): string {
    match t
    case NonTerminal(_, n) => n.GetOr("[Unnamed]")
    case KeyTerminal(_, _, key) => key
    case EmptyTerminal(_) => "EmptyTerminal"
  }

  /** `Term.Unnamed(keyword)`: a fresh key terminal without a name. */
  function Unnamed(keyword: string, id: nat): (t: Term)
    ensures t.IsTerminal() && t.Name().None?
    ensures TermText(t) == keyword
  {
    KeyTerminal(id, None, keyword)
  }

  // ---------------------------------------------------------------------------------
  // Sequences

  /** A grammar sequence: its terms in order and the non-terminal that owns it. */
  datatype Sequence = Sequence(terms: seq<Term>, parent: Option<Term>)

  datatype GrammarError = TwoParents

  /** A freshly constructed sequence has no parent yet. */
  function NewSequence(terms: seq<Term>): (s: Sequence)
    ensures s.parent.None?
    ensures s.terms == terms
  {
    Sequence(terms, None)
  }

  /** `SetParent`: a sequence may belong to one non-terminal only. */
  function SetParent(s: Sequence, parent: Term): (r: Result<Sequence, GrammarError>)
    requires parent.NonTerminal?
    ensures r.Ok? <==> s.parent.None?
    ensures r.Ok? ==> r.value.parent == Some(parent) && r.value.terms == s.terms
    ensures r.Throws? ==> r.error == TwoParents
  {
    if s.parent.Some? then Throws(TwoParents) else Ok(Sequence(s.terms, Some(parent)))
  }

  /** Whatever the first parent, giving a sequence a second one throws. */
  lemma SetParentTwice(s: Sequence, p: Term, q: Term)
    requires p.NonTerminal? && q.NonTerminal? && SetParent(s, p).Ok?
    ensures SetParent(SetParent(s, p).value, q) == Throws(TwoParents)
  {}

  /** `string.Join(sep, parts)` for a string separator; no parts give "". */
  function JoinWith(sep: string, parts: seq<string>): string
    decreases |parts|
  {
    if |parts| == 0 then ""
    else if |parts| == 1 then parts[0]
    else parts[0] + sep + JoinWith(sep, parts[1..])
  }

  function TermTexts(ts: seq<Term>): (r: seq<string>)
    ensures |r| == |ts|
    ensures forall k :: 0 <= k < |ts| ==> r[k] == TermText(ts[k])
  {
    seq(|ts|, k requires 0 <= k < |ts| => TermText(ts[k]))
  }

  /** `GrammarSequence.ToString`: the term texts, comma separated, in braces. */
  function SequenceText(s: Sequence): string {
    "{" + JoinWith(", ", TermTexts(s.terms)) + "}"
  }

  /** Joining one more part puts exactly one separator before it. */
  lemma {:induction false} JoinWithSnoc(sep: string, parts: seq<string>, last: string)
    requires |parts| >= 1
    ensures JoinWith(sep, parts + [last]) == JoinWith(sep, parts) + sep + last
    decreases |parts|
  {
    if |parts| > 1 {
      assert (parts + [last])[1..] == parts[1..] + [last];
      JoinWithSnoc(sep, parts[1..], last);
    }
  }

  /** The rendering of a sequence lists its terms in construction order: appending a
      term appends ", " and that term's text just before the closing brace. */
  lemma SequenceTextAppend(ts: seq<Term>, t: Term, parent: Option<Term>)
    requires |ts| >= 1
    ensures SequenceText(Sequence(ts + [t], parent))
         == "{" + JoinWith(", ", TermTexts(ts)) + ", " + TermText(t) + "}"
  {
    assert TermTexts(ts + [t]) == TermTexts(ts) + [TermText(t)];
    JoinWithSnoc(", ", TermTexts(ts), TermText(t));
  }

  /** A one-term sequence renders as that term in braces. */
  lemma SequenceTextSingle(t: Term, parent: Option<Term>)
    ensures SequenceText(Sequence([t], parent)) == "{" + TermText(t) + "}"
  {
    assert TermTexts([t]) == [TermText(t)];
  }

  // ---------------------------------------------------------------------------------
  // Rules

  /** A grammar rule: alternative sequences, in order. */
  datatype Rule = Rule(sequences: seq<Sequence>)

  /** The implicit conversion of a term: one sequence holding just that term. */
  function FromTerm(t: Term): Rule {
    Rule([NewSequence([t])])
  }

  /** `Term + Term`: one sequence of the two terms. */
  function TermPlus(t1: Term, t2: Term): Rule {
    Rule([NewSequence([t1, t2])])
  }

  /** `Term | Term`: two one-term sequences. */
  function TermOr(t1: Term, t2: Term): Rule {
    Rule([NewSequence([t1]), NewSequence([t2])])
  }

  /** The implicit conversion of a keyword: a rule for one fresh unnamed key terminal. */
  function FromString(keyword: string, id: nat): Rule {
    FromTerm(Unnamed(keyword, id))
  }

  /** The sequences that prefix `a`'s terms to each sequence of `s2`, in order. */
  function Row(a: Sequence, s2: seq<Sequence>): (r: seq<Sequence>)
    ensures |r| == |s2|
    ensures forall j :: 0 <= j < |s2| ==> r[j] == NewSequence(a.terms + s2[j].terms)
  {
    seq(|s2|, j requires 0 <= j < |s2| => NewSequence(a.terms + s2[j].terms))
  }

  /** The loop nest of `GrammarRule + GrammarRule`: the outer loop runs over `s1`. */
  function Cross(s1: seq<Sequence>, s2: seq<Sequence>): seq<Sequence>
    decreases |s1|
  {
    if |s1| == 0 then [] else Row(s1[0], s2) + Cross(s1[1..], s2)
  }

  /** `GrammarRule + GrammarRule`. */
  function Plus(r1: Rule, r2: Rule): Rule {
    Rule(Cross(r1.sequences, r2.sequences))
  }

  /** `GrammarRule | GrammarRule`: the very same sequences, the first rule's first. */
  function Or(r1: Rule, r2: Rule): (r: Rule)
    ensures |r.sequences| == |r1.sequences| + |r2.sequences|
    ensures r.sequences[..|r1.sequences|] == r1.sequences
    ensures r.sequences[|r1.sequences|..] == r2.sequences
  {
    Rule(r1.sequences + r2.sequences)
  }

  /** `keyword + GrammarRule` and `GrammarRule + keyword`. */
  function KeyPlus(keyword: string, id: nat, r: Rule): Rule {
    Plus(FromString(keyword, id), r)
  }

  function PlusKey(r: Rule, keyword: string, id: nat): Rule {
    Plus(r, FromString(keyword, id))
  }

  lemma {:induction false} CrossLength(s1: seq<Sequence>, s2: seq<Sequence>)
    ensures |Cross(s1, s2)| == |s1| * |s2|
    decreases |s1|
  {
    if |s1| > 0 {
      CrossLength(s1[1..], s2);
      assert |s1| * |s2| == |s2| + (|s1| - 1) * |s2|;
    }
  }

  lemma MulStep(i: nat, n: nat, j: nat, m: nat)
    requires 0 < i < m && j < n
    ensures n <= i * n + j
    ensures (i * n + j) - n == (i - 1) * n + j
    ensures (i - 1) * n + j < (m - 1) * n
  {
    assert i * n == (i - 1) * n + n;
    assert (i - 1) * n <= (m - 2) * n;
    assert (m - 1) * n == (m - 2) * n + n;
  }

  lemma MulBound(i: nat, n: nat, j: nat, m: nat)
    requires i < m && j < n
    ensures i * n + j < m * n
  {
    assert i * n <= (m - 1) * n;
    assert m * n == (m - 1) * n + n;
  }

  /** The cross product is r1-major: sequence `i * |s2| + j` joins `s1[i]` and `s2[j]`. */
  lemma {:induction false} CrossIndex(s1: seq<Sequence>, s2: seq<Sequence>, i: nat, j: nat)
    requires i < |s1| && j < |s2|
    ensures i * |s2| + j < |Cross(s1, s2)|
    ensures Cross(s1, s2)[i * |s2| + j] == NewSequence(s1[i].terms + s2[j].terms)
    decreases |s1|
  {
    CrossLength(s1, s2);
    MulBound(i, |s2|, j, |s1|);
    if i > 0 {
      MulStep(i, |s2|, j, |s1|);
      CrossIndex(s1[1..], s2, i - 1, j);
      assert s1[1..][i - 1] == s1[i];
    }
  }

  /** `r1 + r2` has |r1|·|r2| fresh sequences, each an r1 sequence followed by an r2
      sequence, in r1-major order. */
  lemma PlusSequences(r1: Rule, r2: Rule, i: nat, j: nat)
    requires i < |r1.sequences| && j < |r2.sequences|
    ensures |Plus(r1, r2).sequences| == |r1.sequences| * |r2.sequences|
    ensures i * |r2.sequences| + j < |Plus(r1, r2).sequences|
    ensures Plus(r1, r2).sequences[i * |r2.sequences| + j]
         == NewSequence(r1.sequences[i].terms + r2.sequences[j].terms)
  {
    CrossLength(r1.sequences, r2.sequences);
    CrossIndex(r1.sequences, r2.sequences, i, j);
  }

  /** `t1 + t2` is the cross product of the two one-sequence rules of its terms. */
  lemma TermPlusIsPlus(t1: Term, t2: Term)
    ensures TermPlus(t1, t2) == Plus(FromTerm(t1), FromTerm(t2))
    ensures |TermPlus(t1, t2).sequences| == 1
  {
    assert Cross([NewSequence([t1])], [NewSequence([t2])]) == Row(NewSequence([t1]), [NewSequence([t2])]) + [];
    assert [t1] + [t2] == [t1, t2];
  }

  /** `t1 | t2` is the union of the two one-sequence rules of its terms. */
  lemma TermOrIsOr(t1: Term, t2: Term)
    ensures TermOr(t1, t2) == Or(FromTerm(t1), FromTerm(t2))
    ensures |TermOr(t1, t2).sequences| == 2
  {}

  /** A keyword in front of a rule: one sequence per sequence of the rule, each led by
      the same unnamed key terminal. */
  lemma KeyPlusSequences(keyword: string, id: nat, r: Rule)
    ensures |KeyPlus(keyword, id, r).sequences| == |r.sequences|
    ensures forall j :: 0 <= j < |r.sequences| ==>
      KeyPlus(keyword, id, r).sequences[j] == NewSequence([Unnamed(keyword, id)] + r.sequences[j].terms)
  {
    var one := FromString(keyword, id).sequences;
    assert Cross(one, r.sequences) == Row(one[0], r.sequences) + Cross(one[1..], r.sequences);
    assert Cross(one[1..], r.sequences) == [];
  }

  /** A keyword after a rule: each sequence of the rule gains the unnamed key terminal
      at its end. */
  lemma PlusKeySequences(r: Rule, keyword: string, id: nat)
    ensures |PlusKey(r, keyword, id).sequences| == |r.sequences|
    ensures forall i :: 0 <= i < |r.sequences| ==>
      PlusKey(r, keyword, id).sequences[i] == NewSequence(r.sequences[i].terms + [Unnamed(keyword, id)])
  {
    var one := FromString(keyword, id).sequences;
    CrossLength(r.sequences, one);
    forall i | 0 <= i < |r.sequences|
      ensures PlusKey(r, keyword, id).sequences[i] == NewSequence(r.sequences[i].terms + [Unnamed(keyword, id)])
    {
      CrossIndex(r.sequences, one, i, 0);
      assert i * 1 + 0 == i;
    }
  }

  // ---------------------------------------------------------------------------------
  // Terms and non-terminals of a rule

  function SequenceTerms(ss: seq<Sequence>): seq<Term>
    decreases |ss|
  {
    if |ss| == 0 then [] else ss[0].terms + SequenceTerms(ss[1..])
  }

  /** `GrammarRule.Terms`: the terms of every sequence, sequence by sequence. */
  function Terms(r: Rule): seq<Term> {
    SequenceTerms(r.sequences)
  }

  function NonTerminalsOf(ts: seq<Term>): seq<Term>
    decreases |ts|
  {
    if |ts| == 0 then []
    else if ts[0].Kind() == NonTerminalKind then [ts[0]] + NonTerminalsOf(ts[1..])
    else NonTerminalsOf(ts[1..])
  }

  /** `GrammarRule.NonTerminals`: the non-terminal terms among `Terms`. */
  function NonTerminals(r: Rule): seq<Term> {
    NonTerminalsOf(Terms(r))
  }

  lemma {:induction false} SequenceTermsConcat(a: seq<Sequence>, b: seq<Sequence>)
    ensures SequenceTerms(a + b) == SequenceTerms(a) + SequenceTerms(b)
    decreases |a|
  {
    if |a| > 0 {
      assert (a + b)[0] == a[0] && (a + b)[1..] == a[1..] + b;
      SequenceTermsConcat(a[1..], b);
    } else {
      assert a + b == b;
    }
  }

  lemma {:induction false} NonTerminalsConcat(a: seq<Term>, b: seq<Term>)
    ensures NonTerminalsOf(a + b) == NonTerminalsOf(a) + NonTerminalsOf(b)
    decreases |a|
  {
    if |a| > 0 {
      assert (a + b)[0] == a[0] && (a + b)[1..] == a[1..] + b;
      NonTerminalsConcat(a[1..], b);
    } else {
      assert a + b == b;
    }
  }

  /** NonTerminals keeps exactly the non-terminal terms. */
  lemma {:induction false} NonTerminalsExactly(ts: seq<Term>, t: Term)
    ensures t in NonTerminalsOf(ts) <==> t in ts && t.Kind() == NonTerminalKind
    decreases |ts|
  {
    if |ts| > 0 {
      NonTerminalsExactly(ts[1..], t);
      assert ts == [ts[0]] + ts[1..];
    }
  }

  /** NonTerminals keeps the order of the terms: it commutes with concatenation, and
      holds only non-terminals. */
  lemma {:induction false} NonTerminalsOrdered(ts: seq<Term>)
    ensures forall k :: 0 <= k < |NonTerminalsOf(ts)| ==> NonTerminalsOf(ts)[k].NonTerminal?
    ensures |NonTerminalsOf(ts)| <= |ts|
    ensures forall i :: 0 <= i <= |ts| ==> NonTerminalsOf(ts) == NonTerminalsOf(ts[..i]) + NonTerminalsOf(ts[i..])
    decreases |ts|
  {
    if |ts| > 0 {
      NonTerminalsOrdered(ts[1..]);
    }
    forall i | 0 <= i <= |ts|
      ensures NonTerminalsOf(ts) == NonTerminalsOf(ts[..i]) + NonTerminalsOf(ts[i..])
    {
      assert ts[..i] + ts[i..] == ts;
      NonTerminalsConcat(ts[..i], ts[i..]);
    }
  }

  /** The terms of `r1 | r2` are those of r1 followed by those of r2, and likewise its
      non-terminals. */
  lemma OrTerms(r1: Rule, r2: Rule)
    ensures Terms(Or(r1, r2)) == Terms(r1) + Terms(r2)
    ensures NonTerminals(Or(r1, r2)) == NonTerminals(r1) + NonTerminals(r2)
  {
    SequenceTermsConcat(r1.sequences, r2.sequences);
    NonTerminalsConcat(Terms(r1), Terms(r2));
  }

  /** A rule's non-terminals are exactly its terms of non-terminal kind. */
  lemma NonTerminalsOfRule(r: Rule, t: Term)
    ensures t in NonTerminals(r) <==> t in Terms(r) && t.Kind() == NonTerminalKind
  {
    NonTerminalsExactly(Terms(r), t);
  }

  // ---------------------------------------------------------------------------------
  // Rendering a rule

  /** `Environment.NewLine` on the Windows platform the server targets. */
  const NewLine: string := "\r\n"

  /** `GrammarRule.ToString`: one line per sequence. */
  function RuleText(r: Rule): string {
    SequencesText(r.sequences)
  }

  function SequencesText(ss: seq<Sequence>): string
    decreases |ss|
  {
    if |ss| == 0 then "" else SequenceText(ss[0]) + NewLine + SequencesText(ss[1..])
  }

  /** The rendering of `r1 | r2` is r1's lines followed by r2's lines. */
  lemma {:induction false} SequencesTextConcat(a: seq<Sequence>, b: seq<Sequence>)
    ensures SequencesText(a + b) == SequencesText(a) + SequencesText(b)
    decreases |a|
  {
    if |a| > 0 {
      assert (a + b)[0] == a[0] && (a + b)[1..] == a[1..] + b;
      SequencesTextConcat(a[1..], b);
    } else {
      assert a + b == b;
    }
  }

  lemma OrText(r1: Rule, r2: Rule)
    ensures RuleText(Or(r1, r2)) == RuleText(r1) + RuleText(r2)
  {
    SequencesTextConcat(r1.sequences, r2.sequences);
  }

  /** A term converted to a rule renders as a single line: the term in braces. */
  lemma FromTermText(t: Term)
    ensures RuleText(FromTerm(t)) == "{" + TermText(t) + "}" + NewLine
  {
    var ss := FromTerm(t).sequences;
    SequenceTextSingle(t, None);
    assert ss[1..] == [] && SequencesText(ss[1..]) == "";
    assert SequencesText(ss) == SequenceText(ss[0]) + NewLine + "";
  }
}
