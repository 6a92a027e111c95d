/** The probability model of the heredity program: the probability
    tables, gene transmission with mutation, the per-person factor of one
    hypothesis, the joint probability, and the enumeration of hypotheses
    that the main loop filters against trait evidence. */
module Heredity {
  import opened Wrappers
  import opened PowerSets

  type Name = string

  /** Number of copies of the gene a person carries. */
  type GeneCount = g: int | 0 <= g <= 2

  /** One row of the pedigree. Both parents are absent for a founder;
      `knownTrait` is None when the trait is not observed. */
  datatype Person = Person(name: Name, mother: Option<Name>, father: Option<Name>, knownTrait: Option<bool>)

  /** The `people` dictionary, in its insertion order. */
  type Pedigree = seq<Person>

  function Names(ped: Pedigree): seq<Name> {
    seq(|ped|, i requires 0 <= i < |ped| => ped[i].name)
  }

  /** Dictionary keys are unique. */
  predicate WellKeyed(ped: Pedigree) {
    NoDup(Names(ped))
  }

  /** One complete hypothesis: who carries one copy, who carries two, who
      has the trait (everyone else: no copy, no trait). */
  datatype Hypothesis = Hypothesis(one: set<Name>, two: set<Name>, have: set<Name>)

  // The PROBS table: unconditional gene distribution ...
  const GeneTwo: real := 0.01
  const GeneOne: real := 0.03
  const GeneZero: real := 0.96
  // ... probability of trait (or no trait) given the number of copies ...
  const TraitTwoTrue: real := 0.65
  const TraitTwoFalse: real := 0.35
  const TraitOneTrue: real := 0.56
  const TraitOneFalse: real := 0.44
  const TraitZeroTrue: real := 0.01
  const TraitZeroFalse: real := 0.99
  // ... and the mutation probability.
  const Mutation: real := 0.01

  /** `PROBS["gene"][g]` */
  function GenePrior(g: GeneCount): (r: real)
    ensures 0.0 < r < 1.0
  {
    if g == 2 then GeneTwo else if g == 1 then GeneOne else GeneZero
  }

  /** `PROBS["trait"][g][t]` */
  function TraitGiven(g: GeneCount, t: bool): (r: real)
    ensures 0.0 < r < 1.0
  {
    if g == 2 then (if t then TraitTwoTrue else TraitTwoFalse)
    else if g == 1 then (if t then TraitOneTrue else TraitOneFalse)
    else (if t then TraitZeroTrue else TraitZeroFalse)
  }

  /** The gene prior and every trait row are probability distributions. */
  lemma TablesAreDistributions(g: GeneCount)
    ensures GenePrior(2) + GenePrior(1) + GenePrior(0) == 1.0
    ensures TraitGiven(g, true) + TraitGiven(g, false) == 1.0
  {
  }

  /** `pass_down`: the probability that a parent with `genes` copies does
      (`passing`) or does not pass the gene on, with mutation rate `m`. */
  function PassDown(genes: GeneCount, passing: bool, m: real): (r: real)
    ensures 0.0 <= m <= 1.0 ==> 0.0 <= r <= 1.0
    ensures 0.0 < m < 1.0 ==> 0.0 < r < 1.0
  {
    if (genes == 2 && passing) || (genes == 0 && !passing) then 1.0 - m
    else if (genes == 2 && !passing) || (genes == 0 && passing) then m
    else 0.5
  }

  /** Passing and not passing are complementary; a parent with one copy
      passes with probability one half whatever the mutation rate. */
  lemma PassDownComplement(genes: GeneCount, m: real)
    ensures PassDown(genes, true, m) + PassDown(genes, false, m) == 1.0
    ensures genes == 1 ==> PassDown(genes, true, m) == 0.5
    ensures genes == 2 ==> PassDown(genes, true, m) == 1.0 - m
    ensures genes == 0 ==> PassDown(genes, true, m) == m
  {
  }

  /** `geneChance`: the probability that a child of parents with `mg` and
      `fg` copies has `g` copies (both pass, exactly one passes, neither). */
  function ChildGeneChance(mg: GeneCount, fg: GeneCount, g: GeneCount, m: real): real {
    if g == 2 then PassDown(mg, true, m) * PassDown(fg, true, m)
    else if g == 1 then
      PassDown(mg, true, m) * PassDown(fg, false, m) + PassDown(mg, false, m) * PassDown(fg, true, m)
    else PassDown(mg, false, m) * PassDown(fg, false, m)
  }

  /** For any parents the three child gene chances form a distribution. */
  lemma ChildGeneChanceSumsToOne(mg: GeneCount, fg: GeneCount, m: real)
    ensures ChildGeneChance(mg, fg, 2, m) + ChildGeneChance(mg, fg, 1, m) + ChildGeneChance(mg, fg, 0, m) == 1.0
  {
    var a, b := PassDown(mg, true, m), PassDown(mg, false, m);
    var c, d := PassDown(fg, true, m), PassDown(fg, false, m);
    PassDownComplement(mg, m);
    PassDownComplement(fg, m);
    assert a * c + (a * d + b * c) + b * d == (a + b) * (c + d);
  }

  /** Each child gene chance is a probability, and positive when the
      mutation rate lies strictly between 0 and 1. */
  lemma ChildGeneChanceBounds(mg: GeneCount, fg: GeneCount, g: GeneCount, m: real)
    requires 0.0 < m < 1.0
    ensures 0.0 < ChildGeneChance(mg, fg, g, m) <= 1.0
  {
    var a, b := PassDown(mg, true, m), PassDown(mg, false, m);
    var c, d := PassDown(fg, true, m), PassDown(fg, false, m);
    assert 0.0 < a * c && 0.0 < a * d && 0.0 < b * c && 0.0 < b * d;
    ChildGeneChanceSumsToOne(mg, fg, m);
  }

  /** `2 if name in two_genes else 1 if name in one_gene else 0` */
  function GenesOf(name: Name, one: set<Name>, two: set<Name>): GeneCount {
    if name in two then 2 else if name in one then 1 else 0
  }

  /** The same test applied to a parent reference; an absent parent is in
      no set and so counts as 0 copies. */
  function ParentGenes(parent: Option<Name>, one: set<Name>, two: set<Name>): GeneCount {
    match parent
    case None => 0
    case Some(n) => GenesOf(n, one, two)
  }

  /** `mother is father is None`: both parents absent. */
  predicate IsFounder(p: Person) {
    p.mother == None && p.father == None
  }

  /** The factor one person adds to the set of factors under hypothesis `h`. */
  function Factor(p: Person, h: Hypothesis): (r: real)
    ensures 0.0 < r < 1.0
  {
    var g := GenesOf(p.name, h.one, h.two);
    var t := TraitGiven(g, p.name in h.have);
    if IsFounder(p) then
      var q := GenePrior(g);
      ScaledBelowOne(q, t);
      q * t
    else
      var mg := ParentGenes(p.mother, h.one, h.two);
      var fg := ParentGenes(p.father, h.one, h.two);
      var q := ChildGeneChance(mg, fg, g, Mutation);
      ChildGeneChanceBounds(mg, fg, g, Mutation);
      ScaledBelowOne(q, t);
      q * t
  }

  /** A chance times a chance below one stays strictly between 0 and 1. */
  lemma ScaledBelowOne(q: real, t: real)
    requires 0.0 < q <= 1.0 && 0.0 < t < 1.0
    ensures 0.0 < q * t < 1.0
  {
    assert q * t <= 1.0 * t;
  }

  /** The founder factor is prior times trait likelihood. */
  lemma FounderFactor(p: Person, h: Hypothesis)
    requires IsFounder(p)
    ensures Factor(p, h) == GenePrior(GenesOf(p.name, h.one, h.two)) * TraitGiven(GenesOf(p.name, h.one, h.two), p.name in h.have)
  {
  }

  /** The factors of all people, in pedigree order. */
  function Factors(ped: Pedigree, h: Hypothesis): seq<real> {
    seq(|ped|, i requires 0 <= i < |ped| => Factor(ped[i], h))
  }

  /** A Python set filled by `.add`: the distinct values, in order of first
      occurrence. */
  function Distinct(xs: seq<real>): (r: seq<real>)
    ensures NoDup(r) && Elems(r) == Elems(xs)
  {
    if xs == [] then []
    else
      var d := Distinct(xs[..|xs| - 1]);
      var x := xs[|xs| - 1];
      assert xs == xs[..|xs| - 1] + [x];
      assert Elems(xs) == Elems(xs[..|xs| - 1]) + {x};
      if x in d then d
      else
        assert Elems(d + [x]) == Elems(d) + {x};
        d + [x]
  }

  /** `reduce(mul, fs, 1)` */
  function Product(fs: seq<real>): real {
    if fs == [] then 1.0 else Product(fs[..|fs| - 1]) * fs[|fs| - 1]
  }

  /** A product of probabilities that are all positive is a positive
      probability. */
  lemma {:induction false} ProductBounds(fs: seq<real>)
    requires forall i :: 0 <= i < |fs| ==> 0.0 < fs[i] <= 1.0
    ensures 0.0 < Product(fs) <= 1.0
  {
    if fs != [] {
      var init, x := fs[..|fs| - 1], fs[|fs| - 1];
      ProductBounds(init);
      ProductStep(Product(init), x);
    }
  }

  /** Multiplying a probability in (0, 1] by another keeps it in (0, 1]. */
  lemma ProductStep(p: real, x: real)
    requires 0.0 < p <= 1.0 && 0.0 < x <= 1.0
    ensures 0.0 < p * x <= 1.0
  {
    assert p * x <= p * 1.0;
  }

  /** What `joint_probability` returns: the product of the DISTINCT factor
      values, since the factors are collected in a set. */
  function Joint(ped: Pedigree, h: Hypothesis): (p: real)
    ensures 0.0 < p <= 1.0
  {
    var fs := Factors(ped, h);
    var d := Distinct(fs);
    assert forall i :: 0 <= i < |d| ==> d[i] in Elems(fs);
    ProductBounds(d);
    Product(d)
  }

  /** `joint_probability`: one loop over the people fills the factor set,
      which is then folded by multiplication. */
  method JointProbability(ped: Pedigree, h: Hypothesis) returns (p: real)
    ensures p == Joint(ped, h)
  {
    var probabilities: seq<real> := [];
    for i := 0 to |ped|
      invariant probabilities == Distinct(Factors(ped, h)[..i])
    {
      var f := Factor(ped[i], h);
      assert Factors(ped, h)[..i + 1] == Factors(ped, h)[..i] + [f];
      if f !in probabilities {
        probabilities := probabilities + [f];
      }
    }
    assert Factors(ped, h)[..|ped|] == Factors(ped, h);
    p := Product(probabilities);
  }

  /** The joint probability the docstring describes: every person's factor
      taken exactly once, equal values included. */
  function JointProduct(ped: Pedigree, h: Hypothesis): (p: real)
    ensures 0.0 < p <= 1.0
  {
    ProductBounds(Factors(ped, h));
    Product(Factors(ped, h))
  }

  /** Without duplicates the set of factors is the list of factors. */
  lemma {:induction false} DistinctOfNoDup(xs: seq<real>)
    requires NoDup(xs)
    ensures Distinct(xs) == xs
  {
    if xs != [] {
      var init := xs[..|xs| - 1];
      assert NoDup(init);
      DistinctOfNoDup(init);
      assert xs[|xs| - 1] !in init;
      assert init + [xs[|xs| - 1]] == xs;
    }
  }

  /** The two joint probabilities agree when no two factors are equal. */
  lemma JointAgreesOnDistinctFactors(ped: Pedigree, h: Hypothesis)
    requires NoDup(Factors(ped, h))
    ensures Joint(ped, h) == JointProduct(ped, h)
  {
    DistinctOfNoDup(Factors(ped, h));
  }

  /** Two founder parents and their child, no trait observed. */
  const Trio: Pedigree := [
    Person("mother", None, None, None),
    Person("father", None, None, None),
    Person("child", Some("mother"), Some("father"), None)
  ]

  /** Everyone has no copy and no trait: both parents contribute the equal
      factor 0.96 * 0.99, which the factor set keeps only once, so the
      returned joint probability lacks one of them. */
  lemma TrioJointCollapses()
    ensures Joint(Trio, Hypothesis({}, {}, {})) == 0.96 * 0.99 * (0.99 * 0.99 * 0.99)
    ensures JointProduct(Trio, Hypothesis({}, {}, {})) == 0.96 * 0.99 * (0.96 * 0.99) * (0.99 * 0.99 * 0.99)
    ensures Joint(Trio, Hypothesis({}, {}, {})) != JointProduct(Trio, Hypothesis({}, {}, {}))
  {
    var a, c := 0.96 * 0.99, 0.99 * 0.99 * 0.99;
    var fs := Factors(Trio, Hypothesis({}, {}, {}));
    assert fs == [a, a, c];
    assert Distinct([a]) == [a] by {
      assert [a][..0] == [];
    }
    assert Distinct([a, a]) == [a] by {
      assert [a, a][..1] == [a];
    }
    assert Distinct(fs) == [a, c] by {
      assert fs[..2] == [a, a];
    }
    assert Product([a]) == a by {
      assert [a][..0] == [];
    }
    assert Product([a, c]) == a * c by {
      assert [a, c][..1] == [a];
    }
    assert Product([a, a]) == a * a by {
      assert [a, a][..1] == [a];
    }
    assert Product(fs) == a * a * c by {
      assert fs[..2] == [a, a];
    }
  }

  /** Which joint probability scores a hypothesis: `joint_probability` as
      written, over the set of distinct factors, or the corrected product
      over every person. */
  datatype Scoring = AsWritten | Corrected

  /** The score a hypothesis receives under `s`; both are probabilities. */
  function Score(ped: Pedigree, h: Hypothesis, s: Scoring): (p: real)
    ensures 0.0 < p <= 1.0
  {
    if s == AsWritten then Joint(ped, h) else JointProduct(ped, h)
  }

  // ---- the enumeration and evidence filter of the main loop ----

  /** `fails_evidence`: some person with an observed trait disagrees with
      membership in `have`. */
  predicate FailsEvidence(ped: Pedigree, have: set<Name>) {
    exists i :: 0 <= i < |ped| && ped[i].knownTrait.Some? && ped[i].knownTrait.value != (ped[i].name in have)
  }

  /** The innermost loop: `two_genes` ranges over `twos`. */
  function Pairs(one: set<Name>, twos: seq<set<Name>>, have: set<Name>): seq<Hypothesis> {
    seq(|twos|, k requires 0 <= k < |twos| => Hypothesis(one, twos[k], have))
  }

  /** The two gene loops for one trait set: `one_gene` ranges over `ones`
      and `two_genes` over the subsets of the remaining names. */
  function GeneLoop(names: seq<Name>, ones: seq<set<Name>>, have: set<Name>): seq<Hypothesis> {
    if ones == [] then []
    else
      var one := ones[|ones| - 1];
      GeneLoop(names, ones[..|ones| - 1], have) + Pairs(one, PowerSet(Without(names, one)), have)
  }

  /** The trait loop over `haves`, skipping trait sets that fail the evidence. */
  function TraitLoop(ped: Pedigree, haves: seq<set<Name>>): seq<Hypothesis> {
    if haves == [] then []
    else
      var have := haves[|haves| - 1];
      TraitLoop(ped, haves[..|haves| - 1])
        + (if FailsEvidence(ped, have) then [] else GeneLoop(Names(ped), PowerSet(Names(ped)), have))
  }

  /** Every hypothesis the main loop visits, in visiting order. */
  function Hypotheses(ped: Pedigree): seq<Hypothesis> {
    TraitLoop(ped, PowerSet(Names(ped)))
  }

  /** A hypothesis over the pedigree's names, with disjoint gene sets, that
      agrees with every observed trait. */
  predicate Admissible(ped: Pedigree, h: Hypothesis) {
    && h.have <= Elems(Names(ped))
    && !FailsEvidence(ped, h.have)
    && h.one <= Elems(Names(ped))
    && h.two <= Elems(Names(ped)) - h.one
  }

  lemma InPairs(one: set<Name>, twos: seq<set<Name>>, have: set<Name>, h: Hypothesis)
    ensures h in Pairs(one, twos, have) <==> h.one == one && h.have == have && h.two in twos
  {
    if h.one == one && h.have == have && h.two in twos {
      var k :| 0 <= k < |twos| && twos[k] == h.two;
      assert Pairs(one, twos, have)[k] == h;
    }
  }

  lemma {:induction false} InGeneLoop(names: seq<Name>, ones: seq<set<Name>>, have: set<Name>, h: Hypothesis)
    ensures h in GeneLoop(names, ones, have)
        <==> h.have == have && h.one in ones && h.two in PowerSet(Without(names, h.one))
  {
    if ones != [] {
      var init, one := ones[..|ones| - 1], ones[|ones| - 1];
      InGeneLoop(names, init, have, h);
      var step := Pairs(one, PowerSet(Without(names, one)), have);
      InPairs(one, PowerSet(Without(names, one)), have, h);
      assert h in GeneLoop(names, ones, have) <==> h in GeneLoop(names, init, have) || h in step;
      InSnoc(ones, h.one);
    }
  }

  lemma {:induction false} InTraitLoop(ped: Pedigree, haves: seq<set<Name>>, h: Hypothesis)
    ensures h in TraitLoop(ped, haves)
        <==> && h.have in haves && !FailsEvidence(ped, h.have)
             && h.one in PowerSet(Names(ped)) && h.two in PowerSet(Without(Names(ped), h.one))
  {
    if haves != [] {
      var init, have := haves[..|haves| - 1], haves[|haves| - 1];
      InTraitLoop(ped, init, h);
      InGeneLoop(Names(ped), PowerSet(Names(ped)), have, h);
      var step := if FailsEvidence(ped, have) then [] else GeneLoop(Names(ped), PowerSet(Names(ped)), have);
      assert TraitLoop(ped, haves) == TraitLoop(ped, init) + step;
      assert h in TraitLoop(ped, haves) <==> h in TraitLoop(ped, init) || h in step;
      InSnoc(haves, h.have);
    }
  }

  /** The enumeration visits exactly the admissible hypotheses: trait sets
      are skipped exactly when an observed trait disagrees, and `two_genes`
      is always disjoint from `one_gene`. */
  lemma HypothesesAreAdmissible(ped: Pedigree, h: Hypothesis)
    ensures h in Hypotheses(ped) <==> Admissible(ped, h)
    ensures h in Hypotheses(ped) ==> h.one !! h.two
  {
    var names := Names(ped);
    InTraitLoop(ped, PowerSet(names), h);
    PowerSetMembership(names, h.have);
    PowerSetMembership(names, h.one);
    PowerSetMembership(Without(names, h.one), h.two);
  }

  lemma PairsDistinct(one: set<Name>, twos: seq<set<Name>>, have: set<Name>)
    requires NoDup(twos)
    ensures NoDup(Pairs(one, twos, have))
  {
    var r := Pairs(one, twos, have);
    forall i, j | 0 <= i < j < |r|
      ensures r[i] != r[j]
    {
      assert r[i].two == twos[i] && r[j].two == twos[j];
    }
  }

  lemma {:induction false} GeneLoopDistinct(names: seq<Name>, ones: seq<set<Name>>, have: set<Name>)
    requires NoDup(names) && NoDup(ones)
    ensures NoDup(GeneLoop(names, ones, have))
  {
    if ones != [] {
      var init, one := ones[..|ones| - 1], ones[|ones| - 1];
      assert NoDup(init);
      GeneLoopDistinct(names, init, have);
      var twos := PowerSet(Without(names, one));
      PowerSetDistinct(Without(names, one));
      PairsDistinct(one, twos, have);
      forall h | h in GeneLoop(names, init, have)
        ensures h !in Pairs(one, twos, have)
      {
        InGeneLoop(names, init, have, h);
        InPairs(one, twos, have, h);
      }
      NoDupConcat(GeneLoop(names, init, have), Pairs(one, twos, have));
    }
  }

  lemma {:induction false} TraitLoopDistinct(ped: Pedigree, haves: seq<set<Name>>)
    requires WellKeyed(ped) && NoDup(haves)
    ensures NoDup(TraitLoop(ped, haves))
  {
    if haves != [] {
      var init, have := haves[..|haves| - 1], haves[|haves| - 1];
      assert NoDup(init);
      TraitLoopDistinct(ped, init);
      var last := if FailsEvidence(ped, have) then [] else GeneLoop(Names(ped), PowerSet(Names(ped)), have);
      if !FailsEvidence(ped, have) {
        PowerSetDistinct(Names(ped));
        GeneLoopDistinct(Names(ped), PowerSet(Names(ped)), have);
      }
      forall h | h in TraitLoop(ped, init)
        ensures h !in last
      {
        InTraitLoop(ped, init, h);
        if !FailsEvidence(ped, have) {
          InGeneLoop(Names(ped), PowerSet(Names(ped)), have, h);
        }
      }
      NoDupConcat(TraitLoop(ped, init), last);
    }
  }

  /** Every admissible hypothesis is visited exactly once. */
  lemma HypothesesDistinct(ped: Pedigree)
    requires WellKeyed(ped)
    ensures NoDup(Hypotheses(ped))
  {
    PowerSetDistinct(Names(ped));
    TraitLoopDistinct(ped, PowerSet(Names(ped)));
  }

  /** The observed traits themselves always pass the evidence filter, so
      at least one hypothesis is visited. */
  lemma HypothesesNonEmpty(ped: Pedigree)
    requires WellKeyed(ped)
    ensures Hypotheses(ped) != []
  {
    var names := Names(ped);
    var have := set i | 0 <= i < |ped| && ped[i].knownTrait == Some(true) :: ped[i].name;
    var h := Hypothesis({}, {}, have);
    forall n | n in have
      ensures n in Elems(names)
    {
      var i :| 0 <= i < |ped| && ped[i].knownTrait == Some(true) && ped[i].name == n;
      assert names[i] == n;
    }
    forall i | 0 <= i < |ped| && ped[i].knownTrait.Some?
      ensures ped[i].knownTrait.value == (ped[i].name in have)
    {
      if ped[i].name in have {
        var j :| 0 <= j < |ped| && ped[j].knownTrait == Some(true) && ped[j].name == ped[i].name;
        assert names[j] == names[i];
      }
    }
    HypothesesAreAdmissible(ped, h);
  }
}
