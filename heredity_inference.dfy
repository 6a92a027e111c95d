/** The inference driver of the heredity program: the triple loop of
    `main` that enumerates hypotheses, accumulates their joint
    probabilities into the table and normalises it, together with what the
    resulting table is: per person, the share of the total score held by
    each gene count and each trait value. The loops score as `main` does,
    with `joint_probability` as written; the same definitions with the
    corrected joint probability give the posterior marginals. */
module HeredityInference {
  import opened PowerSets
  import opened Heredity
  import opened HeredityTable

  /** The table after `update` has been applied, with each hypothesis's
      score under `s`, for the hypotheses of `hs` in order. `main` scores
      with `joint_probability`, that is `AsWritten`. */
  function Accumulate(ped: Pedigree, s: Scoring, cells: Cells, hs: seq<Hypothesis>): (r: Cells)
    ensures r.Keys == cells.Keys
  {
    if hs == [] then cells
    else
      var h := hs[|hs| - 1];
      Updated(Accumulate(ped, s, cells, hs[..|hs| - 1]), h, Score(ped, h, s))
  }

  /** The total score of the hypotheses in `hs`. */
  function Mass(ped: Pedigree, s: Scoring, hs: seq<Hypothesis>): (r: real)
    ensures 0.0 <= r
    ensures hs != [] ==> 0.0 < r
  {
    if hs == [] then 0.0 else Mass(ped, s, hs[..|hs| - 1]) + Score(ped, hs[|hs| - 1], s)
  }

  /** The total score of the hypotheses in `hs` that give `n` exactly `g`
      copies. */
  function GeneMass(ped: Pedigree, s: Scoring, hs: seq<Hypothesis>, n: Name, g: GeneCount): real {
    if hs == [] then 0.0
    else
      var h := hs[|hs| - 1];
      GeneMass(ped, s, hs[..|hs| - 1], n, g) + (if GenesOf(n, h.one, h.two) == g then Score(ped, h, s) else 0.0)
  }

  /** The total score of the hypotheses in `hs` in which `n` has the trait
      exactly when `t`. */
  function TraitMass(ped: Pedigree, s: Scoring, hs: seq<Hypothesis>, n: Name, t: bool): real {
    if hs == [] then 0.0
    else
      var h := hs[|hs| - 1];
      TraitMass(ped, s, hs[..|hs| - 1], n, t) + (if (n in h.have) == t then Score(ped, h, s) else 0.0)
  }

  /** Each accumulated cell is its start value plus the mass of the
      hypotheses that choose that cell. */
  lemma {:induction false} AccumulateIsMass(ped: Pedigree, s: Scoring, cells: Cells, hs: seq<Hypothesis>, n: Name, g: GeneCount, t: bool)
    requires n in cells
    ensures Accumulate(ped, s, cells, hs)[n].geneDist.At(g) == cells[n].geneDist.At(g) + GeneMass(ped, s, hs, n, g)
    ensures Accumulate(ped, s, cells, hs)[n].traitDist.At(t) == cells[n].traitDist.At(t) + TraitMass(ped, s, hs, n, t)
  {
    if hs != [] {
      var init, h := hs[..|hs| - 1], hs[|hs| - 1];
      AccumulateIsMass(ped, s, cells, init, n, g, t);
      UpdatedOnlyChosenCells(Accumulate(ped, s, cells, init), h, Score(ped, h, s), n, g, t);
    }
  }

  /** Every hypothesis gives each person one gene count and one trait
      value, so both split the whole mass. */
  lemma {:induction false} MassSplits(ped: Pedigree, s: Scoring, hs: seq<Hypothesis>, n: Name)
    ensures GeneMass(ped, s, hs, n, 2) + GeneMass(ped, s, hs, n, 1) + GeneMass(ped, s, hs, n, 0) == Mass(ped, s, hs)
    ensures TraitMass(ped, s, hs, n, true) + TraitMass(ped, s, hs, n, false) == Mass(ped, s, hs)
  {
    if hs != [] {
      MassSplits(ped, s, hs[..|hs| - 1], n);
    }
  }

  /** Accumulating any hypotheses from the zero table gives every person
      the whole mass in both distributions, and each cell its own mass. */
  lemma AccumulatedCell(ped: Pedigree, s: Scoring, names: seq<Name>, hs: seq<Hypothesis>, n: Name, g: GeneCount, t: bool)
    requires n in names
    ensures n in Accumulate(ped, s, ZeroCells(names), hs)
    ensures Accumulate(ped, s, ZeroCells(names), hs)[n].geneDist.Total() == Mass(ped, s, hs)
    ensures Accumulate(ped, s, ZeroCells(names), hs)[n].traitDist.Total() == Mass(ped, s, hs)
    ensures Accumulate(ped, s, ZeroCells(names), hs)[n].geneDist.At(g) == GeneMass(ped, s, hs, n, g)
    ensures Accumulate(ped, s, ZeroCells(names), hs)[n].traitDist.At(t) == TraitMass(ped, s, hs, n, t)
  {
    var zero := ZeroCells(names);
    AccumulateIsMass(ped, s, zero, hs, n, 2, true);
    AccumulateIsMass(ped, s, zero, hs, n, 1, false);
    AccumulateIsMass(ped, s, zero, hs, n, 0, false);
    AccumulateIsMass(ped, s, zero, hs, n, g, t);
    MassSplits(ped, s, hs, n);
  }

  /** With unique names every entry ends with positive mass, so the final
      normalisation never divides by zero. */
  lemma AccumulatedHasMass(ped: Pedigree, s: Scoring)
    requires WellKeyed(ped)
    ensures forall n :: n in Accumulate(ped, s, ZeroCells(Names(ped)), Hypotheses(ped))
              ==> HasMass(Accumulate(ped, s, ZeroCells(Names(ped)), Hypotheses(ped))[n])
  {
    HypothesesNonEmpty(ped);
    forall n | n in Accumulate(ped, s, ZeroCells(Names(ped)), Hypotheses(ped))
      ensures HasMass(Accumulate(ped, s, ZeroCells(Names(ped)), Hypotheses(ped))[n])
    {
      AccumulatedCell(ped, s, Names(ped), Hypotheses(ped), n, 0, false);
    }
  }

  /** The normalised table after every admissible hypothesis is scored
      under `s`: with `AsWritten` the table `main` prints, with `Corrected`
      the posterior the heredity model defines. */
  function Posterior(ped: Pedigree, s: Scoring): (r: Cells)
    requires WellKeyed(ped)
    ensures r.Keys == Elems(Names(ped))
  {
    AccumulatedHasMass(ped, s);
    NormalizedCells(Accumulate(ped, s, ZeroCells(Names(ped)), Hypotheses(ped)))
  }

  /** Every value of the table is the score of the visited hypotheses that
      choose that cell over the score of all of them, and each person's two
      distributions sum to 1. Under `AsWritten` these are the printed
      values; under `Corrected` they are the posterior marginals. */
  lemma PosteriorIsMarginal(ped: Pedigree, s: Scoring, n: Name, g: GeneCount, t: bool)
    requires WellKeyed(ped) && n in Names(ped)
    ensures n in Posterior(ped, s) && Mass(ped, s, Hypotheses(ped)) > 0.0
    ensures Posterior(ped, s)[n].geneDist.At(g) == GeneMass(ped, s, Hypotheses(ped), n, g) / Mass(ped, s, Hypotheses(ped))
    ensures Posterior(ped, s)[n].traitDist.At(t) == TraitMass(ped, s, Hypotheses(ped), n, t) / Mass(ped, s, Hypotheses(ped))
    ensures Posterior(ped, s)[n].geneDist.Total() == 1.0
    ensures Posterior(ped, s)[n].traitDist.Total() == 1.0
  {
    var hs := Hypotheses(ped);
    HypothesesNonEmpty(ped);
    AccumulatedHasMass(ped, s);
    AccumulatedCell(ped, s, Names(ped), hs, n, g, t);
    var e := Accumulate(ped, s, ZeroCells(Names(ped)), hs)[n];
    assert Posterior(ped, s)[n] == Normalized(e);
    MarginalOf(e, GeneMass(ped, s, hs, n, g), TraitMass(ped, s, hs, n, t), Mass(ped, s, hs), g, t);
  }

  lemma MarginalOf(e: Entry, gm: real, tm: real, m: real, g: GeneCount, t: bool)
    requires HasMass(e) && e.geneDist.Total() == m && e.traitDist.Total() == m
    requires e.geneDist.At(g) == gm && e.traitDist.At(t) == tm
    ensures Normalized(e).geneDist.At(g) == gm / m && Normalized(e).traitDist.At(t) == tm / m
    ensures Normalized(e).geneDist.Total() == 1.0 && Normalized(e).traitDist.Total() == 1.0
  {
    NormalizedAt(e, g, t);
    NormalizedSumsToOne(e);
  }

  /** Accumulating two runs of hypotheses is accumulating their
      concatenation. */
  lemma {:induction false} AccumulateConcat(ped: Pedigree, s: Scoring, cells: Cells, a: seq<Hypothesis>, b: seq<Hypothesis>)
    ensures Accumulate(ped, s, cells, a + b) == Accumulate(ped, s, Accumulate(ped, s, cells, a), b)
  {
    if b == [] {
      assert a + b == a;
    } else {
      var init := b[..|b| - 1];
      assert (a + b)[..|a + b| - 1] == a + init;
      assert (a + b)[|a + b| - 1] == b[|b| - 1];
      AccumulateConcat(ped, s, cells, a, init);
    }
  }

  /** One more trait set extends the trait loop by its gene loops, or by
      nothing when it fails the evidence. */
  lemma TraitLoopStep(ped: Pedigree, haves: seq<set<Name>>, i: nat)
    requires i < |haves|
    ensures TraitLoop(ped, haves[..i + 1])
         == TraitLoop(ped, haves[..i])
          + (if FailsEvidence(ped, haves[i]) then [] else GeneLoop(Names(ped), PowerSet(Names(ped)), haves[i]))
  {
    assert haves[..i + 1][..i] == haves[..i];
  }

  /** One more `one_gene` set extends the gene loop by its pairs. */
  lemma GeneLoopStep(names: seq<Name>, ones: seq<set<Name>>, have: set<Name>, j: nat)
    requires j < |ones|
    ensures GeneLoop(names, ones[..j + 1], have)
         == GeneLoop(names, ones[..j], have) + Pairs(ones[j], PowerSet(Without(names, ones[j])), have)
  {
    assert ones[..j + 1][..j] == ones[..j];
  }

  /** Scoring the pairs of one more `one_gene` set advances the middle
      loop's accumulation by one step. */
  lemma GeneLoopAdvance(ped: Pedigree, s: Scoring, start: Cells, ones: seq<set<Name>>, have: set<Name>, j: nat,
                        before: Cells, after: Cells)
    requires j < |ones|
    requires before == Accumulate(ped, s, start, GeneLoop(Names(ped), ones[..j], have))
    requires after == Accumulate(ped, s, before, Pairs(ones[j], PowerSet(Without(Names(ped), ones[j])), have))
    ensures after == Accumulate(ped, s, start, GeneLoop(Names(ped), ones[..j + 1], have))
  {
    GeneLoopStep(Names(ped), ones, have, j);
    AccumulateConcat(ped, s, start, GeneLoop(Names(ped), ones[..j], have),
                     Pairs(ones[j], PowerSet(Without(Names(ped), ones[j])), have));
  }

  /** Visiting one more trait set, or skipping it when it fails the
      evidence, advances the outer loop's accumulation by one step. */
  lemma TraitLoopAdvance(ped: Pedigree, s: Scoring, start: Cells, haves: seq<set<Name>>, i: nat,
                         before: Cells, after: Cells)
    requires i < |haves|
    requires before == Accumulate(ped, s, start, TraitLoop(ped, haves[..i]))
    requires FailsEvidence(ped, haves[i]) ==> after == before
    requires !FailsEvidence(ped, haves[i]) ==>
               after == Accumulate(ped, s, before, GeneLoop(Names(ped), PowerSet(Names(ped)), haves[i]))
    ensures after == Accumulate(ped, s, start, TraitLoop(ped, haves[..i + 1]))
  {
    TraitLoopStep(ped, haves, i);
    var step := if FailsEvidence(ped, haves[i]) then [] else GeneLoop(Names(ped), PowerSet(Names(ped)), haves[i]);
    AccumulateConcat(ped, s, start, TraitLoop(ped, haves[..i]), step);
  }

  /** One more `two_genes` set extends the pairs by one hypothesis. */
  lemma PairsStep(one: set<Name>, twos: seq<set<Name>>, have: set<Name>, k: nat)
    requires k < |twos|
    ensures Pairs(one, twos[..k + 1], have) == Pairs(one, twos[..k], have) + [Hypothesis(one, twos[k], have)]
  {
  }

  /** Accumulating one more hypothesis is one more `update`. */
  lemma AccumulateStep(ped: Pedigree, s: Scoring, cells: Cells, hs: seq<Hypothesis>, h: Hypothesis)
    ensures Accumulate(ped, s, cells, hs + [h]) == Updated(Accumulate(ped, s, cells, hs), h, Score(ped, h, s))
  {
    assert (hs + [h])[..|hs|] == hs;
  }

  /** The innermost loop of `main`: for the chosen `one_gene` and
      `have_trait`, every `two_genes` subset of the remaining names is
      scored and added to the table. */
  method VisitTwoGeneSets(table: Table, ped: Pedigree, oneGene: set<Name>, haveTrait: set<Name>)
    requires table.Valid() && table.names == Names(ped)
    modifies table
    ensures table.Valid() && table.names == Names(ped)
    ensures table.cells
         == Accumulate(ped, AsWritten, old(table.cells), Pairs(oneGene, PowerSet(Without(Names(ped), oneGene)), haveTrait))
  {
    var twoSets := PowerSet(Without(table.names, oneGene));
    for k := 0 to |twoSets|
      invariant table.Valid() && table.names == Names(ped)
      invariant table.cells == Accumulate(ped, AsWritten, old(table.cells), Pairs(oneGene, twoSets[..k], haveTrait))
    {
      var h := Hypothesis(oneGene, twoSets[k], haveTrait);
      var p := JointProbability(ped, h);
      table.Update(h, p);
      PairsStep(oneGene, twoSets, haveTrait, k);
      AccumulateStep(ped, AsWritten, old(table.cells), Pairs(oneGene, twoSets[..k], haveTrait), h);
    }
    assert twoSets[..|twoSets|] == twoSets;
  }

  /** The middle loop of `main`: for the chosen `have_trait`, every
      `one_gene` subset of the names. */
  method VisitGeneSets(table: Table, ped: Pedigree, haveTrait: set<Name>)
    requires table.Valid() && table.names == Names(ped)
    modifies table
    ensures table.Valid() && table.names == Names(ped)
    ensures table.cells == Accumulate(ped, AsWritten, old(table.cells), GeneLoop(Names(ped), PowerSet(Names(ped)), haveTrait))
  {
    var oneSets := PowerSet(table.names);
    for j := 0 to |oneSets|
      invariant table.Valid() && table.names == Names(ped)
      invariant table.cells == Accumulate(ped, AsWritten, old(table.cells), GeneLoop(Names(ped), oneSets[..j], haveTrait))
    {
      var oneGene := oneSets[j];
      ghost var before := table.cells;
      VisitTwoGeneSets(table, ped, oneGene, haveTrait);
      GeneLoopAdvance(ped, AsWritten, old(table.cells), oneSets, haveTrait, j, before, table.cells);
    }
    assert oneSets[..|oneSets|] == oneSets;
  }

  /** The loops of `main` from the table's creation to `normalize`: every
      trait set that agrees with the evidence is expanded into its gene
      hypotheses, each scored and added to the table, which is then
      normalised. */
  method Infer(ped: Pedigree) returns (table: Table, ok: bool)
    requires WellKeyed(ped)
    ensures fresh(table) && table.Valid() && table.names == Names(ped)
    ensures ok
    ensures table.cells == Posterior(ped, AsWritten)
  {
    var names := Names(ped);
    table := new Table(names);
    ghost var zero := table.cells;
    var traitSets := PowerSet(names);
    for i := 0 to |traitSets|
      invariant table.Valid() && table.names == names
      invariant table.cells == Accumulate(ped, AsWritten, zero, TraitLoop(ped, traitSets[..i]))
    {
      var haveTrait := traitSets[i];
      var failsEvidence := FailsEvidence(ped, haveTrait);
      ghost var before := table.cells;
      if !failsEvidence {
        VisitGeneSets(table, ped, haveTrait);
      }
      TraitLoopAdvance(ped, AsWritten, zero, traitSets, i, before, table.cells);
    }
    assert traitSets[..|traitSets|] == traitSets;
    ghost var acc := Accumulate(ped, AsWritten, ZeroCells(names), Hypotheses(ped));
    assert table.cells == acc;
    AccumulatedHasMass(ped, AsWritten);
    ok := table.Normalize();
  }

  /** A pedigree of one founder whose trait is not observed. */
  predicate LoneFounder(ped: Pedigree) {
    |ped| == 1 && IsFounder(ped[0]) && ped[0].knownTrait.None?
  }

  /** The hypotheses visited for a lone founder: no, two or one copies,
      first without and then with the trait. */
  lemma LoneHypotheses(ped: Pedigree)
    requires LoneFounder(ped)
    ensures var a := ped[0].name;
            Hypotheses(ped) == [
              Hypothesis({}, {}, {}), Hypothesis({}, {a}, {}), Hypothesis({a}, {}, {}),
              Hypothesis({}, {}, {a}), Hypothesis({}, {a}, {a}), Hypothesis({a}, {}, {a})]
  {
    var a := ped[0].name;
    var names := Names(ped);
    assert names == [a];
    assert PowerSet(names[1..]) == [{}];
    assert PowerSet(names) == [{}, {a}] by {
      var rest := PowerSet(names[1..]);
      var added := seq(|rest|, k requires 0 <= k < |rest| => rest[k] + {names[0]});
      assert added[0] == {a};
      assert PowerSet(names) == rest + added;
    }
    assert Without(names, {}) == names;
    assert Without(names, {a}) == [] by {
      assert Without(names[1..], {a}) == [];
    }
    var subsets: seq<set<Name>> := [{}, {a}];
    assert subsets[..1] == [{}];
    assert PowerSet(Without(names, {a})) == [{}];
    forall have | have in subsets
      ensures GeneLoop(names, subsets, have)
           == [Hypothesis({}, {}, have), Hypothesis({}, {a}, have), Hypothesis({a}, {}, have)]
    {
      assert GeneLoop(names, subsets[..1], have) == Pairs({}, subsets, have);
    }
    assert !FailsEvidence(ped, {}) && !FailsEvidence(ped, {a});
    assert TraitLoop(ped, subsets[..1]) == GeneLoop(names, subsets, {});
  }

  /** A one-person pedigree's joint probability, either way it is scored,
      is that person's factor. */
  lemma JointOfOne(p: Person, h: Hypothesis, s: Scoring)
    ensures Score([p], h, s) == Factor(p, h)
  {
    var fs := Factors([p], h);
    assert fs == [Factor(p, h)];
    assert Distinct(fs) == fs by {
      assert fs[..0] == [];
    }
    ProductOfOne(fs);
  }

  /** The product of one factor is that factor. */
  lemma ProductOfOne(fs: seq<real>)
    requires |fs| == 1
    ensures Product(fs) == fs[0]
  {
    assert fs[..0] == [];
  }

  /** Six hypotheses giving `a` no, two and one copies, first without and
      then with the trait. */
  predicate LoneShape(a: Name, hs: seq<Hypothesis>) {
    && |hs| == 6
    && GenesOf(a, hs[0].one, hs[0].two) == 0 && a !in hs[0].have
    && GenesOf(a, hs[1].one, hs[1].two) == 2 && a !in hs[1].have
    && GenesOf(a, hs[2].one, hs[2].two) == 1 && a !in hs[2].have
    && GenesOf(a, hs[3].one, hs[3].two) == 0 && a in hs[3].have
    && GenesOf(a, hs[4].one, hs[4].two) == 2 && a in hs[4].have
    && GenesOf(a, hs[5].one, hs[5].two) == 1 && a in hs[5].have
  }

  /** A lone founder's six hypotheses have that shape. */
  lemma LoneGenes(ped: Pedigree)
    requires LoneFounder(ped)
    ensures LoneShape(ped[0].name, Hypotheses(ped))
  {
    LoneHypotheses(ped);
  }

  /** The joint probabilities of a lone founder's six hypotheses: the
      gene prior times the trait likelihood, multiplied out. */
  lemma LoneJoints(ped: Pedigree, s: Scoring, hs: seq<Hypothesis>)
    requires LoneFounder(ped) && LoneShape(ped[0].name, hs)
    ensures Score(ped, hs[0], s) == 0.9504
    ensures Score(ped, hs[1], s) == 0.0035
    ensures Score(ped, hs[2], s) == 0.0132
    ensures Score(ped, hs[3], s) == 0.0096
    ensures Score(ped, hs[4], s) == 0.0065
    ensures Score(ped, hs[5], s) == 0.0168
  {
    LoneScore(ped, s, hs[0], 0, false);
    LoneScore(ped, s, hs[1], 2, false);
    LoneScore(ped, s, hs[2], 1, false);
    LoneScore(ped, s, hs[3], 0, true);
    LoneScore(ped, s, hs[4], 2, true);
    LoneScore(ped, s, hs[5], 1, true);
  }

  /** The score of one lone-founder hypothesis with gene count `g` and
      trait `t`. */
  lemma LoneScore(ped: Pedigree, s: Scoring, h: Hypothesis, g: GeneCount, t: bool)
    requires LoneFounder(ped)
    requires GenesOf(ped[0].name, h.one, h.two) == g && (ped[0].name in h.have) == t
    ensures Score(ped, h, s) == GenePrior(g) * TraitGiven(g, t)
  {
    LoneJoint(ped, s, h);
  }

  /** A lone founder's joint probability is the prior of their gene count
      times the chance of their trait given it. */
  lemma LoneJoint(ped: Pedigree, s: Scoring, h: Hypothesis)
    requires LoneFounder(ped)
    ensures var g := GenesOf(ped[0].name, h.one, h.two);
            Score(ped, h, s) == GenePrior(g) * TraitGiven(g, ped[0].name in h.have)
  {
    assert ped == [ped[0]];
    JointOfOne(ped[0], h, s);
    FounderFactor(ped[0], h);
  }

  /** The total mass of six hypotheses, term by term. */
  lemma MassOfSix(ped: Pedigree, s: Scoring, hs: seq<Hypothesis>)
    requires |hs| == 6
    ensures Mass(ped, s, hs) == Score(ped, hs[0], s) + Score(ped, hs[1], s) + Score(ped, hs[2], s)
                           + Score(ped, hs[3], s) + Score(ped, hs[4], s) + Score(ped, hs[5], s)
  {
    var p0, p1, p2, p3, p4, p5 := hs[..0], hs[..1], hs[..2], hs[..3], hs[..4], hs[..5];
    assert p0 == [];
    assert p1[..0] == p0 && p2[..1] == p1 && p3[..2] == p2 && p4[..3] == p3 && p5[..4] == p4 && hs[..5] == p5;
    assert Mass(ped, s, p1) == Score(ped, hs[0], s);
    assert Mass(ped, s, p2) == Mass(ped, s, p1) + Score(ped, hs[1], s);
    assert Mass(ped, s, p3) == Mass(ped, s, p2) + Score(ped, hs[2], s);
    assert Mass(ped, s, p4) == Mass(ped, s, p3) + Score(ped, hs[3], s);
    assert Mass(ped, s, p5) == Mass(ped, s, p4) + Score(ped, hs[4], s);
  }

  /** The mass of one gene cell over six hypotheses, term by term. */
  lemma GeneMassOfSix(ped: Pedigree, s: Scoring, hs: seq<Hypothesis>, n: Name, g: GeneCount)
    requires |hs| == 6
    ensures var j := seq(6, k requires 0 <= k < 6 => if GenesOf(n, hs[k].one, hs[k].two) == g then Score(ped, hs[k], s) else 0.0);
            GeneMass(ped, s, hs, n, g) == j[0] + j[1] + j[2] + j[3] + j[4] + j[5]
  {
    var j := seq(6, k requires 0 <= k < 6 => if GenesOf(n, hs[k].one, hs[k].two) == g then Score(ped, hs[k], s) else 0.0);
    var p0, p1, p2, p3, p4, p5 := hs[..0], hs[..1], hs[..2], hs[..3], hs[..4], hs[..5];
    assert p0 == [];
    assert p1[..0] == p0 && p2[..1] == p1 && p3[..2] == p2 && p4[..3] == p3 && p5[..4] == p4 && hs[..5] == p5;
    assert GeneMass(ped, s, p1, n, g) == j[0];
    assert GeneMass(ped, s, p2, n, g) == GeneMass(ped, s, p1, n, g) + j[1];
    assert GeneMass(ped, s, p3, n, g) == GeneMass(ped, s, p2, n, g) + j[2];
    assert GeneMass(ped, s, p4, n, g) == GeneMass(ped, s, p3, n, g) + j[3];
    assert GeneMass(ped, s, p5, n, g) == GeneMass(ped, s, p4, n, g) + j[4];
  }

  /** The mass of one trait cell over six hypotheses, term by term. */
  lemma TraitMassOfSix(ped: Pedigree, s: Scoring, hs: seq<Hypothesis>, n: Name, t: bool)
    requires |hs| == 6
    ensures var j := seq(6, k requires 0 <= k < 6 => if (n in hs[k].have) == t then Score(ped, hs[k], s) else 0.0);
            TraitMass(ped, s, hs, n, t) == j[0] + j[1] + j[2] + j[3] + j[4] + j[5]
  {
    var j := seq(6, k requires 0 <= k < 6 => if (n in hs[k].have) == t then Score(ped, hs[k], s) else 0.0);
    var p0, p1, p2, p3, p4, p5 := hs[..0], hs[..1], hs[..2], hs[..3], hs[..4], hs[..5];
    assert p0 == [];
    assert p1[..0] == p0 && p2[..1] == p1 && p3[..2] == p2 && p4[..3] == p3 && p5[..4] == p4 && hs[..5] == p5;
    assert TraitMass(ped, s, p1, n, t) == j[0];
    assert TraitMass(ped, s, p2, n, t) == TraitMass(ped, s, p1, n, t) + j[1];
    assert TraitMass(ped, s, p3, n, t) == TraitMass(ped, s, p2, n, t) + j[2];
    assert TraitMass(ped, s, p4, n, t) == TraitMass(ped, s, p3, n, t) + j[3];
    assert TraitMass(ped, s, p5, n, t) == TraitMass(ped, s, p4, n, t) + j[4];
  }

  /** The masses of a lone founder's hypotheses, cell by cell. */
  lemma LoneMasses(ped: Pedigree, s: Scoring, g: GeneCount)
    requires LoneFounder(ped)
    ensures Mass(ped, s, Hypotheses(ped)) == 1.0
    ensures GeneMass(ped, s, Hypotheses(ped), ped[0].name, g) == GenePrior(g)
    ensures TraitMass(ped, s, Hypotheses(ped), ped[0].name, true)
         == GeneTwo * TraitTwoTrue + GeneOne * TraitOneTrue + GeneZero * TraitZeroTrue
  {
    var hs := Hypotheses(ped);
    LoneGenes(ped);
    LoneJoints(ped, s, hs);
    MassOfSix(ped, s, hs);
    GeneMassOfSix(ped, s, hs, ped[0].name, g);
    TraitMassOfSix(ped, s, hs, ped[0].name, true);
  }

  /** With no evidence, the posterior gene distribution of a lone founder
      is the gene prior, and its chance of the trait is the prior chance of
      the trait. */
  lemma LoneFounderPosterior(ped: Pedigree, s: Scoring)
    requires LoneFounder(ped)
    ensures WellKeyed(ped) && ped[0].name in Posterior(ped, s)
    ensures Posterior(ped, s)[ped[0].name].geneDist == GeneDist(GeneTwo, GeneOne, GeneZero)
    ensures Posterior(ped, s)[ped[0].name].traitDist.yes
         == GeneTwo * TraitTwoTrue + GeneOne * TraitOneTrue + GeneZero * TraitZeroTrue
  {
    var a := ped[0].name;
    assert Names(ped) == [a];
    LoneMasses(ped, s, 2);
    LoneMasses(ped, s, 1);
    LoneMasses(ped, s, 0);
    PosteriorIsMarginal(ped, s, a, 2, true);
    PosteriorIsMarginal(ped, s, a, 1, true);
    PosteriorIsMarginal(ped, s, a, 0, true);
    var e := Posterior(ped, s)[a].geneDist;
    assert e.At(2) == GeneTwo && e.At(1) == GeneOne && e.At(0) == GeneZero;
  }
}
