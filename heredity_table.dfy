/** The table of unnormalised and normalised marginals that the heredity
    program keeps per person, and the two operations that change it in
    place: `update` and `normalize`. */
module HeredityTable {
  import opened PowerSets
  import opened Heredity

  /** `probabilities[person]["gene"]`: the cells for 2, 1 and 0 copies. */
  datatype GeneDist = GeneDist(two: real, one: real, zero: real) {

    function At(g: GeneCount): real {
      if g == 2 then two else if g == 1 then one else zero
    }

    function Total(): real {
      two + one + zero
    }

    /** The distribution with `p` added to cell `g` (`+= p`). */
    function Plus(g: GeneCount, p: real): (r: GeneDist)
      ensures r.At(g) == At(g) + p
      ensures forall g': GeneCount :: g' != g ==> r.At(g') == At(g')
    {
      if g == 2 then GeneDist(two + p, one, zero)
      else if g == 1 then GeneDist(two, one + p, zero)
      else GeneDist(two, one, zero + p)
    }

    /** Every cell divided by `t` (`/= total`). */
    function Over(t: real): GeneDist
      requires t != 0.0
    {
      GeneDist(two / t, one / t, zero / t)
    }
  }

  /** `probabilities[person]["trait"]`: the cells for True and False. */
  datatype TraitDist = TraitDist(yes: real, no: real) {

    function At(t: bool): real {
      if t then yes else no
    }

    function Total(): real {
      yes + no
    }

    function Plus(t: bool, p: real): (r: TraitDist)
      ensures r.At(t) == At(t) + p
      ensures r.At(!t) == At(!t)
    {
      if t then TraitDist(yes + p, no) else TraitDist(yes, no + p)
    }

    function Over(t: real): TraitDist
      requires t != 0.0
    {
      TraitDist(yes / t, no / t)
    }
  }

  /** Everything the table holds for one person. */
  datatype Entry = Entry(geneDist: GeneDist, traitDist: TraitDist)

  const ZeroEntry := Entry(GeneDist(0.0, 0.0, 0.0), TraitDist(0.0, 0.0))

  type Cells = map<Name, Entry>

  /** The initial table: every cell of every person is 0. */
  function ZeroCells(names: seq<Name>): (c: Cells)
    ensures c.Keys == Elems(names)
  {
    map n | n in names :: ZeroEntry
  }

  /** `update`: `p` is added to the one gene cell chosen by the gene sets
      and the one trait cell chosen by `have`, for every person. */
  function Updated(cells: Cells, h: Hypothesis, p: real): (r: Cells)
    ensures r.Keys == cells.Keys
  {
    map n | n in cells :: Entry(cells[n].geneDist.Plus(GenesOf(n, h.one, h.two), p), cells[n].traitDist.Plus(n in h.have, p))
  }

  /** Exactly one gene cell and one trait cell per person grow by `p`; all
      other cells are unchanged. */
  lemma UpdatedOnlyChosenCells(cells: Cells, h: Hypothesis, p: real, n: Name, g: GeneCount, t: bool)
    requires n in cells
    ensures Updated(cells, h, p)[n].geneDist.At(g)
         == cells[n].geneDist.At(g) + (if g == GenesOf(n, h.one, h.two) then p else 0.0)
    ensures Updated(cells, h, p)[n].traitDist.At(t)
         == cells[n].traitDist.At(t) + (if t == (n in h.have) then p else 0.0)
  {
    var e := cells[n];
    var gn := GenesOf(n, h.one, h.two);
    assert Updated(cells, h, p)[n] == Entry(e.geneDist.Plus(gn, p), e.traitDist.Plus(n in h.have, p));
    if t != (n in h.have) {
      assert t == !(n in h.have);
    }
  }

  /** Neither distribution of the entry has total 0. */
  predicate HasMass(e: Entry) {
    e.geneDist.Total() != 0.0 && e.traitDist.Total() != 0.0
  }

  /** Both distributions divided by their own totals. */
  function Normalized(e: Entry): Entry
    requires HasMass(e)
  {
    Entry(e.geneDist.Over(e.geneDist.Total()), e.traitDist.Over(e.traitDist.Total()))
  }

  /** The state of an entry when normalising it stopped with a division by
      zero: the gene distribution was rescaled if its own total was not 0. */
  function HalfNormalized(e: Entry): Entry {
    if e.geneDist.Total() != 0.0 then Entry(e.geneDist.Over(e.geneDist.Total()), e.traitDist) else e
  }

  /** After normalisation both distributions sum to 1. */
  lemma NormalizedSumsToOne(e: Entry)
    requires HasMass(e)
    ensures Normalized(e).geneDist.Total() == 1.0
    ensures Normalized(e).traitDist.Total() == 1.0
  {
    var gt, tt := e.geneDist.Total(), e.traitDist.Total();
    assert e.geneDist.two / gt + e.geneDist.one / gt + e.geneDist.zero / gt == gt / gt;
    assert e.traitDist.yes / tt + e.traitDist.no / tt == tt / tt;
  }

  /** Each normalised cell is its old value over its distribution's total. */
  lemma NormalizedAt(e: Entry, g: GeneCount, t: bool)
    requires HasMass(e)
    ensures Normalized(e).geneDist.At(g) == e.geneDist.At(g) / e.geneDist.Total()
    ensures Normalized(e).traitDist.At(t) == e.traitDist.At(t) / e.traitDist.Total()
  {
  }

  /** Normalisation keeps the proportions: each normalised cell is its old
      value over the old total, so every ratio between cells is kept. */
  lemma NormalizedKeepsProportions(e: Entry, g: GeneCount, g': GeneCount, t: bool, t': bool)
    requires HasMass(e)
    ensures Normalized(e).geneDist.At(g) * e.geneDist.Total() == e.geneDist.At(g)
    ensures Normalized(e).traitDist.At(t) * e.traitDist.Total() == e.traitDist.At(t)
    ensures Normalized(e).geneDist.At(g) * e.geneDist.At(g') == Normalized(e).geneDist.At(g') * e.geneDist.At(g)
    ensures Normalized(e).traitDist.At(t) * e.traitDist.At(t') == Normalized(e).traitDist.At(t') * e.traitDist.At(t)
  {
    var n := Normalized(e);
    assert n.geneDist.At(g) == e.geneDist.At(g) / e.geneDist.Total();
    assert n.geneDist.At(g') == e.geneDist.At(g') / e.geneDist.Total();
    assert n.traitDist.At(t) == e.traitDist.At(t) / e.traitDist.Total();
    assert n.traitDist.At(t') == e.traitDist.At(t') / e.traitDist.Total();
    Proportional(e.geneDist.At(g), e.geneDist.At(g'), e.geneDist.Total());
    Proportional(e.traitDist.At(t), e.traitDist.At(t'), e.traitDist.Total());
  }

  /** Dividing by a common nonzero total can be undone by multiplying
      back, and keeps the cross-ratio of any two values. */
  lemma Proportional(x: real, y: real, total: real)
    requires total != 0.0
    ensures (x / total) * total == x
    ensures (x / total) * y == (y / total) * x
  {
  }

  /** `normalize` on a table in which every entry has mass. */
  function NormalizedCells(cells: Cells): (r: Cells)
    requires forall n :: n in cells ==> HasMass(cells[n])
    ensures r.Keys == cells.Keys
  {
    map n | n in cells :: Normalized(cells[n])
  }

  lemma NormalizedCellsAt(cells: Cells, n: Name)
    requires forall m :: m in cells ==> HasMass(cells[m])
    requires n in cells
    ensures NormalizedCells(cells)[n] == Normalized(cells[n])
  {
  }

  /** Position `k` is the first, in key order, whose entry lacks mass. */
  predicate FirstWithoutMass(cells: Cells, names: seq<Name>, k: int)
    requires Elems(names) <= cells.Keys
  {
    && 0 <= k < |names|
    && !HasMass(cells[names[k]])
    && forall j :: 0 <= j < k ==> HasMass(cells[names[j]])
  }

  /** The `probabilities` dictionary: its keys in insertion order and, per
      key, the gene and trait cells. */
  class Table {
    const names: seq<Name>
    var cells: Cells

    ghost predicate Valid()
      reads this
    {
      NoDup(names) && cells.Keys == Elems(names)
    }

    /** The dictionary comprehension at the start of `main`: all cells 0. */
    constructor (names: seq<Name>)
      requires NoDup(names)
      ensures Valid() && this.names == names && cells == ZeroCells(names)
    {
      this.names := names;
      cells := ZeroCells(names);
    }

    /** `update(probabilities, one_gene, two_genes, have_trait, p)` */
    method Update(h: Hypothesis, p: real)
      requires Valid()
      modifies this
      ensures Valid()
      ensures cells == Updated(old(cells), h, p)
    {
      var i := 0;
      while i < |names|
        invariant 0 <= i <= |names|
        invariant cells.Keys == old(cells).Keys
        invariant forall k :: 0 <= k < i ==> cells[names[k]] == Updated(old(cells), h, p)[names[k]]
        invariant forall k :: i <= k < |names| ==> cells[names[k]] == old(cells)[names[k]]
      {
        var person := names[i];
        var genes := GenesOf(person, h.one, h.two);
        var e := cells[person];
        assert e == old(cells)[person];
        assert forall j :: 0 <= j < |names| && j != i ==> names[j] != person;
        cells := cells[person := Entry(e.geneDist.Plus(genes, p), e.traitDist.Plus(person in h.have, p))];
        assert cells[person] == Updated(old(cells), h, p)[person];
        i := i + 1;
      }
      forall n | n in cells
        ensures cells[n] == Updated(old(cells), h, p)[n]
      {
        var k :| 0 <= k < |names| && names[k] == n;
      }
    }

    /** `normalize(probabilities)`: per person, in key order, the gene and
        then the trait distribution is divided by its total. A zero total
        is Python's ZeroDivisionError: `ok` is false and the table keeps
        what was already divided. */
    method Normalize() returns (ok: bool)
      requires Valid()
      modifies this
      ensures Valid()
      ensures ok <==> forall n :: n in old(cells) ==> HasMass(old(cells)[n])
      ensures ok ==> cells == NormalizedCells(old(cells))
      ensures !ok ==> exists k ::
                && FirstWithoutMass(old(cells), names, k)
                && (forall j :: 0 <= j < k ==> cells[names[j]] == Normalized(old(cells)[names[j]]))
                && cells[names[k]] == HalfNormalized(old(cells)[names[k]])
                && (forall j :: k < j < |names| ==> cells[names[j]] == old(cells)[names[j]])
    {
      var i := 0;
      while i < |names|
        invariant 0 <= i <= |names|
        invariant cells.Keys == old(cells).Keys
        invariant forall j :: 0 <= j < i ==> HasMass(old(cells)[names[j]])
        invariant forall j :: 0 <= j < i ==> cells[names[j]] == Normalized(old(cells)[names[j]])
        invariant forall j :: i <= j < |names| ==> cells[names[j]] == old(cells)[names[j]]
      {
        var person := names[i];
        var e := cells[person];
        assert e == old(cells)[person];
        assert forall j :: 0 <= j < |names| && j != i ==> names[j] != person;
        var geneTotal := e.geneDist.Total();
        if geneTotal == 0.0 {
          assert FirstWithoutMass(old(cells), names, i);
          return false;
        }
        cells := cells[person := Entry(e.geneDist.Over(geneTotal), e.traitDist)];
        var traitTotal := e.traitDist.Total();
        if traitTotal == 0.0 {
          assert FirstWithoutMass(old(cells), names, i);
          return false;
        }
        cells := cells[person := Entry(e.geneDist.Over(geneTotal), e.traitDist.Over(traitTotal))];
        assert cells[person] == Normalized(old(cells)[person]);
        i := i + 1;
      }
      forall n | n in old(cells)
        ensures HasMass(old(cells)[n]) && cells[n] == Normalized(old(cells)[n])
      {
        var k :| 0 <= k < |names| && names[k] == n;
      }
      return true;
    }
  }
}
