/** PageRank's deterministic parts: the link filtering of `crawl`, the
    damped transition distribution and the cumulative-sum draw from a
    distribution, with the random number passed in. */
module PageRank {
  import opened Wrappers
  import opened PowerSets
  import opened WeightedDraw

  /** A page is named by its file name. */
  type Page = string

  /** `DAMPING` */
  const Damping: real := 0.85

  // ---------------------------------------------------------------------
  // crawl: keeping only links to other pages of the corpus

  /** Each page's set of found links without the page itself: the value
      stored in `pages[filename]` while reading the files. */
  function StripSelf(found: map<Page, seq<Page>>): (r: map<Page, set<Page>>)
    ensures r.Keys == found.Keys
    ensures forall f :: f in r ==> f !in r[f]
  {
    map f | f in found :: Elems(found[f]) - {f}
  }

  /** The second loop of `crawl`: every link set cut down to pages that are
      keys of the dictionary. */
  function KeepCorpusLinks(pages: map<Page, set<Page>>): (r: map<Page, set<Page>>)
    ensures r.Keys == pages.Keys
    ensures forall f :: f in r ==> r[f] <= pages[f] && r[f] <= r.Keys
  {
    map f | f in pages :: set l | l in pages[f] && l in pages
  }

  /** `crawl`, given the links the regular expression found in each file. */
  function Crawl(found: map<Page, seq<Page>>): (corpus: map<Page, set<Page>>)
    ensures corpus.Keys == found.Keys
    ensures forall f :: f in corpus ==> f !in corpus[f] && corpus[f] <= corpus.Keys
  {
    KeepCorpusLinks(StripSelf(found))
  }

  /** A crawled page links to `l` exactly when its file mentions `l`, `l` is
      another page, and `l` is a page of the corpus; so no page links to
      itself and every link stays inside the corpus. */
  lemma CrawlLinks(found: map<Page, seq<Page>>, f: Page, l: Page)
    requires f in found
    ensures f in Crawl(found)
    ensures l in Crawl(found)[f] <==> l in found[f] && l != f && l in found
    ensures f !in Crawl(found)[f] && Crawl(found)[f] <= Crawl(found).Keys
  {
    assert l in found[f] <==> l in Elems(found[f]);
  }

  // ---------------------------------------------------------------------
  // The corpus and the transition model

  /** The corpus dictionary: its keys in iteration order and each page's
      link set. */
  datatype Corpus = Corpus(pages: seq<Page>, links: map<Page, set<Page>>)

  /** The keys are listed once each and are exactly the dictionary's keys. */
  predicate WellFormed(c: Corpus) {
    NoDup(c.pages) && Elems(c.pages) == c.links.Keys
  }

  /** The corpus `crawl` returns for the files listed in `order`. */
  function Crawled(order: seq<Page>, found: map<Page, seq<Page>>): (c: Corpus)
    requires NoDup(order) && Elems(order) == found.Keys
    ensures WellFormed(c)
  {
    Corpus(order, Crawl(found))
  }

  /** A page of the corpus is among its listed keys, so the corpus has at
      least one page. */
  lemma PageListed(c: Corpus, page: Page)
    requires WellFormed(c) && page in c.links
    ensures page in c.pages && |c.pages| > 0
  {
    assert page in Elems(c.pages);
  }

  /** What each of `h` links receives: `d / len(corpus[page])`. */
  function LinkShare(h: nat, d: real): real {
    if h == 0 then 0.0 else d / (h as real)
  }

  /** What each of the `n` pages receives: `(1 - d) / len(corpus)`, where
      the damping factor is set to 0 for a page without links. */
  function JumpShare(h: nat, n: nat, d: real): real
    requires n > 0
  {
    (1.0 - (if h == 0 then 0.0 else d)) / (n as real)
  }

  /** The probability `transition_model` gives to `pg` from `page`. */
  function Share(c: Corpus, page: Page, d: real, pg: Page): real
    requires WellFormed(c) && page in c.links
  {
    PageListed(c, page);
    var links := c.links[page];
    (if pg in links then LinkShare(|links|, d) else 0.0) + JumpShare(|links|, |c.pages|, d)
  }

  /** `transition_model(corpus, page, d)`: a `KeyError` (None) when `page`
      is not a page of the corpus or links to a page outside it. */
  function Transition(c: Corpus, page: Page, d: real): Option<map<Page, real>>
    requires WellFormed(c)
  {
    if page !in c.links || !(c.links[page] <= c.links.Keys) then None
    else Some(map pg | pg in c.links :: Share(c, page, d, pg))
  }

  /** The model fails exactly on a page outside the corpus or a link to
      one; otherwise it has one entry per page of the corpus. */
  lemma TransitionFails(c: Corpus, page: Page, d: real)
    requires WellFormed(c)
    ensures Transition(c, page, d) == None <==>
              page !in c.links || exists l :: l in c.links[page] && l !in c.links
    ensures Transition(c, page, d) != None ==> Transition(c, page, d).value.Keys == Elems(c.pages)
  {
  }

  /** From a page with links, a linked page gets `d / len(links)` plus the
      random jump `(1 - d) / N`; any other page gets only the jump. */
  lemma TransitionLinked(c: Corpus, page: Page, d: real, pg: Page)
    requires WellFormed(c) && Transition(c, page, d) != None
    requires c.links[page] != {} && pg in c.links
    ensures |c.pages| > 0
    ensures pg in c.links[page] ==>
              Transition(c, page, d).value[pg] == d / (|c.links[page]| as real) + (1.0 - d) / (|c.pages| as real)
    ensures pg !in c.links[page] ==>
              Transition(c, page, d).value[pg] == (1.0 - d) / (|c.pages| as real)
  {
    PageListed(c, page);
  }

  /** From a page without links every page gets `1 / N`. */
  lemma TransitionNoLinks(c: Corpus, page: Page, d: real, pg: Page)
    requires WellFormed(c) && page in c.links && c.links[page] == {} && pg in c.links
    ensures |c.pages| > 0
    ensures Transition(c, page, d) == Some(Transition(c, page, d).value)
    ensures Transition(c, page, d).value[pg] == 1.0 / (|c.pages| as real)
  {
    PageListed(c, page);
  }

  /** The sum of `m`'s values over the listed pages. */
  function SumOver(pages: seq<Page>, m: map<Page, real>): real
    requires forall k :: 0 <= k < |pages| ==> pages[k] in m
  {
    if pages == [] then 0.0
    else SumOver(pages[..|pages| - 1], m) + m[pages[|pages| - 1]]
  }

  /** How many listed pages are in `s`. */
  function Hits(pages: seq<Page>, s: set<Page>): nat {
    if pages == [] then 0
    else Hits(pages[..|pages| - 1], s) + (if pages[|pages| - 1] in s then 1 else 0)
  }

  /** The last element of a list without duplicates is not among the
      others, which have no duplicates either. */
  lemma NoDupLast(pages: seq<Page>)
    requires NoDup(pages) && pages != []
    ensures NoDup(pages[..|pages| - 1])
    ensures pages[|pages| - 1] !in Elems(pages[..|pages| - 1])
    ensures Elems(pages) == Elems(pages[..|pages| - 1]) + {pages[|pages| - 1]}
  {
    var init, x := pages[..|pages| - 1], pages[|pages| - 1];
    assert pages == init + [x];
    assert forall k :: 0 <= k < |init| ==> init[k] == pages[k] != x;
  }

  /** A list without duplicates hits each element of `s` it lists once. */
  lemma {:induction false} HitsCard(pages: seq<Page>, s: set<Page>)
    requires NoDup(pages)
    ensures Hits(pages, s) == |Elems(pages) * s|
  {
    if pages != [] {
      var init, x := pages[..|pages| - 1], pages[|pages| - 1];
      NoDupLast(pages);
      HitsCard(init, s);
      var before := Elems(init) * s;
      assert x !in before;
      if x in s {
        assert Elems(pages) * s == before + {x};
        assert |before + {x}| == |before| + 1;
      } else {
        assert Elems(pages) * s == before;
      }
    }
  }

  /** Every listed page has `b` in `m`, plus `a` when it is in `s`. */
  predicate SharedAs(pages: seq<Page>, m: map<Page, real>, s: set<Page>, a: real, b: real) {
    forall k :: 0 <= k < |pages| ==> pages[k] in m && m[pages[k]] == (if pages[k] in s then a else 0.0) + b
  }

  /** `x` added up `n` times. */
  function Times(n: nat, x: real): real {
    if n == 0 then 0.0 else Times(n - 1, x) + x
  }

  /** Adding `x` up `n` times is multiplying it by `n`. */
  lemma {:induction false} TimesIsProduct(n: nat, x: real)
    ensures Times(n, x) == (n as real) * x
  {
    if n != 0 {
      TimesIsProduct(n - 1, x);
      assert (n as real) * x == ((n - 1) as real) * x + x;
    }
  }

  /** Summing `a` on the pages in `s` and `b` on every page. */
  lemma {:induction false} SumOfShares(pages: seq<Page>, m: map<Page, real>, s: set<Page>, a: real, b: real)
    requires SharedAs(pages, m, s, a, b)
    ensures SumOver(pages, m) == Times(Hits(pages, s), a) + Times(|pages|, b)
  {
    if pages != [] {
      var init, x := pages[..|pages| - 1], pages[|pages| - 1];
      assert SharedAs(init, m, s, a, b) by {
        forall k | 0 <= k < |init|
          ensures init[k] == pages[k]
        {
        }
      }
      SumOfShares(init, m, s, a, b);
    }
  }

  /** Multiplying a share `x / n` back by a nonzero `n` recovers `x`. */
  lemma Cancel(n: real, x: real)
    requires n != 0.0
    ensures n * (x / n) == x
  {
  }

  /** `h` links sharing `d` and `n` pages sharing the rest make 1. */
  lemma SharesSumToOne(h: nat, n: nat, d: real)
    requires n > 0
    ensures Times(h, LinkShare(h, d)) + Times(n, JumpShare(h, n, d)) == 1.0
  {
    TimesIsProduct(h, LinkShare(h, d));
    TimesIsProduct(n, JumpShare(h, n, d));
    Cancel(n as real, 1.0 - (if h == 0 then 0.0 else d));
    if h != 0 {
      Cancel(h as real, d);
    }
  }

  /** For a damping factor between 0 and 1 no share is negative. */
  lemma SharesNonNegative(h: nat, n: nat, d: real)
    requires n > 0 && 0.0 <= d <= 1.0
    ensures LinkShare(h, d) >= 0.0 && JumpShare(h, n, d) >= 0.0
  {
    QuotientNonNegative(1.0 - (if h == 0 then 0.0 else d), n as real);
    if h != 0 {
      QuotientNonNegative(d, h as real);
    }
  }

  /** A quotient of non-negative reals is non-negative. */
  lemma QuotientNonNegative(x: real, n: real)
    requires 0.0 <= x && 0.0 < n
    ensures 0.0 <= x / n
  {
  }

  /** Over a list of distinct pages that includes every link, giving each
      linked page `a` and every page `b` sums to 1 when the shares of the
      links and of the pages make 1. */
  lemma DampedSum(pages: seq<Page>, m: map<Page, real>, links: set<Page>, a: real, b: real)
    requires NoDup(pages) && links <= Elems(pages)
    requires SharedAs(pages, m, links, a, b)
    requires Times(|links|, a) + Times(|pages|, b) == 1.0
    ensures SumOver(pages, m) == 1.0
  {
    SumOfShares(pages, m, links, a, b);
    HitsAll(pages, links);
  }

  /** A list without duplicates that includes all of `s` hits it `|s|`
      times. */
  lemma HitsAll(pages: seq<Page>, s: set<Page>)
    requires NoDup(pages) && s <= Elems(pages)
    ensures Hits(pages, s) == |s|
  {
    HitsCard(pages, s);
    assert Elems(pages) * s == s;
  }

  /** Each listed page's share, in terms of the two shares `a` and `b`. */
  lemma TransitionAtPages(c: Corpus, page: Page, d: real, a: real, b: real)
    requires WellFormed(c) && Transition(c, page, d) != None
    requires a == LinkShare(|c.links[page]|, d)
    requires |c.pages| > 0 && b == JumpShare(|c.links[page]|, |c.pages|, d)
    ensures SharedAs(c.pages, Transition(c, page, d).value, c.links[page], a, b)
  {
    PageListed(c, page);
    forall k | 0 <= k < |c.pages|
      ensures c.pages[k] in c.links
    {
      assert c.pages[k] in Elems(c.pages);
    }
  }

  /** For a damping factor between 0 and 1 no page gets a negative
      probability. */
  lemma TransitionNonNegative(c: Corpus, page: Page, d: real)
    requires WellFormed(c) && Transition(c, page, d) != None && 0.0 <= d <= 1.0
    ensures forall pg :: pg in Transition(c, page, d).value ==> Transition(c, page, d).value[pg] >= 0.0
  {
    PageListed(c, page);
    SharesNonNegative(|c.links[page]|, |c.pages|, d);
  }

  /** The two shares of a transition model: every listed page gets `b`,
      a linked one `a` on top, and together they make 1. */
  lemma TransitionShares(c: Corpus, page: Page, d: real) returns (a: real, b: real)
    requires WellFormed(c) && Transition(c, page, d) != None
    ensures SharedAs(c.pages, Transition(c, page, d).value, c.links[page], a, b)
    ensures Times(|c.links[page]|, a) + Times(|c.pages|, b) == 1.0
    ensures c.links[page] <= Elems(c.pages)
  {
    PageListed(c, page);
    var links := c.links[page];
    a, b := LinkShare(|links|, d), JumpShare(|links|, |c.pages|, d);
    SharesSumToOne(|links|, |c.pages|, d);
    TransitionAtPages(c, page, d, a, b);
  }

  /** The transition model has an entry for every listed page. */
  lemma TransitionKeys(c: Corpus, page: Page, d: real)
    requires WellFormed(c) && Transition(c, page, d) != None
    ensures forall k :: 0 <= k < |c.pages| ==> c.pages[k] in Transition(c, page, d).value
  {
    forall k | 0 <= k < |c.pages|
      ensures c.pages[k] in c.links
    {
      assert c.pages[k] in Elems(c.pages);
    }
  }

  /** The values of the transition model sum to 1 over the corpus. */
  lemma TransitionSumsToOne(c: Corpus, page: Page, d: real)
    requires WellFormed(c) && Transition(c, page, d) != None
    ensures forall k :: 0 <= k < |c.pages| ==> c.pages[k] in Transition(c, page, d).value
    ensures SumOver(c.pages, Transition(c, page, d).value) == 1.0
  {
    TransitionKeys(c, page, d);
    var a, b := TransitionShares(c, page, d);
    DampedSum(c.pages, Transition(c, page, d).value, c.links[page], a, b);
  }

  /** The transition model is a probability distribution: its values sum
      to 1 over the corpus and, for a damping factor between 0 and 1, none
      is negative. */
  lemma TransitionIsDistribution(c: Corpus, page: Page, d: real)
    requires WellFormed(c) && Transition(c, page, d) != None
    ensures forall k :: 0 <= k < |c.pages| ==> c.pages[k] in Transition(c, page, d).value
    ensures SumOver(c.pages, Transition(c, page, d).value) == 1.0
    ensures 0.0 <= d <= 1.0 ==> forall pg :: pg in Transition(c, page, d).value ==> Transition(c, page, d).value[pg] >= 0.0
  {
    TransitionSumsToOne(c, page, d);
    if 0.0 <= d <= 1.0 {
      TransitionNonNegative(c, page, d);
    }
  }

  /** The dictionary with every page of the corpus at 0. */
  method ZeroModel(pages: seq<Page>) returns (model: map<Page, real>)
    ensures model.Keys == Elems(pages)
    ensures forall pg :: pg in model ==> model[pg] == 0.0
  {
    model := map[];
    for i := 0 to |pages|
      invariant model.Keys == Elems(pages[..i])
      invariant forall pg :: pg in model ==> model[pg] == 0.0
    {
      assert Elems(pages[..i + 1]) == Elems(pages[..i]) + {pages[i]};
      model := model[pages[i] := 0.0];
    }
    assert pages[..|pages|] == pages;
  }

  /** The loop over `corpus[page]`: each link receives `d / len(links)`; a
      link that is not a key is a `KeyError`. */
  method AddLinkShares(model0: map<Page, real>, links: set<Page>, d: real) returns (model: Option<map<Page, real>>)
    requires links != {}
    ensures model == None <==> !(links <= model0.Keys)
    ensures model != None ==> model.value.Keys == model0.Keys
    ensures model != None ==> forall pg :: pg in model0 ==>
              model.value[pg] == model0[pg] + (if pg in links then d / (|links| as real) else 0.0)
  {
    var m := model0;
    var todo := links;
    while todo != {}
      invariant todo <= links && links - todo <= m.Keys && m.Keys == model0.Keys
      invariant forall pg :: pg in m ==> m[pg] == model0[pg] + (if pg in links - todo then d / (|links| as real) else 0.0)
      decreases |todo|
    {
      var link :| link in todo;
      if link !in m {
        return None;
      }
      m := m[link := m[link] + d / (|links| as real)];
      todo := todo - {link};
    }
    return Some(m);
  }

  /** The final loop over the corpus: every page receives `(1 - d) / N`. */
  method AddJump(model0: map<Page, real>, pages: seq<Page>, jump: real) returns (model: map<Page, real>)
    requires NoDup(pages) && Elems(pages) == model0.Keys
    ensures model.Keys == model0.Keys
    ensures forall pg :: pg in model0 ==> model[pg] == model0[pg] + jump
  {
    model := model0;
    for i := 0 to |pages|
      invariant model.Keys == model0.Keys
      invariant forall k :: 0 <= k < i ==> model[pages[k]] == model0[pages[k]] + jump
      invariant forall k :: i <= k < |pages| ==> model[pages[k]] == model0[pages[k]]
    {
      model := model[pages[i] := model[pages[i]] + jump];
    }
    forall pg | pg in model0
      ensures model[pg] == model0[pg] + jump
    {
      assert pg in Elems(pages);
      var k :| 0 <= k < |pages| && pages[k] == pg;
    }
  }

  /** A dictionary over the corpus holding each page's share is the
      transition model. */
  lemma ModelIsTransition(c: Corpus, page: Page, d: real, m: map<Page, real>)
    requires WellFormed(c) && page in c.links && c.links[page] <= c.links.Keys
    requires m.Keys == c.links.Keys
    requires forall pg :: pg in m ==>
               m[pg] == (if pg in c.links[page] then LinkShare(|c.links[page]|, d) else 0.0)
                        + JumpShare(|c.links[page]|, |c.pages|, d)
    ensures Transition(c, page, d) == Some(m)
  {
    assert m == map pg | pg in c.links :: Share(c, page, d, pg);
  }

  /** `transition_model(corpus, page, damping_factor)` */
  method TransitionModel(corpus: Corpus, page: Page, d: real) returns (model: Option<map<Page, real>>)
    requires WellFormed(corpus)
    ensures model == Transition(corpus, page, d)
  {
    var m := ZeroModel(corpus.pages);
    if page !in corpus.links {
      return None;
    }
    PageListed(corpus, page);
    var links := corpus.links[page];
    var damping := d;
    ghost var linked := m;
    if links != {} {
      var shared := AddLinkShares(m, links, d);
      if shared == None {
        return None;
      }
      m := shared.value;
      linked := m;
    } else {
      damping := 0.0;
    }
    assert forall pg :: pg in linked ==> linked[pg] == if pg in links then LinkShare(|links|, d) else 0.0;
    var jump := (1.0 - damping) / (|corpus.pages| as real);
    assert jump == JumpShare(|links|, |corpus.pages|, d);
    m := AddJump(m, corpus.pages, jump);
    ModelIsTransition(corpus, page, d, m);
    return Some(m);
  }

  /** A crawled corpus never makes `transition_model` fail on one of its
      pages. */
  lemma CrawledTransitions(order: seq<Page>, found: map<Page, seq<Page>>, page: Page, d: real)
    requires NoDup(order) && Elems(order) == found.Keys && page in found
    ensures Transition(Crawled(order, found), page, d) != None
  {
    CrawlLinks(found, page, page);
  }

  /** The items of the model in corpus order, as `model.items()` yields
      them. */
  function Items(pages: seq<Page>, m: map<Page, real>): (r: seq<(Page, real)>)
    requires forall k :: 0 <= k < |pages| ==> pages[k] in m
    ensures |r| == |pages|
    ensures forall i :: 0 <= i < |r| ==> r[i] == (pages[i], m[pages[i]])
  {
    seq(|pages|, i requires 0 <= i < |pages| => (pages[i], m[pages[i]]))
  }

  /** The running total through item `i` of the model's items is the sum
      over the first `i + 1` pages. */
  lemma {:induction false} ItemsTotal(pages: seq<Page>, m: map<Page, real>, i: int)
    requires forall k :: 0 <= k < |pages| ==> pages[k] in m
    requires 0 <= i < |pages|
    ensures RunningTotal(Items(pages, m), i) == SumOver(pages[..i + 1], m)
  {
    assert pages[..i + 1][..i] == pages[..i];
    if i > 0 {
      ItemsTotal(pages, m, i - 1);
    } else {
      assert pages[..0] == [];
    }
  }

  /** A draw from a transition model with `rand` in [0, 1] always lands on
      a page: the last running total is 1. */
  lemma DrawLands(c: Corpus, page: Page, d: real, rand: real)
    requires WellFormed(c) && Transition(c, page, d) != None
    requires 0.0 <= rand <= 1.0
    ensures |c.pages| > 0
    ensures var items := Items(c.pages, Transition(c, page, d).value);
            rand <= RunningTotal(items, |items| - 1)
  {
    TransitionIsDistribution(c, page, d);
    PageListed(c, page);
    LastTotal(c.pages, Transition(c, page, d).value);
  }

  /** The last running total over the model's items is the sum over all
      pages. */
  lemma LastTotal(pages: seq<Page>, m: map<Page, real>)
    requires forall k :: 0 <= k < |pages| ==> pages[k] in m
    requires pages != []
    ensures RunningTotal(Items(pages, m), |pages| - 1) == SumOver(pages, m)
  {
    ItemsTotal(pages, m, |pages| - 1);
    assert pages[..|pages|] == pages;
  }
}
