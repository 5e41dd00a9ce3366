/** The scoring phase of `inspect_diamond`: for every facet with at least one
    selector, the recall and precision of each catalog contract and the
    facet's maximum recall. */
module Scoring {
  import opened Collections
  import opened Catalog

  type Address = string

  /** The set of selectors mounted on a facet. */
  function Elems(facet: seq<Selector>): set<Selector> {
    set s | s in facet
  }

  /** The facet's selector entries that the contract declares, in facet
      order; a selector listed twice on the facet counts twice. */
  function Hits(facet: seq<Selector>, entry: Dict<Selector, FunctionName>): seq<Selector> {
    Filter(facet, entry.values.Keys)
  }

  /** The contract's selectors that are mounted on the facet, in the
      contract's order. */
  function Mounted(facet: seq<Selector>, entry: Dict<Selector, FunctionName>): seq<Selector> {
    Filter(entry.keys, Elems(facet))
  }

  /** Share of the facet's selector entries that the contract declares. */
  function Recall(facet: seq<Selector>, entry: Dict<Selector, FunctionName>): real
    requires facet != []
  {
    |Hits(facet, entry)| as real / |facet| as real
  }

  /** Share of the contract's selectors mounted on the facet; 0 for a
      contract without selectors. */
  function Precision(facet: seq<Selector>, entry: Dict<Selector, FunctionName>): real {
    if entry.keys == [] then 0.0
    else |Mounted(facet, entry)| as real / |entry.keys| as real
  }

  /** facet_recalls[address]: only contracts sharing a selector with the
      facet have an entry. */
  function RecallScores(facet: seq<Selector>, cs: Catalog): map<ContractName, real>
    requires facet != []
  {
    map c | c in cs.values && Hits(facet, cs.values[c]) != [] :: Recall(facet, cs.values[c])
  }

  /** facet_precisions[address]: every contract, in catalog order. */
  function PrecisionScores(facet: seq<Selector>, cs: Catalog): Dict<ContractName, real> {
    OrderedMap(cs.keys, map c | c in cs.values :: Precision(facet, cs.values[c]))
  }

  /** The recall of every contract, in catalog order. */
  function CatalogRecalls(facet: seq<Selector>, cs: Catalog): (rs: seq<real>)
    requires facet != []
    ensures |rs| == |cs.keys|
    ensures forall i :: 0 <= i < |cs.keys| ==> rs[i] == Recall(facet, cs.values[cs.keys[i]])
  {
    seq(|cs.keys|, i requires 0 <= i < |cs.keys| => Recall(facet, cs.values[cs.keys[i]]))
  }

  /** max_recall[address]: the largest recall, and 0 when no contract shares
      a selector with the facet. */
  function MaxRecall(facet: seq<Selector>, cs: Catalog): real
    requires facet != []
  {
    Max([0.0] + CatalogRecalls(facet, cs))
  }

  /** The three scores the source keeps per facet address. */
  datatype Scores = Scores(recall: map<ContractName, real>, precision: Dict<ContractName, real>, maxRecall: real)

  function FacetScores(facet: seq<Selector>, cs: Catalog): Scores
    requires facet != []
  {
    Scores(RecallScores(facet, cs), PrecisionScores(facet, cs), MaxRecall(facet, cs))
  }

  /** Scores for every facet address that has at least one selector. */
  function ScoreTable(facets: Dict<Address, seq<Selector>>, cs: Catalog): map<Address, Scores> {
    map a | a in facets.values && facets.values[a] != [] :: FacetScores(facets.values[a], cs)
  }

  // ---------------------------------------------------------------------
  // Properties of the scores

  lemma RatioBounds(n: nat, d: nat)
    requires n <= d && 0 < d
    ensures 0.0 <= n as real / d as real <= 1.0
    ensures n as real / d as real == 0.0 <==> n == 0
  {
  }

  /** The number of distinct elements kept by a filter over a list without
      repetitions is the size of the intersection. */
  lemma {:induction false} FilterCard<T>(xs: seq<T>, keep: set<T>)
    requires Distinct(xs)
    ensures |Filter(xs, keep)| == |(set x | x in xs) * keep|
  {
    if xs != [] {
      var init, x := xs[..|xs| - 1], xs[|xs| - 1];
      FilterCard(init, keep);
      assert (set y | y in xs) == (set y | y in init) + {x};
      if x in keep {
        assert (set y | y in xs) * keep == (set y | y in init) * keep + {x};
      } else {
        assert (set y | y in xs) * keep == (set y | y in init) * keep;
      }
    }
  }

  /** The recall of a contract lies in [0, 1] and is 0 exactly when none of
      the facet's selectors is declared by the contract. On a facet without
      repeated selectors it is the size of the shared selector set over the
      facet's size. */
  lemma RecallSpec(facet: seq<Selector>, entry: Dict<Selector, FunctionName>)
    requires facet != []
    ensures 0.0 <= Recall(facet, entry) <= 1.0
    ensures Recall(facet, entry) == 0.0 <==> forall s :: s in facet ==> s !in entry.values
    ensures Distinct(facet) ==>
              Recall(facet, entry) == |Elems(facet) * entry.values.Keys| as real / |facet| as real
  {
    RatioBounds(|Hits(facet, entry)|, |facet|);
    FilterMembers(facet, entry.values.Keys);
    if Hits(facet, entry) != [] {
      assert Hits(facet, entry)[0] in Hits(facet, entry);
    }
    if Distinct(facet) {
      FilterCard(facet, entry.values.Keys);
    }
  }

  /** The precision of a contract lies in [0, 1], is 0 for a contract without
      selectors, and is the number of its distinct selectors mounted on the
      facet over its number of selectors. */
  lemma PrecisionSpec(facet: seq<Selector>, entry: Dict<Selector, FunctionName>)
    ensures 0.0 <= Precision(facet, entry) <= 1.0
    ensures entry.values == map[] ==> Precision(facet, entry) == 0.0
    ensures entry.values != map[] ==>
              Precision(facet, entry) == |entry.values.Keys * Elems(facet)| as real / |entry.values| as real
  {
    FilterCard(entry.keys, Elems(facet));
    DistinctCard(entry.keys);
    assert entry.values.Keys == (set s | s in entry.keys);
    if entry.keys != [] {
      RatioBounds(|Mounted(facet, entry)|, |entry.keys|);
    } else {
      assert entry.values.Keys == {};
    }
  }

  lemma DistinctCard<T>(xs: seq<T>)
    requires Distinct(xs)
    ensures |set x | x in xs| == |xs|
  {
    var all := set x | x in xs;
    FilterCard(xs, all);
    FilterAll(xs, all);
    assert all * all == all;
  }

  lemma {:induction false} FilterAll<T>(xs: seq<T>, keep: set<T>)
    requires forall x :: x in xs ==> x in keep
    ensures Filter(xs, keep) == xs
  {
    if xs != [] {
      FilterAll(xs[..|xs| - 1], keep);
      assert xs == xs[..|xs| - 1] + [xs[|xs| - 1]];
    }
  }

  lemma CatalogRecallsOf(facet: seq<Selector>, cs: Catalog, c: ContractName)
    requires facet != [] && c in cs.values
    ensures Recall(facet, cs.values[c]) in [0.0] + CatalogRecalls(facet, cs)
  {
    var i :| 0 <= i < |cs.keys| && cs.keys[i] == c;
    assert ([0.0] + CatalogRecalls(facet, cs))[i + 1] == Recall(facet, cs.values[c]);
  }

  lemma CatalogRecallsFrom(facet: seq<Selector>, cs: Catalog, r: real)
    requires facet != [] && r in [0.0] + CatalogRecalls(facet, cs)
    ensures r == 0.0 || exists c :: c in cs.values && Recall(facet, cs.values[c]) == r
  {
    var rs := [0.0] + CatalogRecalls(facet, cs);
    var j :| 0 <= j < |rs| && rs[j] == r;
    if j > 0 {
      assert cs.keys[j - 1] in cs.values;
    }
  }

  /** The maximum recall is at least 0 and at least every contract's recall,
      is reached by some contract when the catalog is not empty, and is 0
      exactly when no contract declares any of the facet's selectors. */
  lemma MaxRecallSpec(facet: seq<Selector>, cs: Catalog)
    requires facet != []
    ensures 0.0 <= MaxRecall(facet, cs)
    ensures forall c :: c in cs.values ==> Recall(facet, cs.values[c]) <= MaxRecall(facet, cs)
    ensures cs.keys != [] ==> exists c :: c in cs.values && Recall(facet, cs.values[c]) == MaxRecall(facet, cs)
    ensures MaxRecall(facet, cs) == 0.0 <==>
              forall c, s :: c in cs.values && s in facet ==> s !in cs.values[c].values
  {
    var m := MaxRecall(facet, cs);
    assert 0.0 in [0.0] + CatalogRecalls(facet, cs);
    forall c | c in cs.values ensures 0.0 <= Recall(facet, cs.values[c]) <= m {
      CatalogRecallsOf(facet, cs, c);
      RecallSpec(facet, cs.values[c]);
    }
    CatalogRecallsFrom(facet, cs, m);
    if cs.keys != [] && m == 0.0 {
      assert cs.keys[0] in cs.values;
    }
    if m == 0.0 {
      forall c, s | c in cs.values && s in facet ensures s !in cs.values[c].values {
        RecallSpec(facet, cs.values[c]);
      }
    }
    if m != 0.0 {
      var c :| c in cs.values && Recall(facet, cs.values[c]) == m;
      RecallSpec(facet, cs.values[c]);
    }
  }

  /** Python's max([0] + recalls) over the recall dictionary, whatever its
      key order, equals the maximum over the catalog. */
  lemma MaxRecallOfScores(facet: seq<Selector>, cs: Catalog, recalls: Dict<ContractName, real>)
    requires facet != []
    requires recalls.values == RecallScores(facet, cs)
    ensures Max([0.0] + Values(recalls)) == MaxRecall(facet, cs)
  {
    var xs, ys := [0.0] + Values(recalls), [0.0] + CatalogRecalls(facet, cs);
    assert xs[0] == 0.0 && ys[0] == 0.0;
    forall x | x in xs ensures exists y :: y in ys && x <= y {
      if x != 0.0 {
        assert x in Values(recalls);
        ValuesMember(recalls, x);
        var c :| c in recalls.values && recalls.values[c] == x;
        CatalogRecallsOf(facet, cs, c);
        assert x in ys && x <= x;
      } else {
        assert ys[0] in ys && x <= ys[0];
      }
    }
    forall y | y in ys ensures exists x :: x in xs && y <= x {
      CatalogRecallsFrom(facet, cs, y);
      if y != 0.0 {
        var c :| c in cs.values && Recall(facet, cs.values[c]) == y;
        RecallSpec(facet, cs.values[c]);
        FilterMembers(facet, cs.values[c].values.Keys);
        assert c in recalls.values;
        ValuesMember(recalls, y);
        assert y in xs && y <= y;
      } else {
        assert xs[0] in xs && y <= xs[0];
      }
    }
    MaxSameElements(xs, ys);
  }

  // ---------------------------------------------------------------------
  // The scoring loops

  /** The recall counts once the first `i` facet selectors have been read:
      a contract has a count when it declares one of them, and the count is
      how many of them it declares. */
  ghost predicate CountedUpTo(counts: map<ContractName, real>, facet: seq<Selector>, i: nat, cs: Catalog)
    requires i <= |facet|
  {
    (forall c :: c in counts <==> c in cs.values && Hits(facet[..i], cs.values[c]) != []) &&
    (forall c :: c in counts ==> counts[c] == |Hits(facet[..i], cs.values[c])| as real)
  }

  /** One contract's count after one more facet selector. */
  lemma CountStepAt(counts: map<ContractName, real>, counts': map<ContractName, real>, facet: seq<Selector>, i: nat, cs: Catalog, c: ContractName)
    requires i < |facet| && CountedUpTo(counts, facet, i, cs)
    requires c in counts' <==> c in counts || (c in cs.values && facet[i] in cs.values[c].values)
    requires c in counts' ==>
               counts'[c] == Get(counts, c, 0.0) + (if c in cs.values && facet[i] in cs.values[c].values then 1.0 else 0.0)
    ensures c in counts' <==> c in cs.values && Hits(facet[..i + 1], cs.values[c]) != []
    ensures c in counts' ==> counts'[c] == |Hits(facet[..i + 1], cs.values[c])| as real
  {
    if c in cs.values {
      FilterSnoc(facet, i, cs.values[c].values.Keys);
    }
  }

  lemma CountStep(counts: map<ContractName, real>, counts': map<ContractName, real>, facet: seq<Selector>, i: nat, cs: Catalog)
    requires i < |facet| && CountedUpTo(counts, facet, i, cs)
    requires forall c :: c in counts' <==> c in counts || (c in cs.values && facet[i] in cs.values[c].values)
    requires forall c :: c in counts' ==>
               counts'[c] == Get(counts, c, 0.0) + (if c in cs.values && facet[i] in cs.values[c].values then 1.0 else 0.0)
    ensures CountedUpTo(counts', facet, i + 1, cs)
  {
    forall c
      ensures (c in counts' <==> c in cs.values && Hits(facet[..i + 1], cs.values[c]) != []) &&
              (c in counts' ==> counts'[c] == |Hits(facet[..i + 1], cs.values[c])| as real)
    {
      CountStepAt(counts, counts', facet, i, cs, c);
    }
  }

  lemma CountStart(facet: seq<Selector>, cs: Catalog)
    ensures CountedUpTo(map[], facet, 0, cs)
  {
    assert facet[..0] == [];
  }

  /** One selector of the facet read: the index lists exactly the contracts
      whose counts go up by one. */
  lemma CountSelectorStep(counts: map<ContractName, real>, counts': map<ContractName, real>,
                          facet: seq<Selector>, i: nat, cs: Catalog, index: map<Selector, seq<ContractName>>)
    requires i < |facet| && CountedUpTo(counts, facet, i, cs)
    requires index == SelectorIndex(cs)
    requires facet[i] !in index ==> counts' == counts
    requires facet[i] in index ==>
               (forall c :: c in counts' <==> c in counts || c in index[facet[i]]) &&
               (forall c :: c in counts' ==> counts'[c] == Get(counts, c, 0.0) + (if c in index[facet[i]] then 1.0 else 0.0))
    ensures CountedUpTo(counts', facet, i + 1, cs)
  {
    SelectorIndexSpec(cs, facet[i]);
    CountStep(counts, counts', facet, i, cs);
  }

  /** Dividing the final counts by the facet size gives the recalls. */
  lemma RecallsFromCounts(counts: map<ContractName, real>, recalls: map<ContractName, real>, facet: seq<Selector>, cs: Catalog)
    requires facet != [] && CountedUpTo(counts, facet, |facet|, cs)
    requires recalls.Keys == counts.Keys
    requires forall c :: c in counts ==> recalls[c] == counts[c] / |facet| as real
    ensures recalls == RecallScores(facet, cs)
  {
    assert facet[..|facet|] == facet;
  }

  /** facet_recalls[address] for one facet: counts, for each contract, the
      facet's selector entries it declares, then divides by the facet size. */
  method FacetRecalls(facet: seq<Selector>, cs: Catalog, index: map<Selector, seq<ContractName>>)
    returns (recalls: Dict<ContractName, real>)
    requires facet != []
    requires index == SelectorIndex(cs)
    ensures recalls.values == RecallScores(facet, cs)
  {
    recalls := Empty();
    CountStart(facet, cs);
    for i := 0 to |facet|
      invariant CountedUpTo(recalls.values, facet, i, cs)
    {
      var selector := facet[i];
      var before := recalls;
      if selector in index {
        SelectorIndexSpec(cs, selector);
        recalls := CountSelector(recalls, index[selector]);
      }
      CountSelectorStep(before.values, recalls.values, facet, i, cs, index);
    }
    var counts := recalls;
    recalls := DivideAll(recalls, |facet|);
    RecallsFromCounts(counts.values, recalls.values, facet, cs);
  }

  /** Divides every value of the dictionary in place, keeping its keys. */
  method DivideAll<K>(d: Dict<K, real>, n: nat) returns (d': Dict<K, real>)
    requires 0 < n
    ensures d'.keys == d.keys
    ensures d'.values.Keys == d.values.Keys
    ensures forall k :: k in d.values ==> d'.values[k] == d.values[k] / n as real
  {
    d' := d;
    for i := 0 to |d.keys|
      invariant d'.keys == d.keys
      invariant d'.values.Keys == d.values.Keys
      invariant forall p :: 0 <= p < i ==> d'.values[d.keys[p]] == d.values[d.keys[p]] / n as real
      invariant forall p :: i <= p < |d.keys| ==> d'.values[d.keys[p]] == d.values[d.keys[p]]
    {
      var k := d.keys[i];
      d' := d'.Put(k, d'.values[k] / n as real);
    }
  }

  /** The counts once the first `j` contracts listed for a selector have
      been counted. */
  ghost predicate AddedUpTo(counts': map<ContractName, real>, counts: map<ContractName, real>, contracts: seq<ContractName>, j: nat)
    requires j <= |contracts|
  {
    (forall c :: c in counts' <==> c in counts || c in contracts[..j]) &&
    (forall c :: c in counts' ==> counts'[c] == Get(counts, c, 0.0) + (if c in contracts[..j] then 1.0 else 0.0))
  }

  lemma AddStep(counts': map<ContractName, real>, counts: map<ContractName, real>, contracts: seq<ContractName>, j: nat)
    requires j < |contracts| && Distinct(contracts) && AddedUpTo(counts', counts, contracts, j)
    ensures AddedUpTo(counts'[contracts[j] := Get(counts', contracts[j], 0.0) + 1.0], counts, contracts, j + 1)
  {
    assert contracts[j] !in contracts[..j];
    assert contracts[..j + 1] == contracts[..j] + [contracts[j]];
  }

  /** The innermost loop of the recall count: adds 1 to the count of every
      contract declaring the current selector, starting missing counts at 0. */
  method CountSelector(recalls: Dict<ContractName, real>, contracts: seq<ContractName>)
    returns (recalls': Dict<ContractName, real>)
    requires Distinct(contracts)
    ensures forall c :: c in recalls'.values <==> c in recalls.values || c in contracts
    ensures forall c :: c in recalls'.values ==>
              recalls'.values[c] == Get(recalls.values, c, 0.0) + (if c in contracts then 1.0 else 0.0)
  {
    recalls' := recalls;
    for j := 0 to |contracts|
      invariant AddedUpTo(recalls'.values, recalls.values, contracts, j)
    {
      var contractName := contracts[j];
      AddStep(recalls'.values, recalls.values, contracts, j);
      if contractName !in recalls'.values {
        recalls' := recalls'.Put(contractName, 0.0);
      }
      recalls' := recalls'.Put(contractName, recalls'.values[contractName] + 1.0);
    }
    assert contracts[..|contracts|] == contracts;
  }

  /** The precisions once the first `i` contracts of the catalog are scored. */
  ghost predicate ScoredUpTo(precisions: Dict<ContractName, real>, facet: seq<Selector>, i: nat, cs: Catalog)
    requires i <= |cs.keys|
  {
    precisions.keys == cs.keys[..i] &&
    forall c :: c in precisions.values ==> c in cs.values && precisions.values[c] == Precision(facet, cs.values[c])
  }

  lemma ScoredStep(precisions: Dict<ContractName, real>, precisions': Dict<ContractName, real>, facet: seq<Selector>, i: nat, cs: Catalog)
    requires i < |cs.keys| && ScoredUpTo(precisions, facet, i, cs)
    requires precisions'.keys == precisions.keys + [cs.keys[i]]
    requires precisions'.values == precisions.values[cs.keys[i] := Precision(facet, cs.values[cs.keys[i]])]
    ensures ScoredUpTo(precisions', facet, i + 1, cs)
  {
    assert cs.keys[..i + 1] == cs.keys[..i] + [cs.keys[i]];
  }

  lemma ScoredFresh(precisions: Dict<ContractName, real>, facet: seq<Selector>, i: nat, cs: Catalog)
    requires i < |cs.keys| && ScoredUpTo(precisions, facet, i, cs)
    ensures cs.keys[i] !in precisions.values
  {
    assert cs.keys[i] !in cs.keys[..i];
  }

  lemma ScoredDone(precisions: Dict<ContractName, real>, facet: seq<Selector>, cs: Catalog)
    requires ScoredUpTo(precisions, facet, |cs.keys|, cs)
    ensures precisions == PrecisionScores(facet, cs)
  {
    assert cs.keys[..|cs.keys|] == cs.keys;
    assert precisions.values == PrecisionScores(facet, cs).values;
  }

  /** facet_precisions[address] for one facet, contract by contract in
      catalog order. */
  method FacetPrecisions(facet: seq<Selector>, cs: Catalog) returns (precisions: Dict<ContractName, real>)
    ensures precisions == PrecisionScores(facet, cs)
  {
    precisions := Empty();
    for i := 0 to |cs.keys|
      invariant ScoredUpTo(precisions, facet, i, cs)
    {
      var contractName := cs.keys[i];
      ScoredFresh(precisions, facet, i, cs);
      var precisions' := ScoreContract(precisions, contractName, cs.values[contractName], facet);
      ScoredStep(precisions, precisions', facet, i, cs);
      precisions := precisions';
    }
    ScoredDone(precisions, facet, cs);
  }

  /** The precision table while one contract's mounted selectors are being
      counted: its first `j` selectors have been looked up on the facet. */
  ghost predicate MountedUpTo(precisions': Dict<ContractName, real>, precisions: Dict<ContractName, real>,
                              contractName: ContractName, selectors: Dict<Selector, FunctionName>, facet: seq<Selector>, j: nat)
    requires j <= |selectors.keys|
  {
    precisions'.keys == precisions.keys + [contractName] &&
    precisions'.values == precisions.values[contractName := |Filter(selectors.keys[..j], Elems(facet))| as real]
  }

  lemma MountedStart(precisions: Dict<ContractName, real>, contractName: ContractName,
                     selectors: Dict<Selector, FunctionName>, facet: seq<Selector>)
    requires contractName !in precisions.values
    ensures MountedUpTo(precisions.Put(contractName, 0.0), precisions, contractName, selectors, facet, 0)
  {
    assert selectors.keys[..0] == [];
  }

  lemma MountedStep(precisions': Dict<ContractName, real>, precisions: Dict<ContractName, real>,
                    contractName: ContractName, selectors: Dict<Selector, FunctionName>, facet: seq<Selector>, j: nat)
    requires j < |selectors.keys| && MountedUpTo(precisions', precisions, contractName, selectors, facet, j)
    ensures selectors.keys[j] in facet ==>
              MountedUpTo(precisions'.Put(contractName, precisions'.values[contractName] + 1.0), precisions, contractName, selectors, facet, j + 1)
    ensures selectors.keys[j] !in facet ==> MountedUpTo(precisions', precisions, contractName, selectors, facet, j + 1)
  {
    FilterSnoc(selectors.keys, j, Elems(facet));
  }

  lemma MountedDone(precisions': Dict<ContractName, real>, precisions: Dict<ContractName, real>,
                    contractName: ContractName, selectors: Dict<Selector, FunctionName>, facet: seq<Selector>)
    requires selectors.keys != [] && MountedUpTo(precisions', precisions, contractName, selectors, facet, |selectors.keys|)
    ensures precisions'.Put(contractName, precisions'.values[contractName] / |selectors.keys| as real).values ==
              precisions.values[contractName := Precision(facet, selectors)]
  {
    assert selectors.keys[..|selectors.keys|] == selectors.keys;
  }

  /** The body of the precision loop for one contract: a contract without
      selectors scores 0; otherwise its selectors mounted on the facet are
      counted and the count divided by its number of selectors. */
  method ScoreContract(precisions: Dict<ContractName, real>, contractName: ContractName,
                       selectors: Dict<Selector, FunctionName>, facet: seq<Selector>)
    returns (precisions': Dict<ContractName, real>)
    requires contractName !in precisions.values
    ensures precisions'.keys == precisions.keys + [contractName]
    ensures precisions'.values == precisions.values[contractName := Precision(facet, selectors)]
  {
    if |selectors.keys| == 0 {
      precisions' := precisions.Put(contractName, 0.0);
      return;
    }
    precisions' := precisions.Put(contractName, 0.0);
    MountedStart(precisions, contractName, selectors, facet);
    for j := 0 to |selectors.keys|
      invariant MountedUpTo(precisions', precisions, contractName, selectors, facet, j)
    {
      MountedStep(precisions', precisions, contractName, selectors, facet, j);
      if selectors.keys[j] in facet {
        precisions' := precisions'.Put(contractName, precisions'.values[contractName] + 1.0);
      }
    }
    MountedDone(precisions', precisions, contractName, selectors, facet);
    precisions' := precisions'.Put(contractName, precisions'.values[contractName] / |selectors.keys| as real);
  }

  /** The scores of the facets among the first `i` addresses. */
  ghost predicate TableUpTo(table: map<Address, Scores>, facets: Dict<Address, seq<Selector>>, i: nat, cs: Catalog)
    requires i <= |facets.keys|
  {
    (forall a :: a in table <==> a in facets.keys[..i] && facets.values[a] != []) &&
    (forall a :: a in table ==> table[a] == FacetScores(facets.values[a], cs))
  }

  lemma TableStep(table: map<Address, Scores>, facets: Dict<Address, seq<Selector>>, i: nat, cs: Catalog)
    requires i < |facets.keys| && TableUpTo(table, facets, i, cs)
    requires facets.values[facets.keys[i]] != []
    ensures TableUpTo(table[facets.keys[i] := FacetScores(facets.values[facets.keys[i]], cs)], facets, i + 1, cs)
  {
    assert facets.keys[..i + 1] == facets.keys[..i] + [facets.keys[i]];
  }

  lemma TableDone(table: map<Address, Scores>, facets: Dict<Address, seq<Selector>>, cs: Catalog)
    requires TableUpTo(table, facets, |facets.keys|, cs)
    ensures table == ScoreTable(facets, cs)
  {
    assert facets.keys[..|facets.keys|] == facets.keys;
  }

  lemma TableSkip(table: map<Address, Scores>, facets: Dict<Address, seq<Selector>>, i: nat, cs: Catalog)
    requires i < |facets.keys| && TableUpTo(table, facets, i, cs)
    requires facets.values[facets.keys[i]] == []
    ensures TableUpTo(table, facets, i + 1, cs)
  {
    assert facets.keys[..i + 1] == facets.keys[..i] + [facets.keys[i]];
  }

  /** The scoring loop over all facets: a facet without selectors is skipped
      and gets no scores. */
  method ScoreFacets(facets: Dict<Address, seq<Selector>>, cs: Catalog, index: map<Selector, seq<ContractName>>)
    returns (table: map<Address, Scores>)
    requires index == SelectorIndex(cs)
    ensures table == ScoreTable(facets, cs)
  {
    table := map[];
    for i := 0 to |facets.keys|
      invariant TableUpTo(table, facets, i, cs)
    {
      var address := facets.keys[i];
      var selectors := facets.values[address];
      if |selectors| == 0 {
        TableSkip(table, facets, i, cs);
        continue;
      }
      var recalls := FacetRecalls(selectors, cs, index);
      var maxRecall := Max([0.0] + Values(recalls));
      MaxRecallOfScores(selectors, cs, recalls);
      var precisions := FacetPrecisions(selectors, cs);
      var scores := Scores(recalls.values, precisions, maxRecall);
      assert scores == FacetScores(selectors, cs);
      TableStep(table, facets, i, cs);
      table := table[address := scores];
    }
    TableDone(table, facets, cs);
  }
}
