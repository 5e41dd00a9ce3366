/** The report phase of `inspect_diamond` and the function as a whole: for
    every facet address, the catalog contracts it most likely implements, the
    functions of those contracts it does not mount, and the selectors it
    mounts from them. */
module Inspector {
  import opened Wrappers
  import opened Collections
  import opened Catalog
  import opened Scoring

  /** One row of `misses` or `selectors`: a selector of a matched contract
      with the contract's function name for it. */
  datatype Entry = Entry(contract: ContractName, selector: Selector, functionName: FunctionName)

  datatype AddressReport = AddressReport(matches: seq<ContractName>, misses: seq<Entry>, selectors: seq<Entry>)

  /** The two exceptions the source lets escape: a `KeyError` for a facet that
      was never scored, and the `ValueError` of `max` over no candidates. */
  datatype InspectError = Unscored(address: Address) | NoCandidates(address: Address)

  // ---------------------------------------------------------------------
  // The report for one facet address

  /** max_recall_contracts: the catalog contracts whose recall (0 when the
      recall table has no entry) equals the facet's maximum, in catalog order. */
  function Candidates(cs: Catalog, sc: Scores): seq<ContractName> {
    Filter(cs.keys, set c | c in cs.values && Get(sc.recall, c, 0.0) == sc.maxRecall)
  }

  /** The precisions the source passes to `max`: those of the precision
      table's contracts that are candidates, in the table's order. */
  function Pool(precision: Dict<ContractName, real>, candidates: seq<ContractName>): seq<real> {
    var ks := Filter(precision.keys, set c | c in candidates);
    FilterMembers(precision.keys, set c | c in candidates);
    seq(|ks|, i requires 0 <= i < |ks| => precision.values[ks[i]])
  }

  /** The contracts of the precision table whose precision is `m`. */
  function WithPrecision(precision: Dict<ContractName, real>, m: real): set<ContractName> {
    set c | c in precision.values && precision.values[c] == m
  }

  /** One entry per selector of `ss`, named by the contract's selector map. */
  function Tag(contract: ContractName, ss: seq<Selector>, entry: Dict<Selector, FunctionName>): (es: seq<Entry>)
    requires forall s :: s in ss ==> s in entry.values
    ensures |es| == |ss|
    ensures forall i :: 0 <= i < |ss| ==> es[i] == Entry(contract, ss[i], entry.values[ss[i]])
  {
    seq(|ss|, i requires 0 <= i < |ss| => Entry(contract, ss[i], entry.values[ss[i]]))
  }

  /** The selectors of a contract that the facet does not mount. */
  function Missing(facet: seq<Selector>, entry: Dict<Selector, FunctionName>): set<Selector> {
    set s | s in entry.values && s !in facet
  }

  /** The misses of one matched contract, in the contract's order. */
  function ContractMisses(contract: ContractName, entry: Dict<Selector, FunctionName>, facet: seq<Selector>): seq<Entry> {
    FilterMembers(entry.keys, Missing(facet, entry));
    Tag(contract, Filter(entry.keys, Missing(facet, entry)), entry)
  }

  /** The present selectors of one matched contract, in the facet's order. */
  function ContractSelectors(contract: ContractName, entry: Dict<Selector, FunctionName>, facet: seq<Selector>): seq<Entry> {
    FilterMembers(facet, entry.values.Keys);
    Tag(contract, Hits(facet, entry), entry)
  }

  /** `misses`: the misses of each matched contract, contract after contract. */
  function MissesOf(matches: seq<ContractName>, cs: Catalog, facet: seq<Selector>): seq<Entry>
    requires forall c :: c in matches ==> c in cs.values
  {
    if matches == [] then []
    else
      var c := matches[|matches| - 1];
      MissesOf(matches[..|matches| - 1], cs, facet) + ContractMisses(c, cs.values[c], facet)
  }

  /** `selectors`: the present selectors of each matched contract, contract
      after contract. */
  function SelectorsOf(matches: seq<ContractName>, cs: Catalog, facet: seq<Selector>): seq<Entry>
    requires forall c :: c in matches ==> c in cs.values
  {
    if matches == [] then []
    else
      var c := matches[|matches| - 1];
      SelectorsOf(matches[..|matches| - 1], cs, facet) + ContractSelectors(c, cs.values[c], facet)
  }

  /** address_result for a scored facet: `max` over an empty pool raises. */
  function Report(address: Address, facet: seq<Selector>, cs: Catalog, sc: Scores): Result<AddressReport, InspectError> {
    var candidates := Candidates(cs, sc);
    var pool := Pool(sc.precision, candidates);
    if pool == [] then Err(NoCandidates(address))
    else
      var maxPrecision := Max(pool);
      var matches := Filter(candidates, WithPrecision(sc.precision, maxPrecision));
      FilterMembers(cs.keys, set c | c in cs.values && Get(sc.recall, c, 0.0) == sc.maxRecall);
      FilterMembers(candidates, WithPrecision(sc.precision, maxPrecision));
      Ok(AddressReport(matches, MissesOf(matches, cs, facet), SelectorsOf(matches, cs, facet)))
  }

  /** The report for one address; looking up a facet that was never scored
      raises `KeyError`. */
  function AddressResult(address: Address, facet: seq<Selector>, cs: Catalog, table: map<Address, Scores>)
    : Result<AddressReport, InspectError>
  {
    if address !in table then Err(Unscored(address))
    else Report(address, facet, cs, table[address])
  }

  /** How the report of one facet address is made. */
  type Reporter = (Address, seq<Selector>) -> Result<AddressReport, InspectError>

  function ReporterOf(cs: Catalog, table: map<Address, Scores>): Reporter {
    (address: Address, facet: seq<Selector>) => AddressResult(address, facet, cs, table)
  }

  /** The result dictionary after the first `n` facet addresses; the first
      exception ends the loop. */
  function Reports(facets: Dict<Address, seq<Selector>>, report: Reporter, n: nat)
    : Result<Dict<Address, AddressReport>, InspectError>
    requires n <= |facets.keys|
  {
    if n == 0 then Ok(Empty())
    else
      match Reports(facets, report, n - 1)
      case Err(e) => Err(e)
      case Ok(result) =>
        var a := facets.keys[n - 1];
        match report(a, facets.values[a])
        case Err(e) => Err(e)
        case Ok(r) => Ok(result.Put(a, r))
  }

  /** The report loop over all facet addresses against a catalog. */
  function Assembled(facets: Dict<Address, seq<Selector>>, cs: Catalog): Result<Dict<Address, AddressReport>, InspectError> {
    Reports(facets, ReporterOf(cs, ScoreTable(facets, cs)), |facets.keys|)
  }

  /** `inspect_diamond(facets, abis)` with `encode` as the selector encoder. */
  function Inspect(facets: Dict<Address, seq<Selector>>, abis: Dict<ContractName, seq<AbiItem>>, encode: Encoder)
    : Result<Dict<Address, AddressReport>, InspectError>
  {
    Assembled(facets, CatalogOf(abis, encode))
  }

  // ---------------------------------------------------------------------
  // What a match is, independently of how it is computed

  /** No contract of the catalog has a larger recall than `c`. */
  ghost predicate TopRecall(facet: seq<Selector>, cs: Catalog, c: ContractName)
    requires facet != []
  {
    c in cs.values &&
    forall d :: d in cs.values ==> Recall(facet, cs.values[d]) <= Recall(facet, cs.values[c])
  }

  /** `c` has top recall, and no contract with top recall has a larger
      precision. */
  ghost predicate BestMatch(facet: seq<Selector>, cs: Catalog, c: ContractName)
    requires facet != []
  {
    TopRecall(facet, cs, c) &&
    forall d :: TopRecall(facet, cs, d) ==> Precision(facet, cs.values[d]) <= Precision(facet, cs.values[c])
  }

  // ---------------------------------------------------------------------
  // Properties of the report

  /** A contract missing from the recall table has recall 0. */
  lemma RecallOrZero(facet: seq<Selector>, cs: Catalog, c: ContractName)
    requires facet != [] && c in cs.values
    ensures Get(RecallScores(facet, cs), c, 0.0) == Recall(facet, cs.values[c])
  {
    if Hits(facet, cs.values[c]) == [] {
      assert c !in RecallScores(facet, cs);
    } else {
      assert RecallScores(facet, cs)[c] == Recall(facet, cs.values[c]);
    }
  }

  /** A contract is a candidate exactly when it has top recall. */
  lemma CandidateMember(facet: seq<Selector>, cs: Catalog, c: ContractName)
    requires facet != [] && cs.keys != [] && c in cs.values
    ensures Get(RecallScores(facet, cs), c, 0.0) == MaxRecall(facet, cs) <==> TopRecall(facet, cs, c)
  {
    RecallOrZero(facet, cs, c);
    MaxRecallSpec(facet, cs);
    if TopRecall(facet, cs, c) {
      var d :| d in cs.values && Recall(facet, cs.values[d]) == MaxRecall(facet, cs);
      assert Recall(facet, cs.values[d]) <= Recall(facet, cs.values[c]);
    }
  }

  /** The candidates are exactly the contracts with top recall, in catalog
      order. */
  lemma CandidatesSpec(facet: seq<Selector>, cs: Catalog)
    requires facet != [] && cs.keys != []
    ensures Candidates(cs, FacetScores(facet, cs)) == Filter(cs.keys, set c | c in cs.values && TopRecall(facet, cs, c))
  {
    var sc := FacetScores(facet, cs);
    var keep := set c | c in cs.values && Get(sc.recall, c, 0.0) == sc.maxRecall;
    var top := set c | c in cs.values && TopRecall(facet, cs, c);
    forall c | c in cs.keys ensures c in keep <==> c in top {
      CandidateMember(facet, cs, c);
    }
    FilterSameOn(cs.keys, keep, top);
  }

  /** The pool holds exactly the precisions of the candidates. */
  lemma PoolSpec(facet: seq<Selector>, cs: Catalog, candidates: seq<ContractName>, x: real)
    requires forall c :: c in candidates ==> c in cs.values
    ensures x in Pool(PrecisionScores(facet, cs), candidates) <==>
              exists c :: c in candidates && Precision(facet, cs.values[c]) == x
  {
    var p := PrecisionScores(facet, cs);
    var cands := set c | c in candidates;
    var ks := Filter(p.keys, cands);
    FilterMembers(p.keys, cands);
    if x in Pool(p, candidates) {
      var i :| 0 <= i < |ks| && Pool(p, candidates)[i] == x;
      assert ks[i] in ks;
      assert ks[i] in candidates;
    }
    if c :| c in candidates && Precision(facet, cs.values[c]) == x {
      assert c in ks;
      var i :| 0 <= i < |ks| && ks[i] == c;
      assert Pool(p, candidates)[i] == x;
    }
  }

  /** The largest precision in the pool is the largest precision among the
      contracts with top recall, and one of them reaches it. */
  lemma MaxPrecisionSpec(facet: seq<Selector>, cs: Catalog)
    requires facet != [] && cs.keys != []
    ensures Pool(PrecisionScores(facet, cs), Candidates(cs, FacetScores(facet, cs))) != []
    ensures forall c :: TopRecall(facet, cs, c) ==>
              Precision(facet, cs.values[c]) <= Max(Pool(PrecisionScores(facet, cs), Candidates(cs, FacetScores(facet, cs))))
    ensures exists c :: TopRecall(facet, cs, c) &&
              Precision(facet, cs.values[c]) == Max(Pool(PrecisionScores(facet, cs), Candidates(cs, FacetScores(facet, cs))))
  {
    var candidates := Candidates(cs, FacetScores(facet, cs));
    var pool := Pool(PrecisionScores(facet, cs), candidates);
    CandidatesSpec(facet, cs);
    FilterMembers(cs.keys, set c | c in cs.values && TopRecall(facet, cs, c));
    MaxRecallSpec(facet, cs);
    var d :| d in cs.values && Recall(facet, cs.values[d]) == MaxRecall(facet, cs);
    assert TopRecall(facet, cs, d);
    PoolSpec(facet, cs, candidates, Precision(facet, cs.values[d]));
    var m := Max(pool);
    forall c | TopRecall(facet, cs, c) ensures Precision(facet, cs.values[c]) <= m {
      PoolSpec(facet, cs, candidates, Precision(facet, cs.values[c]));
    }
    PoolSpec(facet, cs, candidates, m);
  }

  /** With `m` the largest precision among the contracts with top recall,
      the best matches are the contracts with top recall and precision `m`. */
  lemma BestMember(facet: seq<Selector>, cs: Catalog, c: ContractName, m: real)
    requires facet != [] && c in cs.values
    requires forall d :: TopRecall(facet, cs, d) ==> Precision(facet, cs.values[d]) <= m
    requires exists d :: TopRecall(facet, cs, d) && Precision(facet, cs.values[d]) == m
    ensures TopRecall(facet, cs, c) && Precision(facet, cs.values[c]) == m <==> BestMatch(facet, cs, c)
  {
    if BestMatch(facet, cs, c) {
      var d :| TopRecall(facet, cs, d) && Precision(facet, cs.values[d]) == m;
      assert Precision(facet, cs.values[d]) <= Precision(facet, cs.values[c]);
    }
  }

  /** Two filters in a row keep what one filter by the combined test keeps. */
  lemma FilterTwice(xs: seq<ContractName>, a: set<ContractName>, b: set<ContractName>, both: set<ContractName>)
    requires forall x :: x in xs ==> (x in a * b <==> x in both)
    ensures Filter(Filter(xs, a), b) == Filter(xs, both)
  {
    FilterFilter(xs, a, b);
    FilterSameOn(xs, a * b, both);
  }

  /** The candidates with the largest precision among them are the best
      matches, in catalog order. */
  lemma MatchList(facet: seq<Selector>, cs: Catalog)
    requires facet != [] && cs.keys != []
    ensures Pool(PrecisionScores(facet, cs), Candidates(cs, FacetScores(facet, cs))) != []
    ensures Filter(Candidates(cs, FacetScores(facet, cs)),
                   WithPrecision(PrecisionScores(facet, cs), Max(Pool(PrecisionScores(facet, cs), Candidates(cs, FacetScores(facet, cs)))))) ==
              Filter(cs.keys, set c | c in cs.values && BestMatch(facet, cs, c))
  {
    MaxPrecisionSpec(facet, cs);
    CandidatesSpec(facet, cs);
    var maxPrecision := Max(Pool(PrecisionScores(facet, cs), Candidates(cs, FacetScores(facet, cs))));
    BestSets(facet, cs, maxPrecision);
    FilterTwice(cs.keys, (set c | c in cs.values && TopRecall(facet, cs, c)), WithPrecision(PrecisionScores(facet, cs), maxPrecision),
                (set c | c in cs.values && BestMatch(facet, cs, c)));
  }

  lemma BestSets(facet: seq<Selector>, cs: Catalog, m: real)
    requires facet != []
    requires forall d :: TopRecall(facet, cs, d) ==> Precision(facet, cs.values[d]) <= m
    requires exists d :: TopRecall(facet, cs, d) && Precision(facet, cs.values[d]) == m
    ensures forall c :: c in cs.keys ==>
              (c in (set c | c in cs.values && TopRecall(facet, cs, c)) * WithPrecision(PrecisionScores(facet, cs), m) <==>
               c in (set c | c in cs.values && BestMatch(facet, cs, c)))
  {
    forall c | c in cs.keys
      ensures c in (set c | c in cs.values && TopRecall(facet, cs, c)) * WithPrecision(PrecisionScores(facet, cs), m) <==>
              c in (set c | c in cs.values && BestMatch(facet, cs, c))
    {
      BestMember(facet, cs, c, m);
    }
  }

  /** There is a best match whenever the facet and the catalog are not empty. */
  lemma BestMatchExists(facet: seq<Selector>, cs: Catalog)
    requires facet != [] && cs.keys != []
    ensures Filter(cs.keys, set c | c in cs.values && BestMatch(facet, cs, c)) != []
  {
    MaxPrecisionSpec(facet, cs);
    var m := Max(Pool(PrecisionScores(facet, cs), Candidates(cs, FacetScores(facet, cs))));
    var w :| TopRecall(facet, cs, w) && Precision(facet, cs.values[w]) == m;
    BestMember(facet, cs, w, m);
    FilterMember(cs.keys, (set c | c in cs.values && BestMatch(facet, cs, c)), w);
  }

  /** On a non-empty facet and catalog, the report exists and its matches are
      exactly the best matches, in catalog order; there is at least one. */
  lemma MatchesSpec(address: Address, facet: seq<Selector>, cs: Catalog)
    requires facet != [] && cs.keys != []
    ensures Report(address, facet, cs, FacetScores(facet, cs)).Ok?
    ensures Report(address, facet, cs, FacetScores(facet, cs)).value.matches ==
              Filter(cs.keys, set c | c in cs.values && BestMatch(facet, cs, c))
    ensures Report(address, facet, cs, FacetScores(facet, cs)).value.matches != []
  {
    MatchList(facet, cs);
    BestMatchExists(facet, cs);
  }

  /** The matches are listed in catalog order, each once. */
  lemma MatchesOrdered(address: Address, facet: seq<Selector>, cs: Catalog)
    requires facet != [] && cs.keys != []
    ensures Report(address, facet, cs, FacetScores(facet, cs)).Ok?
    ensures Distinct(Report(address, facet, cs, FacetScores(facet, cs)).value.matches)
    ensures InOrderOf(Report(address, facet, cs, FacetScores(facet, cs)).value.matches, cs.keys)
  {
    MatchesSpec(address, facet, cs);
    var bestMatch := set c | c in cs.values && BestMatch(facet, cs, c);
    FilterDistinct(cs.keys, bestMatch);
    FilterInOrder(cs.keys, bestMatch);
  }

  /** A contract that declares none of the facet's selectors has recall 0
      and precision 0. */
  lemma ZeroScores(facet: seq<Selector>, entry: Dict<Selector, FunctionName>)
    requires facet != []
    requires forall s :: s in facet ==> s !in entry.values
    ensures Recall(facet, entry) == 0.0 && Precision(facet, entry) == 0.0
  {
    FilterNone(facet, entry.values.Keys);
    FilterNone(entry.keys, Elems(facet));
  }

  /** When no contract declares any of the facet's selectors, every contract
      is a best match. */
  lemma NoOverlapBest(facet: seq<Selector>, cs: Catalog, c: ContractName)
    requires facet != [] && c in cs.values
    requires forall d, s :: d in cs.values && s in facet ==> s !in cs.values[d].values
    ensures BestMatch(facet, cs, c)
  {
    forall d | d in cs.values ensures Recall(facet, cs.values[d]) == 0.0 && Precision(facet, cs.values[d]) == 0.0 {
      ZeroScores(facet, cs.values[d]);
    }
  }

  /** When no contract declares any of the facet's selectors, every recall
      and every precision is 0, so every contract of the catalog matches. */
  lemma NoOverlapMatchesAll(address: Address, facet: seq<Selector>, cs: Catalog)
    requires facet != [] && cs.keys != []
    requires forall c, s :: c in cs.values && s in facet ==> s !in cs.values[c].values
    ensures Report(address, facet, cs, FacetScores(facet, cs)).Ok?
    ensures Report(address, facet, cs, FacetScores(facet, cs)).value.matches == cs.keys
  {
    MatchesSpec(address, facet, cs);
    var bestMatch := set c | c in cs.values && BestMatch(facet, cs, c);
    forall c | c in cs.keys ensures c in bestMatch {
      NoOverlapBest(facet, cs, c);
    }
    FilterAll(cs.keys, bestMatch);
  }

  lemma {:induction false} MissesOfMember(matches: seq<ContractName>, cs: Catalog, facet: seq<Selector>, e: Entry)
    requires forall c :: c in matches ==> c in cs.values
    ensures e in MissesOf(matches, cs, facet) <==>
              e.contract in matches && e in ContractMisses(e.contract, cs.values[e.contract], facet)
  {
    if matches != [] {
      var init := matches[..|matches| - 1];
      assert matches == init + [matches[|matches| - 1]];
      MissesOfMember(init, cs, facet, e);
      ContractMissesSpec(matches[|matches| - 1], cs.values[matches[|matches| - 1]], facet);
    }
  }

  lemma {:induction false} SelectorsOfMember(matches: seq<ContractName>, cs: Catalog, facet: seq<Selector>, e: Entry)
    requires forall c :: c in matches ==> c in cs.values
    ensures e in SelectorsOf(matches, cs, facet) <==>
              e.contract in matches && e in ContractSelectors(e.contract, cs.values[e.contract], facet)
  {
    if matches != [] {
      var init := matches[..|matches| - 1];
      assert matches == init + [matches[|matches| - 1]];
      SelectorsOfMember(init, cs, facet, e);
      ContractSelectorsMember(matches[|matches| - 1], cs.values[matches[|matches| - 1]], facet);
    }
  }

  /** The rows of a report: a miss is a function of a best-matching contract
      whose selector the facet lacks, and a selector row is one of a
      best-matching contract that the facet mounts, each with the contract's
      own function name. */
  lemma ReportRows(address: Address, facet: seq<Selector>, cs: Catalog, e: Entry)
    requires facet != [] && cs.keys != []
    ensures Report(address, facet, cs, FacetScores(facet, cs)).Ok?
    ensures e in Report(address, facet, cs, FacetScores(facet, cs)).value.misses <==>
              e.contract in cs.values && BestMatch(facet, cs, e.contract) &&
              e.selector in cs.values[e.contract].values && e.selector !in facet &&
              e.functionName == cs.values[e.contract].values[e.selector]
    ensures e in Report(address, facet, cs, FacetScores(facet, cs)).value.selectors <==>
              e.contract in cs.values && BestMatch(facet, cs, e.contract) &&
              e.selector in cs.values[e.contract].values && e.selector in facet &&
              e.functionName == cs.values[e.contract].values[e.selector]
  {
    MatchesSpec(address, facet, cs);
    var matches := Report(address, facet, cs, FacetScores(facet, cs)).value.matches;
    var best := set c | c in cs.values && BestMatch(facet, cs, c);
    FilterMember(cs.keys, best, e.contract);
    KeysValues(cs, e.contract);
    assert e.contract in matches <==> e.contract in cs.values && BestMatch(facet, cs, e.contract);
    FilterMembers(cs.keys, best);
    MissesOfMember(matches, cs, facet, e);
    SelectorsOfMember(matches, cs, facet, e);
    if e.contract in cs.values {
      ContractMissesSpec(e.contract, cs.values[e.contract], facet);
      ContractSelectorsMember(e.contract, cs.values[e.contract], facet);
    }
  }

  /** The selector column of a list of entries. */
  function SelectorsIn(es: seq<Entry>): (ss: seq<Selector>)
    ensures |ss| == |es|
    ensures forall i :: 0 <= i < |es| ==> ss[i] == es[i].selector
  {
    seq(|es|, i requires 0 <= i < |es| => es[i].selector)
  }

  /** The misses of a contract are its selectors absent from the facet, each
      once, in the contract's order, with the contract's function names. */
  lemma ContractMissesSpec(contract: ContractName, entry: Dict<Selector, FunctionName>, facet: seq<Selector>)
    ensures forall e :: e in ContractMisses(contract, entry, facet) <==>
              e.contract == contract && e.selector in entry.values && e.selector !in facet &&
              e.functionName == entry.values[e.selector]
    ensures |ContractMisses(contract, entry, facet)| == |Missing(facet, entry)|
    ensures Distinct(SelectorsIn(ContractMisses(contract, entry, facet)))
    ensures InOrderOf(SelectorsIn(ContractMisses(contract, entry, facet)), entry.keys)
  {
    var ms := Filter(entry.keys, Missing(facet, entry));
    var es := ContractMisses(contract, entry, facet);
    FilterMembers(entry.keys, Missing(facet, entry));
    forall e | e in es ensures e.contract == contract && e.selector in ms && e.functionName == entry.values[e.selector] {
      var i :| 0 <= i < |es| && es[i] == e;
    }
    forall e: Entry | e.contract == contract && e.selector in ms && e.functionName == entry.values[e.selector] ensures e in es {
      var i :| 0 <= i < |ms| && ms[i] == e.selector;
      assert es[i] == e;
    }
    MissingCard(facet, entry);
    assert SelectorsIn(es) == ms;
    FilterDistinct(entry.keys, Missing(facet, entry));
    FilterInOrder(entry.keys, Missing(facet, entry));
  }

  /** Each missing selector is listed once. */
  lemma MissingCard(facet: seq<Selector>, entry: Dict<Selector, FunctionName>)
    ensures |Filter(entry.keys, Missing(facet, entry))| == |Missing(facet, entry)|
  {
    FilterCard(entry.keys, Missing(facet, entry));
    forall s | s in Missing(facet, entry) ensures s in (set s | s in entry.keys) {
      KeysValues(entry, s);
    }
    assert (set s | s in entry.keys) * Missing(facet, entry) == Missing(facet, entry);
  }

  /** The present selectors of a contract are the facet's selector entries it
      declares, in the facet's order (one per entry), with the contract's
      function names. */
  lemma ContractSelectorsSpec(contract: ContractName, entry: Dict<Selector, FunctionName>, facet: seq<Selector>)
    ensures forall e :: e in ContractSelectors(contract, entry, facet) <==>
              e.contract == contract && e.selector in entry.values && e.selector in facet &&
              e.functionName == entry.values[e.selector]
    ensures |ContractSelectors(contract, entry, facet)| == |Hits(facet, entry)|
    ensures InOrderOf(SelectorsIn(ContractSelectors(contract, entry, facet)), facet)
    ensures |FilterPositions(facet, entry.values.Keys)| == |ContractSelectors(contract, entry, facet)|
    ensures forall p :: 0 <= p < |facet| ==> (p in FilterPositions(facet, entry.values.Keys) <==> facet[p] in entry.values)
    ensures forall k :: 0 <= k < |ContractSelectors(contract, entry, facet)| ==>
              ContractSelectors(contract, entry, facet)[k].selector == facet[FilterPositions(facet, entry.values.Keys)[k]]
  {
    ContractSelectorsMember(contract, entry, facet);
    assert SelectorsIn(ContractSelectors(contract, entry, facet)) == Hits(facet, entry);
    FilterInOrder(facet, entry.values.Keys);
    FilterPositionsComplete(facet, entry.values.Keys);
  }

  /** The rows of `ContractSelectors`, as a set. */
  lemma ContractSelectorsMember(contract: ContractName, entry: Dict<Selector, FunctionName>, facet: seq<Selector>)
    ensures forall e :: e in ContractSelectors(contract, entry, facet) <==>
              e.contract == contract && e.selector in entry.values && e.selector in facet &&
              e.functionName == entry.values[e.selector]
  {
    var hs := Hits(facet, entry);
    var es := ContractSelectors(contract, entry, facet);
    FilterMembers(facet, entry.values.Keys);
    forall e | e in es ensures e.contract == contract && e.selector in hs && e.functionName == entry.values[e.selector] {
      var i :| 0 <= i < |es| && es[i] == e;
    }
    forall e: Entry | e.contract == contract && e.selector in hs && e.functionName == entry.values[e.selector] ensures e in es {
      var i :| 0 <= i < |hs| && hs[i] == e.selector;
      assert es[i] == e;
    }
  }

  /** Every selector of a contract is a miss or a present selector, and none
      is both. */
  lemma MissesSelectorsCover(contract: ContractName, entry: Dict<Selector, FunctionName>, facet: seq<Selector>)
    ensures forall s :: s in entry.values <==> s in SelectorsIn(ContractMisses(contract, entry, facet)) + SelectorsIn(ContractSelectors(contract, entry, facet))
    ensures forall s :: s in SelectorsIn(ContractMisses(contract, entry, facet)) ==> s !in SelectorsIn(ContractSelectors(contract, entry, facet))
  {
    var ms, ps := ContractMisses(contract, entry, facet), ContractSelectors(contract, entry, facet);
    ContractMissesSpec(contract, entry, facet);
    ContractSelectorsMember(contract, entry, facet);
    forall s ensures s in SelectorsIn(ms) <==> s in entry.values && s !in facet {
      if s in SelectorsIn(ms) {
        var i :| 0 <= i < |ms| && SelectorsIn(ms)[i] == s;
        assert ms[i] in ms;
      }
      if s in entry.values && s !in facet {
        assert Entry(contract, s, entry.values[s]) in ms;
        var i :| 0 <= i < |ms| && ms[i] == Entry(contract, s, entry.values[s]);
        assert SelectorsIn(ms)[i] == s;
      }
    }
    forall s ensures s in SelectorsIn(ps) <==> s in entry.values && s in facet {
      if s in SelectorsIn(ps) {
        var i :| 0 <= i < |ps| && SelectorsIn(ps)[i] == s;
        assert ps[i] in ps;
      }
      if s in entry.values && s in facet {
        assert Entry(contract, s, entry.values[s]) in ps;
        var i :| 0 <= i < |ps| && ps[i] == Entry(contract, s, entry.values[s]);
        assert SelectorsIn(ps)[i] == s;
      }
    }
  }

  lemma SplitCard<T>(a: set<T>, b: set<T>)
    ensures |a - b| + |b * a| == |a|
  {
    assert a == (a - b) + (b * a);
    assert (a - b) * (b * a) == {};
  }

  /** On a facet without repeated selectors, the misses and the present
      selectors of a contract together have as many rows as it has
      selectors. */
  lemma MissesSelectorsCount(contract: ContractName, entry: Dict<Selector, FunctionName>, facet: seq<Selector>)
    requires Distinct(facet)
    ensures |ContractMisses(contract, entry, facet)| + |ContractSelectors(contract, entry, facet)| == |entry.keys|
  {
    ContractMissesSpec(contract, entry, facet);
    ContractSelectorsSpec(contract, entry, facet);
    FilterCard(facet, entry.values.Keys);
    DistinctCard(entry.keys);
    assert entry.values.Keys == (set s | s in entry.keys);
    assert Missing(facet, entry) == entry.values.Keys - Elems(facet);
    SplitCard(entry.values.Keys, Elems(facet));
  }

  /** The loop over the first `n` addresses succeeds exactly when every one
      of them gets a report. */
  lemma {:induction false} ReportsOk(facets: Dict<Address, seq<Selector>>, report: Reporter, n: nat)
    requires n <= |facets.keys|
    ensures Reports(facets, report, n).Ok? <==>
              forall k :: 0 <= k < n ==> report(facets.keys[k], facets.values[facets.keys[k]]).Ok?
  {
    if Reports(facets, report, n).Ok? {
      forall k | 0 <= k < n
        ensures report(facets.keys[k], facets.values[facets.keys[k]]).Ok?
      {
        ReportsOkAt(facets, report, n, k);
      }
    } else {
      ReportsFailAt(facets, report, n);
    }
  }

  /** Each address of a successful loop got a report. */
  lemma {:induction false} ReportsOkAt(facets: Dict<Address, seq<Selector>>, report: Reporter, n: nat, k: nat)
    requires k < n <= |facets.keys| && Reports(facets, report, n).Ok?
    ensures facets.keys[k] in facets.values
    ensures report(facets.keys[k], facets.values[facets.keys[k]]).Ok?
  {
    KeysValues(facets, facets.keys[k]);
    ReportsUnfold(facets, report, n);
    if k < n - 1 {
      ReportsOkAt(facets, report, n - 1, k);
    }
  }

  /** A failed loop has an address whose report failed. */
  lemma {:induction false} ReportsFailAt(facets: Dict<Address, seq<Selector>>, report: Reporter, n: nat)
    requires n <= |facets.keys| && Reports(facets, report, n).Err?
    ensures exists k :: 0 <= k < n && facets.keys[k] in facets.values &&
              report(facets.keys[k], facets.values[facets.keys[k]]).Err?
  {
    var a := facets.keys[n - 1];
    KeysValues(facets, a);
    if Reports(facets, report, n - 1).Err? {
      ReportsFailAt(facets, report, n - 1);
      var k :| 0 <= k < n - 1 && facets.keys[k] in facets.values &&
                report(facets.keys[k], facets.values[facets.keys[k]]).Err?;
      assert 0 <= k < n;
    } else {
      assert report(a, facets.values[a]).Err?;
    }
  }


  /** One step of a successful loop: the previous steps succeeded and the
      address's report was put last. */
  lemma ReportsUnfold(facets: Dict<Address, seq<Selector>>, report: Reporter, n: nat)
    requires 0 < n <= |facets.keys| && Reports(facets, report, n).Ok?
    ensures Reports(facets, report, n - 1).Ok?
    ensures facets.keys[n - 1] in facets.values
    ensures report(facets.keys[n - 1], facets.values[facets.keys[n - 1]]).Ok?
    ensures Reports(facets, report, n) ==
              Ok(Reports(facets, report, n - 1).value.Put(facets.keys[n - 1],
                                                          report(facets.keys[n - 1], facets.values[facets.keys[n - 1]]).value))
  {
    KeysValues(facets, facets.keys[n - 1]);
  }

  /** A successful loop holds one entry per address, in facet order. */
  lemma {:induction false} ReportsKeys(facets: Dict<Address, seq<Selector>>, report: Reporter, n: nat)
    requires n <= |facets.keys| && Reports(facets, report, n).Ok?
    ensures Reports(facets, report, n).value.keys == facets.keys[..n]
  {
    if n > 0 {
      var a := facets.keys[n - 1];
      ReportsUnfold(facets, report, n);
      var prev := Reports(facets, report, n - 1).value;
      ReportsKeys(facets, report, n - 1);
      KeyNotBefore(facets, n - 1);
      PutNew(prev, a, report(a, facets.values[a]).value);
      PrefixSnoc(facets.keys, prev.keys, n);
    } else {
      assert facets.keys[..0] == [];
    }
  }

  /** A successful loop over all addresses has exactly the facet addresses,
      in facet order. */
  lemma ReportsAllKeys(facets: Dict<Address, seq<Selector>>, report: Reporter)
    requires Reports(facets, report, |facets.keys|).Ok?
    ensures Reports(facets, report, |facets.keys|).value.keys == facets.keys
  {
    ReportsKeys(facets, report, |facets.keys|);
    assert facets.keys[..|facets.keys|] == facets.keys;
  }

  /** Each entry of a successful loop is the report of its address. */
  lemma {:induction false} ReportsValues(facets: Dict<Address, seq<Selector>>, report: Reporter, n: nat)
    requires n <= |facets.keys| && Reports(facets, report, n).Ok?
    ensures forall a :: a in Reports(facets, report, n).value.values ==>
              a in facets.values && report(a, facets.values[a]) == Ok(Reports(facets, report, n).value.values[a])
  {
    if n > 0 {
      ReportsUnfold(facets, report, n);
      ReportsValues(facets, report, n - 1);
    }
  }

  /** A successful loop holds, for each facet address, that address's report. */
  lemma ReportsEntry(facets: Dict<Address, seq<Selector>>, report: Reporter, a: Address)
    requires Reports(facets, report, |facets.keys|).Ok? && a in facets.values
    ensures a in Reports(facets, report, |facets.keys|).value.values
    ensures report(a, facets.values[a]) == Ok(Reports(facets, report, |facets.keys|).value.values[a])
  {
    ReportsAllKeys(facets, report);
    ReportsValues(facets, report, |facets.keys|);
    KeysValues(facets, a);
    KeysValues(Reports(facets, report, |facets.keys|).value, a);
  }

  /** A failed loop fails with the error of one of the addresses. */
  lemma {:induction false} ReportsErr(facets: Dict<Address, seq<Selector>>, report: Reporter, n: nat)
    requires n <= |facets.keys| && Reports(facets, report, n).Err?
    ensures exists k :: 0 <= k < n && report(facets.keys[k], facets.values[facets.keys[k]]) == Err(Reports(facets, report, n).error)
  {
    if Reports(facets, report, n - 1).Err? {
      ReportsErr(facets, report, n - 1);
      var k :| 0 <= k < n - 1 && report(facets.keys[k], facets.values[facets.keys[k]]) == Err(Reports(facets, report, n - 1).error);
      assert 0 <= k < n;
    } else {
      assert report(facets.keys[n - 1], facets.values[facets.keys[n - 1]]) == Err(Reports(facets, report, n).error);
    }
  }

  /** One more address: its report is added, or its error ends the loop. */
  lemma ReportsStep(facets: Dict<Address, seq<Selector>>, report: Reporter, i: nat, result: Dict<Address, AddressReport>)
    requires i < |facets.keys| && Reports(facets, report, i) == Ok(result)
    ensures facets.keys[i] in facets.values
    ensures report(facets.keys[i], facets.values[facets.keys[i]]).Ok? ==>
              Reports(facets, report, i + 1) == Ok(result.Put(facets.keys[i], report(facets.keys[i], facets.values[facets.keys[i]]).value))
    ensures report(facets.keys[i], facets.values[facets.keys[i]]).Err? ==>
              Reports(facets, report, |facets.keys|) == Err(report(facets.keys[i], facets.values[facets.keys[i]]).error)
  {
    KeysValues(facets, facets.keys[i]);
    if report(facets.keys[i], facets.values[facets.keys[i]]).Err? {
      ReportsErrStays(facets, report, i + 1, |facets.keys|);
    }
  }

  lemma ReportsErrStep(facets: Dict<Address, seq<Selector>>, report: Reporter, i: nat)
    requires i < |facets.keys| && Reports(facets, report, i).Err?
    ensures Reports(facets, report, i + 1) == Reports(facets, report, i)
  {
  }

  /** Once the loop has failed it stays failed with the same error. */
  lemma {:induction false} ReportsErrStays(facets: Dict<Address, seq<Selector>>, report: Reporter, i: nat, n: nat)
    requires i <= n <= |facets.keys|
    requires Reports(facets, report, i).Err?
    ensures Reports(facets, report, n) == Reports(facets, report, i)
  {
    if i < n {
      ReportsErrStays(facets, report, i, n - 1);
      ReportsErrStep(facets, report, n - 1);
    }
  }

  /** The report of one address of the scored facets: a facet without
      selectors raises `KeyError`, a scored facet against an empty catalog
      raises `ValueError`, and otherwise the report is made from the facet's
      scores. */
  lemma AddressResultSpec(a: Address, facets: Dict<Address, seq<Selector>>, cs: Catalog)
    requires a in facets.values
    ensures facets.values[a] == [] ==> AddressResult(a, facets.values[a], cs, ScoreTable(facets, cs)) == Err(Unscored(a))
    ensures facets.values[a] != [] && cs.keys == [] ==>
              AddressResult(a, facets.values[a], cs, ScoreTable(facets, cs)) == Err(NoCandidates(a))
    ensures facets.values[a] != [] && cs.keys != [] ==>
              AddressResult(a, facets.values[a], cs, ScoreTable(facets, cs)).Ok? &&
              AddressResult(a, facets.values[a], cs, ScoreTable(facets, cs)) ==
                Report(a, facets.values[a], cs, FacetScores(facets.values[a], cs))
  {
    var facet := facets.values[a];
    if facet != [] {
      if cs.keys == [] {
        var sc := FacetScores(facet, cs);
        assert Candidates(cs, sc) == [];
        assert Filter(sc.precision.keys, {}) == [];
        assert (set c | c in Candidates(cs, sc)) == {};
      } else {
        MatchesSpec(a, facet, cs);
      }
    }
  }

  /** The reporter `inspect_diamond` uses, on one of its facet addresses. */
  lemma ReporterSpec(a: Address, facets: Dict<Address, seq<Selector>>, cs: Catalog)
    requires a in facets.values
    ensures ReporterOf(cs, ScoreTable(facets, cs))(a, facets.values[a]).Ok? <==> facets.values[a] != [] && cs.keys != []
    ensures ReporterOf(cs, ScoreTable(facets, cs))(a, facets.values[a]).Ok? ==>
              ReporterOf(cs, ScoreTable(facets, cs))(a, facets.values[a]) == Report(a, facets.values[a], cs, FacetScores(facets.values[a], cs))
    ensures ReporterOf(cs, ScoreTable(facets, cs))(a, facets.values[a]).Err? ==>
              ReporterOf(cs, ScoreTable(facets, cs))(a, facets.values[a]).error.address == a &&
              (ReporterOf(cs, ScoreTable(facets, cs))(a, facets.values[a]).error.Unscored? <==> facets.values[a] == [])
  {
    AddressResultSpec(a, facets, cs);
    assert ReporterOf(cs, ScoreTable(facets, cs))(a, facets.values[a]) == AddressResult(a, facets.values[a], cs, ScoreTable(facets, cs));
  }

  /** The report loop against a catalog succeeds exactly when every facet
      has a selector and, if there is any facet, the catalog has a contract. */
  lemma AssembledOk(facets: Dict<Address, seq<Selector>>, cs: Catalog)
    ensures Assembled(facets, cs).Ok? <==>
              (forall a :: a in facets.values ==> facets.values[a] != []) &&
              (facets.keys != [] ==> cs.keys != [])
  {
    var report := ReporterOf(cs, ScoreTable(facets, cs));
    var n := |facets.keys|;
    ReportsOk(facets, report, n);
    forall k | 0 <= k < n
      ensures report(facets.keys[k], facets.values[facets.keys[k]]).Ok? <==> facets.values[facets.keys[k]] != [] && cs.keys != []
    {
      ReporterSpec(facets.keys[k], facets, cs);
    }
    if a :| a in facets.values && facets.values[a] == [] {
      var k :| 0 <= k < n && facets.keys[k] == a;
    }
    if n != 0 {
      assert facets.keys[0] in facets.values;
    }
  }

  /** A result of the report loop has one report per facet address, in
      facet order. */
  lemma AssembledKeys(facets: Dict<Address, seq<Selector>>, cs: Catalog)
    requires Assembled(facets, cs).Ok?
    ensures Assembled(facets, cs).value.keys == facets.keys
  {
    ReportsAllKeys(facets, ReporterOf(cs, ScoreTable(facets, cs)));
  }

  /** The report the loop holds for a facet address is the one made from that
      facet's scores. */
  lemma AssembledEntry(facets: Dict<Address, seq<Selector>>, cs: Catalog, a: Address)
    requires Assembled(facets, cs).Ok? && a in facets.values && facets.values[a] != []
    ensures a in Assembled(facets, cs).value.values
    ensures Ok(Assembled(facets, cs).value.values[a]) == Report(a, facets.values[a], cs, FacetScores(facets.values[a], cs))
  {
    ReportsEntry(facets, ReporterOf(cs, ScoreTable(facets, cs)), a);
    ReporterSpec(a, facets, cs);
  }

  /** An error of the report loop names one of the facet addresses, and it is
      a `KeyError` exactly when that facet has no selectors. */
  lemma AssembledErr(facets: Dict<Address, seq<Selector>>, cs: Catalog)
    requires Assembled(facets, cs).Err?
    ensures Assembled(facets, cs).error.address in facets.values
    ensures Assembled(facets, cs).error.Unscored? <==> facets.values[Assembled(facets, cs).error.address] == []
    ensures Assembled(facets, cs).error.NoCandidates? ==> cs.keys == []
  {
    var report := ReporterOf(cs, ScoreTable(facets, cs));
    var n := |facets.keys|;
    ReportsErr(facets, report, n);
    var k :| 0 <= k < n && report(facets.keys[k], facets.values[facets.keys[k]]) == Err(Reports(facets, report, n).error);
    ReporterSpec(facets.keys[k], facets, cs);
  }

  /** `inspect_diamond` returns a result exactly when every facet has a
      selector and, if there is any facet, the catalog has an ABI. */
  lemma InspectOk(facets: Dict<Address, seq<Selector>>, abis: Dict<ContractName, seq<AbiItem>>, encode: Encoder)
    ensures Inspect(facets, abis, encode).Ok? <==>
              (forall a :: a in facets.values ==> facets.values[a] != []) &&
              (facets.keys != [] ==> abis.keys != [])
  {
    AssembledOk(facets, CatalogOf(abis, encode));
  }

  /** When every facet has a selector and the catalog has an ABI (or there
      is no facet), `inspect_diamond` returns one report per facet address,
      in facet order, each made from that facet's scores against the
      catalog. */
  lemma InspectResult(facets: Dict<Address, seq<Selector>>, abis: Dict<ContractName, seq<AbiItem>>, encode: Encoder, a: Address)
    requires forall a :: a in facets.values ==> facets.values[a] != []
    requires facets.keys != [] ==> abis.keys != []
    ensures Inspect(facets, abis, encode).Ok?
    ensures Inspect(facets, abis, encode).value.keys == facets.keys
    ensures a in facets.values ==>
              Ok(Inspect(facets, abis, encode).value.values[a]) ==
                Report(a, facets.values[a], CatalogOf(abis, encode), FacetScores(facets.values[a], CatalogOf(abis, encode)))
  {
    AssembledOk(facets, CatalogOf(abis, encode));
    AssembledKeys(facets, CatalogOf(abis, encode));
    if a in facets.values {
      AssembledEntry(facets, CatalogOf(abis, encode), a);
    }
  }

  /** An error of `inspect_diamond` names one of the facet addresses; it is a
      `KeyError` exactly when that facet has no selectors, and otherwise the
      `ValueError` of an empty catalog. */
  lemma InspectErr(facets: Dict<Address, seq<Selector>>, abis: Dict<ContractName, seq<AbiItem>>, encode: Encoder)
    requires Inspect(facets, abis, encode).Err?
    ensures Inspect(facets, abis, encode).error.address in facets.values
    ensures Inspect(facets, abis, encode).error.Unscored? <==>
              facets.values[Inspect(facets, abis, encode).error.address] == []
    ensures Inspect(facets, abis, encode).error.NoCandidates? ==> abis.keys == []
  {
    AssembledErr(facets, CatalogOf(abis, encode));
  }

  // ---------------------------------------------------------------------
  // The function itself

  /** The report loop of `inspect_diamond`: one report per facet address, in
      facet order; the first exception is returned as the error. */
  method AssembleReports(facets: Dict<Address, seq<Selector>>, report: Reporter)
    returns (r: Result<Dict<Address, AddressReport>, InspectError>)
    ensures r == Reports(facets, report, |facets.keys|)
  {
    var result: Dict<Address, AddressReport> := Empty();
    for i := 0 to |facets.keys|
      invariant Reports(facets, report, i) == Ok(result)
    {
      var address := facets.keys[i];
      ReportsStep(facets, report, i, result);
      match report(address, facets.values[address]) {
        case Err(e) => return Err(e);
        case Ok(addressResult) => result := result.Put(address, addressResult);
      }
    }
    r := Ok(result);
  }

  /** `inspect_diamond`: builds the catalog and the selector index, scores
      every facet, then assembles the report address by address. */
  method InspectDiamond(facets: Dict<Address, seq<Selector>>, abis: Dict<ContractName, seq<AbiItem>>, encode: Encoder)
    returns (r: Result<Dict<Address, AddressReport>, InspectError>)
    ensures r == Inspect(facets, abis, encode)
  {
    var contractSelectors := BuildContractSelectors(abis, encode);
    var selectorIndex := BuildSelectorIndex(contractSelectors);
    var table := ScoreFacets(facets, contractSelectors, selectorIndex);
    r := AssembleReports(facets, ReporterOf(contractSelectors, table));
  }
}
