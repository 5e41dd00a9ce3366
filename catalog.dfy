/** The first two phases of `inspect_diamond`: the per-contract map from
    selector to function name, and the inverted index from selector to the
    contracts that declare it. */
module Catalog {
  import opened Wrappers
  import opened Collections

  type Selector = string
  type ContractName = string
  type FunctionName = string

  /** The name recorded for an ABI item that has none. */
  const UnknownFunction: FunctionName := "<unknown function>"

  /** One item of a contract's ABI: the optional `name` the matcher reads,
      and the rest of the item, which only the selector encoder looks at. */
  datatype AbiItem = AbiItem(name: Option<string>, kind: string, inputs: seq<string>)

  /** The selector encoder: the 4-byte selector of an item, or None when
      no selector can be derived from it. Its hashing is not modelled. */
  type Encoder = AbiItem -> Option<Selector>

  /** For each contract, in catalog order, its selector to function-name map. */
  type Catalog = Dict<ContractName, Dict<Selector, FunctionName>>

  /** `item.get("name", UNKNOWN_FUNCTION)` */
  function ItemName(item: AbiItem): FunctionName {
    item.name.GetOr(UnknownFunction)
  }

  /** The selector map of one contract after its first |items| items have
      been read: items without a selector are skipped, a selector seen again
      keeps its position and takes the newer name. */
  function ContractEntry(items: seq<AbiItem>, encode: Encoder): Dict<Selector, FunctionName> {
    if items == [] then Empty()
    else
      var entry := ContractEntry(items[..|items| - 1], encode);
      var item := items[|items| - 1];
      match encode(item)
      case None => entry
      case Some(s) => entry.Put(s, ItemName(item))
  }

  /** The selectors derived from the items, in item order, repeats included. */
  function Derived(items: seq<AbiItem>, encode: Encoder): seq<Selector> {
    if items == [] then []
    else
      var item := items[|items| - 1];
      Derived(items[..|items| - 1], encode) + (if encode(item).Some? then [encode(item).value] else [])
  }

  /** Each element at its first occurrence, in order. */
  function Dedup<T(==)>(xs: seq<T>): seq<T> {
    if xs == [] then []
    else
      var d := Dedup(xs[..|xs| - 1]);
      if xs[|xs| - 1] in d then d else d + [xs[|xs| - 1]]
  }

  lemma {:induction false} DedupMember<T>(xs: seq<T>, x: T)
    ensures x in Dedup(xs) <==> x in xs
  {
    if xs != [] {
      DedupMember(xs[..|xs| - 1], x);
      assert xs == xs[..|xs| - 1] + [xs[|xs| - 1]];
    }
  }

  /** The contract's selectors are listed in the order in which they were
      first derived, each once. */
  lemma {:induction false} ContractEntryOrder(items: seq<AbiItem>, encode: Encoder)
    ensures ContractEntry(items, encode).keys == Dedup(Derived(items, encode))
  {
    if items != [] {
      var init := items[..|items| - 1];
      ContractEntryOrder(init, encode);
      var item := items[|items| - 1];
      if encode(item).Some? {
        var s := encode(item).value;
        var e := ContractEntry(init, encode);
        var d := Derived(init, encode);
        assert Derived(items, encode) == d + [s];
        assert (d + [s])[..|d|] == d;
        assert Dedup(d + [s]) == if s in Dedup(d) then Dedup(d) else Dedup(d) + [s];
        DedupMember(d, s);
        assert s in e.values <==> s in e.keys;
      } else {
        assert Derived(items, encode) == Derived(init, encode);
      }
    }
  }

  /** A selector is in the contract's map exactly when some item derives it. */
  lemma {:induction false} ContractEntrySelectors(items: seq<AbiItem>, encode: Encoder, s: Selector)
    ensures s in ContractEntry(items, encode).values <==>
            exists i :: 0 <= i < |items| && encode(items[i]) == Some(s)
  {
    if items != [] {
      var init := items[..|items| - 1];
      ContractEntrySelectors(init, encode, s);
      if s in ContractEntry(items, encode).values && encode(items[|items| - 1]) != Some(s) {
        var i :| 0 <= i < |init| && encode(init[i]) == Some(s);
        assert encode(items[i]) == Some(s);
      }
      if i :| 0 <= i < |items| && encode(items[i]) == Some(s) {
        if i < |init| {
          assert encode(init[i]) == Some(s);
        }
      }
    }
  }

  /** The name a selector maps to is that of the last item deriving it,
      or "<unknown function>" when that item has no name. */
  lemma {:induction false} ContractEntryLastWins(items: seq<AbiItem>, encode: Encoder, i: nat, s: Selector)
    requires i < |items| && encode(items[i]) == Some(s)
    requires forall j :: i < j < |items| ==> encode(items[j]) != Some(s)
    ensures s in ContractEntry(items, encode).values
    ensures ContractEntry(items, encode).values[s] ==
            if items[i].name.Some? then items[i].name.value else UnknownFunction
  {
    var init := items[..|items| - 1];
    if i < |items| - 1 {
      ContractEntryLastWins(init, encode, i, s);
    }
  }

  /** contract_selectors: one selector map per contract, in catalog order. */
  function CatalogOf(abis: Dict<ContractName, seq<AbiItem>>, encode: Encoder): (cs: Catalog)
    ensures cs.keys == abis.keys
    ensures forall c :: c in cs.values ==> c in abis.values && cs.values[c] == ContractEntry(abis.values[c], encode)
  {
    OrderedMap(abis.keys, map c | c in abis.values :: ContractEntry(abis.values[c], encode))
  }

  /** A contract of the catalog declares a selector exactly when one of its
      ABI items encodes to it. */
  lemma CatalogSelectors(abis: Dict<ContractName, seq<AbiItem>>, encode: Encoder, c: ContractName, s: Selector)
    requires c in abis.values
    ensures c in CatalogOf(abis, encode).values
    ensures s in CatalogOf(abis, encode).values[c].values <==>
              exists i :: 0 <= i < |abis.values[c]| && encode(abis.values[c][i]) == Some(s)
  {
    ContractEntrySelectors(abis.values[c], encode, s);
  }

  /** contract_selectors once the first `i` contracts have been read. */
  ghost predicate CatalogUpTo(cs: Catalog, abis: Dict<ContractName, seq<AbiItem>>, i: nat, encode: Encoder)
    requires i <= |abis.keys|
  {
    cs.keys == abis.keys[..i] &&
    forall c :: c in cs.values ==> c in abis.values && cs.values[c] == ContractEntry(abis.values[c], encode)
  }

  lemma CatalogStep(cs: Catalog, abis: Dict<ContractName, seq<AbiItem>>, i: nat, encode: Encoder)
    requires i < |abis.keys| && CatalogUpTo(cs, abis, i, encode)
    ensures abis.keys[i] !in cs.values
    ensures CatalogUpTo(cs.Put(abis.keys[i], ContractEntry(abis.values[abis.keys[i]], encode)), abis, i + 1, encode)
  {
    assert abis.keys[..i + 1] == abis.keys[..i] + [abis.keys[i]];
  }

  lemma CatalogDone(cs: Catalog, abis: Dict<ContractName, seq<AbiItem>>, encode: Encoder)
    requires CatalogUpTo(cs, abis, |abis.keys|, encode)
    ensures cs == CatalogOf(abis, encode)
  {
    assert abis.keys[..|abis.keys|] == abis.keys;
    assert cs.values == CatalogOf(abis, encode).values;
  }

  /** Builds contract_selectors with the source's two nested loops. */
  method BuildContractSelectors(abis: Dict<ContractName, seq<AbiItem>>, encode: Encoder) returns (cs: Catalog)
    ensures cs == CatalogOf(abis, encode)
  {
    cs := Empty();
    for i := 0 to |abis.keys|
      invariant CatalogUpTo(cs, abis, i, encode)
    {
      var name := abis.keys[i];
      var abi := abis.values[name];
      var selectors: Dict<Selector, FunctionName> := Empty();
      for j := 0 to |abi|
        invariant selectors == ContractEntry(abi[..j], encode)
      {
        var item := abi[j];
        var itemName := ItemName(item);
        var functionSelector := encode(item);
        if functionSelector.Some? {
          selectors := selectors.Put(functionSelector.value, itemName);
        }
        assert abi[..j + 1][..j] == abi[..j];
      }
      assert abi[..|abi|] == abi;
      CatalogStep(cs, abis, i, encode);
      cs := cs.Put(name, selectors);
    }
    CatalogDone(cs, abis, encode);
  }

  /** The contracts whose selector maps contain `s`. */
  function Declaring(cs: Catalog, s: Selector): set<ContractName> {
    set c | c in cs.values && s in cs.values[c].values
  }

  /** The selectors declared by the first `i` contracts of the catalog. */
  function DeclaredUpTo(cs: Catalog, i: nat): set<Selector>
    requires i <= |cs.keys|
  {
    if i == 0 then {} else DeclaredUpTo(cs, i - 1) + cs.values[cs.keys[i - 1]].values.Keys
  }

  lemma {:induction false} DeclaredUpToSpec(cs: Catalog, i: nat, s: Selector)
    requires i <= |cs.keys|
    ensures s in DeclaredUpTo(cs, i) <==> exists k :: 0 <= k < i && s in cs.values[cs.keys[k]].values
  {
    if i > 0 {
      DeclaredUpToSpec(cs, i - 1, s);
      if s in DeclaredUpTo(cs, i) && s !in DeclaredUpTo(cs, i - 1) {
        assert s in cs.values[cs.keys[i - 1]].values;
      }
    }
  }

  /** selector_index: each declared selector to the contracts declaring it,
      in catalog order. */
  function SelectorIndex(cs: Catalog): map<Selector, seq<ContractName>> {
    map s | s in DeclaredUpTo(cs, |cs.keys|) :: Filter(cs.keys, Declaring(cs, s))
  }

  /** The index holds exactly the declared selectors; each lists exactly the
      contracts declaring it, each once, in catalog order. */
  lemma SelectorIndexSpec(cs: Catalog, s: Selector)
    ensures s in SelectorIndex(cs) <==> exists c :: c in cs.values && s in cs.values[c].values
    ensures s in SelectorIndex(cs) ==>
              (forall c :: c in SelectorIndex(cs)[s] <==> c in cs.values && s in cs.values[c].values) &&
              Distinct(SelectorIndex(cs)[s]) &&
              InOrderOf(SelectorIndex(cs)[s], cs.keys)
  {
    DeclaredUpToSpec(cs, |cs.keys|, s);
    if c :| c in cs.values && s in cs.values[c].values {
      var k :| 0 <= k < |cs.keys| && cs.keys[k] == c;
    }
    FilterMembers(cs.keys, Declaring(cs, s));
    FilterDistinct(cs.keys, Declaring(cs, s));
    FilterInOrder(cs.keys, Declaring(cs, s));
  }

  /** selector_index once the first `i` contracts have been read. */
  ghost predicate IndexedUpTo(index: map<Selector, seq<ContractName>>, cs: Catalog, i: nat)
    requires i <= |cs.keys|
  {
    index.Keys == DeclaredUpTo(cs, i) &&
    forall s :: s in index ==> index[s] == Filter(cs.keys[..i], Declaring(cs, s))
  }

  lemma IndexStart(cs: Catalog)
    ensures IndexedUpTo(map[], cs, 0)
  {
  }

  lemma IndexStep(index: map<Selector, seq<ContractName>>, index': map<Selector, seq<ContractName>>, cs: Catalog, i: nat)
    requires i < |cs.keys| && IndexedUpTo(index, cs, i)
    requires forall s :: s in index' <==> s in index || s in cs.values[cs.keys[i]].values
    requires forall s :: s in index' ==>
               index'[s] == Get(index, s, []) + (if s in cs.values[cs.keys[i]].values then [cs.keys[i]] else [])
    ensures IndexedUpTo(index', cs, i + 1)
  {
    forall s | s in index'
      ensures index'[s] == Filter(cs.keys[..i + 1], Declaring(cs, s))
    {
      FilterSnoc(cs.keys, i, Declaring(cs, s));
      if s !in index {
        DeclaredUpToSpec(cs, i, s);
        forall c | c in cs.keys[..i] ensures c !in Declaring(cs, s) {
          var k :| 0 <= k < i && cs.keys[..i][k] == c;
          assert cs.keys[k] == c;
        }
        FilterNone(cs.keys[..i], Declaring(cs, s));
      }
    }
  }

  lemma IndexDone(index: map<Selector, seq<ContractName>>, cs: Catalog)
    requires IndexedUpTo(index, cs, |cs.keys|)
    ensures index == SelectorIndex(cs)
  {
    assert cs.keys[..|cs.keys|] == cs.keys;
  }

  /** The inner loop of the index construction: appends `contractName` to
      the entry of each of its selectors, creating missing entries. */
  method IndexContract(index: map<Selector, seq<ContractName>>, contractName: ContractName,
                       selectors: Dict<Selector, FunctionName>)
    returns (index': map<Selector, seq<ContractName>>)
    ensures forall s :: s in index' <==> s in index || s in selectors.values
    ensures forall s :: s in index' ==>
              index'[s] == Get(index, s, []) + (if s in selectors.values then [contractName] else [])
  {
    index' := index;
    for j := 0 to |selectors.keys|
      invariant forall s :: s in index' <==> s in index || s in selectors.keys[..j]
      invariant forall s :: s in index' ==>
                  index'[s] == Get(index, s, []) + (if s in selectors.keys[..j] then [contractName] else [])
    {
      var selector := selectors.keys[j];
      assert selector !in selectors.keys[..j];
      if selector !in index' {
        index' := index'[selector := []];
      }
      index' := index'[selector := index'[selector] + [contractName]];
      assert selectors.keys[..j + 1] == selectors.keys[..j] + [selector];
    }
    assert selectors.keys[..|selectors.keys|] == selectors.keys;
  }

  /** Builds selector_index with the source's two nested loops. */
  method BuildSelectorIndex(cs: Catalog) returns (index: map<Selector, seq<ContractName>>)
    ensures index == SelectorIndex(cs)
  {
    index := map[];
    IndexStart(cs);
    for i := 0 to |cs.keys|
      invariant IndexedUpTo(index, cs, i)
    {
      var contractName := cs.keys[i];
      var index' := IndexContract(index, contractName, cs.values[contractName]);
      IndexStep(index, index', cs, i);
      index := index';
    }
    IndexDone(index, cs);
  }
}
