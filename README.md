# Diamond inspector: the facet-to-interface matcher

This project models `inspect_diamond`, the matcher of the diamond-proxy
inspector. The matcher takes two inputs:

- the facets of an EIP-2535 diamond, as a map from facet address to the list of 4-byte selectors it mounts;
- a catalog of contract ABIs.

For every facet it reports which contracts of the catalog the facet most
likely implements (`matches`). For each matched contract it also reports the
contract's functions that the facet lacks (`misses`) and the contract's
selectors that the facet mounts (`selectors`).

The model follows the function's six phases:

1. **Selector tables** (`Catalog`). Each contract gets a selector → function-name table. `BuildContractSelectors` builds the tables with nested loops. It is proved equal to `CatalogOf`, which applies `ContractEntry` to every contract.
2. **Selector index** (`Catalog`). The index maps each selector to the contracts that declare it. `BuildSelectorIndex` and `IndexContract` build it. It is proved equal to `SelectorIndex`.
3. **Recall** (`Scoring`). `FacetRecalls` and its helpers `CountSelector` and `DivideAll` count, over the facet's selector list, the declaring contracts of each selector, then divide by the facet size. The loop is proved to compute `RecallScores`.
4. **Precision** (`Scoring`). `FacetPrecisions` and its helper `ScoreContract` compute, for each contract, the share of its selectors that the facet mounts. They are proved to compute `PrecisionScores`. `ScoreFacets` runs phases 3 and 4 for every non-empty facet. It is proved to compute `ScoreTable`.
5. **Tie-break** (`Inspector`). `Report` keeps the contracts with the maximal recall, then those among them with the maximal precision.
6. **Report** (`Inspector`). `Report` lists the misses and present selectors of every match. `Reports` runs `Report` over every facet address, and `AssembleReports` is the loop that computes it. `InspectDiamond` runs all six phases and is proved equal to the function `Inspect`.

Python's insertion-ordered dictionaries are `Collections.Dict`: a key list
with no repeats, plus a map whose domain is that list. `Put` keeps an
existing key's position and appends a new key, as `d[k] = v` does. Recall
and precision are exact `real` ratios. The selector encoder
(`encode_function_signature`) is a function parameter `encode` that may
return no selector. The two exceptions the function can raise are `Err`
values of `Inspector.InspectError`:

- `Unscored(address)` is the `KeyError` raised for a facet with no selectors. Scoring skips such a facet, but the report then looks up its scores.
- `NoCandidates(address)` is the `ValueError` raised by `max` over an empty sequence. This happens when a non-empty facet meets an empty catalog.

The code raises in both cases; `Inspector.InspectOk` states exactly when
the function returns normally.

## Model

| member | source | states |
|---|---|---|
| `Catalog.ContractEntrySelectors` | inspector_facet/inspector.py:22-26 | a selector is in a contract's table exactly when some ABI item of the contract encodes to it; items without a selector are skipped |
| `Catalog.ContractEntryLastWins` | inspector_facet/inspector.py:23-26 | a selector derived by several items carries the name of the last such item, or `<unknown function>` when that item has no name |
| `Catalog.ContractEntryOrder` | inspector_facet/inspector.py:20-26 | a contract's selectors are listed in the order they were first derived, each once |
| `Catalog.CatalogSelectors` | inspector_facet/inspector.py:19-26 | a contract of the catalog declares a selector exactly when one of its ABI items encodes to it |
| `Catalog.BuildContractSelectors` | inspector_facet/inspector.py:19-26 | the nested loops build exactly `CatalogOf(abis, encode)`: one table per ABI, in the ABIs' order, each that contract's selector table |
| `Catalog.SelectorIndexSpec` | inspector_facet/inspector.py:28-33 | a selector is indexed exactly when some contract declares it; its list holds exactly the declaring contracts, each once, in catalog order |
| `Catalog.IndexContract` | inspector_facet/inspector.py:30-33 | one contract's pass appends that contract to the list of each of its selectors and creates missing lists; other selectors are unchanged |
| `Catalog.BuildSelectorIndex` | inspector_facet/inspector.py:28-33 | the loops build exactly `SelectorIndex(cs)` |
| `Scoring.RecallSpec` | inspector_facet/inspector.py:43-51 | a recall lies in [0, 1]; it is 0 exactly when the contract declares none of the facet's selectors; for a facet without repeats it is the number of shared selectors over the facet size |
| `Scoring.PrecisionSpec` | inspector_facet/inspector.py:56-65 | a precision lies in [0, 1]; it is 0 for a contract with no selectors; otherwise it is the number of the contract's selectors the facet mounts over the contract's selector count |
| `Scoring.MaxRecallSpec` | inspector_facet/inspector.py:53 | the maximum recall is at least 0 and at least every contract's recall; some contract attains it when the catalog is non-empty; it is 0 exactly when no contract shares a selector with the facet |
| `Scoring.MaxRecallOfScores` | inspector_facet/inspector.py:53 | `max([0] + recalls)` over the recall table equals the maximum over all catalog contracts, including those with no table entry |
| `Scoring.CountSelector` | inspector_facet/inspector.py:44-49 | one facet selector adds 1 to the count of each contract that declares it and creates missing counts at 0 first; other counts are unchanged |
| `Scoring.DivideAll` | inspector_facet/inspector.py:50-51 | every count is divided by the facet size; keys and their order are unchanged |
| `Scoring.FacetRecalls` | inspector_facet/inspector.py:42-51 | the recall table holds exactly the contracts sharing a selector with the facet, each with its recall |
| `Scoring.ScoreContract` | inspector_facet/inspector.py:57-65 | one contract's precision is appended to the table: 0 when it has no selectors, otherwise mounted over total |
| `Scoring.FacetPrecisions` | inspector_facet/inspector.py:56-65 | the precision table lists every contract in catalog order with its precision |
| `Scoring.ScoreFacets` | inspector_facet/inspector.py:35-65 | every facet with at least one selector gets its recall table, precision table and maximum recall; empty facets get no entry |
| `Inspector.CandidatesSpec` | inspector_facet/inspector.py:70-74 | the max-recall contracts are exactly the catalog contracts whose recall no other contract exceeds, in catalog order |
| `Inspector.PoolSpec` | inspector_facet/inspector.py:75-79 | a value is in the precision pool exactly when some candidate has it as its precision |
| `Inspector.MaxPrecisionSpec` | inspector_facet/inspector.py:75-79 | with a non-empty catalog the pool is non-empty; its maximum bounds every top-recall contract's precision and is attained by one of them |
| `Inspector.MatchesSpec` | inspector_facet/inspector.py:70-85 | with a non-empty catalog and facet the report exists; its `matches` are exactly the top-recall contracts with the highest precision among top-recall contracts, in catalog order, and there is at least one |
| `Inspector.MatchesOrdered` | inspector_facet/inspector.py:80-85 | `matches` has no repeats and follows the catalog order |
| `Inspector.ZeroScores` | inspector_facet/inspector.py:43-65 | a contract sharing no selector with the facet has recall 0 and precision 0 |
| `Inspector.NoOverlapMatchesAll` | inspector_facet/inspector.py:70-85 | when no contract shares a selector with the facet, every catalog contract is a match, in catalog order |
| `Inspector.ContractMissesSpec` | inspector_facet/inspector.py:87-96 | one contract's misses are exactly its selectors absent from the facet, with its function names, each once, in the contract's order |
| `Inspector.ContractSelectorsSpec` | inspector_facet/inspector.py:98-107 | one contract's present selectors are exactly the facet's selectors it declares, with its function names: row k is the facet entry at the k-th position holding a declared selector, so repeated facet entries give repeated rows in facet order |
| `Inspector.MissesOfMember` | inspector_facet/inspector.py:87-96 | a row is in `misses` exactly when its contract is a match and the row is among that contract's misses |
| `Inspector.SelectorsOfMember` | inspector_facet/inspector.py:98-107 | a row is in `selectors` exactly when its contract is a match and the row is among that contract's present selectors |
| `Inspector.ReportRows` | inspector_facet/inspector.py:80-107 | a `misses` row is a best-matching contract's function whose selector the facet lacks; a `selectors` row is one the facet mounts; both carry the contract's own function name |
| `Inspector.MissesSelectorsCover` | inspector_facet/inspector.py:87-107 | a contract's misses and present selectors together cover its selector set and do not overlap |
| `Inspector.MissesSelectorsCount` | inspector_facet/inspector.py:87-107 | for a facet without repeated selectors, a contract's misses and present selectors add up to its selector count |
| `Inspector.AddressResultSpec` | inspector_facet/inspector.py:68-79 | an empty facet raises the `KeyError`; a non-empty facet with an empty catalog raises the `ValueError`; otherwise the facet gets its report |
| `Inspector.ReportsOk` | inspector_facet/inspector.py:67-111 | the loop over facets returns normally exactly when no facet's report raises |
| `Inspector.ReportsKeys` | inspector_facet/inspector.py:67-109 | a normal result has one entry per facet address, in facet order |
| `Inspector.ReportsEntry` | inspector_facet/inspector.py:67-109 | each address's entry in a normal result is that address's report |
| `Inspector.ReportsErr` | inspector_facet/inspector.py:67-111 | an exception from the loop is the exception raised by some facet's report |
| `Inspector.InspectOk` | inspector_facet/inspector.py:10-111 | `inspect_diamond` returns normally exactly when every facet has a selector and the catalog is non-empty, or there are no facets |
| `Inspector.InspectResult` | inspector_facet/inspector.py:10-111 | when it returns normally the result has exactly the facet addresses, in facet order, each with its report |
| `Inspector.InspectErr` | inspector_facet/inspector.py:10-111 | an exception names a facet address; it is the `KeyError` exactly when that facet is empty, and the `ValueError` only for an empty catalog |
| `Inspector.AssembleReports` | inspector_facet/inspector.py:67-111 | the report loop stops at the first raising facet and otherwise fills the result in facet order, as `Reports` states |
| `Inspector.InspectDiamond` | inspector_facet/inspector.py:10-111 | the whole imperative function computes `Inspect(facets, abis, encode)` |

## Left out

- The network fetch of the facets through the diamond loupe (`inspector_facet/facets.py`) is not part of this model. It talks to a chain node.
- The replayer that rebuilds facets from diamond-cut events is not part of this model. Only references to it are present in the repository.
- The command-line front end (`inspector_facet/cli.py`) and the packaging metadata (`setup.py`) are not part of this model. They do I/O and presentation only.
- `encode_function_signature` computes keccak-based selectors in a module that is not part of this model. It is the parameter `encode`, and nothing is assumed about it.
- Recall and precision are Python floats. They are modelled as exact `real` ratios, so floating-point rounding is not modelled. The equality tests of the tie-break compare ratios of small integers, and IEEE division rounds those correctly.
- The unused `DiamondLoupeFacet` import has no counterpart.
- The source keeps three per-address dictionaries: recalls, precisions and maximum recall. The model keeps one `Scores` record per address. All three dictionaries always have the same addresses.
- The inner loops of the scoring phase are separate methods: `IndexContract`, `CountSelector`, `DivideAll` and `ScoreContract`. Each is proved against its own contract.
- The facet list is the source's list of hex strings, and membership tests on it are list membership. Selectors are kept abstract as strings. No hex formatting is modelled.
- Scoring.FacetRecalls: states the contents of the recall table as a map. It does not state the insertion order of its keys, because the report only looks recalls up by contract.
- The rows of `misses` and `selectors` are records. The source writes them as dicts with keys `contract`, `selector` and `function`.
