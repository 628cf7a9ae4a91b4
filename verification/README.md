# Milpa, modelled and proved in Dafny

Milpa is a package manager whose trust rests on a few computations and protocols: a source tree
has one content identity, a store admits trees under their identities while other processes do
the same, a cache holds artifacts that were verified, a resolver binds each name to one origin,
a registry commits to a set of identities, and what one program prints another parses. This
project models those parts of the Python implementation and proves what they are for.
`dafny verify dfyconfig.toml` checks all of it.

| files | what they model |
|---|---|
| `Common`, `Order` | results and options, splitting and joining, lexicographic order, stable sorting |
| `DagTree`, `DagIdentity` | the Merkle DAG of a tree of files, and the identity of a flat list of entries |
| `DagBuilder`, `DagOracle` | the production builder and the conformance oracle, each over nodes updated in place |
| `Cas`, `CasStore`, `CasQuery` | admission to the content-addressed store by any number of processes; `admit` and `link`; listing and prefix resolution |
| `ArtifactCache`, `ArtifactStore` | the hash-pinned artifact cache, down to inodes, partial writes and crashes; its methods |
| `SourceId`, `Binding`, `Reconcile` | canonical source strings, the binding resolver, root-claim reconciliation and solver variables |
| `EpochCommitment`, `EntryTrust` | the pre-epoch commitment, the entry-trust gate and the offline re-verification loop |
| `Edges`, `Kdl`, `DepDecl`, `DepDeclRoundTrip` | edge sets, the KDL fragment they are printed in, printer, parser and round trip |
| `EdgeSources`, `EdgeTerms` | where edges are read from and how they are sealed; solver terms and search dependencies |
| `Redirects`, `BoundedHttp` | redirect chains and the Authorization header; the capped, length-checked body stream |

How it is modelled:

- A hash function is any function from bytes to 32 bytes. None is injective, so a result that
  depends on that reads "equal, or two distinct strings with one digest".
- Signature verifiers, version parsers, the URL clean-up of `normalize_source`, the registry
  lookup and the servers are parameters, and the results hold for all of them.
- Processes are interleaved by schedules: any sequence of atomic operations of any calls, any of
  which may fail or be killed. `rename()` is that of IEEE Std 1003.1. The methods of `CAStore`
  and `HttpArtifactStore` are proved to be such calls, with anything in between their operations.
- Code that updates objects is a class or a method with loops, proved against a function that
  says what it computes. Dictionaries are iterated in an arbitrary order where the result must
  not depend on it.
- File names are UTF-8 bytes. Texts that are hashed or parsed are strings of code points.
- SemVer precedence is section 11 of Semantic Versioning 2.0.0, quoted strings are section 3.11
  of the KDL 2.0.0 specification, origins are section 5 of RFC 6454, the redirect handler is the
  one of CPython's `urllib.request`.

Where the code and what is said of it part ways, the model follows the code:

- `canonical()` is documented as injective on normalized sources. It is not: an OCI repository
  may contain `#digest=`, which makes two accepted sources one string
  (`SourceId.TwinExample`). It is injective but for exactly these pairs.
- A namespaced key does not survive its `::` encoding if the namespace ends in `:`
  (`Binding.EncodingRoundTrip`).
- The label of a solver variable given to a requirement beforehand is not always the one it has
  later, as its documentation says; the variable is (`Reconcile.VariableAgrees`). It differs for
  a git URL that is bound already and required under another name (`Reconcile.LabelsDiffer`).
- The constructor's assertion is documented as unreachable by construction. It fails exactly if
  two claimed keys decode alike and their effective origins differ
  (`Reconcile.ReconciledClaimsBind`). Names of declarations are checked and cannot bring this
  about by themselves, names of overrides are not checked and can: an override of `n::x` beside a
  declaration of `x` in `n` (`Reconcile.ManifestBindsExactly`, `Reconcile.OverrideFailsTheConstructor`).
  Nor may a standalone root depend on its own name (`Reconcile.RootSelfBinds`).
- The commitment preimage tells a set from all others only if the set has at most one record
  and no field separator in it (`EpochCommitment.DeterminedIff`); among sets of clean fields it
  always does.
- The nesting guard counts braces inside strings, so 32 of them in a source directory make an
  artifact that was printed unreadable (`DepDeclRoundTrip.BracesFailTheGuard`).
- The hard cap of ten redirect hops is one on distinct URLs, each of which may come four times;
  37 redirects can be followed and no more (`Redirects.ChainsEnd`, `Redirects.LongChainsExist`).
  When ten is kept is `Redirects.CapIsKeptExactly`.
- A transport failure of the body is documented as FETCH-DOWNLOAD-FAILED. An incomplete read of a
  chunked body is no `OSError` and leaves `request` uncaught, exactly if what came of the body is
  within the cap and fits the sink (`BoundedHttp.SendRequest`).
- `_name_from_url` takes the URL `.git`, which has no path component, for a name
  (`EdgeTerms.DerivedName`, `EdgeTerms.DotGitIsAName`).
- A malformed constraint is no constraint for the solver's terms and an error for the search
  (`EdgeTerms.EdgesetToBfsDeps`).
- Edges are sealed per version up to build metadata, because that is how versions compare
  (`EdgeSources.KeysIgnoreBuild`).

## Model

The last three rows are summaries of the cases of one function, for reading, and not results.

| member | source | states |
|---|---|---|
| `DagTree.EncodeItemsInjective` | impls/python/milpa/dag_identity.py:150-157 | concatenated length-prefixed entries decode in one way |
| `DagTree.SortIsCanonical` | impls/python/milpa/dag_identity.py:182-183 | sorting by leaf name alone gives one listing whatever order the dictionaries were read in, a file before the directory of its name |
| `DagTree.MerkleStatus` | impls/python/milpa/dag_identity.py:160-186 | emptiness and the name error depend on the files alone: empty exactly if no file is below, raising exactly if a file has a long component |
| `DagTree.MerkleOfFiles` | impls/python/milpa/dag_identity.py:160-186 | trees with the same files hash alike, whatever empty directories they have |
| `DagTree.MerkleDeterminesFiles` | impls/python/milpa/dag_identity.py:160-186 | equal digests mean equal files, or two distinct strings hashed on the way collide |
| `DagTree.PruneKeepsDigest` | impls/python/milpa/dag_identity.py:174-180 | dropping directories without files at every level changes nothing |
| `DagIdentity.IdentityAccepts` | impls/python/milpa/dag_identity.py:194-221 | the identity is refused exactly for an entry that counts with a bad mode or a component over 4096 bytes |
| `DagIdentity.IdentityCharacterizes` | impls/python/milpa/dag_identity.py:194-221 | identities are equal for equal last-wins file maps, and only for those unless two hashed strings collide |
| `DagIdentity.IdentityOfSet` | impls/python/milpa/dag_identity.py:194-221 | with one entry to a path, order and repetition of entries do not show |
| `DagIdentity.GitIgnored` | impls/python/milpa/dag_identity.py:207-212 | entries with a `.git` component change neither identity nor error |
| `DagIdentity.BuildNoEmptySubdir` | impls/python/milpa/dag_identity.py:139-147 | no directory insertion makes is ever without a file |
| `DagBuilder.Insert` | impls/python/milpa/dag_identity.py:139-147 | in place, the nodes stay a tree, exactly the one file changes, and a long component raises |
| `DagBuilder.HashTree` | impls/python/milpa/dag_identity.py:160-186 | hashing nodes gives the digest and the emptiness of the tree they denote |
| `DagBuilder.ComputeDagIdentity` | impls/python/milpa/dag_identity.py:194-221 | the builder computes the identity |
| `DagOracle.InsertUnchecked` | conformance/spec-v1/_oracle/dag_sha256_reference.py:100-106 | insertion without name checks changes the one file and adds its directories only |
| `DagOracle.HTree` | conformance/spec-v1/_oracle/dag_sha256_reference.py:109-135 | the oracle's digest of a node is the builder's, and it raises for the same trees |
| `DagOracle.HTreeWithEmptiness` | conformance/spec-v1/_oracle/dag_sha256_reference.py:138-152 | its separate recursion for emptiness agrees with the builder's flag at every node |
| `DagOracle.HeldIdentity` | conformance/spec-v1/_oracle/dag_sha256_reference.py:155-176 | the tree without name checks still has the identity, or the same error |
| `DagOracle.ComputeDagSha256` | conformance/spec-v1/_oracle/dag_sha256_reference.py:155-176 | on entries with valid modes the oracle and the builder give the same identity and reject the same names |
| `Cas.ActWrites` | impls/python/milpa/cas.py:276-309 | only a call whose tree has the claimed identity writes, and only that tree to that path |
| `Cas.StoreSafe` | impls/python/milpa/cas.py:240-309 | at every moment of every interleaving each entry hashes to its identity and none is removed or, unless it is an empty directory, replaced |
| `Cas.ReturnedPathStays` | impls/python/milpa/cas.py:257-275 | a returned path is the one of the identity and a directory there from then on |
| `Cas.ReturnedPathHoldsTheFiles` | impls/python/milpa/cas.py:257-275 | whoever won the race, a returned path holds the caller's own files from then on, up to a hash collision |
| `Cas.MismatchLeavesStore` | impls/python/milpa/cas.py:276-283 | a wrong tree, or an injected hash that is not the identity, raises at once and leaves the store and the tree alone |
| `Cas.FalseHashPoisons` | impls/python/milpa/cas.py:248-256 | a call that injects the claimed identity as the hash of a tree that has another gets the tree stored under it, in any state where nothing is stored there |
| `Cas.SafeExactlyIfHonest` | impls/python/milpa/cas.py:248-256 | a call for an identity not yet stored is safe to begin, in all runs with honest others, exactly if what it injects is true or not the claimed identity |
| `Cas.AdmitOutcome` | impls/python/milpa/cas.py:276-309 | a lost race is no failure: without faults of its own a call returns exactly if the hash, computed or injected, is the identity and that is well formed, unless a non-directory is in the way |
| `Cas.AdmitEnds` | impls/python/milpa/cas.py:276-309 | six steps of its own end a call, whatever the others do |
| `Cas.ScratchIsSwept` | impls/python/milpa/cas.py:345-371 | what is admitted leaves no scratch directory, what is refused none after the block ends; only work in progress and killed calls can |
| `CasStore.CAStore.Admit` | impls/python/milpa/cas.py:276-309 | the method is such a call, with any operations of others between its own |
| `CasStore.LinksNeverDangle` | impls/python/milpa/cas.py:315-338 | no symlink into the store ever dangles, in any interleaving of links with the operations of admissions |
| `CasStore.LinkedHoldsIdentity` | impls/python/milpa/cas.py:315-338 | with honest admissions what a finished link points to hashes to the identity it was asked for, at every later moment |
| `CasStore.LinkTouchesOnlyAfterFinding` | impls/python/milpa/cas.py:328-338 | a target is touched only after the entry was found, and no other target is |
| `CasQuery.ListIdentities` | impls/python/milpa/cas.py:111-130 | every visible entry once, sorted, whatever order directories are scanned in |
| `CasQuery.ResolvePrefix` | impls/python/milpa/cas.py:132-234 | the method answers by the number of matching entries, with the errors of each form of prefix |
| `CasQuery.ResolvedIsStored` | impls/python/milpa/cas.py:132-234 | what is answered is stored and has the digits asked for |
| `CasQuery.ResolutionIsStable` | impls/python/milpa/cas.py:140-150 | as the store grows a prefix keeps its answer or becomes ambiguous, and a full identity keeps it |
| `CasQuery.AdmittedResolves` | impls/python/milpa/cas.py:132-234 | an admitted identity resolves for good, and by any prefix of 16 digits no other entry shares |
| `ArtifactCache.CacheSafe` | impls/python/milpa/dep_decl_store.py:258-314 | at every moment the cache path holds nothing, what was found there, or bytes that verify, whole; and what `get` returns verifies |
| `ArtifactCache.ReadsAreWhole` | impls/python/milpa/atomic_cache.py:96-107 | what a reader has read to the end is one whole file, never a mixture |
| `ArtifactCache.HealedForGood` | impls/python/milpa/atomic_cache.py:67-107 | once the path holds nothing corrupt it never does again, late self-heals and all |
| `ArtifactCache.GetHeals` | impls/python/milpa/atomic_cache.py:79-107 | after one call that was not hindered nothing corrupt is under the path any more, whatever was there and whatever the others do |
| `ArtifactCache.ReplaceCaches` | impls/python/milpa/atomic_cache.py:57-60 | a write that is put in place leaves the whole of its bytes under the path |
| `ArtifactCache.ServedCallsReturn` | impls/python/milpa/dep_decl_store.py:280-314 | a call that is served never raises, whatever fails of the cache and whatever the others do |
| `ArtifactCache.GetEnds` | impls/python/milpa/dep_decl_store.py:258-314 | a number of its own steps given by the longest file or answer ends a call, whatever the others do |
| `ArtifactCache.ServedCallsEnd` | impls/python/milpa/dep_decl_store.py:258-314 | so a call that is served does end, and returns bytes |
| `ArtifactCache.SharedNamesTear` | impls/python/milpa/atomic_cache.py:8-16 | with a shared temporary name, half an artifact can end up under the cache path though nothing fails |
| `ArtifactCache.SafeExactlyIfNamesAreUnique` | impls/python/milpa/atomic_cache.py:37-64 | the cache is safe in all runs exactly if temporary names are unique |
| `ArtifactStore.OthersLeaveCall` | impls/python/milpa/atomic_cache.py:47-64 | while others work, a call stands where it stood and the file it reads stays as it is |
| `ArtifactStore.HttpArtifactStore.ReadVerifiedOrSelfHeal` | impls/python/milpa/atomic_cache.py:67-107 | a miss, or bytes that verify and were all that was under the path at some moment of the call, as one schedule of the cache |
| `ArtifactStore.HttpArtifactStore.AtomicWriteBytes` | impls/python/milpa/atomic_cache.py:47-64 | the suppressed write ends well whatever fails of it |
| `ArtifactStore.HttpArtifactStore.Get` | impls/python/milpa/dep_decl_store.py:258-314 | `get` is a call of the machine: a hit is the whole of what was under the cache path at some moment of it, and a miss ends as the fetch and the verification say |
| `SourceId.NormalizedIsWellFormed` | impls/python/milpa/source_id.py:479-580 | what normalization accepts keeps the delimiters apart as far as the canonical form needs |
| `SourceId.CanonicalCharacterizes` | impls/python/milpa/source_id.py:289-315 | canonical strings agree exactly for equal sources and for OCI twins |
| `SourceId.CanonicalInjective` | impls/python/milpa/source_id.py:289-301 | the injectivity law where no repository carries `#digest=` |
| `SourceId.TwinIsAccepted` | impls/python/milpa/source_id.py:368-382 | every accepted OCI source with a printable digest has an accepted twin |
| `SourceId.TwinExample` | impls/python/milpa/source_id.py:289-315 | one such pair |
| `Binding.DecodeEncode` | impls/python/milpa/version.py:161-198 | encoding what was decoded from a string gives the string back |
| `Binding.EncodingRoundTrip` | impls/python/milpa/version.py:161-198 | a key survives its encoding exactly if no `::` arises in its bare name, or in its namespace with the ':' after it |
| `Binding.SubmitFrame` | impls/python/milpa/binding.py:164-199 | a binding never changes; only a NEW outcome changes anything, and binds its one key |
| `Binding.RunKeeps` | impls/python/milpa/binding.py:164-199 | so through every run, and root authority with it |
| `Binding.RunOutcome` | impls/python/milpa/binding.py:164-199 | from the root claims, a run conflicts exactly if two of its claims want a key no root owns for different sources, and else binds the roots' keys and what its claims ask for, no more |
| `Binding.OrderIrrelevant` | impls/python/milpa/binding.py:164-199 | from the root claims, whether a conflict is hit, and the final bindings, do not depend on order or repetition |
| `Binding.RootsOwnAll` | impls/python/milpa/binding.py:136-162 | after construction every root key is bound and under root authority |
| `Binding.RunInterned` | impls/python/milpa/binding.py:214-226 | the intern table knows the canonical strings of the bound sources and no others, each under its earliest key, after every run |
| `Binding.CanonicalForReads` | impls/python/milpa/binding.py:228-247 | asking for a bound key's variable changes nothing and gives its origin's string |
| `Binding.SameVariable` | impls/python/milpa/binding.py:214-247 | two keys get one variable exactly if their sources have one canonical string |
| `Binding.BindingResolver.Init` | impls/python/milpa/binding.py:120-162 | the constructor's loop leaves the bindings, root keys, order and intern table all run properties start from, or raises at the first root claim that disagrees |
| `Binding.BindingResolver.SubmitClaim` | impls/python/milpa/binding.py:164-199 | a submission on the object takes the state where the run properties say, with the outcome they name, and a conflict leaves it alone |
| `Binding.BindingResolver.CanonicalForKey` | impls/python/milpa/binding.py:228-247 | a lookup on the object gives the interned variable, or none for a key never bound |
| `Reconcile.ReconcileRootClaims` | impls/python/milpa/binding.py:453-570 | the two loops hand on the claims `ClaimsAreOfKeys` characterizes, or raise at the first malformed source or disagreeing declaration |
| `Reconcile.ClaimsAreOfKeys` | impls/python/milpa/binding.py:453-570 | the claims are exactly those of the claimed keys, each for its effective origin: the override's if there is one, else the first declaration's; a key first declared as a member, without an override, has none |
| `Reconcile.ReconciledClaimsBind` | impls/python/milpa/binding.py:136-162 | the constructor accepts the reconciled claims exactly if claimed keys that decode alike have one effective origin, and else fails its assertion |
| `Reconcile.NoAliasesBind` | impls/python/milpa/binding.py:145-158 | so it does where no two keys are spelled alike |
| `Reconcile.EncodableKeysHaveNoAliases` | impls/python/milpa/version.py:161-179 | keys without `::` are never spelled alike |
| `Reconcile.PlainNamesHaveNoAliases` | impls/python/milpa/version.py:161-179 | nor are keys whose names have no ':' at all, whatever the namespaces |
| `Reconcile.ManifestBindsExactly` | impls/python/milpa/manifest.py:1822-1832 | with declaration names the manifest parser lets through, the constructor fails exactly if an override is named as a claimed namespaced key is spelled and has another origin |
| `Reconcile.PlainManifestBinds` | impls/python/milpa/binding.py:145-158 | with override names of that alphabet too it never fails |
| `Reconcile.OverrideFailsTheConstructor` | impls/python/milpa/manifest.py:2640-2647 | override names are not checked: every declaration in a namespace with an override under its spelling, for another origin, is reconciled and fails the constructor |
| `Reconcile.RootSelfBinds` | impls/python/milpa/resolver.py:3573-3588 | the root's claim under its own name is accepted exactly if no claimed key decodes to that name for another origin |
| `Reconcile.OverrideStays` | impls/python/milpa/binding.py:504-570 | every override's bare key is bound to its normalized target through every later run |
| `Reconcile.VariableAgrees` | impls/python/milpa/binding.py:430-450 | the variable computed before a claim is submitted is the one it has after, and when the label agrees too |
| `Reconcile.LabelsDiffer` | impls/python/milpa/binding.py:430-450 | the label does differ for a git URL bound under one name and required under another |
| `Reconcile.GuessIsDeclared` | impls/python/milpa/binding.py:418-429 | the origin guessed for a requirement is the one its declaration is claimed for, override and all |
| `Reconcile.DeclaredVariable` | impls/python/milpa/binding.py:410-416 | so a declared requirement's variable is the one its key has once its own claim is accepted |
| `Reconcile.OverriddenVariable` | impls/python/milpa/binding.py:430-450 | a bare requirement on an overridden name always gets the target's variable |
| `Reconcile.ReconciledWellFormed` | impls/python/milpa/binding.py:453-570 | what is handed on is normalized, so canonical strings tell it apart |
| `EpochCommitment.CompareIdentityLaws` | impls/python/milpa/epoch_commitment.py:197-212 | the sort key is a total order: nothing but an identity compares equal to it |
| `EpochCommitment.SortedDedupedOfSet` | impls/python/milpa/epoch_commitment.py:215-222 | the sorted list is the same exactly for the same set |
| `EpochCommitment.DigestOfSet` | impls/python/milpa/epoch_commitment.py:239-246 | the digest depends on the set alone |
| `EpochCommitment.CleanPreimageDetermines` | impls/python/milpa/epoch_commitment.py:225-241 | without separators in fields, equal preimages mean equal sets |
| `EpochCommitment.DeterminedIff` | impls/python/milpa/epoch_commitment.py:225-236 | with them, a set is told from all others exactly if it has at most one record and no field separator in it |
| `EpochCommitment.Evaluate` | impls/python/milpa/epoch_commitment.py:371-444 | an armed status is of a set the pointer commits to under a trusted bundle; unarmed exactly without a pointer |
| `EpochCommitment.PointerPinsTheSet` | impls/python/milpa/epoch_commitment.py:425-444 | two clean sets a pointer commits to are equal, or their own two preimages differ and both have the pointer for a digest |
| `EntryTrust.EvaluateEntry` | impls/python/milpa/entry_trust.py:578-655 | trusted exactly if the verifier trusts the pinned bundle for this identity and signer; the membership is the classified one |
| `EntryTrust.EntryGate.EnforceEntryTrust` | impls/python/milpa/entry_trust.py:870-975 | what is raised, printed and remembered; no entry is warned of twice |
| `EntryTrust.Reverify` | impls/python/milpa/cli.py:1513-1630 | the loop raises at the first dep that gives cause, else returns the number of trusted deps and has warned of the rest the policy lets pass |
| `EntryTrust.StrictPasses` | impls/python/milpa/cli.py:1579-1630 | under strict policy a dep passes exactly if it is trusted, or the registry is unarmed, or its identity is in the committed set |
| `EntryTrust.StrictReverified` | impls/python/milpa/cli.py:1579-1630 | so for every dep of a lockfile the loop got through, down to the index pointer |
| `Kdl.CheckNestingDepth` | impls/python/milpa/kdl_io.py:157-204 | one pass with two counters decides the guard on braces and comments |
| `DepDecl.KdlStrOf` | harness/dep_decl.py:71-98 | the loop prints the string that `ReadQuoted` is about: it comes back whole from the lexer, or not at all |
| `DepDecl.CanonicalSerialize` | harness/dep_decl.py:101-133 | the loops print the text that `RoundTrip` and `SerializeInjective` are about, for every edge set and version |
| `DepDecl.ParseDepDecl` | impls/python/milpa/dep_decl.py:206-291 | the loop reads the fields `RoundTrip` compares with what was printed, ignores what it does not know, and raises exactly where the document is none |
| `DepDeclRoundTrip.ReadQuoted` | harness/dep_decl.py:71-98 | a printed string is read back whole exactly if it has no code point KDL forbids and the printer leaves |
| `DepDeclRoundTrip.RoundTrip` | impls/python/milpa/dep_decl.py:206-329 | parsing what was printed gives entries, source directory and version back exactly if strings are writable and the text passes the guard, and a parse error otherwise |
| `DepDeclRoundTrip.KdlStrEnds` | harness/dep_decl.py:71-98 | a printed string tells its own end and its value, whatever is in it and whatever follows |
| `DepDeclRoundTrip.SerializeInjective` | harness/dep_decl.py:101-133 | one text is printed of one edge set and version only, for all strings, also those that cannot be parsed back |
| `DepDeclRoundTrip.BracesFailTheGuard` | impls/python/milpa/kdl_io.py:157-204 | 32 opening braces in a source directory are too many |
| `EdgeSources.PrintedEdgesComeBack` | impls/python/milpa/edge_sources.py:518-571 | what the registry's printer wrote is what the resolver gets, or exactly which error for which flaw |
| `EdgeSources.KeysIgnoreBuild` | impls/python/milpa/edge_sources.py:719-722 | cache keys are equal exactly for equal origins and versions of equal precedence |
| `EdgeSources.EdgeCache.ResolveEdges` | impls/python/milpa/edge_sources.py:654-734 | a call on the object seals and returns as the run properties say: once sealed, never recomputed, and nothing sealed by a raise |
| `EdgeSources.CacheGrows` | impls/python/milpa/edge_sources.py:719-734 | over any calls the cache only grows |
| `EdgeSources.CallSeals` | impls/python/milpa/edge_sources.py:719-734 | a call that raises changes nothing, one that does not is sealed for good |
| `EdgeSources.FirstSuccessSettles` | impls/python/milpa/edge_sources.py:671-678 | later calls for a key get the first success, whatever their name, context and sources |
| `EdgeSources.CacheIsTransparent` | impls/python/milpa/edge_sources.py:719-734 | cached and uncached runs agree exactly if no later call for a key disagrees with an earlier success |
| `EdgeTerms.DerivedName` | impls/python/milpa/edge_sources.py:1006-1030 | a URL has a name exactly if a '/' is left before trailing ones, with a component after it that is not empty without `.git` and has no `..`; the name is that last component; `.git` besides |
| `EdgeTerms.DotGitIsAName` | impls/python/milpa/nimble.py:403-423 | the URL `.git` is its own name; that it is the only one without a '/' that has any is `DerivedName` |
| `EdgeTerms.EdgesetToTerms` | impls/python/milpa/edge_sources.py:742-947 | the loop with its four collections returns the terms, names and predicates the lemmas below characterize, or raises if some variable is malformed |
| `EdgeTerms.OneTermPerVariable` | impls/python/milpa/edge_sources.py:831-943 | terms stand for the entries that bring up a variable first, in order, with their ranges; names go with them |
| `EdgeTerms.TermsAreDistinct` | impls/python/milpa/edge_sources.py:841-844 | no variable has two terms, none is missing |
| `EdgeTerms.ConditionsKept` | impls/python/milpa/edge_sources.py:888-945 | every non-empty predicate list is kept for its variable, in authored order, and nothing else |
| `EdgeTerms.EdgesetToBfsDeps` | impls/python/milpa/edge_sources.py:950-1003 | every entry becomes a dependency, or a malformed constraint raises |
| `EdgeTerms.SearchCoversTerms` | impls/python/milpa/edge_sources.py:831-1003 | the variables of the dependencies are those of the terms and, beyond them, exactly those of entries that make no term |
| `Redirects.HeadersAlongChain` | impls/python/milpa/bounded_http.py:129-169 | what every hop sends, given the first request's headers |
| `Redirects.AuthorizationAlongChain` | impls/python/milpa/bounded_http.py:119-169 | a hop carries Authorization exactly if the first did and every URL so far has the first one's origin |
| `Redirects.RedirectHandler` | impls/python/milpa/bounded_http.py:151-169 | the handler makes a fresh request without Authorization exactly on a change of origin, by deleting in place, and leaves the old one as it was |
| `Redirects.FollowedExactly` | impls/python/milpa/bounded_http.py:53-58 | an otherwise followable redirect is followed exactly if fewer than ten distinct URLs were redirected to so far, and its own fewer than four times |
| `Redirects.TargetsWithinLimits` | impls/python/milpa/bounded_http.py:53-58 | every chain is redirected to at most ten distinct URLs, to each at most four times, and at most ten times if to none twice |
| `Redirects.GoesBeyondExactly` | impls/python/milpa/bounded_http.py:53-58 | whether a chain goes beyond any number of redirects, as a condition on the answers alone |
| `Redirects.CapIsKeptExactly` | impls/python/milpa/bounded_http.py:53-58 | the documented cap of ten hops is kept exactly if the answers ask for no more, or the first ten targets all differ, or one of the first eleven comes a fifth time |
| `Redirects.ChainsEnd` | impls/python/milpa/bounded_http.py:53-58 | every chain ends after 37 redirects at the latest |
| `Redirects.LongChainsExist` | impls/python/milpa/bounded_http.py:53-58 | and some go on that long |
| `BoundedHttp.AnyChunking` | impls/python/milpa/bounded_http.py:268-281 | however a body arrives in pieces, it is that body, and ends by itself, by a lost connection or by an incomplete read as it does |
| `BoundedHttp.StreamCapped` | impls/python/milpa/bounded_http.py:256-281 | the sink holds the first bytes of the body within the cap; a body that fits is all in it, and the outcome is as it ends; over the cap only for a body that is |
| `BoundedHttp.HeaderIsCaseInsensitive` | impls/python/milpa/bounded_http.py:65-84 | a header is found in any spelling, with the value of such an item |
| `BoundedHttp.SendRequest` | impls/python/milpa/bounded_http.py:339-433 | a response means everything is in the sink, within the cap, as long as declared, and when there is one; and when a failing body raises what is not caught |
| `ArtifactCache.ErrorCauses` | impls/python/milpa/dep_decl_store.py:281-305 | summary of cases: errors come from the server or the cache directory only, and unverified fetched bytes are never healed over |
| `EntryTrust.RaisesExactly` | impls/python/milpa/entry_trust.py:870-970 | summary of cases: a raise is for a post-epoch entry under strict policy that is not trusted, but for a break-glass case |
| `EdgeSources.AttestationHolds` | impls/python/milpa/edge_sources.py:579-651 | summary of cases: an attested package gets attested edges or their error, but for an unreachable artifact without strictness; without attestation, or against an override, the tree decides |

## Left out

- Sigstore, Fulcio and Rekor verification and bundle parsing: a verifier is any function.
- The solver, the search itself, version ranges, the lockfile, the registry index and the manifest parser: only what the modelled code calls of them, as functions or small datatypes.
- `compute_content_hash`: the disk walk that yields the entries; a tree in the store model is its walk.
- The flag filter, the `.nimble` scan and the `milpa.kdl` projection: edge sources are functions of a name and a context.
- `parse_sidecar_payload`: reading the JSON of a sidecar is a function; what is done with the identities is modelled.
- `parse_kdl`: the KDL library is not part of this model; its lexer and parser are written for nodes, strings, natural numbers, annotations, properties and blocks, which is what the printer emits.
- `DepDecl.ParseDepDecl`: takes text, not bytes, so undecodable UTF-8 is not modelled, nor are negative schema versions.
- `EpochCommitment.DigestOfSet`: hashes texts; their UTF-8 encoding, which is one to one, is not spelled out.
- `Cas.StoreSafe`: says nothing of power loss, of processes that change the store other than by `admit`, or of `is_dir` failing; a scratch directory is its call's own because a uuid names it.
- `ArtifactCache.CacheSafe`: is about one pin; a crash is a process stopping between operations, not the machine losing writes.
- `ArtifactStore.HttpArtifactStore.Get`: takes the server's answer as given; how `bounded_http` comes by it is `BoundedHttp`.
- `EdgeTerms.EdgesetToTerms`: takes the binding state as a value, since asking for bound keys leaves it as it is; a range is named by its constraint text.
- `Redirects.AuthorizationAlongChain`: takes URLs as parsed; how `urlsplit` and `urljoin` take strings apart is not modelled, nor are headers urllib adds itself.
- `BoundedHttp.SendRequest`: a sink that is a path is a sink that starts empty; failing to open it is not told from failing to write. What an incomplete read had of the body is not part of what arrived.
- `EntryTrust.EntryGate.EnforceEntryTrust`: the texts of warnings and hints, and the reading of the break-glass variable, are left out.
- `default_store`, `_clear_dest` on directories, `index_base_url`, the file-based stores, `entry_bundle_store.py`, `check_registry_shadow`, `check_epoch_ratchet_requirement`: single decisions, or thin instances of what is modelled.
- The rest of `cli.py`, the conformance runner and the fetchers: orchestration.
