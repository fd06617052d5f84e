# Models of BitBake's datastore and its neighbours

The project models parts of an embedded Linux build tree and proves what
they promise. The main part is BitBake's variable datastore
(`data_smart.py`) with the dependency computation on top of it (`data.py`).
Around it stand smaller parts that each have a real specification.

**The datastore.** A datastore is a chain of copy-on-write layers with
conditional variants of variables (`V:a:b`), queued `:append`, `:prepend` and
`:remove` operations, recursive `${VAR}` expansion, an expansion cache, and a
list of active overrides that is itself computed from the store.

- `Text`, `Wrappers`: the string operations and result types used.
- `Overrides`, `OverridesProperties`: the loop that chooses a variant. It
  terminates; it chooses a variant exactly when one is active if, and only if,
  no override name starts with another one. `OverrideWinner`: which one it chooses.
- `Store`, `Steady`: what the value of a variable is, as a function of the
  contents, the override list and a recursion depth, with no cache and no
  layers. `ReadGraph`: what a read goes through, and that it succeeds exactly
  when no chain of reads comes back to a name. `ReadValues`, `Removals`: the same value
  told without these functions, from the parts of the text and the words removed.
- `Updates`: what writes do to the contents. `OperationNames`, `QueuedReads`,
  `VariantRecords`: which names queue an operation, what reading gives after it, and
  that deleting a variant undoes assigning it. `Layers`: the layers, and the list
  objects in them, which copies of a datastore share.
- `OverrideLists`, `LiveReads`, `CacheContents`, `SteadyCaches`, `AssignedCache`: the
  lists that evaluating OVERRIDES goes through, what holds under every list that
  may be in force, and which entries reads and assignments leave in the cache.
- `Failures`, `WriteFailures`: for which contents, and at which depths, a read or a
  write may end in an exception.
- `Datastore`: the class `DataSmart`, whose methods are proved to compute those
  functions, to keep the cache right, and to find a list that is a fixed point
  within five rounds. What a method needs to know of the cache is in its ghost
  argument: `RIGHT` when the entries are right, `ANY` when nothing is known.
- `DatastoreProperties`, `DatastoreRuns`, `CopyIsolation`: cached reads agree with
  fresh ones; runs of reads and writes keep cache and list right; writes to one
  datastore do not show in another one with the same layers and lists.
- `StaleReads`, `StaleInputs`, `StaleDepths`, `StaleRuns`, `ListTracking`: exactly
  when the cache is right after an assignment and the list after any, with inputs
  for which they are not, and runs that get through and show it.
- `Sticky`: for exactly which names an assignment lasts.

A value is a sequence of characters and references. A computation that may
recurse takes the depth that the interpreter allows as a number; a read of the
specification that is deeper than that has no result. A method that returns an
error because of an exception makes no promise about the datastore after it, but
says for which contents that may happen.

**Dependencies and signatures.** `Reachability`, `NameOrder`, `Dependencies`,
`Signature`, `SignatureProperties`: two worklists visit exactly the variables a
task depends on, the second one over sets that are shared and trimmed in place,
and the list a signature is made of says everything about a task's expanded
value except which of the variables it uses are defined.

**The multi-process cache.** `MultiProcessCache` has the operations,
`CacheProtocol` their steps under interleaving: no saved entry is lost.
`VirtualNames` has the naming scheme of recipe variants.

**Others.** `TaskGraph` (tasks between two tasks), `Fifo` (framing of log
messages), `Inotify` and `Notifier` (a queue that grows while it is drained),
`InotifyRecords` and `Coalescing` (event records and their coalescing),
`CowDict` (copy-on-write dictionaries with mutable values), `Relocate` (patching
paths inside executables), `YamlMerge` and `YamlObjects` (merging settings).

## Where the code differs from its description

The model follows the code. In these places the code does not do what its
comments, documentation or structure suggest, and a lemma says when:

- An active variant can be missed when one override name starts with another,
  whatever variable it is a variant of (`OverridesProperties.PickCanMiss`):
  `replace` also removes the beginning of a longer component.
- Queueing an operation on a lower-case name without a colon records that name
  as a variant of the name without its last character (`Sticky.DoesNotStay`):
  line 583 tests the whole variable name, which has a colon, and not the base.
- A variant whose overrides have a capital, or no small letter behind the last colon,
  is recorded by an assignment and stays recorded when it is deleted
  (`VariantRecords.StaysRecordedIff`): recording looks at the first character of each
  override, and forgetting at the letters of the whole suffix.
- Which variant is chosen can depend on the order of recording when a suffix names an
  override twice (`OverrideWinner.TwiceNamedIsByOrder`). Where none does, and no
  override name starts with another one, it cannot (`OverrideWinner.AnyOrder`).
- `setVar` empties the expansion cache first and then fills it again, on two
  paths: it computes the override list, to find active variants, before the new
  content is stored (lines 600-602), and it expands the new value, to track what
  OVERRIDES depends on, under a list that it then drops (lines 624-636). The cache
  is right for a list exactly when every name cached on one of them reads under
  that list as it did when it was cached (`StaleReads.Assign`,
  `StaleReads.AssignDefault`); where the second path starts from what the first one
  left wrong, this is enough and in part needed. For the one list that a copy of the datastore
  computes, this says exactly when every entry is what reading on a copy gives
  (`DatastoreProperties.CompareWithCopy`). Each path has an input
  (`StaleInputs.FirstInput`, `StaleInputs.SecondInput`), and a run of assignments on
  a new datastore that ends without an exception, after which a variable reads as
  something that it is not (`StaleRuns.FirstRun`, `StaleRuns.SecondRun`).
- The loop that tracks what OVERRIDES depends on reads the names it has found
  expanded (line 632), and so never finds what their values refer to. A variable
  that OVERRIDES refers to through another one can be assigned without the list
  being computed anew (`StaleRuns.ThirdRun`). A list outlives every assignment to
  untracked names exactly when all names that OVERRIDES is read through are
  tracked (`ListTracking.LastsIffTracked`).
- An undefined variable and an empty one are recorded alike in a signature
  (`SignatureProperties.UndefinedLooksEmpty`).
- A plain value never overwrites a dictionary when settings are merged, although
  the function says it overwrites at every level (`YamlMerge.OverwritesIffNoClash`).
- An immutable value anywhere in a copy-on-write chain hides a mutable value set
  later (`CowDict.SetAndReadBack`).
- Coalescing takes an event without a name and one named by two quotes for the
  same (`Coalescing.KeysCoincideIff`).
- A class name that starts with a colon is lost by `variant2virtual`
  (`VirtualNames.VariantNameIsName`).
- `tasksbetween` gives nothing for a recipe whose only task is the end
  (`TaskGraph.FindBetween`).

## Model

| member | source | states |
|---|---|---|
| `Overrides.StripAndMatch` | poky/bitbake/lib/bb/data_smart.py:800-808 | one override against a snapshot of the keys in place of the dictionary: the loop leaves what stripping and matching each key in order leaves; for keys without repeated components that is what `OverrideWinner.OverridePasses` says without the loop |
| `Overrides.Resolve` | poky/bitbake/lib/bb/data_smart.py:784-808 | the whole loop terminates for every set of variants and every list, and chooses what the rounds of the specification choose; which variant that is, `OverrideWinner.Winner` says |
| `Overrides.VisitShrinks` | poky/bitbake/lib/bb/data_smart.py:800-808 | one key against one override: keys stay distinct, no variant comes from elsewhere, the total key length never grows and falls with every strip, and nothing is lost without being chosen |
| `Overrides.RoundShrinks` | poky/bitbake/lib/bb/data_smart.py:796-808 | the same for a whole round over the list: the reason the loop terminates |
| `Overrides.RemoveShortens` | poky/bitbake/lib/bb/data_smart.py:804 | taking the pattern out of a key that ends with it makes the key shorter |
| `Overrides.CollectFacts` | poky/bitbake/lib/bb/data_smart.py:786-794 | the collected dictionary has exactly the suffixes of the active variants, each with the name of one of them |
| `OverridesProperties.PickIsActive` | poky/bitbake/lib/bb/data_smart.py:784-810 | whatever is chosen is the name of a variant whose components are all in the list |
| `OverridesProperties.LastComponent` | poky/bitbake/lib/bb/data_smart.py:801 | the suffix test of the loop holds exactly when the override is the last component of several |
| `OverridesProperties.RemoveFromKey` | poky/bitbake/lib/bb/data_smart.py:804 | when no component merely starts with the override, the replacement removes whole components |
| `OverridesProperties.PickSelectsWhenPrefixFree` | poky/bitbake/lib/bb/data_smart.py:784-810 | with no override name a prefix of another, an active variant is always chosen |
| `OverridesProperties.PickCanMiss` | poky/bitbake/lib/bb/data_smart.py:801-805 | for every list in which one override name starts with another and every variable there is a variant, named and recorded as an assignment names and records it, that is active and is not chosen: the textual replacement damages the key |
| `OverridesProperties.PickSelectsIffPrefixFree` | poky/bitbake/lib/bb/data_smart.py:784-810 | for all recorded variants, one is chosen if and only if one is active: exactly for the lists in which no override name starts with another |
| `OverridesProperties.SingleNameWinner` | poky/bitbake/lib/bb/data_smart.py:796-808 | with single-name overrides the winner is an active variant whose name first occurs latest in the list |
| `OverridesProperties.SingleNameWinnerIsLast` | poky/bitbake/lib/bb/data_smart.py:796-808 | with distinct override names, no variant is recorded for a name that stands after the winner |
| `OverrideWinner.UsedNext` | poky/bitbake/lib/bb/data_smart.py:796-808 | when the components of a suffix are used up: the last one left, at the next step whose override it is |
| `OverrideWinner.AtRound` | poky/bitbake/lib/bb/data_smart.py:796-797 | the step at position j of round q is for the j-th override of the list |
| `OverrideWinner.KeyStep` | poky/bitbake/lib/bb/data_smart.py:801-808 | for a key of distinct components: an override strips it exactly if it is the last of several and leaves the ones before, and matches it exactly if it is the only one |
| `OverrideWinner.OverridePasses` | poky/bitbake/lib/bb/data_smart.py:800-808 | one override against all keys, whatever their order: those it strips or matches go, each shortened key has the name of the longer one, overwriting what was there, and the key equal to the override is chosen |
| `OverrideWinner.Winner` | poky/bitbake/lib/bb/data_smart.py:784-808 | for lists without a name that is the beginning of another, and suffixes without a repeated component: the variant chosen is the last one recorded with its suffix, and going round the list uses its suffix up after that of every other active variant, or in the same step with the later step of its own |
| `OverrideWinner.WinsIsOneWay` | poky/bitbake/lib/bb/data_smart.py:796-808 | of two suffixes at most one beats the other |
| `OverrideWinner.WinnerIsPicked` | poky/bitbake/lib/bb/data_smart.py:784-808 | conversely, the last active variant recorded with a suffix that beats all others is the one chosen |
| `OverrideWinner.AnyOrder` | poky/bitbake/lib/bb/data_smart.py:784-808 | the same variants recorded in any order give the same choice |
| `OverrideWinner.LaterOverrideWins` | poky/bitbake/lib/bb/data_smart.py:784-808 | of the variants stem:o1 and stem:o2, with no other active, the one whose last override first occurs later in the list is chosen, in whatever order they were recorded |
| `OverrideWinner.TwiceNamedIsByOrder` | poky/bitbake/lib/bb/data_smart.py:800-804 | with an override named twice in a suffix this ends: for z:o and z:o:o under the list o, z the variant recorded last is chosen |
| `Store.ReadsOne` | poky/bitbake/lib/bb/data_smart.py:769-894 | a read has one result, however deep the recursion was allowed to go |
| `Store.EvalMore` | poky/bitbake/lib/bb/data_smart.py:769-894 | allowing deeper recursion never changes the result of a read that succeeded |
| `Store.KindsAgree` | poky/bitbake/lib/bb/data_smart.py:849-889 | a read of the unexpanded value with its parser and a read of the expanded value leave the same parser, although the removals are tested on different values |
| `Store.EvalUnresolved` | poky/bitbake/lib/bb/data_smart.py:104-114 | a reference left in an expanded value is to an undefined variable |
| `Store.ExpandSettles` | poky/bitbake/lib/bb/data_smart.py:442-474 | the expansion loop reaches its result in the first pass, and the references it reports are those of the value and of the result |
| `Store.SecondPassIsIdle` | poky/bitbake/lib/bb/data_smart.py:446-463 | a second pass that succeeds changes nothing, so the loop ends |
| `Store.NoWordIsEmpty` | poky/bitbake/lib/bb/data_smart.py:867-887 | removing words from an empty value leaves it empty and reports no removal |
| `Store.ReadsBy` | poky/bitbake/lib/bb/data_smart.py:769-894 | how variant, content, queued operations, expansion and removals make up the result of a read |
| `ReadValues.ExpansionIsSpelled` | poky/bitbake/lib/bb/data_smart.py:104-114 | an expansion, part by part: characters stand for themselves, a reference for the value that reading it gives, or for itself where that is undefined; the references reported are those of the text and of the result; the variable itself is not among the former |
| `ReadValues.ReadIsSpelled` | poky/bitbake/lib/bb/data_smart.py:849-889 | a whole read without naming the functions that compute it: what the parts of the unexpanded text stand for, with the words of the applying removals cut out |
| `ReadValues.ListOfNames` | poky/bitbake/lib/bb/data_smart.py:496 | the override list read back from its names between colons; an undefined OVERRIDES gives the list of the empty name |
| `Removals.SpacesAre` | poky/bitbake/lib/bb/data_smart.py:33 | which characters separate words |
| `Removals.WeaveIsOne` | poky/bitbake/lib/bb/data_smart.py:33 | a text is words and single spaces between them in one way only |
| `Removals.CutWords` | poky/bitbake/lib/bb/data_smart.py:867-887 | cutting words out keeps every space and every other word, in order |
| `Removals.ReadCuts` | poky/bitbake/lib/bb/data_smart.py:856-889 | for any content and any active removals, also those of the chosen variant: the words of the value read are those of the expansion without the words of the removals that apply, in order; all spaces stay; a value without such a word is unchanged; the removals reported are those of which a word stood there |
| `Layers.Layer.Find` | poky/bitbake/lib/bb/data_smart.py:513-522 | lookup along the chain of layers gives the entry of the flattened contents |
| `Layers.Layer.Put` | poky/bitbake/lib/bb/data_smart.py:717 | storing in a layer overrides the flattened contents at that key only, and every layer still finds its lists as it left them |
| `Layers.Layer.ShadowCopy` | poky/bitbake/lib/bb/data_smart.py:524-533 | a layer gets its own flags, holding the same list objects as the ones below; nothing that is looked up changes |
| `Layers.Layer.Queue` | poky/bitbake/lib/bb/data_smart.py:563-569 | an operation is put on a copy of the list found, in this layer; lists of other layers are not touched |
| `Layers.VariantList.Remove` | poky/bitbake/lib/bb/data_smart.py:726-731 | the first occurrence is taken out of the list in place, and nothing happens when there is none |
| `Datastore.DataSmart.constructor` | poky/bitbake/lib/bb/data_smart.py:416-434 | a new datastore is empty, coherent, and has no list computed |
| `Datastore.DataSmart.NeedOverrides` | poky/bitbake/lib/bb/data_smart.py:486-506 | when it returns, the list is what OVERRIDES evaluates to under itself, whatever the cache held before; started from a right cache it is the end of a chain of at most five rounds that each evaluate OVERRIDES under the previous list, and it fails only if five rounds change the list each time or OVERRIDES cannot be read at that depth under some list; the cache then holds what OVERRIDES was read through, and agrees with the list |
| `DatastoreProperties.ReachedIsOne` | poky/bitbake/lib/bb/data_smart.py:486-506 | the rounds from no list on reach one list at most, so that every copy computes the same |
| `OverrideLists.ListSettles` | poky/bitbake/lib/bb/data_smart.py:492-505 | a list that OVERRIDES gives with no override active and again under that list is the one reached, and the rounds do not keep changing |
| `Datastore.DataSmart.ListRound` | poky/bitbake/lib/bb/data_smart.py:492-505 | one round: the guess and its evaluation, and whether they agree |
| `Datastore.DataSmart.GuessList` | poky/bitbake/lib/bb/data_smart.py:493-500 | the first half of a round starts from OVERRIDES with nothing active, or from the value left in the cache, and clears the cache |
| `Datastore.DataSmart.EvaluateList` | poky/bitbake/lib/bb/data_smart.py:501 | OVERRIDES is read under the list now set, or taken from the cache |
| `Datastore.DataSmart.ComputeList` | poky/bitbake/lib/bb/data_smart.py:486-506 | the loop over the rounds, with the list it was computed to before, if the cache stands for one |
| `Datastore.DataSmart.SubstituteOne` | poky/bitbake/lib/bb/data_smart.py:104-114 | what one reference stands for under every list that may be in force, or why it has none |
| `Datastore.DataSmart.SubstitutePass` | poky/bitbake/lib/bb/data_smart.py:446-463 | one substitution pass computes the pass of the specification under every list that may be in force, keeps a right cache right, caches every reference, and fails only where the specification fails: at that depth under a computed list, and else at the depth that is left when what computing the list needs is set aside |
| `Datastore.DataSmart.ExpandWithRefs` | poky/bitbake/lib/bb/data_smart.py:442-474 | with a right cache the loop computes the expansion of the specification, with its references, ends after two passes, and fails only where the specification has no expansion; with any cache the references of the value are reported |
| `Datastore.DataSmart.ChooseVariant` | poky/bitbake/lib/bb/data_smart.py:784-808 | the variant is the one that the computed list selects |
| `Datastore.DataSmart.ReadVariant` | poky/bitbake/lib/bb/data_smart.py:784-814 | the variant chosen under the computed list is read unexpanded, with its removals |
| `Datastore.DataSmart.AddAppends` | poky/bitbake/lib/bb/data_smart.py:823-834 | the applicable appends are put behind the value in order |
| `Datastore.DataSmart.AddPrepends` | poky/bitbake/lib/bb/data_smart.py:836-848 | the applicable prepends are put before the value, each before the last |
| `Datastore.DataSmart.AssembleRaw` | poky/bitbake/lib/bb/data_smart.py:816-848 | the unexpanded value is the one of the specification under every list that may be in force |
| `Datastore.DataSmart.CollectRemoves` | poky/bitbake/lib/bb/data_smart.py:856-865 | the removals to apply are those of the variant and the active ones of the variable, and none for an empty value |
| `Datastore.DataSmart.ExpandRemoves` | poky/bitbake/lib/bb/data_smart.py:868-871 | every removal is expanded under no variable name |
| `Datastore.DataSmart.FindRemoves` | poky/bitbake/lib/bb/data_smart.py:856-871 | exactly the removals that apply, each with its expansion |
| `Datastore.DataSmart.ApplyRemoves` | poky/bitbake/lib/bb/data_smart.py:867-889 | the parser is left with the words that were not removed and the removals that took some away; what is left of a text, `Removals.ReadCuts` says |
| `Datastore.DataSmart.ReadRaw` | poky/bitbake/lib/bb/data_smart.py:784-848 | the unexpanded value is found without looking into the cache, so it is right even when the cache is not |
| `Datastore.DataSmart.Compute` | poky/bitbake/lib/bb/data_smart.py:769-894 | a read that does not look up its own name gives the result of the specification under every list that may be in force if the cache was right, stores the parser, keeps what was known of the cache, and fails only where the specification has no result at that depth, or the list cannot be computed |
| `Datastore.DataSmart.GetVar` | poky/bitbake/lib/bb/data_smart.py:769-894 | a cached value is returned as it is, whatever it is; otherwise the name is cached with the value returned, which is that of the specification if the cache was right; a right cache stays right, and a list computed on the way is a fixed point |
| `Datastore.DataSmart.GetRaw` | poky/bitbake/lib/bb/data_smart.py:656-657 | the unexpanded value is that of the contents, whatever the cache holds |
| `Datastore.DataSmart.RecordVariant` | poky/bitbake/lib/bb/data_smart.py:644-649 | the variant is put behind the others in a list of this datastore alone: a list that a copy shares is replaced and not changed |
| `Datastore.DataSmart.RecordVariants` | poky/bitbake/lib/bb/data_smart.py:638-654 | the loop records the name for every shorter base, as the specification does |
| `Datastore.DataSmart.ForgetVariant` | poky/bitbake/lib/bb/data_smart.py:724-731 | the variant is taken out of a list of this datastore alone |
| `Datastore.DataSmart.ForgetVariants` | poky/bitbake/lib/bb/data_smart.py:720-736 | the loop takes the name out for every shorter base, as far as the overrides are lower case; `VariantRecords.ForgottenFor` says for which exactly |
| `Datastore.DataSmart.DelVar` | poky/bitbake/lib/bb/data_smart.py:711-736 | deletion marks the entry in this layer, forgets its variants, and empties the cache; `VariantRecords.DeletedIsForgotten` says what is left |
| `Datastore.DataSmart.TrackReferences` | poky/bitbake/lib/bb/data_smart.py:624-636 | the references of the value are tracked, beside them only undefined names, and the list is dropped; a cache filled while there was no list is right, and one that was right under the list before is extended by exactly what was read under it; from such a cache tracking fails only if the value has no expansion, or a name that it refers to, directly or through what a reference expands to, cannot be read |
| `Datastore.DataSmart.FollowReferences` | poky/bitbake/lib/bb/data_smart.py:628-635 | the tracking loop ends; with a right cache after two rounds, since all names beyond the first are undefined; and it fails then only if a name reached cannot be read at that depth |
| `Datastore.DataSmart.TrackRound` | poky/bitbake/lib/bb/data_smart.py:629-634 | one round tracks the pending names and finds what their expanded values still refer to: undefined names, and after the first round none |
| `Datastore.DataSmart.LeftReferences` | poky/bitbake/lib/bb/data_smart.py:629-634 | expanding an expanded value again reports only undefined names, and none after that |
| `Datastore.DataSmart.ShadowCopy` | poky/bitbake/lib/bb/data_smart.py:524-533 | copying an entry into this layer changes nothing that is looked up |
| `Datastore.DataSmart.DropActive` | poky/bitbake/lib/bb/data_smart.py:600-611 | the active variants are deleted under the computed list; the cache is empty, or, when no variant was active and the list was computed here, holds what OVERRIDES was read through |
| `Datastore.DataSmart.SetPlain` | poky/bitbake/lib/bb/data_smart.py:590-622 | an assignment of any value makes the contents those of the specification, leaves list, cache and tracked names as described for setVar, and fails for the reasons given there |
| `Datastore.DataSmart.SetVar` | poky/bitbake/lib/bb/data_smart.py:538-622 | old syntax is refused unchanged; otherwise, for any value and any cache before: the new contents (`QueuedReads` and `ReadValues` say what reads then give), the list in force, what both filling paths leave in the cache, and a lower and an upper bound of the tracked names; besides old syntax it fails only if active variants are to be deleted and no list can be computed from the contents without queued operations, or if OVERRIDES depends on the name and the references of the new value cannot be followed |
| `Datastore.DataSmart.QueueOp` | poky/bitbake/lib/bb/data_smart.py:563-588 | an operation name queues its operation and records its base; it fails only if OVERRIDES depends on the base and the references of the value cannot be followed |
| `Datastore.DataSmart.SetVarFlag` | poky/bitbake/lib/bb/data_smart.py:738-760 | a text flag is stored; a default value is recorded and tracked as an assignment is; what the cache holds then; it fails only if the references of a default value cannot be followed |
| `Datastore.DataSmart.GetVarFlag` | poky/bitbake/lib/bb/data_smart.py:816-820 | a flag is read from the nearest entry |
| `Datastore.DataSmart.CreateCopy` | poky/bitbake/lib/bb/data_smart.py:976-996 | a copy is a new layer whose contents are those of the original, with the same list objects, no list computed and an empty cache |
| `Datastore.DataSmart.KeyList` | poky/bitbake/lib/bb/data_smart.py:1022-1039 | each name is met once, at its nearest entry, unless it is deleted there or passed over |
| `Datastore.DataSmart.Iterate` | poky/bitbake/lib/bb/data_smart.py:1019-1054 | iteration gives exactly once each name whose nearest entry is not empty or that has an active variant |
| `DatastoreProperties.SteadyFixedPointIsUnique` | poky/bitbake/lib/bb/data_smart.py:486-506 | in a steady store OVERRIDES has one fixed point, whatever list it is evaluated under |
| `DatastoreProperties.Recompute` | poky/bitbake/lib/bb/data_smart.py:976-996 | reading on a copy computes a value from the layers alone, under a list that the rounds reach or under every list, and fails only where the specification does |
| `DatastoreProperties.CompareWithCopy` | poky/bitbake/lib/bb/data_smart.py:778-779 | a copy reads the value that is cached if and only if that is the value of the variable under the list that a copy computes |
| `DatastoreProperties.CachedReadIsFreshRead` | poky/bitbake/lib/bb/data_smart.py:778-779 | in a steady store a read through the cache gives what recomputing it on a copy gives |
| `DatastoreProperties.WorksIffAcyclic` | poky/bitbake/lib/bb/data_smart.py:769-894 | without removals a variable can be read, at any depth beyond the number of names, if and only if no chain of reads from it comes back to a name; otherwise at no depth |
| `DatastoreProperties.ReadSucceeds` | poky/bitbake/lib/bb/data_smart.py:769-894 | the same of a read through the cache under a computed list |
| `ReadGraph.DepthNeeded` | poky/bitbake/lib/bb/data_smart.py:769-894 | the depth of recursion that a read needs is the length of the longest chain of reads: the chosen variant and the references of the unexpanded value |
| `ReadGraph.ReadsIffAcyclic` | poky/bitbake/lib/bb/data_smart.py:769-894 | some depth gives a variable a result if and only if no chain of reads from it comes back to a name |
| `ReadGraph.EvalRaw` | poky/bitbake/lib/bb/data_smart.py:784-848 | the unexpanded value does not depend on expansion or depth |
| `CopyIsolation.DoWrite` | poky/bitbake/lib/bb/data_smart.py:538-767 | one write changes nothing that any store looks up or iterates that does not stand on the layer written, whether it succeeds or fails |
| `CopyIsolation.DoWrites` | poky/bitbake/lib/bb/data_smart.py:524-533 | any run of assignments, deletions and flag writes does to one store what the specification says, up to the first write that may fail, and changes for no other store what it looks up, its recorded variants or its lists, although they hold the same list objects |
| `CopyIsolation.WritesToCopy` | poky/bitbake/lib/bb/data_smart.py:976-996 | a copy is made and any run of writes done to it: the original, the layers below and every other store are as they were |
| `CacheContents.ThroughLeast` | poky/bitbake/lib/bb/data_smart.py:104-114 | what a read goes through is within every set of names that is closed under reading |
| `CacheContents.ExtendsExactly` | poky/bitbake/lib/bb/data_smart.py:769-894 | without removals the cache holds after reads from a right one exactly the names read through |
| `CacheContents.RightRefsIn` | poky/bitbake/lib/bb/data_smart.py:104-114 | in a right cache the references left in values are to names that are cached too |
| `AssignedCache.RightIfAlike` | poky/bitbake/lib/bb/data_smart.py:600-636 | a cache filled on both paths of an assignment is right under a list if the names cached read alike there |
| `AssignedCache.AlikeIfRight` | poky/bitbake/lib/bb/data_smart.py:600-636 | and only if they do, for every list for which it is right, where the second path started from a right cache |
| `StaleReads.Assign` | poky/bitbake/lib/bb/data_smart.py:538-636 | for every assignment that succeeds, whatever the store, and for every list: the cache is right under it if and only if the names cached by computing the list and by tracking read there as they did when they were cached (where tracking started from a wrong cache, if, and in part only if); without removals every entry is what a copy reads if and only if this holds, under the list that copies compute, of names known from the contents before; it fails for the reasons given for setVar |
| `StaleReads.AssignDefault` | poky/bitbake/lib/bb/data_smart.py:738-760 | for every default value that is set and for every list: the cache is right under it if and only if the names that tracking read under the list that is then dropped read alike there; if nothing was tracked under a list, every entry is what a copy reads |
| `StaleReads.AssignedIsRaw` | poky/bitbake/lib/bb/data_smart.py:590-622 | after an assignment the unexpanded value is what was assigned, under every list |
| `ReadValues.AssignedWhileParsing` | poky/bitbake/lib/bb/data_smart.py:590-620 | while parsing, an assignment replaces the content and nothing else: queued operations, default, flags and recorded variants stay |
| `ReadValues.AssignedAfterParsing` | poky/bitbake/lib/bb/data_smart.py:593-620 | otherwise it takes away what is queued and empties exactly the active variants; default, flags and all other variables stay |
| `ReadValues.AssignedIsBase` | poky/bitbake/lib/bb/data_smart.py:816-818 | without a chosen variant and queued additions the value is what was assigned |
| `ReadValues.QueueAndAssign` | poky/bitbake/lib/bb/data_smart.py:563-620 | while parsing, an assignment and an operation queued on the same variable can be exchanged |
| `ReadValues.DefaultIsHidden` | poky/bitbake/lib/bb/data_smart.py:816-820 | a default changes nothing that is read where a value is assigned |
| `ReadValues.DefaultCounts` | poky/bitbake/lib/bb/data_smart.py:738-760 | where none is, a default is read and recorded as an assignment while parsing is |
| `ReadValues.FlagIsKept` | poky/bitbake/lib/bb/data_smart.py:754-755 | any other flag is stored beside those there and touches no value |
| `OperationNames.FindKeywordIs` | poky/bitbake/lib/bb/data_smart.py:29-30 | a name queues an operation exactly if it is a base, a keyword, and nothing or a colon and text without capitals; and it is the one with the shortest base |
| `OperationNames.OperationIsFound` | poky/bitbake/lib/bb/data_smart.py:29-30 | for a base without keyword: base:append, base:prepend and base:remove, with any condition without capitals or none, have that base, keyword and condition |
| `OperationNames.OrdinaryName` | poky/bitbake/lib/bb/data_smart.py:562-563 | a name without a keyword is assigned |
| `OperationNames.CapitalIsNoCondition` | poky/bitbake/lib/bb/data_smart.py:30 | so is one with a capital behind its only keyword |
| `OperationNames.OldSyntaxIs` | poky/bitbake/lib/bb/data_smart.py:541-547 | exactly which names are refused |
| `QueuedReads.AppliesIff` | poky/bitbake/lib/bb/data_smart.py:826-831 | an operation applies exactly if every name of its condition is in the list |
| `QueuedReads.AppendIsRead` | poky/bitbake/lib/bb/data_smart.py:563-588 | after V:append, under any condition, the unexpanded value is w followed by the new text, with w the one before, if every name of the condition is in the list, and w otherwise |
| `QueuedReads.PrependIsRead` | poky/bitbake/lib/bb/data_smart.py:563-588 | after V:prepend it is the new text followed by w |
| `QueuedReads.RemoveIsRead` | poky/bitbake/lib/bb/data_smart.py:563-588 | after V:remove it is w; the removals that apply are those before and, if every name is in the list, the new one, and then no word of its expansion is left in the value read |
| `VariantRecords.RecordedFor` | poky/bitbake/lib/bb/data_smart.py:638-654 | a name is recorded for exactly the texts before a colon of it such that behind this colon and all later ones stands a small letter or digit, behind the names recorded before and unless it is among them |
| `VariantRecords.ForgottenFor` | poky/bitbake/lib/bb/data_smart.py:718-736 | a name is forgotten for exactly the texts before a colon of it such that no capital stands behind, and a small letter behind its last colon |
| `VariantRecords.DeletedIsForgotten` | poky/bitbake/lib/bb/data_smart.py:711-736 | after deleting a name with such overrides no list holds a variant of that name, and all others stand where they stood |
| `VariantRecords.StaysRecordedIff` | poky/bitbake/lib/bb/data_smart.py:638-736 | exactly which names stay recorded when they are assigned and then deleted |
| `VariantRecords.AssignThenDelete` | poky/bitbake/lib/bb/data_smart.py:638-736 | assigning a new variant and deleting it changes no read, of any variable under any list |
| `VariantRecords.AssignedIsChosen` | poky/bitbake/lib/bb/data_smart.py:638-654 | the first variant assigned for a variable is the one it reads exactly where its components are in the list |
| `VariantRecords.QueuedIsChosen` | poky/bitbake/lib/bb/data_smart.py:580-584 | so is one that only has an operation queued |
| `StaleReads.SetThenGet` | poky/bitbake/lib/bb/data_smart.py:538-636 | a variable read back after it was assigned has the expansion of the value assigned if the condition holds under the lists that the read may work under, unless it has none there; if it was read on the way to the list, it has the value from before |
| `StaleInputs.FirstInput` | poky/bitbake/lib/bb/data_smart.py:600-602 | a variable that OVERRIDES refers to, with an inactive variant, assigned while no list is computed: the condition holds under no list, and the variable has two values |
| `StaleInputs.SecondInput` | poky/bitbake/lib/bb/data_smart.py:624-636 | OVERRIDES assigned a reference to a variable that depends on the list: the condition does not hold under the one list that the rounds reach, and the variable has two values |
| `StaleRuns.FirstRun` | poky/bitbake/lib/bb/data_smart.py:600-602 | four assignments to a new datastore, which succeed at every depth from five on, and after which a variable reads as it was before the last |
| `StaleRuns.SecondRun` | poky/bitbake/lib/bb/data_smart.py:624-636 | assignments and a read on a new datastore, which succeed at every depth from five on, and after which a variable reads as under the list before, and not as a copy reads it |
| `StaleRuns.ThirdRun` | poky/bitbake/lib/bb/data_smart.py:628-635 | assignments and a read on a new datastore, which succeed at every depth from five on, and after which the computed list is not what OVERRIDES evaluates to |
| `ListTracking.SameRead` | poky/bitbake/lib/bb/data_smart.py:769-894 | a read depends on nothing but the names it goes through |
| `ListTracking.ListStays` | poky/bitbake/lib/bb/data_smart.py:621-636 | a computed list outlives the assignment of any value to a name that OVERRIDES is not read through |
| `ListTracking.ListEnds` | poky/bitbake/lib/bb/data_smart.py:621-636 | it does not outlive the assignment of enough text to one that it is read through |
| `ListTracking.LastsIffTracked` | poky/bitbake/lib/bb/data_smart.py:621-636 | a computed list outlives every assignment to plain names that are not tracked if and only if all plain names that OVERRIDES is read through are tracked |
| `ListTracking.AssignPlain` | poky/bitbake/lib/bb/data_smart.py:538-636 | in such a store an assignment leaves a right list or none |
| `DatastoreRuns.WriteElsewhere` | poky/bitbake/lib/bb/data_smart.py:538-767 | a write to another name, its operations or its variants changes neither the value entry of a controlling name nor whether it has variants |
| `DatastoreRuns.WriteSteadies` | poky/bitbake/lib/bb/data_smart.py:538-767 | a write that gives tracked names text that refers to names of the same kind, or goes elsewhere, leaves all of them without variants and queued operations, and changes no tracked name that it does not give something |
| `DatastoreRuns.Run` | poky/bitbake/lib/bb/data_smart.py:538-894 | after any run of reads, assignments, deletions and flag writes, in which OVERRIDES and the names it comes to depend on are given text that may refer to such names, every cache entry is what recomputing it gives, a computed list is what OVERRIDES evaluates to under it, and the tracked names are exactly those that the values given refer to; a run ends early only at an operation that may fail on the contents so far |
| `DatastoreRuns.Fresh` | poky/bitbake/lib/bb/data_smart.py:416-434 | a new datastore is one from which such a run may start, whatever the names |
| `Steady.PlainEval` | poky/bitbake/lib/bb/data_smart.py:769-894 | a variable without variants and queued operations, referring only to such variables, reads the same under every list and in every store that agrees on them |
| `Updates.RecordKeeps` | poky/bitbake/lib/bb/data_smart.py:638-654 | a recorded variant is longer than the base it is recorded for |
| `Updates.AllDeletedKeeps` | poky/bitbake/lib/bb/data_smart.py:609-611 | deleting several variables empties exactly their entries and adds no variant |
| `Updates.ActiveNamesAre` | poky/bitbake/lib/bb/data_smart.py:603-608 | the names deleted by an assignment are those of the active variants |
| `Sticky.WriteKeeps` | poky/bitbake/lib/bb/data_smart.py:538-767 | no write elsewhere changes the unexpanded value of an assigned upper-case name |
| `Sticky.RunKeeps` | poky/bitbake/lib/bb/data_smart.py:538-767 | nor does any run of such writes, under changing lists |
| `Sticky.AssignmentHolds` | poky/bitbake/lib/bb/data_smart.py:590-622 | right after a non-parsing assignment the variable has that content, no variants and no queued operations |
| `Sticky.RecordTouches` | poky/bitbake/lib/bb/data_smart.py:638-654 | recording a name adds variants only for bases before a colon in it, or for the name without its last character when it has no colon |
| `Sticky.IntruderIsChosen` | poky/bitbake/lib/bb/data_smart.py:583-584 | queueing an operation on the name with a letter added records a variant of a lower-case name, which a list then selects |
| `Sticky.DoesNotStay` | poky/bitbake/lib/bb/data_smart.py:583-584 | an assignment to a name that starts like an override is undone by a write elsewhere |
| `Sticky.StaysIff` | poky/bitbake/lib/bb/data_smart.py:538-767 | an assignment lasts through every run of writes elsewhere, under every later list, if and only if the name does not start like an override |
| `Reachability.ClosedHoldsReach` | poky/bitbake/lib/bb/data.py:389-399 | a set closed under the dependencies that are not ignored holds everything reachable |
| `Reachability.FrontierMoves` | poky/bitbake/lib/bb/data.py:391-399 | a worklist round keeps: all seen is reachable, and what is reachable from it is seen or waiting |
| `Reachability.FrontierEmpty` | poky/bitbake/lib/bb/data.py:391-399 | when nothing is waiting, exactly the reachable names are seen |
| `NameOrder.Sort` | poky/bitbake/lib/bb/data.py:430 | the sorted list of a set of names is strictly increasing and has those names |
| `NameOrder.SortedIsUnique` | poky/bitbake/lib/bb/data.py:430 | there is one such list, so the order in which sets are visited plays no part |
| `NameOrder.LessIsFirstDifference` | poky/bitbake/lib/bb/data.py:430 | the order is decided by the first position where two names differ, or by their lengths |
| `Dependencies.EvalNames` | poky/bitbake/lib/bb/data_smart.py:104-114 | every name that a read reports is mentioned in the store: the bound on which the worklist terminates |
| `Dependencies.BuildDependencies` | poky/bitbake/lib/bb/data.py:343-347 | the dependencies of a plain variable are the references its expansion reports with those given by other means; an undefined value is recorded as the empty one; it fails only where reading fails |
| `ReadValues.DependenciesAre` | poky/bitbake/lib/bb/data.py:343-347 | what a variable depends on: the references in its unexpanded text, those left in its expanded text, and what is given by other means |
| `Dependencies.EnterReachable` | poky/bitbake/lib/bb/data.py:389-399 | the worklist terminates and enters exactly the names reachable from the task without passing ignored names; it fails only when one of them cannot be read |
| `Dependencies.GenerateDependencies` | poky/bitbake/lib/bb/data.py:377-401 | exactly the tasks and the names they reach are entered, each with its own dependencies and value, under the list computed at the start; it fails only if the list has none of five rounds alike or OVERRIDES cannot be read, or a task or a name that one reaches cannot |
| `Signature.TrimSet` | poky/bitbake/lib/bb/data.py:416 | trimming a shared set in place leaves every set its dependencies with or without the ignored names, and changes no set that has none of them |
| `Signature.FollowRound` | poky/bitbake/lib/bb/data.py:420-427 | a round collects what its names depend on; the set it iterates over does not change although it may be among the sets trimmed |
| `Signature.FollowDeps` | poky/bitbake/lib/bb/data.py:416-428 | the second pass visits exactly the names reachable without passing ignored ones, each of which is there to be looked up |
| `Signature.CollectData` | poky/bitbake/lib/bb/data.py:408-435 | the list before joining is the value of the task followed by each dependency with its value |
| `Signature.DataDetermines` | poky/bitbake/lib/bb/data.py:408-435 | two such lists are equal if and only if the closures, the values of the task and the values of all its dependencies are |
| `Signature.ClosureIsUnique` | poky/bitbake/lib/bb/data.py:430 | the sorted closure of a task is one list, whatever order sets and tasks are visited in |
| `Signature.GenerateDependencyHash` | poky/bitbake/lib/bb/data.py:403-440 | for every task the closure and the list are those of the graph before any trimming, although the shared sets are changed on the way |
| `ReadGraph.ValueIsPass` | poky/bitbake/lib/bb/data_smart.py:849-889 | without removals the expanded value is one pass over the unexpanded one |
| `SignatureProperties.SameEval` | poky/bitbake/lib/bb/data_smart.py:769-894 | equal recorded values and equal definedness of all names used give equal expanded values |
| `SignatureProperties.UndefinedStays` | poky/bitbake/lib/bb/data_smart.py:104-114 | a reference to an undefined name stays in every value that leads to it |
| `SignatureProperties.SameValueWhenDefinedAlike` | poky/bitbake/lib/bb/data.py:345-401 | one half of the signature theorem |
| `SignatureProperties.DefinedAlikeWhenSameValue` | poky/bitbake/lib/bb/data.py:290-305 | the other half |
| `SignatureProperties.SameSignatureSameValue` | poky/bitbake/lib/bb/data.py:275-440 | two stores give a task the same list: with nothing removed and ignored variables expanding alike, the task expands alike if and only if the stores agree on which of the variables its value leads to are defined |
| `SignatureProperties.UndefinedLooksEmpty` | poky/bitbake/lib/bb/data.py:290-305 | two stores with the same closure and recorded values in which a variable expands differently, one name being undefined in one and empty in the other |
| `SignatureProperties.BuildData` | poky/bitbake/lib/bb/siggen.py:199-204 | both passes together, on one set object per entry: every task gets the closure and the list of its graph; it fails only as the first pass does |
| `MultiProcessCache.MergeData` | poky/bitbake/lib/bb/cache.py:912-916 | the in-place merge gives the union in which entries that were there stay |
| `MultiProcessCache.MergeFacts` | poky/bitbake/lib/bb/cache.py:912-916 | a merge keeps every entry, adds every key of the source, and adds nothing else |
| `MultiProcessCache.SaveExtras` | poky/bitbake/lib/bb/cache.py:888-910 | the probing loop terminates at the first index that is neither locked nor taken, and changes no other file |
| `MultiProcessCache.SaveMerge` | poky/bitbake/lib/bb/cache.py:918-947 | every file is folded in and removed in any order, no entry of the cache changes, every key of every whole file is in it, nothing else is, and the cache file holds it |
| `CacheProtocol.SaverStepKeeps` | poky/bitbake/lib/bb/cache.py:888-910 | every step of a saver keeps the invariant and leaves the data of the merger alone |
| `CacheProtocol.NoPartialWhileMerging` | poky/bitbake/lib/bb/cache.py:922-931 | while the merger holds the exclusive lock, no file is being written |
| `CacheProtocol.UnlinkKeeps` | poky/bitbake/lib/bb/cache.py:926-941 | a file is removed only when all its keys are in the data of the merger |
| `CacheProtocol.StepKeeps` | poky/bitbake/lib/bb/cache.py:888-947 | every step of any process keeps the invariant, and the data of the merger only grows |
| `CacheProtocol.NothingMadeUpKeeps` | poky/bitbake/lib/bb/cache.py:888-947 | every entry of the merger was in its cache at first or was saved |
| `CacheProtocol.NoLostEntries` | poky/bitbake/lib/bb/cache.py:888-947 | in every state that any interleaving of savers and the merger reaches: no two savers write one file, no pending file is overwritten, the merger never meets a file being written, every saved key is pending or merged, existing entries never change and none is made up |
| `CacheProtocol.CacheFileHasAllSaved` | poky/bitbake/lib/bb/cache.py:943-945 | the cache file, when written, has every key saved until then |
| `VirtualNames.RoundTrip` | poky/bitbake/lib/bb/cache.py:240-267 | a file, class and multiconfig without colons in file and multiconfig come back from the name built of them |
| `VirtualNames.RoundTripIff` | poky/bitbake/lib/bb/cache.py:240-267 | the round trip holds exactly for the names described by the condition |
| `VirtualNames.VariantNameIsName` | poky/bitbake/lib/bb/cache.py:259-280 | the name made from a variant key is the one made from its parts, except exactly for a class that starts with a colon under a multiconfig and for a class that reads like a key with a multiconfig without one |
| `TaskGraph.Recipe.AddTask` | poky/bitbake/lib/bb/build.py:974-996 | the task is listed once, and the dependencies are the old ones, those given after it, and its own in those given before |
| `TaskGraph.Recipe.DelTask` | poky/bitbake/lib/bb/build.py:998-1013 | the task is gone, and no task depends on it; all other dependencies stay |
| `TaskGraph.TaskNameIs` | poky/bitbake/lib/bb/build.py:975-976 | a task is named with and without its prefix alike |
| `TaskGraph.Search.FollowChain` | poky/bitbake/lib/bb/build.py:1045-1062 | the recursion on the shared chain terminates, restores the chain, adds without repetition exactly the tasks on chains that reach the end, and reports a cycle only for a chain that repeats a task |
| `TaskGraph.Search.ReachEnd` | poky/bitbake/lib/bb/build.py:1051-1057 | the chain is reported, once for every other task |
| `TaskGraph.FindBetween` | poky/bitbake/lib/bb/build.py:1037-1064 | success if and only if no chain of dependent tasks from the start repeats a task; then the result has exactly, and once, the tasks on chains from start to end, or nothing when there is no task but the end |
| `TaskGraph.TasksBetween` | poky/bitbake/lib/bb/build.py:1037-1064 | the same for the tasks of a recipe, whose lists addtask and deltask keep |
| `Fifo.FirstMessage` | poky/bitbake/lib/bb/build.py:463-464 | what precedes the first terminator is the first message |
| `Fifo.StreamIsMessages` | poky/bitbake/lib/bb/build.py:461-496 | the messages with their terminators and the rest make up the stream |
| `Fifo.MoreOfStream` | poky/bitbake/lib/bb/build.py:458-496 | of what was read before, only the bytes kept matter for what follows |
| `Fifo.Reader.ReadFifo` | poky/bitbake/lib/bb/build.py:459-496 | one chunk: the terminated messages of what was kept and the chunk are dispatched in order, and the rest is kept |
| `Fifo.Reader.ReadAll` | poky/bitbake/lib/bb/build.py:458-496 | however a stream is cut, exactly its terminated messages are dispatched in order and the bytes after the last terminator are kept |
| `Inotify.CoverageMeans` | poky/bitbake/lib/pyinotify.py:670-716 | the directories covered are those that can be reached through open directories |
| `Notifier.WatchManager.AddWatch` | poky/bitbake/lib/pyinotify.py:1789-1893 | a path that is neither excluded nor refused gets a watch, under its old descriptor if it had one |
| `Notifier.WatchManager.GetWd` | poky/bitbake/lib/pyinotify.py:2015-2029 | the search finds a descriptor exactly for the watched paths |
| `Notifier.Notifier.ProcessCreate` | poky/bitbake/lib/pyinotify.py:670-716 | the new directory is watched with the attributes of its parent, and creation events for its unwatched entries are put on the queue |
| `Notifier.ChildEventsAre` | poky/bitbake/lib/pyinotify.py:697-713 | exactly the files and directories in it that are not watched get an event, marked for directories |
| `Notifier.ProcessedWeighs` | poky/bitbake/lib/pyinotify.py:697-712 | the events added weigh less than the event taken, although there may be more of them |
| `Notifier.Notifier.ProcessOne` | poky/bitbake/lib/pyinotify.py:1244-1268 | processing one event, whatever is on the queue, makes the measure fall, and loses nothing that is to be watched |
| `Notifier.Notifier.ProcessEvents` | poky/bitbake/lib/pyinotify.py:1244-1268 | the queue is drained for any contents, although each step may add events |
| `Notifier.Notifier.DirectoryCreated` | poky/bitbake/lib/pyinotify.py:670-716 | after one event for a new directory exactly the directories reachable through ones neither excluded nor refused are watched as well |
| `InotifyRecords.RecordBack` | poky/bitbake/lib/pyinotify.py:1224-1233 | a packed record is read back as it was, its name without the filling |
| `InotifyRecords.AllBack` | poky/bitbake/lib/pyinotify.py:1222-1242 | reading a buffer of packed records gives exactly those events in order and ends at its end |
| `InotifyRecords.LayoutIs` | poky/bitbake/lib/pyinotify.py:1226-1227 | where the fields of a record stand and in which byte order |
| `Coalescing.KeysCoincideIff` | poky/bitbake/lib/pyinotify.py:461-482 | two events have one text if and only if they are equal or differ only in that one has no name and the other is named by two quotes |
| `Coalescing.FirstsAre` | poky/bitbake/lib/pyinotify.py:1234-1239 | the events kept are those whose text is new at their place |
| `Coalescing.Events.ReadEvents` | poky/bitbake/lib/pyinotify.py:1201-1242 | the cursor loop adds the events of the buffer, and fails exactly when the last record is cut off |
| `Coalescing.Events.EnqueueOnce` | poky/bitbake/lib/pyinotify.py:1234-1239 | only an event whose text has not come up since the last clear is put on the queue |
| `Coalescing.Events.CoalesceEvents` | poky/bitbake/lib/pyinotify.py:1150-1167 | switching clears the texts seen and leaves the queue alone |
| `Coalescing.Events.HandOver` | poky/bitbake/lib/pyinotify.py:1251-1271 | the queued events go to the handlers in the order they were queued, and after the batch any event is taken again |
| `Coalescing.Events.ReadPacked` | poky/bitbake/lib/pyinotify.py:1201-1242 | a buffer of packed records puts exactly those events on the queue, or with coalescing exactly the first occurrences since the last clear |
| `CowDict.Cow.Copy` | poky/bitbake/lib/bb/COW.py:42-48 | a copy reads what the original reads |
| `CowDict.DoCopy` | poky/bitbake/lib/bb/COW.py:42-48 | a copy joins the levels there are: it reads what the one below reads, and no two levels share a mutable value |
| `CowDict.DoSetItems` | poky/bitbake/lib/bb/COW.py:51-56 | assigning a mutable value shows at this level for that key, unless an immutable value or a mark in the chain hides it, and at no level that does not build on this one |
| `CowDict.DoPlain` | poky/bitbake/lib/bb/COW.py:51-105 | assigning an immutable value or deleting a key shows at this level for that key, and at no level that does not build on this one |
| `CowDict.Cow.Get` | poky/bitbake/lib/bb/COW.py:58-102 | an ordinary read changes nothing that is read, and a mutable value it gives belongs to this level |
| `CowDict.Cow.GetReadOnly` | poky/bitbake/lib/bb/COW.py:80-84 | a read that may give the mutable value of another level |
| `CowDict.OthersCells` | poky/bitbake/lib/bb/COW.py:58-76 | levels that do not build on a level hold none of its mutable values |
| `CowDict.Do` | poky/bitbake/lib/bb/COW.py:51-105 | each operation on a level has its effect there and none on levels that do not build on it |
| `CowDict.DoAll` | poky/bitbake/lib/bb/COW.py:42-105 | no run of assignments, deletions and in-place changes of ordinarily read values on a level changes what any ancestor or sibling reads |
| `CowDict.SetAndReadBack` | poky/bitbake/lib/bb/COW.py:51-102 | a level reads back a mutable value it was given if and only if no immutable value and no deletion mark for the key is in its chain |
| `Relocate.PatternReplaced` | poky/scripts/relocate_sdk.py:156 | the old prefix after text without its first byte is replaced and that text is kept |
| `Relocate.RewriteSlot` | poky/scripts/relocate_sdk.py:170-182 | a slot that fits is rewritten from what it held, and otherwise nothing is written; no byte outside it changes; read back without its filling, the slot holds the new path |
| `Relocate.ChangePrefixSlots` | poky/scripts/relocate_sdk.py:167-183 | the loop rewrites the whole slots of a section in order and stops at the first that does not fit |
| `Relocate.ChangeSections` | poky/scripts/relocate_sdk.py:132-183 | with slots inside the file and apart, each rewritten slot holds what its former contents become, every other byte is as before, and the program stops exactly at the first slot that does not fit |
| `Relocate.ChangeInterpreter` | poky/scripts/relocate_sdk.py:72-111 | the first interpreter path is replaced and filled up exactly when it is not a system path and the new one is shorter; nothing else changes |
| `Relocate.PatchFile` | poky/scripts/relocate_sdk.py:72-183 | both changes to one file together |
| `Relocate.SystemPathsAre` | poky/scripts/relocate_sdk.py:97-102 | exactly which interpreter paths are left alone |
| `Relocate.ElevenAreEnough` | poky/scripts/relocate_sdk.py:99-102 | reading eleven bytes tells this of the whole path |
| `Relocate.SectionSlotsAre` | poky/scripts/relocate_sdk.py:167-183 | the slots of a prefix section are the whole pieces of 4096 bytes, one behind the other |
| `YamlMerge.MergeAssociates` | meta-phosphor/recipes-phosphor/ipmi/phosphor-ipmi-host/merge_yamls.py:20-42 | merging two files one after the other is merging the second into the first and then both |
| `YamlMerge.MergeIsIdempotent` | meta-phosphor/recipes-phosphor/ipmi/phosphor-ipmi-host/merge_yamls.py:20-42 | merging a file twice is merging it once |
| `YamlMerge.MergeAt` | meta-phosphor/recipes-phosphor/ipmi/phosphor-ipmi-host/merge_yamls.py:20-42 | path by path: what stands in the result, from the two documents alone; what the source does not name stands as in the target, and nothing else is in the result |
| `YamlMerge.OverwritesIffNoClash` | meta-phosphor/recipes-phosphor/ipmi/phosphor-ipmi-host/merge_yamls.py:20-42 | every value of the source stands in the result if and only if no plain value meets a dictionary of the target |
| `YamlMerge.ClashIsDropped` | meta-phosphor/recipes-phosphor/ipmi/phosphor-ipmi-host/merge_yamls.py:38-39 | a plain value for a key that holds a dictionary is not written, whatever the documentation says |
| `YamlMerge.OverridesAsOne` | meta-phosphor/recipes-phosphor/ipmi/phosphor-ipmi-host/merge_yamls.py:58-61 | any number of override files can be merged into one first |
| `YamlObjects.DeepCopy` | meta-phosphor/recipes-phosphor/ipmi/phosphor-ipmi-host/merge_yamls.py:41 | a copy says the same and shares no dictionary |
| `YamlObjects.DictMerge` | meta-phosphor/recipes-phosphor/ipmi/phosphor-ipmi-host/merge_yamls.py:35-42 | the in-place merge makes the target say what the merge of the two documents says, which `YamlMerge.MergeAt` describes path by path; it shares nothing with the source and leaves it alone |
| `YamlObjects.MergeFiles` | meta-phosphor/recipes-phosphor/ipmi/phosphor-ipmi-host/merge_yamls.py:58-61 | the files are merged in order and none of them changes |

## Left out

Of the datastore:

- `${@...}` Python expansion, `bb.utils.contains` tracking, values that are not
  text, and text that becomes a reference only by joining two values.
- The `noweakdefault` and `parsing` variants of a read, which store what they
  read in the same cache.
- Expanded reads of flags, which are cached under the name with the flag;
  `delVarFlag`, `delVarFlags`, `renameVar`, `__exportlist`, renamed-variable
  checks, history and logging.
- Reads of the three flags that hold the queued operations, whose values are lists.
- What a datastore is like after an exception in the middle of an operation.
- Names and values outside ASCII, and the end-of-line rules of the regular
  expressions.
- Datastore.DataSmart.Compute: a parser is a value here. The code adds the
  variable's own removals to the set object of the chosen variant's cached
  parser; nothing reads that set again.
- Datastore.DataSmart.SetVarFlag: the three flags that hold queued operations are
  excluded; the code would store any value there, where lists are expected.
- Datastore.DataSmart.ExpandWithRefs: when the cache is not right, a value that is
  not settled after two passes more than the recursion may be deep counts as too
  deep; the code goes on, and need not end.
- Datastore.DataSmart.TrackReferences: with a cache that was wrong before, nothing
  is said about the entries that tracking adds, and nothing about when it fails.
- Datastore.DataSmart.SetVar: tracking that starts from a wrong cache is counted
  among the reasons for which an assignment may fail.
- StaleReads.Assign: where the second path starts from a cache that the first one
  left wrong, the condition is enough, and of what is needed only the part about
  names that are not those of recorded variants is proved. The names are known
  from the contents before only for stores without `:remove`, and where no name
  cached on the first path is that of a recorded variant.
- ListTracking.LastsIffTracked: is about stores without `:remove`, and about names
  that have no variants and are none.
- DatastoreProperties.ReadSucceeds: is about stores without `:remove`, whose patterns
  are read only when there is something to remove them from.
- DatastoreRuns.Run: a run ends at the first exception. A name that OVERRIDES comes to
  depend on holds only text without references while it is not tracked yet; with
  references the list can go wrong, as `StaleRuns.ThirdRun` shows.
- OverrideWinner.Winner: is about suffixes in which no override is named twice, where
  the winner does not depend on the order of recording, and about lists in which no
  name is the beginning of another, where there is always one.
- VariantRecords.AssignThenDelete: is about names that were not known before, and that
  are forgotten at all.
- QueuedReads.RemoveIsRead: says which removals apply and that their words are gone;
  the words themselves are those of the expansion in the store after the operation.
- Layers.Layer.ShadowCopy: the flag dictionary of a variable is a value in its layer;
  only the lists in it are objects that layers share.

Of dependencies and signatures:

- Dependencies.BuildDependencies: models the path of a plain variable. What
  shell and Python parsers, `vardeps` and other flags add is a parameter;
  exclusions, `vardepvalue` and the text that records removals are not modelled,
  because after the first removal the code no longer passes their references on.
- Dependencies.GenerateDependencies: names in brackets and `shelldeps`.
- Signature.GenerateDependencyHash: stops at the list before it is joined and
  hashed; a name and a value are told apart in it.

Of the cache:

- Crashes, several mergers, real file locks and file times. The locks are a
  reader and writer lock and one exclusive lock for each index, which an attempt
  may also fail to get while it is free.
- `FileChecksumCache.merge_data`, which replaces the merge.
- `init_cache` and the rest of `cache.py`.

Of the others:

- TaskGraph.FindBetween: a task without a dependency list ends the original in a
  type error; the precondition says that every task has one, which
  `TaskGraph.Recipe` keeps.
- Fifo.Reader.ReadFifo: what a message makes the logger do, and malformed debug
  messages, which end the original with an exception.
- Notifier.WatchManager.AddWatch: the exclude filter is a finite set of paths, and
  masks, globbing and the formatting of paths are absent.
- Notifier.Notifier.ProcessEvents: links, a tree that changes meanwhile, events other
  than creation, user callbacks, and recursive removal of watches.
- InotifyRecords.RecordBack: names are decoded byte by byte and not as UTF-8.
- InotifyRecords.AllBack: the same.
- Coalescing.Events.HandOver: the queue goes to the handlers at once; the loop that
  takes events off one by one, while handlers add further ones, is in `Notifier`.
- CowDict.Do: nested copy-on-write values, keys that are attribute names of the
  class machinery or end in the suffix for mutable values, and iteration.
- Relocate.ChangePrefixSlots: the file cursor is an explicit offset.
- Relocate.PatchFile: parsing of ELF headers, the `.sysdirs` sections, whose rewrite has no
  length check, backslashes in the new prefix, file permissions, and files that a
  section reaches beyond.
- YamlObjects.MergeFiles: aliases, by which one loaded dictionary stands in two places, and
  lists, which are taken as a whole.
- Documentation tables, size reports, conversion scripts, progress events and command
  plumbing.
