# Declaration-mapping engine of `tools/generate.js`

`tools/generate.js` regenerates the dark-theme overrides of a user style. It
takes an author table of mappings, where each key is a light-theme declaration
`"<property>: <value>"` and each value is its dark replacement. It finds every
rule of each upstream style sheet that uses one of those declarations, and
writes one override rule per mapping. The rule lists the collected selectors
and carries the replacement. This project models the engine's five pieces and
proves what each promises.

- **Table expansion** (`Mappings`, `prepareMappings`):
  - a `$border: V` key becomes 30 concrete border keys;
  - a `$background: V` key becomes two keys;
  - any other key is copied.
  - The result is built by assigning into a fresh object. A JavaScript object
    is an ordered dictionary (`Dicts.Dict`): assigning an existing key keeps
    its position.
- **Value equivalence** (`Values`, `isEqualValue`):
  - one trailing `!important` is stripped, then the value is trimmed and
    lower-cased;
  - the seven shorthand properties compare sorted token lists;
  - all other properties compare exactly.
- **Declaration walk** (`Collect`, `parseDeclarations`/`parseRule`, plus
  `Selectors` for the selector rewriting):
  - the walk visits top-level rules that have selectors, and the nested rules
    of media rules the device matches;
  - every declaration with a value is tested against every expanded key;
  - each surviving selector is filtered, space-normalised, prefixed, and then
    appended to the list of the name it is recorded under unless already there.
  - The `TypeError`s the source can throw are `Err` results:
    - `parseRule` on a nested rule without `declarations`, such as a comment
      inside a matching media block;
    - a matching declaration in a nested rule without `selectors`;
    - a key without `": "` whose text equals a declaration's property.
  - The media-query library is an oracle returning match, no match or
    exception.
- **Cross-source merge** (`Merge`, the loop of `main`): a fold in source order
  that concatenates each name's lists and keeps first occurrences.
- **Emission** (`Emit`, `buildOutput`):
  - it walks the expanded table in order;
  - for each key with a non-empty list it writes a normal rule, and for its
    `!important` variant with a non-empty list, an `!important` rule;
  - the text goes between the begin and end markers, and every line is
    indented by two spaces.
- **The whole run** (`Generate`): all pieces composed once every sheet has been
  fetched and parsed: expand, walk each source, merge, emit.

Each operation that works by updating state in the source is a method with
loops. The ones in `Mappings`, `Collect`, `Merge`, `Emit` and `Generate` are
proved equal to a specification function. The properties are lemmas about those
functions.

## Which table is emitted

tools/generate.js:517 rebinds `mappings` to the expanded table before
`buildOutput` runs. Each `$border` entry yields 30 keys
(`Mappings.BorderExpansion`), and `Generate.Pipeline` emits over
`Expand(author)`.

## Model

| member | source | states |
|---|---|---|
| Mappings.PrepareMappings | tools/generate.js:470-514 | returns exactly the table obtained by assigning, entry by entry in author order, every pair each entry stands for into an empty object |
| Mappings.AssignForms | tools/generate.js:475-508 | the straight-line assignments of one pseudo-key equal assigning its instantiated forms in the listed order |
| Mappings.PutAllEffect | tools/generate.js:471-511 | object assignment: keys are the old keys followed by new keys in order of first assignment, and each key holds the value of its last assignment |
| Mappings.ExpandShape | tools/generate.js:470-514 | the expanded table is well formed, lists the expanded keys once each in order of first appearance, and holds each key's last replacement |
| Mappings.EarlierEntriesFirst | tools/generate.js:472 | the keys produced by earlier author entries come before those of later ones, so key order follows input order |
| Mappings.BorderExpansion | tools/generate.js:473-504 | a `$border: V` entry stands for exactly 30 distinct keys in the fixed order; the six whole-border forms set `border-color: R` and the 24 per-side forms set `border-<side>-color: R` |
| Mappings.BorderFormsProperties | tools/generate.js:475-504 | there are 30 forms; the first six set `border-color`; form 6+k sets the colour of side k mod 4 (top, bottom, left, right) |
| Mappings.BorderPrefixesDistinct | tools/generate.js:475-504 | the 30 key texts are pairwise distinct |
| Mappings.BorderEntryAppendsThirty | tools/generate.js:473-504 | when none of its keys is present yet, a `$border` entry appends exactly its 30 keys, in order |
| Mappings.BackgroundExpansion | tools/generate.js:505-508 | a `$background: V` entry stands for exactly `background: V` and `background-color: V`, with replacements `background: R` and `background-color: R`, in that order |
| Mappings.PlainExpansion | tools/generate.js:509-511 | any other key is copied with its replacement unchanged |
| Dicts.PutKeepsPosition | tools/generate.js:548 | assigning to a key already present keeps the key order and changes only that key's value |
| Values.StripImportant | tools/generate.js:445-446 | one `!important` at the very end is removed, and nothing else changes |
| Values.IsEqualValue | tools/generate.js:444-454 | for a shorthand property: true exactly when the normalised values have the same multiset of space-separated tokens; otherwise exactly when the normalised values are identical |
| Values.SortedTokensEqual | tools/generate.js:450 | the sorted, re-joined token strings are equal exactly when the token multisets are equal |
| Values.IsEqualValueEquivalence | tools/generate.js:444-454 | the comparison is reflexive, symmetric and transitive |
| Values.NormalizeIgnoresImportant | tools/generate.js:445-446 | the value with a trailing `!important` normalises to the trimmed, lower-cased value without it |
| Values.NormalizeIgnoresLeadingSpace | tools/generate.js:445-446 | leading white space is ignored |
| Values.NormalizeIgnoresTrailingSpace | tools/generate.js:445-446 | trailing white space is ignored when the value does not end in `!important` (after `!important`, white space stops the strip, since it anchors at the very end) |
| Values.NormalizeIgnoresCase | tools/generate.js:445-446 | letter case is ignored when both values agree on ending in `!important` |
| Values.NormalizeFixed | tools/generate.js:445-446 | a trimmed, lower-case value without `!important` is its own normal form |
| Values.ShorthandOrderIgnored | tools/generate.js:449-453 | swapping two tokens keeps shorthand values equal ("1px solid red" and "1px red solid"); for other properties they are equal only if the tokens are the same |
| Text.Sort | tools/generate.js:450 | the default `sort` yields a sorted permutation |
| Text.SortedUnique | tools/generate.js:450 | a multiset has one sorted arrangement |
| Text.SplitOfJoin | tools/generate.js:441 | splitting a join of separator-free pieces gives the pieces back |
| Text.JoinOfSplit | tools/generate.js:441 | joining a split gives the text back |
| Text.FirstToken | tools/generate.js:391 | the first token is the longest space-free prefix of the selector |
| Text.TrimStartSpec | tools/generate.js:445 | trimming the start drops exactly the leading white space |
| Text.TrimEndSpec | tools/generate.js:445 | trimming the end drops exactly the trailing white space |
| Text.FindSpec | tools/generate.js:360 | the search returns the first position where the pattern occurs, or none when it does not occur |
| Seqs.DedupProperties | tools/generate.js:547 | `Array.from(new Set(list))` holds each element of the list once, in order of first occurrence |
| Seqs.DedupIntoAppend | tools/generate.js:547 | deduplicating a concatenation is deduplicating the second part into the result of the first |
| Selectors.PadCombinatorsIsPadAll | tools/generate.js:380-382 | the three successive replacements equal one pass that pads every `+`, `~` and `>` |
| Selectors.PadAllShape | tools/generate.js:380-382 | after padding, every combinator has a space on both sides, and only spaces were added |
| Selectors.CollapseNoDoubleSpace | tools/generate.js:383 | collapsing leaves no two spaces in a row |
| Selectors.CollapseUnspaced | tools/generate.js:383 | collapsing removes nothing but spaces |
| Selectors.CollapseRun | tools/generate.js:383 | a run of two spaces collapses exactly as a single space does, wherever it stands |
| Selectors.CollapseFixed | tools/generate.js:383 | a string without two spaces in a row is left unchanged; with `CollapseRun` this fixes the collapse on every input: each run of spaces becomes exactly one space |
| Selectors.TidyProperties | tools/generate.js:379-383 | after the tweaks every combinator is space-padded, no run of two spaces remains, and only spaces were added or removed (the collapse itself keeps one space per run, by `CollapseRun` and `CollapseFixed`) |
| Selectors.PrefixedCases | tools/generate.js:386-406 | without a prefix, or for a selector whose first token contains a `match` entry, nothing changes; otherwise the result is the prefix, a space, then the selector (minus a leading `:root ` when the prefix starts with `html`) |
| Selectors.PrefixedOther | tools/generate.js:401-403 | a non-exempt selector not starting with `:root ` becomes `prefix + " " + selector` |
| Selectors.IsExempt | tools/generate.js:388-396 | the skip loop sets `skip` exactly when some `match` string is contained in the first token |
| Selectors.RewriteSelector | tools/generate.js:379-406 | the step-by-step rewriting of `selector` yields the tweaked, prefixed selector |
| Selectors.ScopingExampleExempt | tools/generate.js:388-396 | with `match` `[".existing"]`, `.existing .child` is exempt and `.other .child` is not |
| Selectors.ScopingExampleKept | tools/generate.js:386-406 | under prefix `html.theme`, `.existing .child` is left as it is |
| Selectors.ScopingExamplePrefixed | tools/generate.js:386-406 | under prefix `html.theme`, `.other .child` becomes `html.theme .other .child` |
| Collect.MediaRuleVisits | tools/generate.js:345-347 | a media rule's nested rules are walked exactly when the library matches the query or throws on it (`mediaMatches`, 456-463) |
| Collect.CollectSheetVisits | tools/generate.js:344-352 | the walk over a sheet is `parseRule` on the visited rules in turn: for each top-level rule, the nested rules of a matching media rule, then the rule itself if it has selectors |
| Collect.SplitKeyOfEntry | tools/generate.js:360 | a key `p: v` splits into `p` and `v` |
| Collect.SplitKeyWithoutSeparator | tools/generate.js:360 | a key without `": "` splits into itself and `undefined` |
| Collect.KeyMatchOfEntry | tools/generate.js:360-362 | a declaration matches the key `p: v` exactly when its property is `p` and its value is equal to `v` |
| Collect.BucketCases | tools/generate.js:364-367 | the name a match is recorded under is the key plus ` !important` exactly when the trimmed value ends with `!important`, and the key otherwise |
| Collect.Collected | tools/generate.js:370-411 | the selectors a rule contributes are exactly the rewritings of its selectors that pass both filters |
| Collect.FedByDeclMembers | tools/generate.js:358-413 | a declaration is recorded under exactly the names of all the keys it matches: there is no early exit |
| Collect.FedByDeclsMembers | tools/generate.js:357-414 | the names recorded for a rule are those of the (declaration with a value, matching key) pairs |
| Collect.ValuelessIgnored | tools/generate.js:358 | comments and declarations with an empty value can be dropped without changing the outcome |
| Collect.CollectDeclFails | tools/generate.js:358-413 | one declaration throws exactly when it throws against one of the keys |
| Collect.CollectDeclsFails | tools/generate.js:357-414 | a rule's declarations throw exactly when one of them throws |
| Collect.CollectKeyEffect | tools/generate.js:359-411 | one key throws exactly when the source does; otherwise it updates at most the one name it records under |
| Collect.CollectDeclEffect | tools/generate.js:358-413 | a declaration merges the rule's selectors into the list of every name it feeds and changes nothing else |
| Collect.CollectDeclsEffect | tools/generate.js:357-414 | a run of declarations merges the rule's selectors into the list of every name one of them feeds and changes nothing else |
| Collect.CollectRuleEffect | tools/generate.js:356-415 | `parseRule` throws exactly when the rule has no `declarations` or one declaration throws; otherwise it merges the rule's admitted, rewritten selectors into every fed name and changes nothing else |
| Collect.RuleRecords | tools/generate.js:356-415 | after `parseRule` a name is listed exactly when it was before or some declaration was recorded under it; such a name's list gained the rule's selectors, deduplicated |
| Collect.FedWithNothingAdmitted | tools/generate.js:368-377 | a fed name is listed even when every selector was filtered out, and then keeps its old (possibly empty) list |
| Collect.CollectRulesGrows | tools/generate.js:356-415 | a run of `parseRule` calls only grows the table: names keep their positions and lists only gain selectors at the end |
| Collect.SheetGrows | tools/generate.js:340-354 | the walk over a sheet only grows the table |
| Collect.DeclarationsWellFormed | tools/generate.js:340-354 | `parseDeclarations` returns a well-formed table whose lists never hold a selector twice |
| Collect.AddSelectors | tools/generate.js:370-411 | the `forEach` over the selectors appends to the list, in order, each admitted and rewritten selector not yet on it |
| Collect.ParseRule | tools/generate.js:356-415 | the nested loops of `parseRule` compute the specified walk of one rule, including which error it throws |
| Collect.ParseDeclarations | tools/generate.js:340-354 | the walk over the top-level rules and matching media rules computes the specified table or error |
| Merge.MergeInto | tools/generate.js:543-548 | the inner merge loop computes the specified merge of one source's table |
| Merge.MergeKeysEffect | tools/generate.js:543-548 | merging names updates exactly those names, each to the deduplicated concatenation, and appends the new ones in order |
| Merge.MergeSourceEffect | tools/generate.js:543-548 | merging one source appends its new names after the names already combined |
| Merge.CombinedSnoc | tools/generate.js:543-548 | one more source merges its list into each name it lists and leaves other names unchanged |
| Merge.MergeAllSpec | tools/generate.js:541-549 | the merged table lists every name of every source in order of first appearance, and holds for each the concatenation of all sources' lists in source order, deduplicated keeping first occurrences |
| Merge.MergeAllListed | tools/generate.js:541-549 | a name is in the merged table exactly when some source lists it |
| Emit.RulesAppend | tools/generate.js:424-439 | the rules of each entry come after those of the entries before it |
| Emit.RulesMembers | tools/generate.js:424-439 | a rule is emitted exactly for each entry whose key, or `!important` variant, has a non-empty list; it carries that list and the entry's (marked) body |
| Emit.EntryRulesMembers | tools/generate.js:425-438 | one entry yields its normal rule exactly when the plain list is non-empty, and its `!important` rule exactly when the suffixed list is non-empty |
| Emit.RulesCarryLists | tools/generate.js:428-434 | every emitted rule carries the whole, non-empty list recorded under its name |
| Emit.NormalBodyCases | tools/generate.js:429 | exactly one trailing `;` of the trimmed replacement is removed when present |
| Emit.ImportantClauses | tools/generate.js:435 | the `!important` body has one clause per clause of the normal body, that clause followed by ` !important` |
| Emit.ImportantRoundTrip | tools/generate.js:435 | dropping ` !important` from every clause gives back the normal body |
| Emit.IndentRoundTrip | tools/generate.js:441 | every output line starts with two spaces, and removing them gives back the unindented text |
| Emit.OutputBegins | tools/generate.js:422 | the first output line is the indented begin marker |
| Emit.OutputEnds | tools/generate.js:440-441 | the last output line ends with the end marker |
| Emit.AppendEntry | tools/generate.js:425-438 | the loop body appends the text of the entry's rules: the normal one, then the `!important` one |
| Emit.BuildOutput | tools/generate.js:421-442 | the loop computes exactly the specified output for the given table |
| Generate.TablesSpec | tools/generate.js:541-545 | there is one table per source, the one its own walk produces, and each is well formed and free of duplicates |
| Generate.TablesFail | tools/generate.js:541-545 | the run fails exactly when some source's walk fails |
| Generate.EmittedSelectors | tools/generate.js:541-551 | every emitted rule lists all sources' selectors for its name, each once, in order of first appearance, and that list is not empty |
| Generate.Run | tools/generate.js:516-552 | `main` after fetching: expanding, walking each source, merging and emitting computes the specified output or the first error |

## Left out

- Network retrieval (`fetch`, `Promise.all`, tools/generate.js:520-539): this is I/O and concurrency. Each source is given with its sheets already parsed and joined.
- HTML link discovery (`extractStyleLinks`/`extractStyleHrefs`, tools/generate.js:320-338): it depends on an HTML parser and URL resolution.
- The file splice (`writeOutput`, `replaceRe`, tools/generate.js:310-318): this is file I/O. The model ends with the string that would be spliced in.
- `css.parse` (tools/generate.js:342): it is an external parser. Its result is the input datatype `Collect.Rule`, reduced to the fields the walk reads.
- `cssMediaQuery.match` (tools/generate.js:458): it is an external library. It is a parameter returning match, no match or exception.
- `perfectionist` (tools/generate.js:417-419): it is an external formatter. It is an uninterpreted `string -> string`.
- The unmergeable and ignored selector regular expressions (tools/generate.js:264-285): they are abstract predicates, with no regular-expression engine.
- Process control (`exit`, tools/generate.js:465-468, 554): a `TypeError` ends the run. The model returns it as an `Err`, and does not model the table it leaves half-updated.
- The author's mapping table (tools/generate.js:15-234): it is data. It is a parameter of type `Mappings.Table`.
- `String.prototype.toLowerCase`: only ASCII letters are lowered.
- The default `sort`: it compares characters, modelled as Dafny `char`. JavaScript compares UTF-16 code units, which differs only beyond the Basic Multilingual Plane.
- Objects are values. `parseRule` updates the caller's `decls` in place; the model passes the table in and returns the new one. No other reference to the table exists, so no aliasing is lost.
- Objects whose keys look like integers: JavaScript enumerates such keys first. Every key here is a CSS declaration, so the model keeps plain insertion order.
- Keys that name members inherited from `Object.prototype` (`constructor`, `toString`, ...) and the key `__proto__`: in the source, `decls[name]` finds the inherited member, and assigning `__proto__` does not add a key. The model's `Dicts.Dict` treats them as ordinary keys. Every key here is a CSS declaration, so no such names arise.
- `opts.match` absent: it behaves like an empty list and is modelled as one.
- The split of every mapping key (tools/generate.js:360) is computed once per key (`Collect.ParseKeys`) instead of once per declaration. It is a pure function of the key, so the result is the same.
- `Emit.AppendEntry` and `Collect.AddSelectors` are the bodies of two source loops, written as methods of their own. They are proved there, which keeps each proof small.
