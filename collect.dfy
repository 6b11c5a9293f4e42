/**
 * `parseDeclarations` and `parseRule` (tools/generate.js:340-415): the walk
 * over one parsed style sheet that records, for every expanded mapping key
 * that one of its declarations matches, the rewritten selectors of the rule
 * the declaration is in. The style sheet is the tree `css.parse` produces;
 * the media-query library and the two selector pattern lists are oracles.
 *
 * The walk is specified by functions that fold over the sheet in the
 * source's own order (a `TypeError` of the source is an `Err`), proved about
 * with lemmas, and implemented by the methods `AddSelectors`, `ParseRule` and
 * `ParseDeclarations`, whose loops are proved against those functions.
 */
module Collect {
  import opened Wrappers
  import opened Text
  import opened Seqs
  import opened Dicts
  import opened Values
  import opened Selectors

  /** An entry of a rule's `declarations`: a declaration, or a comment (which has no value). */
  datatype Decl = Declaration(property: string, value: string) | Comment

  /**
   * A node of the parsed style sheet: a media rule with its query and nested
   * rules, or any other rule with whichever of `selectors` and
   * `declarations` it has.
   */
  datatype Rule =
    | Media(query: string, rules: seq<Rule>)
    | Other(selectors: Option<seq<string>>, declarations: Option<seq<Decl>>)

  /** What the media-query library says of a query: a match, no match, or an exception. */
  datatype MediaVerdict = Matched | NotMatched | Failed

  /** `mediaMatches` (tools/generate.js:456-463): an exception of the library counts as a match. */
  predicate MediaMatches(verdict: MediaVerdict) {
    verdict != NotMatched
  }

  /** The unmergeable and the ignored selector patterns (tools/generate.js:264-285), as predicates. */
  datatype Policy = Policy(unmergeable: string -> bool, ignored: string -> bool)

  /**
   * One source's options, the selector filters, the device's media-query
   * verdicts, and the value comparison (`isEqualValue`, which the pipeline
   * instantiates with `Values.IsEqualValue`).
   */
  datatype Context = Context(opts: Options, policy: Policy, media: string -> MediaVerdict, equal: (string, string, string) -> bool)

  /** The `TypeError`s the walk can throw. */
  datatype Failure =
    | DeclarationsNotIterable  // `parseRule` on a rule without `declarations`
    | SelectorsUndefined       // a matching declaration in a rule without `selectors`
    | KeyWithoutValue          // a key without ": " that equals a declaration's property

  /** The per-source table: recorded name to its list of selectors. */
  type Decls = Dict<seq<string>>

  /** `decls[name] || []`. */
  function GetOr(d: Decls, name: string): (r: seq<string>) {
    if d.Get(name).Some? then d.Get(name).value else []
  }

  /** `mapping.split(": ")` of which the first two pieces are kept; the second is `undefined` when there is no separator. */
  function SplitKey(key: string): (string, Option<string>) {
    FindSpec(key, ": ");
    match Find(key, ": ")
    case None => (key, None)
    case Some(i) =>
      var rest := key[i + 2..];
      FindSpec(rest, ": ");
      (key[..i], Some(match Find(rest, ": ") case None => rest case Some(j) => rest[..j]))
  }

  /** A key built as `p + ": " + v` out of separator-free parts splits back into them. */
  lemma SplitKeyOfEntry(p: string, v: string)
    requires !Contains(p, ": ") && !Contains(v, ": ")
    ensures SplitKey(p + ": " + v) == (p, Some(v))
  {
    var key := p + ": " + v;
    var n := |p|;
    assert key[n..n + 2] == ": ";
    forall j: nat | j < n ensures !OccursAt(key, ": ", j) {
      if j + 2 <= n {
        FindSpec(p, ": ");
        assert key[j..j + 2] == p[j..j + 2];
        assert !OccursAt(p, ": ", j);
      } else {
        assert key[j..j + 2][1] == key[n] == ':';
      }
    }
    FindAt(key, ": ", n);
    assert key[..n] == p;
    assert key[n + 2..] == v;
    FindSpec(v, ": ");
  }

  /** A key without the separator is split into itself and `undefined`. */
  lemma SplitKeyWithoutSeparator(key: string)
    requires !Contains(key, ": ")
    ensures SplitKey(key) == (key, None)
  {
    FindSpec(key, ": ");
  }

  /** A mapping key with the property and the value part `mapping.split(": ")` gives it. */
  datatype Key = Key(text: string, prop: string, value: Option<string>)

  function ParseKey(key: string): (k: Key)
    ensures k.text == key
    ensures k.value.None? <==> !Contains(key, ": ")
    ensures k.value.None? ==> k.prop == key
  {
    var (p, v) := SplitKey(key);
    Key(key, p, v)
  }

  /** Every key of the expanded table, split once; the split is a pure function of the key, so this is the split the loop makes on each visit. */
  function ParseKeys(keys: seq<string>): (r: seq<Key>)
    ensures |r| == |keys|
    ensures forall j :: 0 <= j < |keys| ==> r[j].text == keys[j]
  {
    seq(|keys|, j requires 0 <= j < |keys| => ParseKey(keys[j]))
  }

  /**
   * Tests one declaration against one key (tools/generate.js:359-361): the
   * property must be the key's property and the value equal to the key's
   * value; `isEqualValue` throws when the key has no value part.
   */
  function KeyMatch(ctx: Context, prop: string, value: string, k: Key): (r: Result<bool, Failure>) {
    if prop != k.prop then Ok(false)
    else if k.value.None? then Err(KeyWithoutValue)
    else Ok(ctx.equal(k.prop, value, k.value.value))
  }

  /** For a key of the form `p: v` the test is: same property, equal value. */
  lemma KeyMatchOfEntry(ctx: Context, prop: string, value: string, p: string, v: string)
    requires !Contains(p, ": ") && !Contains(v, ": ")
    ensures KeyMatch(ctx, prop, value, ParseKey(p + ": " + v)) == Ok(prop == p && ctx.equal(p, value, v))
  {
    SplitKeyOfEntry(p, v);
  }

  /** The declaration is recorded under the key (or its `!important` variant). */
  predicate Feeds(ctx: Context, prop: string, value: string, k: Key) {
    KeyMatch(ctx, prop, value, k) == Ok(true)
  }

  /** tools/generate.js:363-366: the name a match is recorded under. */
  function Bucket(key: string, value: string): (r: string) {
    if EndsWith(Trim(value), Important) then key + " !important" else key
  }

  /** The name carries the `!important` suffix exactly when the trimmed value ends with `!important`. */
  lemma BucketCases(key: string, value: string)
    ensures EndsWith(Trim(value), Important) ==> Bucket(key, value) == key + " !important"
    ensures !EndsWith(Trim(value), Important) ==> Bucket(key, value) == key
    ensures StartsWith(Bucket(key, value), key)
  {
    if EndsWith(Trim(value), Important) {
      assert (key + " !important")[..|key|] == key;
    }
  }

  /** The selector passes both filters of tools/generate.js:372-377. */
  predicate Admitted(policy: Policy, sel: string) {
    !policy.unmergeable(sel) && !policy.ignored(sel)
  }

  /**
   * The rewritten selectors of a rule that pass both filters, in the rule's
   * order: exactly the rewritings of the admitted selectors.
   */
  function Collected(ctx: Context, sels: seq<string>): (r: seq<string>)
    ensures forall x :: x in r <==> exists i :: 0 <= i < |sels| && Admitted(ctx.policy, sels[i]) && x == Transform(ctx.opts, sels[i])
    decreases |sels|
  {
    if sels == [] then []
    else
      var n := |sels| - 1;
      var init := Collected(ctx, sels[..n]);
      assert forall i :: 0 <= i < n ==> sels[..n][i] == sels[i];
      init + if Admitted(ctx.policy, sels[n]) then [Transform(ctx.opts, sels[n])] else []
  }

  /** The selectors a rule offers to every name it feeds; none when it has no `selectors`. */
  function Pool(ctx: Context, sels: Option<seq<string>>): (r: seq<string>) {
    if sels.Some? then Collected(ctx, sels.value) else []
  }

  /** One key of the loop over `mappingKeys` (tools/generate.js:358-413). */
  function CollectKey(d: Decls, sels: Option<seq<string>>, prop: string, value: string, k: Key, ctx: Context): (r: Result<Decls, Failure>) {
    match KeyMatch(ctx, prop, value, k)
    case Err(e) => Err(e)
    case Ok(m) =>
      if !m then Ok(d)
      else if sels.None? then Err(SelectorsUndefined)
      else
        var name := Bucket(k.text, value);
        Ok(d.Put(name, DedupInto(GetOr(d, name), Collected(ctx, sels.value))))
  }

  /** The loop over `mappingKeys` for one declaration. */
  function CollectDecl(d: Decls, sels: Option<seq<string>>, prop: string, value: string, keys: seq<Key>, ctx: Context): (r: Result<Decls, Failure>)
    decreases |keys|
  {
    if keys == [] then Ok(d)
    else
      match CollectDecl(d, sels, prop, value, keys[..|keys| - 1], ctx)
      case Err(e) => Err(e)
      case Ok(d1) => CollectKey(d1, sels, prop, value, keys[|keys| - 1], ctx)
  }

  /** `if (!decl.value) continue;`: comments and empty values are skipped. */
  predicate HasValue(decl: Decl) {
    decl.Declaration? && decl.value != ""
  }

  function DeclStep(d: Decls, sels: Option<seq<string>>, decl: Decl, keys: seq<Key>, ctx: Context): (r: Result<Decls, Failure>) {
    if HasValue(decl) then CollectDecl(d, sels, decl.property, decl.value, keys, ctx) else Ok(d)
  }

  /** The loop over a rule's declarations. */
  function CollectDecls(d: Decls, sels: Option<seq<string>>, ds: seq<Decl>, keys: seq<Key>, ctx: Context): (r: Result<Decls, Failure>)
    decreases |ds|
  {
    if ds == [] then Ok(d)
    else
      match CollectDecls(d, sels, ds[..|ds| - 1], keys, ctx)
      case Err(e) => Err(e)
      case Ok(d1) => DeclStep(d1, sels, ds[|ds| - 1], keys, ctx)
  }

  /** `parseRule(decls, rule, opts)`. */
  function CollectRule(d: Decls, rule: Rule, keys: seq<Key>, ctx: Context): (r: Result<Decls, Failure>) {
    if rule.Other? && rule.declarations.Some? then CollectDecls(d, rule.selectors, rule.declarations.value, keys, ctx)
    else Err(DeclarationsNotIterable)
  }

  /** `parseRule` on each rule in turn. */
  function CollectRules(d: Decls, rules: seq<Rule>, keys: seq<Key>, ctx: Context): (r: Result<Decls, Failure>)
    decreases |rules|
  {
    if rules == [] then Ok(d)
    else
      match CollectRules(d, rules[..|rules| - 1], keys, ctx)
      case Err(e) => Err(e)
      case Ok(d1) => CollectRule(d1, rules[|rules| - 1], keys, ctx)
  }

  /** The rule has a non-empty `selectors` list. */
  predicate HasSelectors(rule: Rule) {
    rule.Other? && rule.selectors.Some? && |rule.selectors.value| > 0
  }

  /** The body of the `forEach` of tools/generate.js:345-352 for one top-level rule. */
  function SheetStep(d: Decls, rule: Rule, keys: seq<Key>, ctx: Context): (r: Result<Decls, Failure>) {
    var d1 := if rule.Media? && MediaMatches(ctx.media(rule.query)) then CollectRules(d, rule.rules, keys, ctx) else Ok(d);
    if HasSelectors(rule) then
      match d1
      case Err(e) => Err(e)
      case Ok(d2) => CollectRule(d2, rule, keys, ctx)
    else d1
  }

  /** The `forEach` over the top-level rules. */
  function CollectSheet(d: Decls, rules: seq<Rule>, keys: seq<Key>, ctx: Context): (r: Result<Decls, Failure>)
    decreases |rules|
  {
    if rules == [] then Ok(d)
    else
      match CollectSheet(d, rules[..|rules| - 1], keys, ctx)
      case Err(e) => Err(e)
      case Ok(d1) => SheetStep(d1, rules[|rules| - 1], keys, ctx)
  }

  /** `parseDeclarations(css, opts)` over the parsed sheet's top-level rules, against the expanded table's keys. */
  function Declarations(rules: seq<Rule>, keys: seq<string>, ctx: Context): (r: Result<Decls, Failure>) {
    CollectSheet(Empty(), rules, ParseKeys(keys), ctx)
  }

  /** The names one declaration is recorded under, in the order of the keys (see `FedByDeclMembers`). */
  function FedByDecl(ctx: Context, prop: string, value: string, keys: seq<Key>): (r: seq<string>)
    decreases |keys|
  {
    if keys == [] then []
    else
      var n := |keys| - 1;
      FedByDecl(ctx, prop, value, keys[..n]) + if Feeds(ctx, prop, value, keys[n]) then [Bucket(keys[n].text, value)] else []
  }

  /** The declaration is recorded under `name` by the `j`-th key. */
  predicate FedBy(ctx: Context, prop: string, value: string, keys: seq<Key>, j: int, name: string) {
    0 <= j < |keys| && Feeds(ctx, prop, value, keys[j]) && Bucket(keys[j].text, value) == name
  }

  /** A declaration is recorded under exactly the names of the keys it matches: there is no early exit. */
  lemma {:induction false} FedByDeclMembers(ctx: Context, prop: string, value: string, keys: seq<Key>, name: string)
    ensures name in FedByDecl(ctx, prop, value, keys) <==> exists j :: FedBy(ctx, prop, value, keys, j, name)
    decreases |keys|
  {
    if keys != [] {
      var n := |keys| - 1;
      var init := keys[..n];
      FedByDeclMembers(ctx, prop, value, init, name);
      if name in FedByDecl(ctx, prop, value, init) {
        var j :| FedBy(ctx, prop, value, init, j, name);
        assert init[j] == keys[j];
        assert FedBy(ctx, prop, value, keys, j, name);
      } else if Feeds(ctx, prop, value, keys[n]) && Bucket(keys[n].text, value) == name {
        assert FedBy(ctx, prop, value, keys, n, name);
      } else {
        forall j | 0 <= j < |keys| ensures !FedBy(ctx, prop, value, keys, j, name) {
          if j < n {
            assert init[j] == keys[j];
            assert !FedBy(ctx, prop, value, init, j, name);
          }
        }
      }
    }
  }

  /** The names a list of declarations is recorded under, in the order of the walk (see `FedByDeclsMembers`). */
  function FedByDecls(ctx: Context, ds: seq<Decl>, keys: seq<Key>): (r: seq<string>)
    decreases |ds|
  {
    if ds == [] then []
    else
      var n := |ds| - 1;
      FedByDecls(ctx, ds[..n], keys) + if HasValue(ds[n]) then FedByDecl(ctx, ds[n].property, ds[n].value, keys) else []
  }

  /** The `i`-th declaration is recorded under `name` by the `j`-th key. */
  predicate FedByAt(ctx: Context, ds: seq<Decl>, keys: seq<Key>, i: int, j: int, name: string) {
    0 <= i < |ds| && HasValue(ds[i]) && FedBy(ctx, ds[i].property, ds[i].value, keys, j, name)
  }

  /** The names recorded for a rule are those of the (declaration with a value, key) pairs that match. */
  lemma {:induction false} FedByDeclsMembers(ctx: Context, ds: seq<Decl>, keys: seq<Key>, name: string)
    ensures name in FedByDecls(ctx, ds, keys) <==> exists i, j :: FedByAt(ctx, ds, keys, i, j, name)
    decreases |ds|
  {
    if ds != [] {
      var n := |ds| - 1;
      var init := ds[..n];
      FedByDeclsMembers(ctx, init, keys, name);
      if name in FedByDecls(ctx, init, keys) {
        var i, j :| FedByAt(ctx, init, keys, i, j, name);
        assert init[i] == ds[i];
        assert FedByAt(ctx, ds, keys, i, j, name);
      } else if HasValue(ds[n]) && name in FedByDecl(ctx, ds[n].property, ds[n].value, keys) {
        FedByDeclMembers(ctx, ds[n].property, ds[n].value, keys, name);
        var j :| FedBy(ctx, ds[n].property, ds[n].value, keys, j, name);
        assert FedByAt(ctx, ds, keys, n, j, name);
      } else {
        if HasValue(ds[n]) {
          FedByDeclMembers(ctx, ds[n].property, ds[n].value, keys, name);
        }
        forall i, j | 0 <= i < |ds| ensures !FedByAt(ctx, ds, keys, i, j, name) {
          if i < n {
            assert init[i] == ds[i];
            assert !FedByAt(ctx, init, keys, i, j, name);
          }
        }
      }
    }
  }

  /** The declaration and the key make the source throw. */
  predicate Crashes(ctx: Context, sels: Option<seq<string>>, prop: string, value: string, k: Key) {
    KeyMatch(ctx, prop, value, k).Err? || (Feeds(ctx, prop, value, k) && sels.None?)
  }

  /** The declaration makes the source throw against some key. */
  predicate DeclCrashes(ctx: Context, sels: Option<seq<string>>, decl: Decl, keys: seq<Key>) {
    HasValue(decl) && exists j :: 0 <= j < |keys| && Crashes(ctx, sels, decl.property, decl.value, keys[j])
  }

  /**
   * How a part of the walk changed the table: the names in `fed` had the
   * rule's selectors merged into their lists (a name absent before starts
   * from an empty list), new names were appended in the order they were
   * fed, and nothing else changed.
   */
  ghost predicate Effect(d: Decls, d': Decls, fed: seq<string>, pool: seq<string>) {
    d'.Valid()
    && d'.keys == DedupInto(d.keys, fed)
    && forall name :: d'.Get(name) == if name in fed then Some(DedupInto(GetOr(d, name), pool)) else d.Get(name)
  }

  lemma EffectThen(d: Decls, d1: Decls, d2: Decls, f1: seq<string>, f2: seq<string>, pool: seq<string>)
    requires Effect(d, d1, f1, pool) && Effect(d1, d2, f2, pool)
    ensures Effect(d, d2, f1 + f2, pool)
  {
    DedupIntoAppend(d.keys, f1, f2);
    forall name ensures d2.Get(name) == if name in f1 + f2 then Some(DedupInto(GetOr(d, name), pool)) else d.Get(name) {
      if name in f1 && name in f2 {
        DedupIntoTwice(GetOr(d, name), pool);
      }
    }
  }

  /** One key: it throws exactly when the source does, and otherwise feeds at most its own name. */
  lemma CollectKeyEffect(d: Decls, sels: Option<seq<string>>, prop: string, value: string, k: Key, ctx: Context)
    requires d.Valid()
    ensures CollectKey(d, sels, prop, value, k, ctx).Err? <==> Crashes(ctx, sels, prop, value, k)
    ensures CollectKey(d, sels, prop, value, k, ctx).Ok? ==>
      Effect(d, CollectKey(d, sels, prop, value, k, ctx).value, if Feeds(ctx, prop, value, k) then [Bucket(k.text, value)] else [], Pool(ctx, sels))
  {
    if Feeds(ctx, prop, value, k) && sels.Some? {
      var name := Bucket(k.text, value);
      assert [name][..0] == [];
      assert DedupInto(d.keys, [name]) == AddNew(d.keys, name);
    }
  }

  /** One key throws exactly when the source does, whatever the table holds. */
  lemma CollectKeyFails(d: Decls, sels: Option<seq<string>>, prop: string, value: string, k: Key, ctx: Context)
    ensures CollectKey(d, sels, prop, value, k, ctx).Err? <==> Crashes(ctx, sels, prop, value, k)
  {
  }

  /** One declaration throws exactly when it throws against one of the keys. */
  lemma {:induction false} CollectDeclFails(d: Decls, sels: Option<seq<string>>, prop: string, value: string, keys: seq<Key>, ctx: Context)
    ensures CollectDecl(d, sels, prop, value, keys, ctx).Err? <==> exists j :: 0 <= j < |keys| && Crashes(ctx, sels, prop, value, keys[j])
    decreases |keys|
  {
    if keys != [] {
      var n := |keys| - 1;
      CollectDeclFails(d, sels, prop, value, keys[..n], ctx);
      assert forall j :: 0 <= j < n ==> keys[..n][j] == keys[j];
      var r := CollectDecl(d, sels, prop, value, keys[..n], ctx);
      if r.Ok? {
        CollectKeyFails(r.value, sels, prop, value, keys[n], ctx);
      }
    }
  }

  /** One declaration against all keys: the names it feeds are updated. */
  lemma {:induction false} CollectDeclEffect(d: Decls, sels: Option<seq<string>>, prop: string, value: string, keys: seq<Key>, ctx: Context)
    requires d.Valid()
    ensures CollectDecl(d, sels, prop, value, keys, ctx).Ok? ==>
      Effect(d, CollectDecl(d, sels, prop, value, keys, ctx).value, FedByDecl(ctx, prop, value, keys), Pool(ctx, sels))
    decreases |keys|
  {
    if keys != [] {
      var n := |keys| - 1;
      CollectDeclEffect(d, sels, prop, value, keys[..n], ctx);
      var r := CollectDecl(d, sels, prop, value, keys[..n], ctx);
      if r.Ok? {
        CollectKeyEffect(r.value, sels, prop, value, keys[n], ctx);
        var r2 := CollectKey(r.value, sels, prop, value, keys[n], ctx);
        if r2.Ok? {
          EffectThen(d, r.value, r2.value, FedByDecl(ctx, prop, value, keys[..n]), if Feeds(ctx, prop, value, keys[n]) then [Bucket(keys[n].text, value)] else [], Pool(ctx, sels));
        }
      }
    }
  }

  /** What one declaration feeds: nothing when it has no value. */
  function DeclFed(ctx: Context, decl: Decl, keys: seq<Key>): (r: seq<string>) {
    if HasValue(decl) then FedByDecl(ctx, decl.property, decl.value, keys) else []
  }

  lemma DeclStepEffect(d: Decls, sels: Option<seq<string>>, decl: Decl, keys: seq<Key>, ctx: Context)
    requires d.Valid()
    ensures DeclStep(d, sels, decl, keys, ctx).Ok? ==> Effect(d, DeclStep(d, sels, decl, keys, ctx).value, DeclFed(ctx, decl, keys), Pool(ctx, sels))
  {
    if HasValue(decl) {
      CollectDeclEffect(d, sels, decl.property, decl.value, keys, ctx);
    } else {
      assert DedupInto(d.keys, []) == d.keys;
    }
  }

  /** A run of declarations: the table stays well formed, and each name fed is updated. */
  lemma {:induction false} CollectDeclsEffect(d: Decls, sels: Option<seq<string>>, ds: seq<Decl>, keys: seq<Key>, ctx: Context)
    requires d.Valid()
    ensures CollectDecls(d, sels, ds, keys, ctx).Ok? ==>
      Effect(d, CollectDecls(d, sels, ds, keys, ctx).value, FedByDecls(ctx, ds, keys), Pool(ctx, sels))
    decreases |ds|
  {
    if ds == [] {
      assert DedupInto(d.keys, []) == d.keys;
    } else {
      var n := |ds| - 1;
      var pool := Pool(ctx, sels);
      CollectDeclsEffect(d, sels, ds[..n], keys, ctx);
      var r := CollectDecls(d, sels, ds[..n], keys, ctx);
      assert FedByDecls(ctx, ds, keys) == FedByDecls(ctx, ds[..n], keys) + DeclFed(ctx, ds[n], keys);
      if r.Ok? {
        assert CollectDecls(d, sels, ds, keys, ctx) == DeclStep(r.value, sels, ds[n], keys, ctx);
        DeclStepEffect(r.value, sels, ds[n], keys, ctx);
        var r2 := DeclStep(r.value, sels, ds[n], keys, ctx);
        if r2.Ok? {
          EffectThen(d, r.value, r2.value, FedByDecls(ctx, ds[..n], keys), DeclFed(ctx, ds[n], keys), pool);
        }
      }
    }
  }

  /** A run of declarations throws exactly when one of its declarations does. */
  lemma {:induction false} CollectDeclsFails(d: Decls, sels: Option<seq<string>>, ds: seq<Decl>, keys: seq<Key>, ctx: Context)
    ensures CollectDecls(d, sels, ds, keys, ctx).Err? <==> exists i :: 0 <= i < |ds| && DeclCrashes(ctx, sels, ds[i], keys)
    decreases |ds|
  {
    if ds != [] {
      var n := |ds| - 1;
      CollectDeclsFails(d, sels, ds[..n], keys, ctx);
      assert forall i :: 0 <= i < n ==> ds[..n][i] == ds[i];
      var r := CollectDecls(d, sels, ds[..n], keys, ctx);
      var decl := ds[n];
      if r.Ok? && HasValue(decl) {
        CollectDeclFails(r.value, sels, decl.property, decl.value, keys, ctx);
      }
    }
  }

  /**
   * One rule: `parseRule` throws when the rule has no `declarations`, or
   * when one of its declarations throws; otherwise it merges the rule's
   * admitted, rewritten selectors into the list of every name one of its
   * declarations feeds, and changes nothing else.
   */
  lemma CollectRuleEffect(d: Decls, rule: Rule, keys: seq<Key>, ctx: Context)
    requires d.Valid()
    ensures CollectRule(d, rule, keys, ctx).Err? <==>
      !(rule.Other? && rule.declarations.Some?) || exists i :: 0 <= i < |rule.declarations.value| && DeclCrashes(ctx, rule.selectors, rule.declarations.value[i], keys)
    ensures CollectRule(d, rule, keys, ctx).Ok? ==>
      Effect(d, CollectRule(d, rule, keys, ctx).value, FedByDecls(ctx, rule.declarations.value, keys), Pool(ctx, rule.selectors))
  {
    if rule.Other? && rule.declarations.Some? {
      CollectDeclsEffect(d, rule.selectors, rule.declarations.value, keys, ctx);
      CollectDeclsFails(d, rule.selectors, rule.declarations.value, keys, ctx);
    }
  }

  /**
   * A declaration feeds a name even when every selector of its rule is
   * filtered out: the name is then listed, with the list it had, or an empty
   * one (tools/generate.js:368).
   */
  lemma FedWithNothingAdmitted(d: Decls, rule: Rule, keys: seq<Key>, ctx: Context, name: string)
    requires d.Valid() && CollectRule(d, rule, keys, ctx).Ok?
    requires name in FedByDecls(ctx, rule.declarations.value, keys)
    requires Pool(ctx, rule.selectors) == []
    ensures name in CollectRule(d, rule, keys, ctx).value.keys
    ensures CollectRule(d, rule, keys, ctx).value.Get(name) == Some(GetOr(d, name))
  {
    CollectRuleEffect(d, rule, keys, ctx);
  }

  /**
   * After `parseRule`, a name is listed exactly when it was before or some
   * declaration of the rule with a value matched a key recorded under that
   * name, and such a name's list gained the rule's admitted selectors.
   */
  lemma RuleRecords(d: Decls, rule: Rule, keys: seq<Key>, ctx: Context, name: string)
    requires d.Valid() && CollectRule(d, rule, keys, ctx).Ok?
    ensures name in CollectRule(d, rule, keys, ctx).value.keys <==>
      name in d.keys || exists i, j :: FedByAt(ctx, rule.declarations.value, keys, i, j, name)
    ensures (exists i, j :: FedByAt(ctx, rule.declarations.value, keys, i, j, name)) ==>
      CollectRule(d, rule, keys, ctx).value.Get(name) == Some(DedupInto(GetOr(d, name), Pool(ctx, rule.selectors)))
  {
    CollectRuleEffect(d, rule, keys, ctx);
    FedByDeclsMembers(ctx, rule.declarations.value, keys, name);
    var r := CollectRule(d, rule, keys, ctx).value;
    assert r.Get(name).Some? <==> name in r.keys;
  }

  /** The lists of recorded names never hold a selector twice. */
  ghost predicate ListsNoDup(d: Decls) {
    forall name :: d.Get(name).Some? ==> NoDup(d.Get(name).value)
  }

  /**
   * The table only grows: names keep their positions, new names come after,
   * and each list keeps its selectors in order, with new ones after them.
   */
  ghost predicate Grows(d: Decls, d': Decls) {
    d'.Valid() && d.keys <= d'.keys
    && (ListsNoDup(d) ==> ListsNoDup(d'))
    && forall name :: d.Get(name).Some? ==> d'.Get(name).Some? && d.Get(name).value <= d'.Get(name).value
  }

  lemma EffectGrows(d: Decls, d': Decls, fed: seq<string>, pool: seq<string>)
    requires Effect(d, d', fed, pool)
    ensures Grows(d, d')
  {
  }

  lemma GrowsTrans(d: Decls, d1: Decls, d2: Decls)
    requires Grows(d, d1) && Grows(d1, d2)
    ensures Grows(d, d2)
  {
  }

  lemma GrowsRefl(d: Decls)
    requires d.Valid()
    ensures Grows(d, d)
  {
  }

  lemma RuleGrows(d: Decls, rule: Rule, keys: seq<Key>, ctx: Context)
    requires d.Valid()
    ensures CollectRule(d, rule, keys, ctx).Ok? ==> Grows(d, CollectRule(d, rule, keys, ctx).value)
  {
    CollectRuleEffect(d, rule, keys, ctx);
    if CollectRule(d, rule, keys, ctx).Ok? {
      EffectGrows(d, CollectRule(d, rule, keys, ctx).value, FedByDecls(ctx, rule.declarations.value, keys), Pool(ctx, rule.selectors));
    }
  }

  /** A run of rules only grows the table. */
  lemma {:induction false} CollectRulesGrows(d: Decls, rules: seq<Rule>, keys: seq<Key>, ctx: Context)
    requires d.Valid()
    ensures CollectRules(d, rules, keys, ctx).Ok? ==> Grows(d, CollectRules(d, rules, keys, ctx).value)
    decreases |rules|
  {
    if rules == [] {
      GrowsRefl(d);
    } else {
      var n := |rules| - 1;
      CollectRulesGrows(d, rules[..n], keys, ctx);
      var r := CollectRules(d, rules[..n], keys, ctx);
      if r.Ok? {
        RuleGrows(r.value, rules[n], keys, ctx);
        if CollectRule(r.value, rules[n], keys, ctx).Ok? {
          GrowsTrans(d, r.value, CollectRule(r.value, rules[n], keys, ctx).value);
        }
      }
    }
  }

  /** Running two runs of rules one after the other is running their concatenation. */
  lemma {:induction false} CollectRulesAppend(d: Decls, a: seq<Rule>, b: seq<Rule>, keys: seq<Key>, ctx: Context)
    ensures CollectRules(d, a + b, keys, ctx) ==
      match CollectRules(d, a, keys, ctx)
      case Err(e) => Err(e)
      case Ok(d1) => CollectRules(d1, b, keys, ctx)
    decreases |b|
  {
    if b == [] {
      assert a + b == a;
    } else {
      var n := |b| - 1;
      assert (a + b)[..|a + b| - 1] == a + b[..n];
      assert (a + b)[|a + b| - 1] == b[n];
      CollectRulesAppend(d, a, b[..n], keys, ctx);
    }
  }

  /**
   * The rules `parseRule` is called on, in order: for each top-level rule,
   * the nested rules of a matching media rule, then the rule itself when it
   * has selectors.
   */
  function Visited(ctx: Context, rules: seq<Rule>): (r: seq<Rule>)
    decreases |rules|
  {
    if rules == [] then []
    else
      var n := |rules| - 1;
      var rule := rules[n];
      Visited(ctx, rules[..n])
      + (if rule.Media? && MediaMatches(ctx.media(rule.query)) then rule.rules else [])
      + (if HasSelectors(rule) then [rule] else [])
  }

  /**
   * A media rule's nested rules are walked exactly when the library matches
   * its query or throws on it; the media rule itself is never passed to
   * `parseRule`, since it has no `selectors`.
   */
  lemma MediaRuleVisits(ctx: Context, query: string, nested: seq<Rule>)
    ensures Visited(ctx, [Media(query, nested)]) == if ctx.media(query) == NotMatched then [] else nested
  {
    assert [Media(query, nested)][..0] == [];
  }

  /** The walk over the sheet is `parseRule` on each visited rule in turn. */
  lemma {:induction false} CollectSheetVisits(d: Decls, rules: seq<Rule>, keys: seq<Key>, ctx: Context)
    ensures CollectSheet(d, rules, keys, ctx) == CollectRules(d, Visited(ctx, rules), keys, ctx)
    decreases |rules|
  {
    if rules != [] {
      var n := |rules| - 1;
      var rule := rules[n];
      var nested := if rule.Media? && MediaMatches(ctx.media(rule.query)) then rule.rules else [];
      var own := if HasSelectors(rule) then [rule] else [];
      CollectSheetVisits(d, rules[..n], keys, ctx);
      var v := Visited(ctx, rules[..n]);
      CollectRulesAppend(d, v + nested, own, keys, ctx);
      CollectRulesAppend(d, v, nested, keys, ctx);
      if own != [] {
        assert own[..0] == [];
      }
    }
  }

  /** The walk over a sheet only grows the table, and no list gets a selector twice. */
  lemma SheetGrows(d: Decls, rules: seq<Rule>, keys: seq<Key>, ctx: Context)
    requires d.Valid()
    ensures CollectSheet(d, rules, keys, ctx).Ok? ==> Grows(d, CollectSheet(d, rules, keys, ctx).value)
  {
    CollectSheetVisits(d, rules, keys, ctx);
    CollectRulesGrows(d, Visited(ctx, rules), keys, ctx);
  }

  /** `parseDeclarations` returns a well-formed table whose lists have no duplicate. */
  lemma DeclarationsWellFormed(rules: seq<Rule>, keys: seq<string>, ctx: Context)
    ensures Declarations(rules, keys, ctx).Ok? ==> Declarations(rules, keys, ctx).value.Valid() && ListsNoDup(Declarations(rules, keys, ctx).value)
  {
    SheetGrows(Empty(), rules, ParseKeys(keys), ctx);
  }

  /** The declarations that have a value. */
  function Valued(ds: seq<Decl>): (r: seq<Decl>)
    ensures forall x :: x in r <==> x in ds && HasValue(x)
    decreases |ds|
  {
    if ds == [] then []
    else
      var n := |ds| - 1;
      assert ds == ds[..n] + [ds[n]];
      Valued(ds[..n]) + if HasValue(ds[n]) then [ds[n]] else []
  }

  /** Comments and declarations with an empty value can be dropped without changing the outcome. */
  lemma {:induction false} ValuelessIgnored(d: Decls, sels: Option<seq<string>>, ds: seq<Decl>, keys: seq<Key>, ctx: Context)
    ensures CollectDecls(d, sels, ds, keys, ctx) == CollectDecls(d, sels, Valued(ds), keys, ctx)
    decreases |ds|
  {
    if ds != [] {
      var n := |ds| - 1;
      ValuelessIgnored(d, sels, ds[..n], keys, ctx);
      var v := Valued(ds[..n]);
      if HasValue(ds[n]) {
        assert (v + [ds[n]])[..|v|] == v;
      } else {
        assert v + [] == v;
      }
    }
  }

  /* Once a prefix of a walk has thrown, the whole walk throws the same error. */

  lemma {:induction false} CollectDeclStops(d: Decls, sels: Option<seq<string>>, prop: string, value: string, keys: seq<Key>, ctx: Context, j: nat, e: Failure)
    requires j <= |keys| && CollectDecl(d, sels, prop, value, keys[..j], ctx) == Err(e)
    ensures CollectDecl(d, sels, prop, value, keys, ctx) == Err(e)
    decreases |keys|
  {
    if j < |keys| {
      var n := |keys| - 1;
      assert keys[..n][..j] == keys[..j];
      CollectDeclStops(d, sels, prop, value, keys[..n], ctx, j, e);
    } else {
      assert keys[..j] == keys;
    }
  }

  lemma {:induction false} CollectDeclsStops(d: Decls, sels: Option<seq<string>>, ds: seq<Decl>, keys: seq<Key>, ctx: Context, i: nat, e: Failure)
    requires i <= |ds| && CollectDecls(d, sels, ds[..i], keys, ctx) == Err(e)
    ensures CollectDecls(d, sels, ds, keys, ctx) == Err(e)
    decreases |ds|
  {
    if i < |ds| {
      var n := |ds| - 1;
      assert ds[..n][..i] == ds[..i];
      CollectDeclsStops(d, sels, ds[..n], keys, ctx, i, e);
    } else {
      assert ds[..i] == ds;
    }
  }

  lemma {:induction false} CollectRulesStops(d: Decls, rules: seq<Rule>, keys: seq<Key>, ctx: Context, i: nat, e: Failure)
    requires i <= |rules| && CollectRules(d, rules[..i], keys, ctx) == Err(e)
    ensures CollectRules(d, rules, keys, ctx) == Err(e)
    decreases |rules|
  {
    if i < |rules| {
      var n := |rules| - 1;
      assert rules[..n][..i] == rules[..i];
      CollectRulesStops(d, rules[..n], keys, ctx, i, e);
    } else {
      assert rules[..i] == rules;
    }
  }

  lemma {:induction false} CollectSheetStops(d: Decls, rules: seq<Rule>, keys: seq<Key>, ctx: Context, i: nat, e: Failure)
    requires i <= |rules| && CollectSheet(d, rules[..i], keys, ctx) == Err(e)
    ensures CollectSheet(d, rules, keys, ctx) == Err(e)
    decreases |rules|
  {
    if i < |rules| {
      var n := |rules| - 1;
      assert rules[..n][..i] == rules[..i];
      CollectSheetStops(d, rules[..n], keys, ctx, i, e);
    } else {
      assert rules[..i] == rules;
    }
  }

  /** One more selector of the rule. */
  lemma CollectedStep(ctx: Context, sels: seq<string>, i: nat)
    requires i < |sels|
    ensures Collected(ctx, sels[..i + 1]) == Collected(ctx, sels[..i]) + if Admitted(ctx.policy, sels[i]) then [Transform(ctx.opts, sels[i])] else []
  {
    assert sels[..i + 1][..i] == sels[..i];
  }

  /**
   * `rule.selectors.forEach(...)` for one recorded name (tools/generate.js:370-410):
   * each selector that passes both filters is rewritten and appended unless
   * the list already holds it.
   */
  method AddSelectors(list: seq<string>, sels: seq<string>, ctx: Context) returns (r: seq<string>)
    ensures r == DedupInto(list, Collected(ctx, sels))
  {
    r := list;
    for i := 0 to |sels|
      invariant r == DedupInto(list, Collected(ctx, sels[..i]))
    {
      ghost var prev := Collected(ctx, sels[..i]);
      CollectedStep(ctx, sels, i);
      var sel := sels[i];
      if ctx.policy.unmergeable(sel) || ctx.policy.ignored(sel) {
        assert prev + [] == prev;
        continue;
      }
      var s := RewriteSelector(ctx.opts, sel);
      if s !in r {
        r := r + [s];
      }
      DedupIntoSnoc(list, prev, s);
    }
    assert sels[..|sels|] == sels;
  }

  lemma CollectDeclSnoc(d: Decls, sels: Option<seq<string>>, prop: string, value: string, keys: seq<Key>, ctx: Context, j: nat)
    requires j < |keys|
    ensures CollectDecl(d, sels, prop, value, keys[..j + 1], ctx) ==
      match CollectDecl(d, sels, prop, value, keys[..j], ctx)
      case Err(e) => Err(e)
      case Ok(d1) => CollectKey(d1, sels, prop, value, keys[j], ctx)
  {
    assert keys[..j + 1][..j] == keys[..j];
  }

  lemma CollectDeclsSnoc(d: Decls, sels: Option<seq<string>>, ds: seq<Decl>, keys: seq<Key>, ctx: Context, i: nat)
    requires i < |ds|
    ensures CollectDecls(d, sels, ds[..i + 1], keys, ctx) ==
      match CollectDecls(d, sels, ds[..i], keys, ctx)
      case Err(e) => Err(e)
      case Ok(d1) => DeclStep(d1, sels, ds[i], keys, ctx)
  {
    assert ds[..i + 1][..i] == ds[..i];
  }

  /**
   * `parseRule(decls, rule, opts)` (tools/generate.js:356-415): each
   * declaration with a value is tested against each key of the expanded
   * table, split at `": "`; a match records the rule's selectors under the
   * key's name (or its `!important` variant). The first `TypeError` ends
   * the walk.
   */
  method ParseRule(d: Decls, rule: Rule, keys: seq<string>, ctx: Context) returns (r: Result<Decls, Failure>)
    ensures r == CollectRule(d, rule, ParseKeys(keys), ctx)
  {
    if !(rule.Other? && rule.declarations.Some?) {
      return Err(DeclarationsNotIterable);
    }
    var ds := rule.declarations.value;
    var sels := rule.selectors;
    ghost var pk := ParseKeys(keys);
    var cur := d;
    for i := 0 to |ds|
      invariant CollectDecls(d, sels, ds[..i], pk, ctx) == Ok(cur)
    {
      CollectDeclsSnoc(d, sels, ds, pk, ctx, i);
      var decl := ds[i];
      if !decl.Declaration? || decl.value == "" {
        continue;
      }
      ghost var start := cur;
      for j := 0 to |keys|
        invariant CollectDecl(start, sels, decl.property, decl.value, pk[..j], ctx) == Ok(cur)
      {
        CollectDeclSnoc(start, sels, decl.property, decl.value, pk, ctx, j);
        var (prop, val) := SplitKey(keys[j]);
        if decl.property != prop {
          continue;
        }
        if val.None? {
          CollectDeclStops(start, sels, decl.property, decl.value, pk, ctx, j + 1, KeyWithoutValue);
          CollectDeclsStops(d, sels, ds, pk, ctx, i + 1, KeyWithoutValue);
          return Err(KeyWithoutValue);
        }
        if !ctx.equal(prop, decl.value, val.value) {
          continue;
        }
        var name := keys[j];
        if EndsWith(Trim(decl.value), Important) {
          name := keys[j] + " !important";
        }
        ghost var before := cur;
        if cur.Get(name).None? {
          cur := cur.Put(name, []);
          PutTwice(before, name, [], DedupInto([], Pool(ctx, sels)));
        }
        if sels.None? {
          CollectDeclStops(start, sels, decl.property, decl.value, pk, ctx, j + 1, SelectorsUndefined);
          CollectDeclsStops(d, sels, ds, pk, ctx, i + 1, SelectorsUndefined);
          return Err(SelectorsUndefined);
        }
        var list := AddSelectors(cur.Get(name).value, sels.value, ctx);
        cur := cur.Put(name, list);
      }
      assert pk[..|keys|] == pk;
    }
    assert ds[..|ds|] == ds;
    return Ok(cur);
  }

  lemma CollectRulesSnoc(d: Decls, rules: seq<Rule>, keys: seq<Key>, ctx: Context, i: nat)
    requires i < |rules|
    ensures CollectRules(d, rules[..i + 1], keys, ctx) ==
      match CollectRules(d, rules[..i], keys, ctx)
      case Err(e) => Err(e)
      case Ok(d1) => CollectRule(d1, rules[i], keys, ctx)
  {
    assert rules[..i + 1][..i] == rules[..i];
  }

  lemma CollectSheetSnoc(d: Decls, rules: seq<Rule>, keys: seq<Key>, ctx: Context, i: nat)
    requires i < |rules|
    ensures CollectSheet(d, rules[..i + 1], keys, ctx) ==
      match CollectSheet(d, rules[..i], keys, ctx)
      case Err(e) => Err(e)
      case Ok(d1) => SheetStep(d1, rules[i], keys, ctx)
  {
    assert rules[..i + 1][..i] == rules[..i];
  }

  /**
   * `parseDeclarations(css, opts)` (tools/generate.js:340-354) on the
   * parsed sheet's top-level rules: the nested rules of a matching media
   * rule are parsed, then the rule itself when it has selectors.
   */
  method ParseDeclarations(rules: seq<Rule>, keys: seq<string>, ctx: Context) returns (r: Result<Decls, Failure>)
    ensures r == Declarations(rules, keys, ctx)
  {
    ghost var pk := ParseKeys(keys);
    var decls := Empty();
    for i := 0 to |rules|
      invariant CollectSheet(Empty(), rules[..i], pk, ctx) == Ok(decls)
    {
      CollectSheetSnoc(Empty(), rules, pk, ctx, i);
      var rule := rules[i];
      if rule.Media? && MediaMatches(ctx.media(rule.query)) {
        ghost var start := decls;
        for j := 0 to |rule.rules|
          invariant CollectRules(start, rule.rules[..j], pk, ctx) == Ok(decls)
        {
          CollectRulesSnoc(start, rule.rules, pk, ctx, j);
          var step := ParseRule(decls, rule.rules[j], keys, ctx);
          if step.Err? {
            CollectRulesStops(start, rule.rules, pk, ctx, j + 1, step.error);
            CollectSheetStops(Empty(), rules, pk, ctx, i + 1, step.error);
            return step;
          }
          decls := step.value;
        }
        assert rule.rules[..|rule.rules|] == rule.rules;
      }
      if !(rule.Other? && rule.selectors.Some? && |rule.selectors.value| > 0) {
        continue;
      }
      var step := ParseRule(decls, rule, keys, ctx);
      if step.Err? {
        CollectSheetStops(Empty(), rules, pk, ctx, i + 1, step.error);
        return step;
      }
      decls := step.value;
    }
    assert rules[..|rules|] == rules;
    return Ok(decls);
  }
}
