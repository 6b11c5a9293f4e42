/**
 * The pipeline of `main` (tools/generate.js:516-552) once every source's
 * style sheets have been fetched and parsed: the author's table is
 * expanded, each source's sheet is walked with that source's options, the
 * per-source tables are merged in source order, and the output is built
 * from the merged table and the expanded one.
 */
module Generate {
  import opened Wrappers
  import opened Seqs
  import opened Dicts
  import opened Mappings
  import opened Values
  import opened Selectors
  import opened Collect
  import opened Merge
  import opened Emit

  /** A source: its options and its style sheets, joined and parsed by `css.parse`. */
  datatype Source = Source(prefix: Option<string>, matches: seq<string>, sheet: seq<Rule>)

  /** `{prefix: source.prefix, match: source.match}`, with the filters, the device's media verdicts and `isEqualValue`. */
  function SourceContext(src: Source, policy: Policy, media: string -> MediaVerdict): (r: Context) {
    Context(Options(src.prefix, src.matches), policy, media, IsEqualValue)
  }

  /** The per-source tables, in source order; the first source whose walk throws ends the run. */
  function Tables(sources: seq<Source>, keys: seq<string>, policy: Policy, media: string -> MediaVerdict): (r: Result<seq<Decls>, Failure>)
    decreases |sources|
  {
    if sources == [] then Ok([])
    else
      var n := |sources| - 1;
      match Tables(sources[..n], keys, policy, media)
      case Err(e) => Err(e)
      case Ok(ts) =>
        match Declarations(sources[n].sheet, keys, SourceContext(sources[n], policy, media))
        case Err(e) => Err(e)
        case Ok(t) => Ok(ts + [t])
  }

  /** What the generator writes between the markers, or the error it exits with. */
  function Pipeline(author: Table, sources: seq<Source>, policy: Policy, media: string -> MediaVerdict, format: string -> string): (r: Result<string, Failure>)
    requires author.Valid()
  {
    ExpandShape(author);
    var mappings := Expand(author);
    match Tables(sources, mappings.keys, policy, media)
    case Err(e) => Err(e)
    case Ok(ts) => Ok(Output(MergeAll(ts), mappings, format))
  }

  /** There is one table per source, the one its own walk produces, and each is well formed. */
  lemma {:induction false} TablesSpec(sources: seq<Source>, keys: seq<string>, policy: Policy, media: string -> MediaVerdict)
    ensures Tables(sources, keys, policy, media).Ok? ==>
      var ts := Tables(sources, keys, policy, media).value;
      |ts| == |sources|
      && (forall i :: 0 <= i < |ts| ==> Declarations(sources[i].sheet, keys, SourceContext(sources[i], policy, media)) == Ok(ts[i]))
      && (forall i :: 0 <= i < |ts| ==> ts[i].Valid() && ListsNoDup(ts[i]))
    decreases |sources|
  {
    if sources != [] {
      var n := |sources| - 1;
      TablesSpec(sources[..n], keys, policy, media);
      var src := sources[n];
      DeclarationsWellFormed(src.sheet, keys, SourceContext(src, policy, media));
      if Tables(sources, keys, policy, media).Ok? {
        var ts := Tables(sources[..n], keys, policy, media).value;
        var t := Declarations(src.sheet, keys, SourceContext(src, policy, media)).value;
        forall i | 0 <= i < n ensures sources[..n][i] == sources[i] && (ts + [t])[i] == ts[i] {
        }
      }
    }
  }

  /** The run fails exactly when some source's walk does, and then with the first such error. */
  lemma {:induction false} TablesFail(sources: seq<Source>, keys: seq<string>, policy: Policy, media: string -> MediaVerdict)
    ensures Tables(sources, keys, policy, media).Err? <==>
      exists i :: 0 <= i < |sources| && Declarations(sources[i].sheet, keys, SourceContext(sources[i], policy, media)).Err?
    decreases |sources|
  {
    if sources != [] {
      var n := |sources| - 1;
      TablesFail(sources[..n], keys, policy, media);
      assert forall i :: 0 <= i < n ==> sources[..n][i] == sources[i];
    }
  }

  lemma {:induction false} TablesStops(sources: seq<Source>, keys: seq<string>, policy: Policy, media: string -> MediaVerdict, i: nat, e: Failure)
    requires i <= |sources| && Tables(sources[..i], keys, policy, media) == Err(e)
    ensures Tables(sources, keys, policy, media) == Err(e)
    decreases |sources|
  {
    if i < |sources| {
      var n := |sources| - 1;
      assert sources[..n][..i] == sources[..i];
      TablesStops(sources[..n], keys, policy, media, i, e);
    } else {
      assert sources[..i] == sources;
    }
  }

  /**
   * Every rule written lists, once each and in source order of first
   * appearance, the selectors every source recorded for its name, and that
   * list is not empty.
   */
  lemma EmittedSelectors(ts: seq<Decls>, es: seq<(string, string)>, e: Emitted)
    requires forall i :: 0 <= i < |ts| ==> ts[i].Valid()
    requires e in Rules(MergeAll(ts), es)
    ensures ListedIn(ts, e.name)
    ensures e.selectors == Dedup(Gathered(ts, e.name)) && e.selectors != []
    ensures NoDup(e.selectors)
  {
    MergeAllSpec(ts);
    RulesCarryLists(MergeAll(ts), es);
    DedupProperties(Gathered(ts, e.name), []);
  }

  /** The generator: expand the table, walk and merge every source in order, then build the output. */
  method Run(author: Table, sources: seq<Source>, policy: Policy, media: string -> MediaVerdict, format: string -> string) returns (r: Result<string, Failure>)
    requires author.Valid()
    ensures r == Pipeline(author, sources, policy, media, format)
  {
    var mappings := PrepareMappings(author);
    var mappingKeys := mappings.keys;
    var decls := Empty();
    ghost var ts: seq<Decls> := [];
    for i := 0 to |sources|
      invariant Tables(sources[..i], mappingKeys, policy, media) == Ok(ts)
      invariant decls == MergeAll(ts)
    {
      assert sources[..i + 1][..i] == sources[..i];
      var source := sources[i];
      var t := ParseDeclarations(source.sheet, mappingKeys, SourceContext(source, policy, media));
      if t.Err? {
        TablesStops(sources, mappingKeys, policy, media, i + 1, t.error);
        return Err(t.error);
      }
      DeclarationsWellFormed(source.sheet, mappingKeys, SourceContext(source, policy, media));
      decls := MergeInto(decls, t.value);
      assert (ts + [t.value])[..|ts|] == ts;
      ts := ts + [t.value];
    }
    assert sources[..|sources|] == sources;
    var out := BuildOutput(decls, mappings, format);
    return Ok(out);
  }
}
