/**
 * `buildOutput` (tools/generate.js:421-442): between a begin and an end
 * marker, for each entry of the expanded mapping table in table order, a
 * rule for the recorded selectors of the key and then one for those of its
 * `!important` variant, each with a comment line naming it; every line of
 * the result is then indented by two spaces. The formatter (`perfectionist`)
 * is an oracle.
 */
module Emit {
  import opened Wrappers
  import opened Text
  import opened Dicts
  import opened Mappings
  import opened Collect

  /**
   * The source's one literal (tools/generate.js:422), written as three pieces
   * so that `MarkersOneLine` can check it piece by piece: the solver does not
   * find the absence of a line break in all 73 characters at once.
   */
  const BeginMarker := "/* begin auto-generated rules" + " - use tools/generate.js" + " to generate them */"
  const EndMarker := "/* end auto-generated rules */"
  const ImportantSuffix := " !important"

  /** `Object.entries(mappings)`. */
  function Entries(t: Table): (es: seq<(string, string)>)
    requires t.Valid()
    ensures Firsts(es) == t.keys
    ensures forall i :: 0 <= i < |es| ==> t.Get(es[i].0) == Some(es[i].1)
  {
    seq(|t.keys|, i requires 0 <= i < |t.keys| => (t.keys[i], t.vals[t.keys[i]]))
  }

  lemma EntryAt(t: Table, i: nat)
    requires t.Valid() && i <= |t.keys|
    ensures |Entries(t)| == |t.keys|
    ensures i < |t.keys| ==> Entries(t)[i] == (t.keys[i], t.vals[t.keys[i]])
  {
  }

  /** `s.replace(/;$/, "")`: one trailing semicolon removed. */
  function StripSemicolon(s: string): (r: string) {
    if EndsWith(s, ";") then s[..|s| - 1] else s
  }

  /** `toValue.trim().replace(/;$/, "")`. */
  function NormalBody(toValue: string): (r: string) {
    StripSemicolon(Trim(toValue))
  }

  /** `.map(v => `${v} !important`)`. */
  function MarkImportant(clauses: seq<string>): (r: seq<string>)
    ensures |r| == |clauses|
    ensures forall i :: 0 <= i < |r| ==> EndsWith(r[i], ImportantSuffix) && r[i][..|r[i]| - |ImportantSuffix|] == clauses[i]
  {
    seq(|clauses|, i requires 0 <= i < |clauses| => clauses[i] + ImportantSuffix)
  }

  /** The body of an `!important` rule: every `;`-separated clause of the normal body marked `!important`. */
  function ImportantBody(toValue: string): (r: string) {
    Join(MarkImportant(Split(NormalBody(toValue), ';')), ";")
  }

  /** One emitted rule: the name its comment gives, its selectors and its body. */
  datatype Emitted = Emitted(name: string, selectors: seq<string>, body: string)

  /** `sels && sels.length`: the name has a non-empty list of selectors. */
  predicate Listed(decls: Decls, name: string) {
    decls.Get(name).Some? && |decls.Get(name).value| > 0
  }

  /** The rules one entry of the table yields: the normal one, then the `!important` one. */
  function EntryRules(decls: Decls, fromValue: string, toValue: string): (r: seq<Emitted>) {
    var important := fromValue + ImportantSuffix;
    (if Listed(decls, fromValue) then [Emitted(fromValue, decls.Get(fromValue).value, NormalBody(toValue))] else [])
    + (if Listed(decls, important) then [Emitted(important, decls.Get(important).value, ImportantBody(toValue))] else [])
  }

  /** The rules the loop over the entries yields, in table order. */
  function Rules(decls: Decls, es: seq<(string, string)>): (r: seq<Emitted>)
    decreases |es|
  {
    if es == [] then []
    else
      var n := |es| - 1;
      Rules(decls, es[..n]) + EntryRules(decls, es[n].0, es[n].1)
  }

  /** The comment line that names each rule, with its line break. */
  function RuleComment(name: string): (r: string) {
    "/* auto-generated rule for \"" + name + "\" */\n"
  }

  /** The text of one rule, before the formatter: the selectors joined by commas, then the body. */
  function RuleSource(e: Emitted): (r: string) {
    Join(e.selectors, ",") + " {" + e.body + ";}"
  }

  function RuleText(e: Emitted, format: string -> string): (r: string) {
    RuleComment(e.name) + format(RuleSource(e))
  }

  function Render(es: seq<Emitted>, format: string -> string): (r: string)
    decreases |es|
  {
    if es == [] then ""
    else Render(es[..|es| - 1], format) + RuleText(es[|es| - 1], format)
  }

  /** `.map(line => "  " + line)`. */
  function IndentAll(lines: seq<string>): (r: seq<string>)
    ensures |r| == |lines|
    ensures forall i :: 0 <= i < |r| ==> StartsWith(r[i], "  ") && r[i][2..] == lines[i]
  {
    seq(|lines|, i requires 0 <= i < |lines| => "  " + lines[i])
  }

  /** Drops the two leading spaces of every line that starts with them. */
  function Dedent(lines: seq<string>): (r: seq<string>)
    ensures |r| == |lines|
    ensures forall i :: 0 <= i < |r| ==> if StartsWith(lines[i], "  ") then lines[i] == "  " + r[i] else r[i] == lines[i]
  {
    seq(|lines|, i requires 0 <= i < |lines| => if StartsWith(lines[i], "  ") then lines[i][2..] else lines[i])
  }

  /** `output.split("\n").map(line => "  " + line).join("\n")`. */
  function Indent(s: string): (r: string) {
    Join(IndentAll(Split(s, '\n')), "\n")
  }

  /** The result of `buildOutput(decls)` for the table `mappings`. */
  function Output(decls: Decls, mappings: Table, format: string -> string): (r: string)
    requires mappings.Valid()
  {
    Indent(BeginMarker + "\n" + Render(Rules(decls, Entries(mappings)), format) + EndMarker)
  }

  /** Each entry's rules come after those of the entries before it. */
  lemma {:induction false} RulesAppend(decls: Decls, a: seq<(string, string)>, b: seq<(string, string)>)
    ensures Rules(decls, a + b) == Rules(decls, a) + Rules(decls, b)
    decreases |b|
  {
    if b == [] {
      assert a + b == a;
    } else {
      var n := |b| - 1;
      assert (a + b)[..|a + b| - 1] == a + b[..n];
      assert (a + b)[|a + b| - 1] == b[n];
      RulesAppend(decls, a, b[..n]);
    }
  }

  /** The rule `e` is one the entry `fromValue: toValue` yields. */
  predicate EmittedFor(decls: Decls, fromValue: string, toValue: string, e: Emitted) {
    (e.name == fromValue && Listed(decls, fromValue) && e == Emitted(fromValue, decls.Get(fromValue).value, NormalBody(toValue)))
    || (e.name == fromValue + ImportantSuffix && Listed(decls, e.name) && e == Emitted(e.name, decls.Get(e.name).value, ImportantBody(toValue)))
  }

  /** The rule `e` is one the `i`-th entry yields. */
  predicate EmittedAt(decls: Decls, es: seq<(string, string)>, i: int, e: Emitted) {
    0 <= i < |es| && EmittedFor(decls, es[i].0, es[i].1, e)
  }

  /**
   * A rule is emitted exactly for each entry's key, and for its `!important`
   * variant, that has a non-empty list of selectors; it lists those
   * selectors, and its body is the entry's replacement (marked `!important`
   * for the variant).
   */
  lemma {:induction false} RulesMembers(decls: Decls, es: seq<(string, string)>, e: Emitted)
    ensures e in Rules(decls, es) <==> exists i :: EmittedAt(decls, es, i, e)
    decreases |es|
  {
    if es != [] {
      var n := |es| - 1;
      var init := es[..n];
      RulesMembers(decls, init, e);
      EntryRulesMembers(decls, es[n].0, es[n].1, e);
      if e in Rules(decls, init) {
        var i :| EmittedAt(decls, init, i, e);
        assert init[i] == es[i];
        assert EmittedAt(decls, es, i, e);
      } else if e in EntryRules(decls, es[n].0, es[n].1) {
        assert EmittedAt(decls, es, n, e);
      } else {
        forall i | 0 <= i < |es| ensures !EmittedAt(decls, es, i, e) {
          if i < n {
            assert init[i] == es[i];
            assert !EmittedAt(decls, init, i, e);
          }
        }
      }
    }
  }

  lemma EntryRulesMembers(decls: Decls, fromValue: string, toValue: string, e: Emitted)
    ensures e in EntryRules(decls, fromValue, toValue) <==> EmittedFor(decls, fromValue, toValue, e)
  {
  }

  /** Every emitted rule carries the whole, non-empty list of selectors recorded under its name. */
  lemma {:induction false} RulesCarryLists(decls: Decls, es: seq<(string, string)>)
    ensures forall e :: e in Rules(decls, es) ==> Listed(decls, e.name) && e.selectors == decls.Get(e.name).value
    decreases |es|
  {
    if es != [] {
      RulesCarryLists(decls, es[..|es| - 1]);
    }
  }

  lemma IndentLines(s: string)
    ensures Split(Indent(s), '\n') == IndentAll(Split(s, '\n'))
  {
    var indented := IndentAll(Split(s, '\n'));
    forall i | 0 <= i < |indented| ensures '\n' !in indented[i] {
      assert indented[i] == "  " + Split(s, '\n')[i];
    }
    SplitOfJoin(indented, '\n');
  }

  /** Every line of the output starts with two spaces, and dropping them gives back the unindented text. */
  lemma IndentRoundTrip(s: string)
    ensures forall line :: line in Split(Indent(s), '\n') ==> StartsWith(line, "  ")
    ensures Join(Dedent(Split(Indent(s), '\n')), "\n") == s
  {
    IndentLines(s);
    var lines := Split(s, '\n');
    var out := Split(Indent(s), '\n');
    forall i | 0 <= i < |out| ensures StartsWith(out[i], "  ") && Dedent(out)[i] == lines[i] {
      assert out[i] == "  " + lines[i];
      assert out[i][..2] == "  ";
      assert out[i][2..] == lines[i];
    }
    assert Dedent(out) == lines;
    JoinOfSplit(s, '\n');
  }

  lemma MarkersOneLine()
    ensures '\n' !in BeginMarker && '\n' !in EndMarker
  {
    OneLine("/* begin auto-generated rules");
    OneLine(" - use tools/generate.js");
    OneLine(" to generate them */");
    OneLine(EndMarker);
  }

  lemma OneLine(s: string)
    requires forall i :: 0 <= i < |s| ==> s[i] != '\n'
    ensures '\n' !in s
  {
  }

  /** A first line without line breaks becomes the first line of the indented text. */
  lemma IndentBegins(u: string, rest: string)
    requires '\n' !in u
    ensures Split(Indent(u + "\n" + rest), '\n')[0] == "  " + u
  {
    var s := u + "\n" + rest;
    assert s == u + ['\n'] + rest;
    SplitAtSeparator(u, rest, '\n');
    IndentLines(s);
  }

  /** The first line of the output is the indented begin marker. */
  lemma OutputBegins(decls: Decls, mappings: Table, format: string -> string)
    requires mappings.Valid()
    ensures Split(Output(decls, mappings, format), '\n')[0] == "  " + BeginMarker
  {
    MarkersOneLine();
    var rest := Render(Rules(decls, Entries(mappings)), format) + EndMarker;
    assert BeginMarker + "\n" + Render(Rules(decls, Entries(mappings)), format) + EndMarker == BeginMarker + "\n" + rest;
    IndentBegins(BeginMarker, rest);
  }

  /** Splitting a text that ends in a piece without line breaks: that piece ends the last line. */
  lemma {:induction false} SplitEndsWith(t: string, u: string, c: char)
    requires c !in u
    ensures EndsWith(Split(t + u, c)[|Split(t + u, c)| - 1], u)
    decreases |t|
  {
    if t == [] {
      assert t + u == u;
      SplitWithoutSeparator(u, c);
      assert u[|u| - |u|..] == u;
    } else {
      var s := t + u;
      assert s[1..] == t[1..] + u;
      SplitEndsWith(t[1..], u, c);
      var rest := Split(s[1..], c);
      var last := rest[|rest| - 1];
      if s[0] != c && |rest| == 1 {
        assert ([s[0]] + last)[|[s[0]] + last| - |u|..] == last[|last| - |u|..];
      }
    }
  }

  /** A last piece without line breaks ends the last line of the indented text. */
  lemma IndentEnds(t: string, u: string)
    requires '\n' !in u
    ensures var lines := Split(Indent(t + u), '\n'); EndsWith(lines[|lines| - 1], u)
  {
    var s := t + u;
    var lines := Split(s, '\n');
    SplitEndsWith(t, u, '\n');
    IndentLines(s);
    var indented := IndentAll(lines);
    assert indented[|indented| - 1] == "  " + lines[|lines| - 1];
    PrefixKeepsEnd("  ", lines[|lines| - 1], u);
  }

  /** Putting text in front keeps the end. */
  lemma PrefixKeepsEnd(p: string, line: string, u: string)
    requires EndsWith(line, u)
    ensures EndsWith(p + line, u)
  {
    assert (p + line)[|p + line| - |u|..] == line[|line| - |u|..];
  }

  /** The last line of the output ends with the end marker. */
  lemma OutputEnds(decls: Decls, mappings: Table, format: string -> string)
    requires mappings.Valid()
    ensures var lines := Split(Output(decls, mappings, format), '\n'); EndsWith(lines[|lines| - 1], EndMarker)
  {
    MarkersOneLine();
    IndentEnds(BeginMarker + "\n" + Render(Rules(decls, Entries(mappings)), format), EndMarker);
  }

  /** At most one trailing semicolon is removed from the trimmed replacement. */
  lemma NormalBodyCases(toValue: string)
    ensures EndsWith(Trim(toValue), ";") ==> NormalBody(toValue) + ";" == Trim(toValue)
    ensures !EndsWith(Trim(toValue), ";") ==> NormalBody(toValue) == Trim(toValue)
  {
  }

  /** The `!important` body has one clause per clause of the normal body, that clause followed by ` !important`. */
  lemma ImportantClauses(toValue: string)
    ensures Split(ImportantBody(toValue), ';') == MarkImportant(Split(NormalBody(toValue), ';'))
  {
    var clauses := MarkImportant(Split(NormalBody(toValue), ';'));
    var plain := Split(NormalBody(toValue), ';');
    forall i | 0 <= i < |clauses| ensures ';' !in clauses[i] {
      MarkedClause(clauses[i], plain[i]);
    }
    SplitOfJoin(clauses, ';');
  }

  /** A marked clause is its unmarked clause followed by the suffix, so it gains no separator. */
  lemma MarkedClause(c: string, p: string)
    requires EndsWith(c, ImportantSuffix) && c[..|c| - |ImportantSuffix|] == p
    requires ';' !in p
    ensures c == p + ImportantSuffix && ';' !in c
  {
    assert c == c[..|c| - |ImportantSuffix|] + c[|c| - |ImportantSuffix|..];
  }

  /** Drops the ` !important` every clause of an `!important` body ends with. */
  function Unmark(clauses: seq<string>): (r: seq<string>)
    ensures |r| == |clauses|
    ensures forall i :: 0 <= i < |r| ==> if EndsWith(clauses[i], ImportantSuffix) then clauses[i] == r[i] + ImportantSuffix else r[i] == clauses[i]
  {
    seq(|clauses|, i requires 0 <= i < |clauses| => if EndsWith(clauses[i], ImportantSuffix) then clauses[i][..|clauses[i]| - |ImportantSuffix|] else clauses[i])
  }

  /** Dropping ` !important` from every clause of the `!important` body gives back the normal body. */
  lemma ImportantRoundTrip(toValue: string)
    ensures Join(Unmark(Split(ImportantBody(toValue), ';')), ";") == NormalBody(toValue)
  {
    ImportantClauses(toValue);
    var plain := Split(NormalBody(toValue), ';');
    var clauses := Split(ImportantBody(toValue), ';');
    forall i | 0 <= i < |clauses| ensures Unmark(clauses)[i] == plain[i] {
      var c := clauses[i];
      assert c == plain[i] + ImportantSuffix;
      assert c[|c| - |ImportantSuffix|..] == ImportantSuffix;
      assert c[..|c| - |ImportantSuffix|] == plain[i];
    }
    assert Unmark(clauses) == plain;
    JoinOfSplit(NormalBody(toValue), ';');
  }

  lemma {:induction false} RenderAppend(a: seq<Emitted>, b: seq<Emitted>, format: string -> string)
    ensures Render(a + b, format) == Render(a, format) + Render(b, format)
    decreases |b|
  {
    if b == [] {
      assert a + b == a;
    } else {
      var n := |b| - 1;
      var ab := a + b;
      assert ab[..|ab| - 1] == a + b[..n];
      assert ab[|ab| - 1] == b[n];
      var last := RuleText(b[n], format);
      assert Render(ab, format) == Render(a + b[..n], format) + last;
      RenderAppend(a, b[..n], format);
      assert Render(b, format) == Render(b[..n], format) + last;
      Associative(Render(a, format), Render(b[..n], format), last);
    }
  }

  lemma RenderOne(e: Emitted, format: string -> string)
    ensures Render([e], format) == RuleComment(e.name) + format(RuleSource(e))
  {
    assert [e][..0] == [];
  }

  /** The text the loop appends for one entry. */
  lemma EntryText(decls: Decls, prefix: seq<(string, string)>, entry: (string, string), format: string -> string)
    ensures Render(Rules(decls, prefix + [entry]), format) == Render(Rules(decls, prefix), format) + Render(EntryRules(decls, entry.0, entry.1), format)
  {
    assert (prefix + [entry])[..|prefix|] == prefix;
    RenderAppend(Rules(decls, prefix), EntryRules(decls, entry.0, entry.1), format);
  }

  /** The text built so far grows by the text of entry `i` in one step of the loop of `buildOutput`. */
  lemma OutputStep(decls: Decls, t: Table, i: nat, format: string -> string)
    requires t.Valid() && i < |t.keys|
    ensures BeginMarker + "\n" + Render(Rules(decls, Entries(t)[..i + 1]), format)
      == BeginMarker + "\n" + Render(Rules(decls, Entries(t)[..i]), format) + Render(EntryRules(decls, t.keys[i], t.vals[t.keys[i]]), format)
  {
    var es := Entries(t);
    var e := (t.keys[i], t.vals[t.keys[i]]);
    EntryAt(t, i);
    assert es[..i + 1] == es[..i] + [e];
    EntryText(decls, es[..i], e, format);
    Associative(BeginMarker + "\n", Render(Rules(decls, es[..i]), format), Render(EntryRules(decls, e.0, e.1), format));
  }

  lemma Associative(a: string, b: string, c: string)
    ensures (a + b) + c == a + (b + c)
  {
  }

  /** The body of the loop of tools/generate.js:424-438 for one entry: its normal rule, then its `!important` rule. */
  method AppendEntry(output: string, decls: Decls, fromValue: string, toValue: string, format: string -> string) returns (output': string)
    ensures output' == output + Render(EntryRules(decls, fromValue, toValue), format)
  {
    output' := output;
    var normalSelectors := decls.Get(fromValue);
    var importantSelectors := decls.Get(fromValue + " !important");
    ghost var normal: seq<Emitted> := [];
    ghost var important: seq<Emitted> := [];
    if normalSelectors.Some? && |normalSelectors.value| > 0 {
      var newValue := StripSemicolon(Trim(toValue));
      normal := [Emitted(fromValue, normalSelectors.value, newValue)];
      RenderOne(normal[0], format);
      Associative(output, RuleComment(fromValue), format(RuleSource(normal[0])));
      output' := output' + RuleComment(fromValue);
      output' := output' + format(Join(normalSelectors.value, ",") + " {" + newValue + ";}");
    }
    ghost var middle := output';
    if importantSelectors.Some? && |importantSelectors.value| > 0 {
      var newValue := Join(MarkImportant(Split(StripSemicolon(Trim(toValue)), ';')), ";");
      important := [Emitted(fromValue + " !important", importantSelectors.value, newValue)];
      RenderOne(important[0], format);
      Associative(middle, RuleComment(important[0].name), format(RuleSource(important[0])));
      output' := output' + RuleComment(fromValue + " !important");
      output' := output' + format(Join(importantSelectors.value, ",") + " {" + newValue + ";}");
    }
    assert middle == output + Render(normal, format);
    assert output' == middle + Render(important, format);
    assert EntryRules(decls, fromValue, toValue) == normal + important;
    RenderAppend(normal, important, format);
    Associative(output, Render(normal, format), Render(important, format));
  }

  /** `buildOutput(decls)` (tools/generate.js:421-442), with the expanded table as `mappings`. */
  method BuildOutput(decls: Decls, mappings: Table, format: string -> string) returns (out: string)
    requires mappings.Valid()
    ensures out == Output(decls, mappings, format)
  {
    ghost var es := Entries(mappings);
    var output := BeginMarker + "\n";
    for i := 0 to |mappings.keys|
      invariant output == BeginMarker + "\n" + Render(Rules(decls, es[..i]), format)
    {
      var fromValue := mappings.keys[i];
      var toValue := mappings.vals[fromValue];
      OutputStep(decls, mappings, i, format);
      output := AppendEntry(output, decls, fromValue, toValue, format);
    }
    EntryAt(mappings, 0);
    assert es[..|mappings.keys|] == es;
    output := output + "/* end auto-generated rules */";
    out := Indent(output);
  }
}
