/**
 * The rewriting every collected selector goes through
 * (tools/generate.js:379-406): the combinators `+`, `~` and `>` are padded
 * with spaces, runs of two or more spaces are collapsed to one, and the
 * source's prefix is put in front unless the selector's first token is
 * already scoped by one of the source's `match` strings.
 */
module Selectors {
  import opened Wrappers
  import opened Text

  predicate IsCombinator(c: char) {
    c == '+' || c == '~' || c == '>'
  }

  /** `s.replace(/c/g, " c ")`. */
  function PadChar(s: string, c: char): (r: string) {
    if s == [] then []
    else (if s[0] == c then [' ', c, ' '] else [s[0]]) + PadChar(s[1..], c)
  }

  /** The three successive replacements of tools/generate.js:380-382. */
  function PadCombinators(s: string): (r: string) {
    PadChar(PadChar(PadChar(s, '+'), '~'), '>')
  }

  /** `s.replace(/ {2,}/g, " ")`: every space that is followed by another space is dropped. */
  function Collapse(s: string): (r: string) {
    if s == [] then []
    else if |s| >= 2 && s[0] == ' ' && s[1] == ' ' then Collapse(s[1..])
    else [s[0]] + Collapse(s[1..])
  }

  /** The stylistic tweaks of tools/generate.js:379-383. */
  function Tidy(s: string): (r: string) {
    Collapse(PadCombinators(s))
  }

  /** A single pass that pads all three combinators at once: the reference for the three passes. */
  function PadAll(s: string): (r: string) {
    if s == [] then []
    else PadOne(s[0]) + PadAll(s[1..])
  }

  /** Every combinator has a space on both sides. */
  predicate Spaced(s: string) {
    forall i :: 0 <= i < |s| && IsCombinator(s[i]) ==> 0 < i < |s| - 1 && s[i - 1] == ' ' && s[i + 1] == ' '
  }

  /** No two spaces in a row. */
  predicate NoDoubleSpace(s: string) {
    forall i :: 0 <= i < |s| - 1 ==> !(s[i] == ' ' && s[i + 1] == ' ')
  }

  /** The characters of `s` other than the space, in order. */
  function Unspaced(s: string): (r: string) {
    if s == [] then [] else (if s[0] == ' ' then [] else [s[0]]) + Unspaced(s[1..])
  }

  lemma {:induction false} PadCharAppend(a: string, b: string, c: char)
    ensures PadChar(a + b, c) == PadChar(a, c) + PadChar(b, c)
    decreases |a|
  {
    if a == [] {
      assert a + b == b;
    } else {
      assert (a + b)[1..] == a[1..] + b;
      PadCharAppend(a[1..], b, c);
    }
  }

  lemma PadCharFree(s: string, c: char)
    requires c !in s
    ensures PadChar(s, c) == s
    decreases |s|
  {
    if s != [] {
      PadCharFree(s[1..], c);
    }
  }

  lemma PadCharOne(x: char, c: char)
    ensures PadChar([x], c) == if x == c then [' ', c, ' '] else [x]
  {
    assert [x][1..] == [];
  }

  /** The three passes do together what one pass over all three combinators does. */
  lemma {:induction false} PadCombinatorsIsPadAll(s: string)
    ensures PadCombinators(s) == PadAll(s)
    decreases |s|
  {
    if s != [] {
      var h := [s[0]];
      var t := s[1..];
      assert s == h + t;
      PadCharAppend(h, t, '+');
      var h1 := PadChar(h, '+');
      PadCharAppend(h1, PadChar(t, '+'), '~');
      var h2 := PadChar(h1, '~');
      PadCharAppend(h2, PadChar(PadChar(t, '+'), '~'), '>');
      PadCharOne(s[0], '+');
      assert PadChar(h2, '>') == if IsCombinator(s[0]) then [' ', s[0], ' '] else [s[0]] by {
        if s[0] == '+' {
          PadCharFree([' ', '+', ' '], '~');
          PadCharFree([' ', '+', ' '], '>');
        } else if s[0] == '~' {
          PadCharOne(s[0], '~');
          PadCharFree([' ', '~', ' '], '>');
        } else {
          PadCharOne(s[0], '~');
          PadCharOne(s[0], '>');
        }
      }
      PadCombinatorsIsPadAll(t);
    }
  }

  /** What one character becomes when padded. */
  function PadOne(c: char): (r: string)
    ensures Spaced(r) && Unspaced(r) == Unspaced([c])
  {
    UnspacedOne(c);
    if IsCombinator(c) then
      UnspacedOne(' ');
      UnspacedAppend([' '] + [c], [' ']);
      UnspacedAppend([' '], [c]);
      assert [' ', c, ' '] == [' '] + [c] + [' '];
      [' ', c, ' ']
    else [c]
  }

  /** Joining two spaced strings gives a spaced string. */
  lemma SpacedAppend(a: string, b: string)
    requires Spaced(a) && Spaced(b)
    ensures Spaced(a + b)
  {
    var r := a + b;
    forall i | 0 <= i < |r| && IsCombinator(r[i]) ensures 0 < i < |r| - 1 && r[i - 1] == ' ' && r[i + 1] == ' ' {
      if i < |a| {
        assert r[i] == a[i] && r[i - 1] == a[i - 1] && r[i + 1] == a[i + 1];
      } else {
        assert r[i] == b[i - |a|] && r[i - 1] == b[i - 1 - |a|] && r[i + 1] == b[i + 1 - |a|];
      }
    }
  }

  lemma {:induction false} PadAllShape(s: string)
    ensures Spaced(PadAll(s))
    ensures PadAll(s) != [] ==> !IsCombinator(PadAll(s)[0]) && !IsCombinator(PadAll(s)[|PadAll(s)| - 1])
    ensures PadAll(s) == [] <==> s == []
    ensures Unspaced(PadAll(s)) == Unspaced(s)
    decreases |s|
  {
    if s != [] {
      var h := PadOne(s[0]);
      var t := PadAll(s[1..]);
      PadAllShape(s[1..]);
      assert PadAll(s) == h + t;
      SpacedAppend(h, t);
      UnspacedAppend(h, t);
      UnspacedAppend([s[0]], s[1..]);
      assert s == [s[0]] + s[1..];
    }
  }

  lemma UnspacedOne(c: char)
    ensures Unspaced([c]) == if c == ' ' then [] else [c]
  {
    assert [c][1..] == [];
  }

  lemma {:induction false} UnspacedAppend(a: string, b: string)
    ensures Unspaced(a + b) == Unspaced(a) + Unspaced(b)
    decreases |a|
  {
    if a == [] {
      assert a + b == b;
    } else {
      assert (a + b)[1..] == a[1..] + b;
      UnspacedAppend(a[1..], b);
    }
  }

  /** Collapsing keeps the first and the last character. */
  lemma {:induction false} CollapseEnds(s: string)
    ensures Collapse(s) == [] <==> s == []
    ensures s != [] ==> Collapse(s)[0] == s[0]
    ensures s != [] ==> Collapse(s)[|Collapse(s)| - 1] == s[|s| - 1]
    decreases |s|
  {
    if s != [] {
      CollapseEnds(s[1..]);
    }
  }

  /** Collapsing leaves no two spaces in a row. */
  lemma {:induction false} CollapseNoDoubleSpace(s: string)
    ensures NoDoubleSpace(Collapse(s))
    decreases |s|
  {
    if s != [] {
      CollapseNoDoubleSpace(s[1..]);
      CollapseEnds(s[1..]);
      var t := Collapse(s[1..]);
      if !(|s| >= 2 && s[0] == ' ' && s[1] == ' ') {
        var r := [s[0]] + t;
        forall i | 0 <= i < |r| - 1 ensures !(r[i] == ' ' && r[i + 1] == ' ') {
          if i == 0 {
            assert r[1] == t[0] == s[1];
          } else {
            assert r[i] == t[i - 1] && r[i + 1] == t[i];
          }
        }
      }
    }
  }

  /** Collapsing drops nothing but spaces. */
  lemma {:induction false} CollapseUnspaced(s: string)
    ensures Unspaced(Collapse(s)) == Unspaced(s)
    decreases |s|
  {
    if s != [] {
      CollapseUnspaced(s[1..]);
      if !(|s| >= 2 && s[0] == ' ' && s[1] == ' ') {
        UnspacedAppend([s[0]], Collapse(s[1..]));
        UnspacedAppend([s[0]], s[1..]);
        assert s == [s[0]] + s[1..];
      }
    }
  }

  /** Collapsing keeps every combinator spaced. */
  lemma {:induction false} CollapseSpaced(s: string)
    requires Spaced(s)
    ensures Spaced(Collapse(s))
    decreases |s|
  {
    if |s| >= 2 {
      SpacedTail(s);
      if s[0] == ' ' && s[1] == ' ' {
        CollapseSpaced(s[1..]);
      } else {
        CollapseEnds(s[1..]);
        CollapseAfterFirst(s[1..]);
        SpacedCons(s, Collapse(s[1..]));
      }
    } else if |s| == 1 {
      assert Collapse(s) == [s[0]] + Collapse([]);
    }
  }

  /** Collapsing keeps every combinator past the first position spaced. */
  lemma {:induction false} CollapseAfterFirst(s: string)
    requires SpacedAfterFirst(s)
    ensures SpacedAfterFirst(Collapse(s))
    decreases |s|
  {
    if s != [] {
      var t := s[1..];
      assert SpacedAfterFirst(t) by {
        forall i | 0 <= i < |t| && IsCombinator(t[i]) ensures i < |t| - 1 && t[i + 1] == ' ' && (i == 0 || t[i - 1] == ' ') {
          assert t[i] == s[i + 1];
        }
      }
      CollapseAfterFirst(t);
      CollapseEnds(t);
      if !(|s| >= 2 && s[0] == ' ' && s[1] == ' ') {
        var c := Collapse(t);
        var r := [s[0]] + c;
        forall i | 0 <= i < |r| && IsCombinator(r[i]) ensures i < |r| - 1 && r[i + 1] == ' ' && (i == 0 || r[i - 1] == ' ') {
          if i == 0 {
            assert |s| >= 2 && s[1] == ' ';
            assert r[1] == c[0];
          } else {
            assert r[i] == c[i - 1];
            if i == 1 {
              assert IsCombinator(t[0]) && s[0] == ' ';
            } else {
              assert r[i - 1] == c[i - 2];
            }
            assert r[i + 1] == c[i];
          }
        }
      }
    }
  }

  /** The tail of a spaced string is spaced except possibly at its first position. */
  predicate SpacedAfterFirst(s: string) {
    forall i :: 0 <= i < |s| && IsCombinator(s[i]) ==> i < |s| - 1 && s[i + 1] == ' ' && (i == 0 || s[i - 1] == ' ')
  }

  lemma SpacedTail(s: string)
    requires s != [] && Spaced(s)
    ensures SpacedAfterFirst(s[1..])
    ensures |s| >= 2 && !IsCombinator(s[1]) ==> Spaced(s[1..])
  {
    var t := s[1..];
    forall i | 0 <= i < |t| && IsCombinator(t[i]) ensures i < |t| - 1 && t[i + 1] == ' ' && (i == 0 || t[i - 1] == ' ') {
      assert t[i] == s[i + 1];
    }
  }

  lemma SpacedCons(s: string, t: string)
    requires |s| >= 2 && Spaced(s)
    requires t != [] && t[0] == s[1] && t[|t| - 1] == s[|s| - 1]
    requires SpacedAfterFirst(t)
    ensures Spaced([s[0]] + t)
  {
    var r := [s[0]] + t;
    forall i | 0 <= i < |r| && IsCombinator(r[i]) ensures 0 < i < |r| - 1 && r[i - 1] == ' ' && r[i + 1] == ' ' {
      if i > 0 {
        assert r[i] == t[i - 1];
        if i == 1 {
          assert IsCombinator(s[1]);
        } else {
          assert r[i - 1] == t[i - 2];
        }
        assert r[i + 1] == t[i];
      }
    }
  }

  /** A string with no double space is left unchanged by collapsing. */
  lemma {:induction false} CollapseFixed(s: string)
    requires NoDoubleSpace(s)
    ensures Collapse(s) == s
    decreases |s|
  {
    if s != [] {
      assert NoDoubleSpace(s[1..]) by {
        forall i | 0 <= i < |s[1..]| - 1 ensures !(s[1..][i] == ' ' && s[1..][i + 1] == ' ') {
          assert s[1..][i] == s[i + 1] && s[1..][i + 1] == s[i + 2];
        }
      }
      CollapseFixed(s[1..]);
    }
  }

  /**
   * Collapsing treats a run of two spaces as one: with `CollapseFixed` this
   * determines `Collapse` on every input, since each run shrinks to a single
   * space and a string without runs is left alone.
   */
  lemma {:induction false} CollapseRun(a: string, b: string)
    ensures Collapse(a + "  " + b) == Collapse(a + " " + b)
    decreases |a|
  {
    var s, s' := a + "  " + b, a + " " + b;
    if a == [] {
      assert s[1..] == s';
    } else {
      assert s[0] == s'[0] == a[0];
      assert |s| >= 2 && |s'| >= 2 && s[1] == s'[1];
      assert s[1..] == a[1..] + "  " + b;
      assert s'[1..] == a[1..] + " " + b;
      CollapseRun(a[1..], b);
    }
  }

  /**
   * After the stylistic tweaks every `+`, `~` and `>` has a space on each
   * side, no two spaces follow each other, and nothing but spaces was
   * added or removed.
   */
  lemma TidyProperties(s: string)
    ensures Spaced(Tidy(s))
    ensures NoDoubleSpace(Tidy(s))
    ensures Unspaced(Tidy(s)) == Unspaced(s)
  {
    PadCombinatorsIsPadAll(s);
    PadAllShape(s);
    CollapseNoDoubleSpace(PadAll(s));
    CollapseUnspaced(PadAll(s));
    CollapseSpaced(PadAll(s));
  }

  /** A source's `prefix` and `match` options; an absent `match` list behaves as an empty one. */
  datatype Options = Options(prefix: Option<string>, matches: seq<string>)

  /** `if (opts.prefix)`: set and not the empty string. */
  predicate HasPrefix(opts: Options) {
    opts.prefix.Some? && opts.prefix.value != ""
  }

  /** The selector's first white-space separated token contains one of the `match` strings. */
  predicate Exempt(matches: seq<string>, sel: string) {
    exists i :: 0 <= i < |matches| && Contains(FirstToken(sel), matches[i])
  }

  const Root := ":root "

  /** tools/generate.js:386-406. */
  function Prefixed(opts: Options, sel: string): (r: string) {
    if !HasPrefix(opts) || Exempt(opts.matches, sel) then sel
    else if StartsWith(sel, Root) && StartsWith(opts.prefix.value, "html") then opts.prefix.value + " " + sel[|Root|..]
    else opts.prefix.value + " " + sel
  }

  /** What a selector that passed the filters is turned into. */
  function Transform(opts: Options, sel: string): (r: string) {
    Prefixed(opts, Tidy(sel))
  }

  /**
   * Prefixing either leaves the selector alone (no prefix, or an exempt
   * selector) or puts the prefix and one space in front of it, where a
   * leading `:root ` is dropped when the prefix names the `html` element.
   */
  lemma PrefixedCases(opts: Options, sel: string)
    ensures !HasPrefix(opts) ==> Prefixed(opts, sel) == sel
    ensures HasPrefix(opts) && Exempt(opts.matches, sel) ==> Prefixed(opts, sel) == sel
    ensures HasPrefix(opts) && !Exempt(opts.matches, sel) ==>
      var p := opts.prefix.value;
      var r := Prefixed(opts, sel);
      StartsWith(r, p + " ")
      && (if StartsWith(sel, Root) && StartsWith(p, "html") then Root + r[|p| + 1..] == sel else r[|p| + 1..] == sel)
  {
    if HasPrefix(opts) && !Exempt(opts.matches, sel) {
      var p := opts.prefix.value;
      var r := Prefixed(opts, sel);
      if StartsWith(sel, Root) && StartsWith(p, "html") {
        assert r == (p + " ") + sel[|Root|..];
        assert sel == sel[..|Root|] + sel[|Root|..];
      } else {
        assert r == (p + " ") + sel;
      }
    }
  }

  /**
   * The skip loop of tools/generate.js:388-396: it breaks at the first
   * `matches` string contained in the first token.
   */
  method IsExempt(matches: seq<string>, sel: string) returns (skip: bool)
    ensures skip <==> Exempt(matches, sel)
  {
    skip := false;
    var head := FirstToken(sel);
    for i := 0 to |matches|
      invariant !skip
      invariant forall j :: 0 <= j < i ==> !Contains(head, matches[j])
    {
      if Contains(head, matches[i]) {
        skip := true;
        return;
      }
    }
  }

  /** tools/generate.js:379-406, rewriting `selector` step by step. */
  method RewriteSelector(opts: Options, selector: string) returns (r: string)
    ensures r == Transform(opts, selector)
  {
    r := PadChar(selector, '+');
    r := PadChar(r, '~');
    r := PadChar(r, '>');
    r := Collapse(r);
    if HasPrefix(opts) {
      var skip := IsExempt(opts.matches, r);
      if !skip {
        var p := opts.prefix.value;
        if StartsWith(r, Root) && StartsWith(p, "html") {
          r := p + " " + r[|Root|..];
        } else {
          r := p + " " + r;
        }
      }
    }
  }

  lemma ExemptBy(matches: seq<string>, sel: string, i: nat)
    requires i < |matches| && Contains(FirstToken(sel), matches[i])
    ensures Exempt(matches, sel)
  {
  }

  lemma ExampleTokens()
    ensures FirstToken(".existing .child") == ".existing"
    ensures FirstToken(".other .child") == ".other"
  {
    assert ".existing .child" == ".existing" + " .child";
    FirstTokenOf(".existing", " .child");
    assert ".other .child" == ".other" + " .child";
    FirstTokenOf(".other", " .child");
  }

  lemma ExampleContains()
    ensures Contains(".existing", ".existing")
    ensures !Contains(".other", ".existing")
  {
  }

  /** The scoping example: under prefix `html.theme` with `match` `[".existing"]`, `.existing .child` is exempt and `.other .child` is not. */
  lemma ScopingExampleExempt()
    ensures Exempt([".existing"], ".existing .child")
    ensures !Exempt([".existing"], ".other .child")
  {
    ExampleTokens();
    ExampleContains();
    var matches := [".existing"];
    assert |matches| == 1 && matches[0] == ".existing";
    ExemptBy(matches, ".existing .child", 0);
    forall i | 0 <= i < |matches| ensures !Contains(FirstToken(".other .child"), matches[i]) {
      assert i == 0;
    }
  }

  /** The scoping example: `.existing .child` stays as it is under prefix `html.theme`. */
  lemma ScopingExampleKept()
    ensures Prefixed(Options(Some("html.theme"), [".existing"]), ".existing .child") == ".existing .child"
  {
    ScopingExampleExempt();
  }

  lemma ExampleNotRoot()
    ensures !StartsWith(".other .child", Root)
  {
    assert ".other .child"[1] != Root[1];
  }

  lemma ScopingExampleJoined()
    ensures Prefixed(Options(Some("html.theme"), [".existing"]), ".other .child") == "html.theme" + " " + ".other .child"
  {
    ScopingExampleExempt();
    ExampleNotRoot();
    PrefixedOther("html.theme", [".existing"], ".other .child");
  }

  /** The scoping example: `.other .child` becomes `html.theme .other .child`. */
  lemma ScopingExamplePrefixed()
    ensures Prefixed(Options(Some("html.theme"), [".existing"]), ".other .child") == "html.theme .other .child"
  {
    ScopingExampleJoined();
    assert "html.theme" + " " + ".other .child" == "html.theme .other .child";
  }

  lemma PrefixedOther(p: string, matches: seq<string>, sel: string)
    requires p != [] && !Exempt(matches, sel) && !StartsWith(sel, Root)
    ensures Prefixed(Options(Some(p), matches), sel) == p + " " + sel
  {
  }

  lemma {:induction false} FirstTokenOf(a: string, b: string)
    requires forall i :: 0 <= i < |a| ==> !IsSpace(a[i])
    requires b == [] || IsSpace(b[0])
    ensures FirstToken(a + b) == a
    decreases |a|
  {
    if a == [] {
      assert a + b == b;
    } else {
      assert (a + b)[1..] == a[1..] + b;
      FirstTokenOf(a[1..], b);
    }
  }
}
