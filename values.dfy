/**
 * `isEqualValue` (tools/generate.js:444-454): when a declaration's value is
 * the value a mapping key names. Both values are normalised (one trailing
 * `!important` removed, then trimmed, then lower-cased); for the seven
 * shorthand properties the space-separated tokens are compared as sorted
 * lists, so their order does not matter; otherwise the comparison is exact.
 */
module Values {
  import opened Text

  /** tools/generate.js:289-297. */
  const Shorthands: seq<string> := ["border", "border-left", "border-right", "border-top", "border-bottom", "background", "font"]

  const Important := "!important"

  /** `v.replace(/!important$/g, "")`: one occurrence at the very end, case-sensitively. */
  function StripImportant(v: string): (r: string)
    ensures EndsWith(v, Important) ==> v == r + Important
    ensures !EndsWith(v, Important) ==> r == v
  {
    if EndsWith(v, Important) then v[..|v| - |Important|] else v
  }

  /** The normalised form both sides are compared in. */
  function Normalize(v: string): (r: string) {
    ToLower(Trim(StripImportant(v)))
  }

  function Tokens(v: string): (r: seq<string>) {
    Split(v, ' ')
  }

  /** `v.split(" ").sort().join(" ")`. */
  function SortedTokens(v: string): (r: string) {
    Join(Sort(Tokens(v)), " ")
  }

  lemma SortedTokensSpaceFree(v: string)
    ensures |Sort(Tokens(v))| >= 1
    ensures forall i :: 0 <= i < |Sort(Tokens(v))| ==> ' ' !in Sort(Tokens(v))[i]
  {
    var ts := Tokens(v);
    var st := Sort(ts);
    assert ts[0] in multiset(ts);
    assert |st| == |multiset(st)| == |multiset(ts)| == |ts|;
    forall i | 0 <= i < |st| ensures ' ' !in st[i] {
      assert st[i] in multiset(st);
      assert st[i] in multiset(ts);
      var k :| 0 <= k < |ts| && ts[k] == st[i];
    }
  }

  /** Two values have the same sorted token string exactly when they have the same tokens, counted with multiplicity. */
  lemma {:induction false} SortedTokensEqual(a: string, b: string)
    ensures SortedTokens(a) == SortedTokens(b) <==> multiset(Tokens(a)) == multiset(Tokens(b))
  {
    SortedTokensSpaceFree(a);
    SortedTokensSpaceFree(b);
    JoinInjective(Sort(Tokens(a)), Sort(Tokens(b)), ' ');
    if multiset(Tokens(a)) == multiset(Tokens(b)) {
      SortedUnique(Sort(Tokens(a)), Sort(Tokens(b)));
    }
  }

  /**
   * `isEqualValue(prop, a, b)`: for a shorthand property, the normalised
   * values have the same tokens in any order; for any other property they are
   * identical.
   */
  function IsEqualValue(prop: string, a: string, b: string): (r: bool)
    ensures prop in Shorthands ==> (r <==> multiset(Tokens(Normalize(a))) == multiset(Tokens(Normalize(b))))
    ensures prop !in Shorthands ==> (r <==> Normalize(a) == Normalize(b))
  {
    var a' := Normalize(a);
    var b' := Normalize(b);
    if prop in Shorthands then
      SortedTokensEqual(a', b');
      SortedTokens(a') == SortedTokens(b')
    else a' == b'
  }

  /** The comparison is an equivalence: reflexive, symmetric and transitive. */
  lemma IsEqualValueEquivalence(prop: string, a: string, b: string, c: string)
    ensures IsEqualValue(prop, a, a)
    ensures IsEqualValue(prop, a, b) == IsEqualValue(prop, b, a)
    ensures IsEqualValue(prop, a, b) && IsEqualValue(prop, b, c) ==> IsEqualValue(prop, a, c)
  {
  }

  /** A trailing `!important` is ignored. */
  lemma NormalizeIgnoresImportant(v: string)
    ensures Normalize(v + Important) == ToLower(Trim(v))
  {
    var w := v + Important;
    assert w[|w| - |Important|..] == Important;
    assert w[..|w| - |Important|] == v;
  }

  lemma {:induction false} TrimStartOfSpaces(w: string, v: string)
    requires AllSpace(w)
    ensures TrimStart(w + v) == TrimStart(v)
    decreases |w|
  {
    if w != [] {
      assert (w + v)[1..] == w[1..] + v;
      TrimStartOfSpaces(w[1..], v);
    } else {
      assert w + v == v;
    }
  }

  lemma {:induction false} TrimEndOfSpaces(v: string, w: string)
    requires AllSpace(w)
    ensures TrimEnd(v + w) == TrimEnd(v)
    decreases |w|
  {
    if w != [] {
      var n := |w| - 1;
      assert (v + w)[..|v + w| - 1] == v + w[..n];
      TrimEndOfSpaces(v, w[..n]);
    } else {
      assert v + w == v;
    }
  }

  lemma {:induction false} TrimStartAppend(v: string, w: string)
    requires AllSpace(w)
    ensures TrimEnd(TrimStart(v + w)) == TrimEnd(TrimStart(v))
    decreases |v|
  {
    if v == [] {
      assert v + w == w;
      TrimStartOfSpaces(w, []);
      assert w + [] == w;
    } else if IsSpace(v[0]) {
      assert (v + w)[1..] == v[1..] + w;
      TrimStartAppend(v[1..], w);
    } else {
      TrimEndOfSpaces(v, w);
    }
  }

  /** Leading white space cannot be part of a suffix that starts with a visible character. */
  lemma EndsWithAfterSpace(w: string, v: string, p: string)
    requires AllSpace(w) && p != [] && !IsSpace(p[0])
    ensures EndsWith(w + v, p) <==> EndsWith(v, p)
  {
    var s := w + v;
    if |p| <= |v| {
      assert s[|s| - |p|..] == v[|v| - |p|..];
    } else if |p| <= |s| {
      var k := |s| - |p|;
      assert s[k..][0] == s[k] == w[k];
    }
  }

  /** White space before the value is ignored. */
  lemma NormalizeIgnoresLeadingSpace(w: string, v: string)
    requires AllSpace(w)
    ensures Normalize(w + v) == Normalize(v)
  {
    EndsWithAfterSpace(w, v, Important);
    if EndsWith(v, Important) {
      assert (w + v)[..|w + v| - |Important|] == w + v[..|v| - |Important|];
    }
    assert StripImportant(w + v) == w + StripImportant(v);
    TrimStartOfSpaces(w, StripImportant(v));
  }

  /** White space after the value is ignored, except that it hides a trailing `!important`. */
  lemma NormalizeIgnoresTrailingSpace(v: string, w: string)
    requires AllSpace(w)
    requires !EndsWith(v, Important) || w == []
    ensures Normalize(v + w) == Normalize(v)
  {
    if w == [] {
      assert v + w == v;
    } else {
      assert !EndsWith(v + w, Important) by {
        assert (v + w)[|v + w| - 1] == w[|w| - 1];
        assert Important[|Important| - 1] == 't';
      }
      TrimStartAppend(v, w);
    }
  }

  lemma LowerCharSpace(c: char)
    ensures IsSpace(LowerChar(c)) <==> IsSpace(c)
  {
  }

  lemma {:induction false} TrimStartLower(s: string)
    ensures TrimStart(ToLower(s)) == ToLower(TrimStart(s))
    decreases |s|
  {
    if s != [] {
      LowerCharSpace(s[0]);
      assert ToLower(s)[1..] == ToLower(s[1..]);
      TrimStartLower(s[1..]);
    }
  }

  lemma {:induction false} TrimEndLower(s: string)
    ensures TrimEnd(ToLower(s)) == ToLower(TrimEnd(s))
    decreases |s|
  {
    if s != [] {
      LowerCharSpace(s[|s| - 1]);
      assert ToLower(s)[..|s| - 1] == ToLower(s[..|s| - 1]);
      TrimEndLower(s[..|s| - 1]);
    }
  }

  lemma TrimLower(s: string)
    ensures Trim(ToLower(s)) == ToLower(Trim(s))
  {
    TrimStartLower(s);
    TrimEndLower(TrimStart(s));
  }

  /** Letter case is ignored, provided both values agree on ending in `!important`. */
  lemma NormalizeIgnoresCase(a: string, b: string)
    requires ToLower(a) == ToLower(b)
    requires EndsWith(a, Important) <==> EndsWith(b, Important)
    ensures Normalize(a) == Normalize(b)
  {
    var sa, sb := StripImportant(a), StripImportant(b);
    assert |sa| == |sb|;
    assert ToLower(sa) == ToLower(sb) by {
      forall i | 0 <= i < |sa| ensures ToLower(sa)[i] == ToLower(sb)[i] {
        assert ToLower(a)[i] == ToLower(b)[i];
      }
    }
    TrimLower(sa);
    TrimLower(sb);
    assert Normalize(a) == Trim(ToLower(sa)) by {
      LowerIdempotent(Trim(sa));
    }
  }

  lemma LowerIdempotent(s: string)
    ensures ToLower(ToLower(s)) == ToLower(s)
  {
  }

  /** A value that is already trimmed, lower-case and not `!important` is its own normal form. */
  lemma NormalizeFixed(v: string)
    requires v != [] && !IsSpace(v[0]) && !IsSpace(v[|v| - 1])
    requires !EndsWith(v, Important)
    requires forall i :: 0 <= i < |v| ==> !('A' <= v[i] <= 'Z')
    ensures Normalize(v) == v
  {
    assert TrimStart(v) == v;
    assert TrimEnd(v) == v;
  }

  lemma TokensOfThree(x: string, y: string, z: string)
    requires ' ' !in x && ' ' !in y && ' ' !in z
    ensures Tokens(x + " " + y + " " + z) == [x, y, z]
  {
    SplitAtSeparator(y, z, ' ');
    SplitWithoutSeparator(z, ' ');
    assert x + " " + y + " " + z == x + [' '] + (y + [' '] + z);
    SplitAtSeparator(x, y + [' '] + z, ' ');
  }

  lemma Swap(x: string, y: string, z: string)
    ensures multiset([x, y, z]) == multiset([x, z, y])
  {
  }

  /**
   * "1px solid red" is equal to "1px red solid": for a shorthand, swapping
   * two parts of the value keeps it equal, and for any other property it
   * does not, unless the parts are the same.
   */
  lemma ShorthandOrderIgnored(prop: string, a: string, b: string, x: string, y: string, z: string)
    requires ' ' !in x && ' ' !in y && ' ' !in z
    requires Normalize(a) == x + " " + y + " " + z
    requires Normalize(b) == x + " " + z + " " + y
    ensures prop in Shorthands ==> IsEqualValue(prop, a, b)
    ensures prop !in Shorthands ==> (IsEqualValue(prop, a, b) <==> y == z)
  {
    TokensOfThree(x, y, z);
    TokensOfThree(x, z, y);
    Swap(x, y, z);
    if Normalize(a) == Normalize(b) {
      assert [x, y, z][1] == [x, z, y][1];
    }
  }
}
