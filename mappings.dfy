/**
 * The mapping table and `prepareMappings` (tools/generate.js:470-514): the
 * author's table, whose keys are either `"<property>: <value>"` or one of the
 * pseudo-keys `"$border: <value>"` and `"$background: <value>"`, becomes a
 * table of concrete `"<property>: <value>"` keys by assigning, entry by entry
 * in table order, every pair the entry expands to into a fresh object.
 */
module Mappings {
  import opened Wrappers
  import opened Text
  import opened Seqs
  import opened Dicts

  /** A mapping table: match key to replacement declarations. */
  type Table = Dict<string>

  const BorderPseudo := "$border: "
  const BackgroundPseudo := "$background: "

  /**
   * The 30 keys a `$border` entry assigns, in the order of
   * tools/generate.js:475-504: the text of the key before the old colour,
   * and the property the replacement sets to the new colour.
   */
  function BorderForm(j: nat): (string, string)
    requires j < 30
  {
    if j == 0 then ("border: 1px solid ", "border-color")
    else if j == 1 then ("border: 1px dashed ", "border-color")
    else if j == 2 then ("border: 2px solid ", "border-color")
    else if j == 3 then ("border: 2px dashed ", "border-color")
    else if j == 4 then ("border: 5px solid ", "border-color")
    else if j == 5 then ("border-color: ", "border-color")
    else if j == 6 then ("border-top: 1px solid ", "border-top-color")
    else if j == 7 then ("border-bottom: 1px solid ", "border-bottom-color")
    else if j == 8 then ("border-left: 1px solid ", "border-left-color")
    else if j == 9 then ("border-right: 1px solid ", "border-right-color")
    else if j == 10 then ("border-top: 1px dashed ", "border-top-color")
    else if j == 11 then ("border-bottom: 1px dashed ", "border-bottom-color")
    else if j == 12 then ("border-left: 1px dashed ", "border-left-color")
    else if j == 13 then ("border-right: 1px dashed ", "border-right-color")
    else if j == 14 then ("border-top: 2px solid ", "border-top-color")
    else if j == 15 then ("border-bottom: 2px solid ", "border-bottom-color")
    else if j == 16 then ("border-left: 2px solid ", "border-left-color")
    else if j == 17 then ("border-right: 2px solid ", "border-right-color")
    else if j == 18 then ("border-top: 2px dashed ", "border-top-color")
    else if j == 19 then ("border-bottom: 2px dashed ", "border-bottom-color")
    else if j == 20 then ("border-left: 2px dashed ", "border-left-color")
    else if j == 21 then ("border-right: 2px dashed ", "border-right-color")
    else if j == 22 then ("border-top: 5px solid ", "border-top-color")
    else if j == 23 then ("border-bottom: 5px solid ", "border-bottom-color")
    else if j == 24 then ("border-left: 5px solid ", "border-left-color")
    else if j == 25 then ("border-right: 5px solid ", "border-right-color")
    else if j == 26 then ("border-top-color: ", "border-top-color")
    else if j == 27 then ("border-bottom-color: ", "border-bottom-color")
    else if j == 28 then ("border-left-color: ", "border-left-color")
    else ("border-right-color: ", "border-right-color")
  }

  function BorderForms(): (r: seq<(string, string)>) {
    seq(30, j requires 0 <= j < 30 => BorderForm(j))
  }

  /** The two keys a `$background` entry assigns (tools/generate.js:507-508). */
  const BackgroundForms: seq<(string, string)> := [
    ("background: ", "background"),
    ("background-color: ", "background-color")
  ]

  /** The property each per-side form sets, cycling top, bottom, left, right. */
  const SideColors: seq<string> := ["border-top-color", "border-bottom-color", "border-left-color", "border-right-color"]

  /** The first components of a list of pairs. */
  function Firsts(ps: seq<(string, string)>): (r: seq<string>)
    ensures |r| == |ps|
  {
    seq(|ps|, i requires 0 <= i < |ps| => ps[i].0)
  }

  /** A key is among the first components exactly when some pair carries it. */
  lemma FirstsMembers(ps: seq<(string, string)>, k: string)
    ensures k in Firsts(ps) <==> exists v :: (k, v) in ps
  {
    if k in Firsts(ps) {
      var i :| 0 <= i < |ps| && Firsts(ps)[i] == k;
      assert ps[i] == (k, ps[i].1);
    }
    if exists v :: (k, v) in ps {
      var v :| (k, v) in ps;
      var i :| 0 <= i < |ps| && ps[i] == (k, v);
      assert Firsts(ps)[i] == k;
    }
  }

  /** Each form, completed with the old value (key) and the new value (replacement). */
  function Instantiate(forms: seq<(string, string)>, oldValue: string, value: string): (r: seq<(string, string)>) {
    seq(|forms|, j requires 0 <= j < |forms| => (forms[j].0 + oldValue, forms[j].1 + ": " + value))
  }

  /** The concrete pairs one author entry stands for. */
  function Expansion(key: string, value: string): (r: seq<(string, string)>) {
    if StartsWith(key, BorderPseudo) then Instantiate(BorderForms(), key[|BorderPseudo|..], value)
    else if StartsWith(key, BackgroundPseudo) then Instantiate(BackgroundForms, key[|BackgroundPseudo|..], value)
    else [(key, value)]
  }

  /** Assigning the pairs `ps` into `t`, in order. */
  function PutAll(t: Table, ps: seq<(string, string)>): (r: Table)
    decreases |ps|
  {
    if ps == [] then t
    else PutAll(t, ps[..|ps| - 1]).Put(ps[|ps| - 1].0, ps[|ps| - 1].1)
  }

  /** The value of the last pair with key `k`. */
  function LastValue(ps: seq<(string, string)>, k: string): (r: Option<string>)
    decreases |ps|
  {
    if ps == [] then None
    else if ps[|ps| - 1].0 == k then Some(ps[|ps| - 1].1)
    else LastValue(ps[..|ps| - 1], k)
  }

  /** The pairs each author entry expands to, in table order. */
  function Expansions(author: Table): (r: seq<seq<(string, string)>>)
    requires author.Valid()
  {
    seq(|author.keys|, i requires 0 <= i < |author.keys| => Expansion(author.keys[i], author.vals[author.keys[i]]))
  }

  /** The concatenation of a list of lists. */
  function Flatten<T>(xss: seq<seq<T>>): (r: seq<T>)
    decreases |xss|
  {
    if xss == [] then [] else Flatten(xss[..|xss| - 1]) + xss[|xss| - 1]
  }

  /** Every pair the first `n` author entries expand to, in order. */
  function AllPairs(author: Table, n: nat): (r: seq<(string, string)>)
    requires author.Valid() && n <= |author.keys|
  {
    Flatten(Expansions(author)[..n])
  }

  /** One more entry appends its expansion. */
  lemma AllPairsSnoc(author: Table, n: nat)
    requires author.Valid() && n < |author.keys|
    ensures AllPairs(author, n + 1) == AllPairs(author, n) + Expansion(author.keys[n], author.vals[author.keys[n]])
  {
    var xss := Expansions(author);
    assert xss[..n + 1][..n] == xss[..n];
  }

  lemma {:induction false} FlattenPrefix<T>(xss: seq<seq<T>>, i: nat, j: nat)
    requires i <= j <= |xss|
    ensures Flatten(xss[..i]) <= Flatten(xss[..j])
    decreases j - i
  {
    if i < j {
      FlattenPrefix(xss, i, j - 1);
      assert xss[..j][..j - 1] == xss[..j - 1];
      var p := Flatten(xss[..j - 1]);
      assert (p + xss[j - 1])[..|p|] == p;
    }
  }

  /** The table built from the first `n` author entries. */
  function PartialExpand(author: Table, n: nat): (r: Table)
    requires author.Valid() && n <= |author.keys|
  {
    PutAll(Empty(), AllPairs(author, n))
  }

  /** The table `prepareMappings` returns. */
  function Expand(author: Table): (r: Table)
    requires author.Valid()
  {
    PartialExpand(author, |author.keys|)
  }

  lemma {:induction false} PutAllAppend(t: Table, p: seq<(string, string)>, q: seq<(string, string)>)
    ensures PutAll(t, p + q) == PutAll(PutAll(t, p), q)
    decreases |q|
  {
    if q == [] {
      assert p + q == p;
    } else {
      var n := |q| - 1;
      assert (p + q)[..|p + q| - 1] == p + q[..n];
      assert (p + q)[|p + q| - 1] == q[n];
      PutAllAppend(t, p, q[..n]);
    }
  }

  /**
   * Object semantics of a run of assignments: the keys are the old keys
   * followed by the new keys in order of first assignment, and each key holds
   * the value of its last assignment.
   */
  lemma {:induction false} PutAllEffect(t: Table, ps: seq<(string, string)>)
    requires t.Valid()
    ensures PutAll(t, ps).Valid()
    ensures PutAll(t, ps).keys == DedupInto(t.keys, Firsts(ps))
    ensures forall k :: PutAll(t, ps).Get(k) == if LastValue(ps, k).Some? then LastValue(ps, k) else t.Get(k)
    decreases |ps|
  {
    if ps != [] {
      var n := |ps| - 1;
      PutAllEffect(t, ps[..n]);
      assert Firsts(ps)[..n] == Firsts(ps[..n]);
    }
  }

  /** The expanded table's keys are the expanded keys in order of first appearance; each holds its last replacement. */
  lemma ExpandShape(author: Table)
    requires author.Valid()
    ensures Expand(author).Valid()
    ensures Expand(author).keys == Dedup(Firsts(AllPairs(author, |author.keys|)))
    ensures forall k :: Expand(author).Get(k) == LastValue(AllPairs(author, |author.keys|), k)
  {
    PutAllEffect(Empty(), AllPairs(author, |author.keys|));
  }

  lemma AllPairsPrefix(author: Table, i: nat, j: nat)
    requires author.Valid() && i <= j <= |author.keys|
    ensures AllPairs(author, i) <= AllPairs(author, j)
  {
    FlattenPrefix(Expansions(author), i, j);
  }

  /** Expanded keys keep the author's order: the keys of earlier entries come first. */
  lemma EarlierEntriesFirst(author: Table, i: nat, j: nat)
    requires author.Valid() && i <= j <= |author.keys|
    ensures PartialExpand(author, i).keys <= PartialExpand(author, j).keys
  {
    AllPairsPrefix(author, i, j);
    PutAllPrefixKeys(AllPairs(author, i), AllPairs(author, j));
  }

  /** Assigning more pairs after some only appends keys. */
  lemma PutAllPrefixKeys(p: seq<(string, string)>, pq: seq<(string, string)>)
    requires p <= pq
    ensures PutAll(Empty(), p).keys <= PutAll(Empty(), pq).keys
  {
    var q := pq[|p|..];
    assert pq == p + q;
    assert Firsts(pq) == Firsts(p) + Firsts(q);
    PutAllEffect(Empty(), p);
    PutAllEffect(Empty(), pq);
    DedupIntoAppend([], Firsts(p), Firsts(q));
  }

  /** The six whole-border forms set `border-color`; the 24 per-side forms set the colour of their side. */
  lemma BorderFormsProperties()
    ensures |BorderForms()| == 30
    ensures forall j :: 0 <= j < 6 ==> BorderForms()[j].1 == "border-color"
    ensures forall j :: 6 <= j < 30 ==> BorderForms()[j].1 == SideColors[(j - 6) % 4]
  {
    OnePixelSideForms();
    TwoPixelSideForms();
    LastSideForms();
  }

  lemma OnePixelSideForms()
    ensures forall j :: 6 <= j < 14 ==> BorderForm(j).1 == SideColors[(j - 6) % 4]
  {
  }

  lemma TwoPixelSideForms()
    ensures forall j :: 14 <= j < 22 ==> BorderForm(j).1 == SideColors[(j - 6) % 4]
  {
  }

  lemma LastSideForms()
    ensures forall j :: 22 <= j < 30 ==> BorderForm(j).1 == SideColors[(j - 6) % 4]
  {
  }

  lemma BorderPrefixesDistinct()
    ensures NoDup(Firsts(BorderForms()))
  {
    WholeFormsDistinct();
    MiddleFormsDistinct();
    LastFormsDistinct();
  }

  lemma WholeFormsDistinct()
    ensures forall i, j :: 0 <= i < 8 && i < j < 30 ==> BorderForm(i).0 != BorderForm(j).0
  {
  }

  lemma MiddleFormsDistinct()
    ensures forall i, j :: 8 <= i < 16 && i < j < 30 ==> BorderForm(i).0 != BorderForm(j).0
  {
  }

  lemma LastFormsDistinct()
    ensures forall i, j :: 16 <= i < j < 30 ==> BorderForm(i).0 != BorderForm(j).0
  {
  }

  lemma SuffixCancel(a: string, b: string, s: string)
    requires a + s == b + s
    ensures a == b
  {
    assert a == (a + s)[..|a|];
  }

  /**
   * A `$border: V` entry with replacement R expands to exactly 30 distinct
   * keys, in the fixed order: the six whole-border forms set `border-color: R`,
   * the 24 per-side forms set `border-<side>-color: R`.
   */
  lemma BorderExpansion(oldValue: string, value: string)
    ensures var e := Expansion(BorderPseudo + oldValue, value);
      && |e| == 30
      && NoDup(Firsts(e))
      && (forall j :: 0 <= j < 30 ==> e[j].0 == BorderForms()[j].0 + oldValue)
      && (forall j :: 0 <= j < 6 ==> e[j].1 == "border-color" + ": " + value)
      && (forall j :: 6 <= j < 30 ==> e[j].1 == SideColors[(j - 6) % 4] + ": " + value)
  {
    var key := BorderPseudo + oldValue;
    assert StartsWith(key, BorderPseudo);
    assert key[|BorderPseudo|..] == oldValue;
    var e := Expansion(key, value);
    BorderFormsProperties();
    BorderPrefixesDistinct();
    var forms := Firsts(BorderForms());
    forall i, j | 0 <= i < j < |e| ensures Firsts(e)[i] != Firsts(e)[j] {
      assert Firsts(e)[i] == e[i].0 && Firsts(e)[j] == e[j].0;
      if Firsts(e)[i] == Firsts(e)[j] {
        assert forms[i] == BorderForms()[i].0 && forms[j] == BorderForms()[j].0;
        SuffixCancel(BorderForms()[i].0, BorderForms()[j].0, oldValue);
      }
    }
  }

  /** A `$background: V` entry with replacement R assigns `background: V` and `background-color: V`, in that order. */
  lemma BackgroundExpansion(oldValue: string, value: string)
    ensures Expansion(BackgroundPseudo + oldValue, value)
      == [("background: " + oldValue, "background: " + value), ("background-color: " + oldValue, "background-color: " + value)]
  {
    var key := BackgroundPseudo + oldValue;
    assert !StartsWith(key, BorderPseudo) by {
      assert key[2] != BorderPseudo[2];
    }
    assert StartsWith(key, BackgroundPseudo);
    assert key[|BackgroundPseudo|..] == oldValue;
    var e := Expansion(key, value);
    assert BackgroundForms[0].1 + ": " == "background: ";
    assert BackgroundForms[1].1 + ": " == "background-color: ";
    assert e[0].0 == "background: " + oldValue && e[0].1 == "background: " + value;
    assert e[1].0 == "background-color: " + oldValue && e[1].1 == "background-color: " + value;
  }

  /** Any other key is copied with its replacement unchanged. */
  lemma PlainExpansion(key: string, value: string)
    requires !StartsWith(key, BorderPseudo) && !StartsWith(key, BackgroundPseudo)
    ensures Expansion(key, value) == [(key, value)]
  {
  }

  /** When none of its keys is present yet, a `$border` entry appends exactly its 30 keys, in the fixed order. */
  lemma BorderEntryAppendsThirty(t: Table, oldValue: string, value: string)
    requires t.Valid()
    requires forall j :: 0 <= j < 30 ==> BorderForms()[j].0 + oldValue !in t.keys
    ensures var e := Expansion(BorderPseudo + oldValue, value);
      PutAll(t, e).keys == t.keys + Firsts(e) && |PutAll(t, e).keys| == |t.keys| + 30
  {
    var e := Expansion(BorderPseudo + oldValue, value);
    BorderExpansion(oldValue, value);
    PutAllEffect(t, e);
    var all := t.keys + Firsts(e);
    forall i, j | 0 <= i < j < |all| ensures all[i] != all[j] {
      if j >= |t.keys| && i < |t.keys| {
        assert all[j] == BorderForms()[j - |t.keys|].0 + oldValue;
      } else if i >= |t.keys| {
        assert all[i] == Firsts(e)[i - |t.keys|] && all[j] == Firsts(e)[j - |t.keys|];
      }
    }
    DedupIntoFresh(t.keys, Firsts(e));
  }

  /** Assigns the instantiated forms, in order, as the straight-line assignments of lines 475-504 and 507-508 do. */
  method AssignForms(m: Table, forms: seq<(string, string)>, oldValue: string, value: string) returns (m': Table)
    ensures m' == PutAll(m, Instantiate(forms, oldValue, value))
  {
    ghost var ps := Instantiate(forms, oldValue, value);
    m' := m;
    for j := 0 to |forms|
      invariant m' == PutAll(m, ps[..j])
    {
      m' := m'.Put(forms[j].0 + oldValue, forms[j].1 + ": " + value);
      assert ps[..j + 1][..j] == ps[..j];
    }
    assert ps[..|forms|] == ps;
  }

  /** `prepareMappings` (tools/generate.js:470-514). */
  method PrepareMappings(author: Table) returns (m: Table)
    requires author.Valid()
    ensures m == Expand(author)
    ensures m.Valid()
  {
    m := Empty();
    var i := 0;
    while i < |author.keys|
      invariant 0 <= i <= |author.keys|
      invariant m == PartialExpand(author, i)
    {
      var key := author.keys[i];
      var value := author.vals[key];
      ghost var before := m;
      if StartsWith(key, BorderPseudo) {
        var oldValue := key[|BorderPseudo|..];
        m := AssignForms(m, BorderForms(), oldValue, value);
      } else if StartsWith(key, BackgroundPseudo) {
        var oldValue := key[|BackgroundPseudo|..];
        m := AssignForms(m, BackgroundForms, oldValue, value);
      } else {
        m := m.Put(key, value);
        assert m == PutAll(before, [(key, value)]);
      }
      PutAllAppend(Empty(), AllPairs(author, i), Expansion(key, value));
      AllPairsSnoc(author, i);
      i := i + 1;
    }
    ExpandShape(author);
  }
}
