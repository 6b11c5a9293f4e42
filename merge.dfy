/**
 * The merge of the per-source tables in `main` (tools/generate.js:541-549):
 * for each source in order, every name of its table is appended to the
 * combined table unless present, and its selectors are appended to the
 * combined list, which is then deduplicated keeping first occurrences.
 */
module Merge {
  import opened Wrappers
  import opened Seqs
  import opened Dicts
  import opened Collect

  /** The combined entry for `name` after merging one more list of selectors into it. */
  function MergedList(acc: Decls, src: Decls, name: string): (r: seq<string>) {
    Dedup(GetOr(acc, name) + GetOr(src, name))
  }

  /** The loop over `Object.entries(table)`, for the keys `ks` (in table order). */
  function MergeKeys(acc: Decls, src: Decls, ks: seq<string>): (r: Decls)
    decreases |ks|
  {
    if ks == [] then acc
    else
      var n := |ks| - 1;
      var d := MergeKeys(acc, src, ks[..n]);
      d.Put(ks[n], MergedList(d, src, ks[n]))
  }

  /** Merging one source's table into the combined one. */
  function MergeSource(acc: Decls, src: Decls): (r: Decls) {
    MergeKeys(acc, src, src.keys)
  }

  /** Merging the tables of all sources, in order, into an empty table. */
  function MergeAll(ts: seq<Decls>): (r: Decls)
    decreases |ts|
  {
    if ts == [] then Empty()
    else MergeSource(MergeAll(ts[..|ts| - 1]), ts[|ts| - 1])
  }

  /** The combined table after merging the names `ks`: exactly those names are updated, and new ones are appended in order. */
  ghost predicate Merged(acc: Decls, src: Decls, ks: seq<string>, d: Decls) {
    d.Valid()
    && d.keys == DedupInto(acc.keys, ks)
    && forall name :: d.Get(name) == if name in ks then Some(MergedList(acc, src, name)) else acc.Get(name)
  }

  lemma MergedStep(acc: Decls, src: Decls, ks: seq<string>, k: string, d: Decls)
    requires Merged(acc, src, ks, d) && k !in ks
    ensures Merged(acc, src, ks + [k], d.Put(k, MergedList(d, src, k)))
  {
    var d' := d.Put(k, MergedList(d, src, k));
    DedupIntoSnoc(acc.keys, ks, k);
    forall name ensures d'.Get(name) == if name in ks + [k] then Some(MergedList(acc, src, name)) else acc.Get(name) {
      assert name in ks + [k] <==> name in ks || name == k;
    }
  }

  /** Merging the keys `ks` once each updates exactly those names, appending the new ones in order. */
  lemma {:induction false} MergeKeysEffect(acc: Decls, src: Decls, ks: seq<string>)
    requires acc.Valid() && NoDup(ks)
    ensures Merged(acc, src, ks, MergeKeys(acc, src, ks))
    decreases |ks|
  {
    if ks == [] {
      assert DedupInto(acc.keys, ks) == acc.keys;
    } else {
      var n := |ks| - 1;
      assert ks == ks[..n] + [ks[n]];
      assert NoDup(ks[..n]);
      assert ks[n] !in ks[..n];
      MergeKeysEffect(acc, src, ks[..n]);
      MergedStep(acc, src, ks[..n], ks[n], MergeKeys(acc, src, ks[..n]));
    }
  }

  /** Merging one source: its names come after the names already combined, in its own order. */
  lemma MergeSourceEffect(acc: Decls, src: Decls)
    requires acc.Valid() && src.Valid()
    ensures Merged(acc, src, src.keys, MergeSource(acc, src))
  {
    MergeKeysEffect(acc, src, src.keys);
  }

  /** The name is listed by one of the tables. */
  predicate ListedIn(ts: seq<Decls>, name: string) {
    exists i :: 0 <= i < |ts| && name in ts[i].keys
  }

  /** The selectors of every source for `name`, in source order. */
  function Gathered(ts: seq<Decls>, name: string): (r: seq<string>)
    decreases |ts|
  {
    if ts == [] then []
    else Gathered(ts[..|ts| - 1], name) + GetOr(ts[|ts| - 1], name)
  }

  /** The names of every source, in source order. */
  function AllNames(ts: seq<Decls>): (r: seq<string>)
    decreases |ts|
  {
    if ts == [] then []
    else AllNames(ts[..|ts| - 1]) + ts[|ts| - 1].keys
  }

  lemma {:induction false} GatheredUnlisted(ts: seq<Decls>, name: string)
    requires forall i :: 0 <= i < |ts| ==> ts[i].Valid()
    requires !ListedIn(ts, name)
    ensures Gathered(ts, name) == []
    decreases |ts|
  {
    if ts != [] {
      var n := |ts| - 1;
      var init := ts[..n];
      assert ts[n].Valid() && name !in ts[n].keys;
      assert GetOr(ts[n], name) == [];
      forall i | 0 <= i < n ensures init[i].Valid() && name !in init[i].keys {
        assert init[i] == ts[i];
      }
      GatheredUnlisted(init, name);
    }
  }

  /** What the combined table holds for `name`: all the sources' selectors for it, each once, if any source lists it. */
  function Combined(ts: seq<Decls>, name: string): (r: Option<seq<string>>) {
    if ListedIn(ts, name) then Some(Dedup(Gathered(ts, name))) else None
  }

  lemma ListedInSnoc(ts: seq<Decls>, t: Decls, name: string)
    ensures ListedIn(ts + [t], name) <==> ListedIn(ts, name) || name in t.keys
  {
    var ts' := ts + [t];
    if ListedIn(ts, name) {
      var i :| 0 <= i < |ts| && name in ts[i].keys;
      assert ts'[i] == ts[i];
    }
    if ListedIn(ts', name) && name !in t.keys {
      var i :| 0 <= i < |ts'| && name in ts'[i].keys;
      assert ts'[i] == ts[i];
    }
    assert ts'[|ts|] == t;
  }

  /** One more source: the combined entry for a name it lists is merged with its list, and other entries are unchanged. */
  lemma CombinedSnoc(ts: seq<Decls>, t: Decls, m: Decls, name: string)
    requires forall i :: 0 <= i < |ts| ==> ts[i].Valid()
    requires t.Valid() && m.Get(name) == Combined(ts, name)
    ensures Combined(ts + [t], name) == if name in t.keys then Some(MergedList(m, t, name)) else Combined(ts, name)
  {
    var ts' := ts + [t];
    assert ts'[..|ts|] == ts;
    assert Gathered(ts', name) == Gathered(ts, name) + GetOr(t, name);
    ListedInSnoc(ts, t, name);
    if name in t.keys {
      if ListedIn(ts, name) {
        DedupAbsorbs(Gathered(ts, name), GetOr(t, name));
      } else {
        GatheredUnlisted(ts, name);
        assert [] + GetOr(t, name) == GetOr(t, name);
      }
    } else {
      assert GetOr(t, name) == [];
      assert Gathered(ts', name) == Gathered(ts, name);
    }
  }

  /**
   * The combined table lists every name of every source, in order of first
   * appearance, and holds for each the selectors of all sources for it, in
   * source order, each once.
   */
  lemma {:induction false} MergeAllSpec(ts: seq<Decls>)
    requires forall i :: 0 <= i < |ts| ==> ts[i].Valid()
    ensures MergeAll(ts).Valid()
    ensures MergeAll(ts).keys == Dedup(AllNames(ts))
    ensures forall name :: MergeAll(ts).Get(name) == Combined(ts, name)
    decreases |ts|
  {
    if ts != [] {
      var n := |ts| - 1;
      var init := ts[..n];
      assert ts == init + [ts[n]];
      forall i | 0 <= i < n ensures init[i].Valid() {
        assert init[i] == ts[i];
      }
      MergeAllSpec(init);
      var m := MergeAll(init);
      MergeSourceEffect(m, ts[n]);
      DedupIntoAppend([], AllNames(init), ts[n].keys);
      forall name ensures MergeAll(ts).Get(name) == Combined(ts, name) {
        CombinedSnoc(init, ts[n], m, name);
      }
    }
  }

  /** A name is in the combined table exactly when some source lists it. */
  lemma MergeAllListed(ts: seq<Decls>, name: string)
    requires forall i :: 0 <= i < |ts| ==> ts[i].Valid()
    ensures name in MergeAll(ts).keys <==> ListedIn(ts, name)
  {
    MergeAllSpec(ts);
    var d := MergeAll(ts);
    assert d.Get(name) == Combined(ts, name);
  }

  lemma MergeKeysSnoc(acc: Decls, src: Decls, ks: seq<string>, i: nat)
    requires i < |ks|
    ensures MergeKeys(acc, src, ks[..i + 1]) == MergeKeys(acc, src, ks[..i]).Put(ks[i], MergedList(MergeKeys(acc, src, ks[..i]), src, ks[i]))
  {
    assert ks[..i + 1][..i] == ks[..i];
  }

  /**
   * The inner loop of tools/generate.js:543-548: `if (!decls[key])
   * decls[key] = []`, then `push(...values)`, then `Array.from(new Set(...))`.
   */
  method MergeInto(acc: Decls, src: Decls) returns (r: Decls)
    requires src.Valid()
    ensures r == MergeSource(acc, src)
  {
    r := acc;
    for i := 0 to |src.keys|
      invariant r == MergeKeys(acc, src, src.keys[..i])
    {
      MergeKeysSnoc(acc, src, src.keys, i);
      var key := src.keys[i];
      var values := src.vals[key];
      ghost var before := r;
      if r.Get(key).None? {
        r := r.Put(key, []);
        PutTwice(before, key, [], MergedList(before, src, key));
      }
      var list := r.Get(key).value + values;
      r := r.Put(key, Dedup(list));
    }
    assert src.keys[..|src.keys|] == src.keys;
  }
}
