/**
 * Alias expansion (`DepTab.expand` and `Entry.expanded` of schema/util/genmain.py) as pure
 * functions over the alias table, here given as the dependency list of each alias key.
 * `history` is the list of alias keys already entered on the current top-level expansion;
 * it only grows, and only by alias keys it does not hold yet, which is what makes the
 * recursion terminate.
 */
module Expansion {
  import opened Names

  /** Alias key -> the alias rule's own dependency groups. */
  type AliasDeps = map<Key, seq<Group>>

  /** What expanding one group yields: its literal keys, the groups its aliases expanded
      to, the history afterwards and the keys skipped as circular. */
  datatype GroupResult = GroupResult(literal: seq<Key>, nested: seq<Group>, history: seq<Key>, circular: seq<Key>)

  /** What expanding a whole dependency list yields. */
  datatype ListResult = ListResult(deps: seq<Group>, history: seq<Key>, circular: seq<Key>)

  function Seen(h: seq<Key>): set<Key> {
    set k | k in h
  }

  /** `h2` is `h` followed by distinct alias keys that `h` does not hold. */
  predicate Grows(al: AliasDeps, h: seq<Key>, h2: seq<Key>) {
    |h| <= |h2| && h2[..|h|] == h &&
    (forall i :: |h| <= i < |h2| ==> h2[i] in al && h2[i] !in h) &&
    (forall i, j :: |h| <= i < j < |h2| ==> h2[i] != h2[j])
  }

  /** Every group is non-empty and names no alias. */
  predicate Clean(al: AliasDeps, gs: seq<Group>) {
    forall i :: 0 <= i < |gs| ==> gs[i] != [] && forall k :: k in gs[i] ==> k !in al
  }

  lemma GrowsRefl(al: AliasDeps, h: seq<Key>)
    ensures Grows(al, h, h)
  {
  }

  lemma GrowsTrans(al: AliasDeps, h1: seq<Key>, h2: seq<Key>, h3: seq<Key>)
    requires Grows(al, h1, h2) && Grows(al, h2, h3)
    ensures Grows(al, h1, h3)
  {
    assert h3[..|h1|] == h3[..|h2|][..|h1|];
    forall k | k in h1 ensures k in h2 {
      var j :| 0 <= j < |h1| && h1[j] == k;
      assert h2[j] == h1[j];
    }
    forall i, j | |h1| <= i < j < |h3| ensures h3[i] != h3[j] {
      if i < |h2| && |h2| <= j {
        assert h3[i] == h2[i];
        assert h3[j] !in h2;
      }
    }
  }

  lemma GrowsPush(al: AliasDeps, h: seq<Key>, key: Key)
    requires key in al && key !in h
    ensures Grows(al, h, h + [key])
  {
  }

  lemma GrowsSeen(al: AliasDeps, h: seq<Key>, h2: seq<Key>)
    requires Grows(al, h, h2)
    ensures al.Keys - Seen(h2) <= al.Keys - Seen(h)
  {
    forall k | k in h ensures k in h2 {
      var i :| 0 <= i < |h| && h[i] == k;
      assert h2[i] == h[i];
    }
  }

  lemma PushShrinks(al: AliasDeps, h: seq<Key>, h1: seq<Key>, key: Key)
    requires Grows(al, h, h1) && key in al && key !in h1
    ensures al.Keys - Seen(h1 + [key]) < al.Keys - Seen(h)
  {
    GrowsSeen(al, h, h1);
    assert key in al.Keys - Seen(h1);
    assert key !in al.Keys - Seen(h1 + [key]);
  }

  /**
   * The loop of `expand` over the keys of a group, before literal keys are discarded: a key
   * already in the history is skipped and reported as circular; a non-alias key is kept;
   * an alias key is appended to the history and its own dependency list is expanded.
   */
  function ScanKeys(al: AliasDeps, ks: seq<Key>, h: seq<Key>): (r: GroupResult)
    decreases al.Keys - Seen(h), 0, |ks|
    ensures Grows(al, h, r.history)
    ensures forall k :: k in r.literal ==> k !in al
    ensures Clean(al, r.nested)
  {
    if ks == [] then GroupResult([], [], h, [])
    else
      var p := ScanKeys(al, ks[..|ks| - 1], h);
      var key := ks[|ks| - 1];
      if key in p.history then p.(circular := p.circular + [key])
      else if key !in al then p.(literal := p.literal + [key])
      else
        PushShrinks(al, h, p.history, key);
        GrowsPush(al, p.history, key);
        GrowsTrans(al, h, p.history, p.history + [key]);
        var sub := ExpandList(al, al[key], p.history + [key]);
        GrowsTrans(al, h, p.history + [key], sub.history);
        GroupResult(p.literal, p.nested + sub.deps, sub.history, p.circular + sub.circular)
  }

  /** `expand(keyset, history)`: when the expansion of the group's aliases yielded a group, its
      literal keys are discarded, so a group is either wholly literal or wholly replaced. */
  function ExpandGroup(al: AliasDeps, ks: seq<Key>, h: seq<Key>): (r: GroupResult)
    decreases al.Keys - Seen(h), 1, 0
    ensures Grows(al, h, r.history)
    ensures forall k :: k in r.literal ==> k !in al
    ensures Clean(al, r.nested)
    ensures r.literal == [] || r.nested == []
  {
    var s := ScanKeys(al, ks, h);
    if |s.nested| > 0 then s.(literal := []) else s
  }

  /**
   * `Entry.expanded(history)`: each group of a dependency list in turn, a non-empty literal
   * group kept as one group, followed by the groups its aliases expanded to. The result
   * never holds an empty group and never an alias key.
   */
  function ExpandList(al: AliasDeps, deps: seq<Group>, h: seq<Key>): (r: ListResult)
    decreases al.Keys - Seen(h), 2, |deps|
    ensures Grows(al, h, r.history)
    ensures Clean(al, r.deps)
  {
    if deps == [] then ListResult([], h, [])
    else
      var p := ExpandList(al, deps[..|deps| - 1], h);
      GrowsSeen(al, h, p.history);
      var g := ExpandGroup(al, deps[|deps| - 1], p.history);
      GrowsTrans(al, h, p.history, g.history);
      ListResult(p.deps + (if |g.literal| > 0 then [g.literal] else []) + g.nested,
                 g.history, p.circular + g.circular)
  }

  /** One more group of a dependency list: its expansion follows that of the groups before it. */
  lemma ExpandListStep(al: AliasDeps, deps: seq<Group>, i: nat, h: seq<Key>, p: ListResult, g: GroupResult)
    requires i < |deps| && p == ExpandList(al, deps[..i], h) && g == ExpandGroup(al, deps[i], p.history)
    ensures ExpandList(al, deps[..i + 1], h)
              == ListResult(p.deps + (if |g.literal| > 0 then [g.literal] else []) + g.nested,
                            g.history, p.circular + g.circular)
  {
    assert deps[..i + 1][..i] == deps[..i];
    assert deps[..i + 1][i] == deps[i];
  }

  /** The keys of `ks` that are neither aliases nor in `h`, in their original order. */
  function Plain(al: AliasDeps, ks: seq<Key>, h: seq<Key>): (r: seq<Key>)
    ensures |r| <= |ks|
  {
    if ks == [] then []
    else Plain(al, ks[..|ks| - 1], h) + (if ks[|ks| - 1] !in al && ks[|ks| - 1] !in h then [ks[|ks| - 1]] else [])
  }

  lemma GrowsKeepsPlain(al: AliasDeps, h: seq<Key>, h2: seq<Key>, key: Key)
    requires Grows(al, h, h2) && key !in al
    ensures key in h2 <==> key in h
  {
    if key in h2 {
      var i :| 0 <= i < |h2| && h2[i] == key;
      assert i < |h|;
      assert h[i] == key;
    }
    if key in h {
      var i :| 0 <= i < |h| && h[i] == key;
      assert h2[i] == key;
    }
  }

  /** Non-alias keys are kept in their original order; keys in the history are skipped. */
  lemma {:induction false} ScanKeysLiteral(al: AliasDeps, ks: seq<Key>, h: seq<Key>)
    ensures ScanKeys(al, ks, h).literal == Plain(al, ks, h)
    decreases |ks|
  {
    if ks != [] {
      ScanKeysLiteral(al, ks[..|ks| - 1], h);
      var p := ScanKeys(al, ks[..|ks| - 1], h);
      var key := ks[|ks| - 1];
      if key !in al {
        GrowsKeepsPlain(al, h, p.history, key);
      }
    }
  }

  /** A group without expanded aliases yields exactly its plain keys; otherwise no literal key. */
  lemma ExpandGroupLiteral(al: AliasDeps, ks: seq<Key>, h: seq<Key>)
    ensures ExpandGroup(al, ks, h).nested == [] ==> ExpandGroup(al, ks, h).literal == Plain(al, ks, h)
    ensures ExpandGroup(al, ks, h).nested != [] ==> ExpandGroup(al, ks, h).literal == []
  {
    ScanKeysLiteral(al, ks, h);
  }

  /** The non-empty groups of `deps`, in order. */
  function NonEmpty(deps: seq<Group>): (r: seq<Group>)
    ensures |r| <= |deps|
  {
    if deps == [] then []
    else NonEmpty(deps[..|deps| - 1]) + (if deps[|deps| - 1] != [] then [deps[|deps| - 1]] else [])
  }

  /** No key named by the groups is an alias or in the history. */
  predicate Untouched(al: AliasDeps, deps: seq<Group>, h: seq<Key>) {
    forall i, k :: 0 <= i < |deps| && k in deps[i] ==> k !in al && k !in h
  }

  lemma {:induction false} ScanKeysNoAlias(al: AliasDeps, ks: seq<Key>, h: seq<Key>)
    requires forall k :: k in ks ==> k !in al && k !in h
    ensures ScanKeys(al, ks, h) == GroupResult(ks, [], h, [])
    decreases |ks|
  {
    if ks != [] {
      ScanKeysNoAlias(al, ks[..|ks| - 1], h);
      assert ks == ks[..|ks| - 1] + [ks[|ks| - 1]];
    }
  }

  /** Without aliases, expansion returns the declared non-empty groups unchanged. */
  lemma {:induction false} ExpandListNoAlias(al: AliasDeps, deps: seq<Group>, h: seq<Key>)
    requires Untouched(al, deps, h)
    ensures ExpandList(al, deps, h) == ListResult(NonEmpty(deps), h, [])
    decreases |deps|
  {
    if deps != [] {
      ExpandListNoAlias(al, deps[..|deps| - 1], h);
      ScanKeysNoAlias(al, deps[|deps| - 1], h);
    }
  }

  /** Two aliases that name each other: expanding a reference to one of them ends, enters
      each alias once, reports the re-entry as circular and yields no group. */
  lemma MutualAliases(a: Key, b: Key)
    requires a != b
    ensures var r := ExpandList(map[a := [[b]], b := [[a]]], [[a]], []);
      r.deps == [] && r.history == [a, b] && r.circular == [a]
  {
    var al := map[a := [[b]], b := [[a]]];
    assert [a][..0] == [] && [b][..0] == [] && [[a]][..0] == [] && [[b]][..0] == [];
    // innermost: `a` is already in the history
    assert ScanKeys(al, [a], [a, b]) == GroupResult([], [], [a, b], [a]);
    assert ExpandGroup(al, [a], [a, b]) == GroupResult([], [], [a, b], [a]);
    assert ExpandList(al, [], [a, b]) == ListResult([], [a, b], []);
    assert ExpandList(al, al[b], [a, b]) == ListResult([], [a, b], [a]);
    // middle: `b` is an alias entered from `a`
    assert [a] + [b] == [a, b];
    assert ScanKeys(al, [], [a]) == GroupResult([], [], [a], []);
    assert ScanKeys(al, [b], [a]) == GroupResult([], [], [a, b], [a]);
    assert ExpandGroup(al, [b], [a]) == GroupResult([], [], [a, b], [a]);
    assert ExpandList(al, [], [a]) == ListResult([], [a], []);
    assert ExpandList(al, al[a], [a]) == ListResult([], [a, b], [a]);
    // outermost: the reference to `a`
    assert [] + [a] == [a];
    assert ScanKeys(al, [], []) == GroupResult([], [], [], []);
    assert ScanKeys(al, [a], []) == GroupResult([], [], [a, b], [a]);
    assert ExpandGroup(al, [a], []) == GroupResult([], [], [a, b], [a]);
    assert ExpandList(al, [], []) == ListResult([], [], []);
  }
}
