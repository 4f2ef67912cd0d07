/**
 * Name qualification (class `Name` of schema/util/genmain.py): the ordered tuple of
 * candidate index keys under which a reference may be registered. Every lookup in the
 * program tries these candidates in order and takes the first that is present.
 */
module Names {
  import opened Wrappers

  /** A qualified key such as `tables/orders.sql` or `tables/orders`. */
  type Key = string

  /** A dependency group: alternative keys, the first present one wins. */
  type Group = seq<Key>

  /** The namespace argument of `qualify`: one namespace or an ordered list of them. */
  datatype Namespaces = One(ns: string) | Many(list: seq<string>)

  /** A non-list namespace is treated as a one-element list. */
  function AsList(nss: Namespaces): (r: seq<string>)
    ensures nss.One? ==> r == [nss.ns]
    ensures nss.Many? ==> r == nss.list
  {
    match nss
    case One(ns) => [ns]
    case Many(list) => list
  }

  /** `qualified(name)`: the name carries a namespace separator. */
  predicate Qualified(name: string) {
    '/' in name
  }

  predicate Unqualified(name: string) {
    !Qualified(name)
  }

  /** The position of the last `.` in `s`, where `s.rsplit('.', 1)` splits it. */
  function LastDot(s: string): (r: Option<nat>)
    ensures r.None? <==> '.' !in s
    ensures r.Some? ==> r.value < |s| && s[r.value] == '.' && '.' !in s[r.value + 1..]
  {
    if s == [] then None
    else if s[|s| - 1] == '.' then Some(|s| - 1)
    else
      var r := LastDot(s[..|s| - 1]);
      assert r.Some? ==> s[r.value + 1..] == s[..|s| - 1][r.value + 1..] + [s[|s| - 1]];
      assert r.None? ==> s == s[..|s| - 1] + [s[|s| - 1]];
      r
  }

  /** The name with its last `.extension` removed; the name itself when it has no `.`. */
  function StripExt(fn: string): (r: string)
    ensures '.' in fn ==> exists ext :: fn == r + "." + ext && '.' !in ext
    ensures '.' !in fn ==> r == fn
    ensures |r| <= |fn|
  {
    match LastDot(fn)
    case None => fn
    case Some(i) =>
      assert fn == fn[..i] + "." + fn[i + 1..];
      fn[..i]
  }

  /** `basenames(fn)`: the name, then (only when it has an extension) the name without it. */
  function Basenames(fn: string): (r: seq<string>)
    ensures 1 <= |r| <= 2 && r[0] == fn
    ensures |r| == 2 <==> '.' in fn
    ensures |r| == 2 ==> r[1] == StripExt(fn)
  {
    if '.' in fn then [fn, StripExt(fn)] else [fn]
  }

  /** Each namespace in order, each followed by `/` and each basename in order. */
  function Prefixed(nss: seq<string>, bns: seq<string>): seq<Key> {
    if nss == [] then [] else seq(|bns|, k requires 0 <= k < |bns| => nss[0] + "/" + bns[k]) + Prefixed(nss[1..], bns)
  }

  /**
   * `qualify(nss, fn)`. A qualified name gives only its basenames; otherwise each
   * namespace in order gives `ns/fn` and then `ns/fn-without-extension`. The first key is
   * the primary key used for override detection.
   */
  function Qualify(nss: Namespaces, fn: string): (r: seq<Key>)
    ensures Qualified(fn) || |AsList(nss)| > 0 <==> |r| > 0
    ensures |r| > 0 ==> r[0] == if Qualified(fn) then fn else AsList(nss)[0] + "/" + fn
  {
    if Qualified(fn) then Basenames(fn) else Prefixed(AsList(nss), Basenames(fn))
  }

  /**
   * A qualified reference yields exactly the reference, then (only when it has an
   * extension) the reference without its last extension; no namespace is prepended.
   */
  lemma QualifyQualified(nss: Namespaces, fn: string)
    requires Qualified(fn)
    ensures '.' in fn ==> Qualify(nss, fn) == [fn, StripExt(fn)]
    ensures '.' !in fn ==> Qualify(nss, fn) == [fn]
  {
  }

  lemma {:induction false} PrefixedShape(nss: seq<string>, fn: string)
    ensures '.' in fn ==> |Prefixed(nss, Basenames(fn))| == 2 * |nss|
    ensures '.' !in fn ==> |Prefixed(nss, Basenames(fn))| == |nss|
    ensures '.' in fn ==> forall i :: 0 <= i < |nss| ==>
      Prefixed(nss, Basenames(fn))[2 * i] == nss[i] + "/" + fn &&
      Prefixed(nss, Basenames(fn))[2 * i + 1] == nss[i] + "/" + StripExt(fn)
    ensures '.' !in fn ==> forall i :: 0 <= i < |nss| ==>
      Prefixed(nss, Basenames(fn))[i] == nss[i] + "/" + fn
  {
    if nss != [] {
      PrefixedShape(nss[1..], fn);
    }
  }

  /**
   * An unqualified reference yields a namespace-major list: for each namespace in order,
   * `ns/fn` then (only when `fn` has an extension) `ns/fn-without-extension`, so the
   * length is the number of namespaces times one or two.
   */
  lemma QualifyUnqualified(nss: Namespaces, fn: string)
    requires Unqualified(fn)
    ensures '.' in fn ==> |Qualify(nss, fn)| == 2 * |AsList(nss)|
    ensures '.' !in fn ==> |Qualify(nss, fn)| == |AsList(nss)|
    ensures var q, l := Qualify(nss, fn), AsList(nss);
      '.' in fn ==> forall i :: 0 <= i < |l| ==>
        q[2 * i] == l[i] + "/" + fn && q[2 * i + 1] == l[i] + "/" + StripExt(fn)
    ensures var q, l := Qualify(nss, fn), AsList(nss);
      '.' !in fn ==> forall i :: 0 <= i < |l| ==> q[i] == l[i] + "/" + fn
  {
    PrefixedShape(AsList(nss), fn);
  }

  /** The position of the first key in `keys` that `m` holds, if any. */
  function FirstHit<V>(m: map<Key, V>, keys: seq<Key>): (r: Option<nat>)
    ensures r.None? <==> forall i :: 0 <= i < |keys| ==> keys[i] !in m
    ensures r.Some? ==> r.value < |keys| && keys[r.value] in m
    ensures r.Some? ==> forall j :: 0 <= j < r.value ==> keys[j] !in m
  {
    if keys == [] then None
    else if keys[0] in m then Some(0)
    else match FirstHit(m, keys[1..])
      case None => None
      case Some(i) => Some(i + 1)
  }

  /** First-match-wins lookup: the value of the first candidate key present in `m`. */
  function FirstMatch<V>(m: map<Key, V>, keys: seq<Key>): (r: Option<V>)
    ensures r.None? <==> forall i :: 0 <= i < |keys| ==> keys[i] !in m
    ensures r.Some? ==> exists i :: 0 <= i < |keys| && keys[i] in m && r.value == m[keys[i]] &&
                                   forall j :: 0 <= j < i ==> keys[j] !in m
  {
    match FirstHit(m, keys)
    case None => None
    case Some(i) => Some(m[keys[i]])
  }

  /** A present key with no present key before it is the one the lookup returns. */
  lemma FirstMatchAt<V>(m: map<Key, V>, keys: seq<Key>, w: nat)
    requires w < |keys| && keys[w] in m
    requires forall j :: 0 <= j < w ==> keys[j] !in m
    ensures FirstMatch(m, keys) == Some(m[keys[w]])
  {
    var i :| 0 <= i < |keys| && keys[i] in m && FirstMatch(m, keys).value == m[keys[i]] &&
             forall j :: 0 <= j < i ==> keys[j] !in m;
    assert i == w;
  }

  /**
   * The earliest namespace of a search path that holds an unqualified reference wins: when
   * the namespaces `pre` before `a` hold neither `ns/fn` nor `ns/fn-without-extension` and
   * `a` holds `a/fn`, the lookup returns the value of `a/fn`.
   */
  lemma FirstNamespaceWins<V>(m: map<Key, V>, pre: seq<string>, a: string, rest: seq<string>, fn: string)
    requires Unqualified(fn)
    requires forall b :: b in pre ==> b + "/" + fn !in m && b + "/" + StripExt(fn) !in m
    requires a + "/" + fn in m
    ensures FirstMatch(m, Qualify(Many(pre + [a] + rest), fn)) == Some(m[a + "/" + fn])
  {
    var nss := pre + [a] + rest;
    var keys := Qualify(Many(nss), fn);
    QualifyUnqualified(Many(nss), fn);
    assert nss[|pre|] == a;
    if '.' in fn {
      forall j | 0 <= j < 2 * |pre| ensures keys[j] !in m {
        var i := j / 2;
        assert nss[i] == pre[i] && pre[i] in pre;
        assert j == 2 * i || j == 2 * i + 1;
      }
      FirstMatchAt(m, keys, 2 * |pre|);
    } else {
      forall j | 0 <= j < |pre| ensures keys[j] !in m {
        assert nss[j] == pre[j] && pre[j] in pre;
      }
      FirstMatchAt(m, keys, |pre|);
    }
  }

  /** `m` with every key of `keys` mapped to `v`, a later key of `keys` assigned after an
      earlier one, as the registration loops `for key in keys: index[key] = v` do. */
  function IndexUnder<V>(m: map<Key, V>, keys: seq<Key>, v: V): map<Key, V> {
    if keys == [] then m else IndexUnder(m, keys[..|keys| - 1], v)[keys[|keys| - 1] := v]
  }

  lemma {:induction false} IndexUnderValue<V>(m: map<Key, V>, keys: seq<Key>, v: V, k: Key)
    ensures k in IndexUnder(m, keys, v) <==> k in m || k in keys
    ensures k in keys ==> IndexUnder(m, keys, v)[k] == v
    ensures k !in keys && k in m ==> IndexUnder(m, keys, v)[k] == m[k]
  {
    if keys != [] {
      IndexUnderValue(m, keys[..|keys| - 1], v, k);
      assert k in keys && k != keys[|keys| - 1] ==> k in keys[..|keys| - 1];
    }
  }
}
