/**
 * The ordering list (class `DepList` of schema/util/genmain.py). Each file is added as an
 * item `(keys, rule, path)` and indexed under each of its keys. `sort` is an iterative depth-first
 * search with an explicit stack of `(item, iterator)` frames and a `pushed` set. It emits every item
 * after the items its references resolve to. A reference group that resolves to nothing is
 * reported in `unfound`, and a reference back into the stack (a cycle) is silently skipped.
 */
module Ordering {
  import opened Wrappers
  import opened Names
  import opened Expansion
  import opened RuleTable

  /** An added file: its qualified keys, the rule found for it and its path. Like the
      Python tuple it stands for, an item is compared by value. */
  datatype Item = Item(keys: seq<Key>, rule: Option<Entry>, path: string)

  /** A stack frame: the item and the reference groups its iterator has still to yield. */
  datatype Frame = Frame(item: Item, refs: seq<Group>)

  /** A reference group that resolved to no item, with the location of the rule naming it. */
  datatype Unfound = Unfound(group: Group, info: Info)

  function Elems<T>(s: seq<T>): set<T> {
    set x | x in s
  }

  predicate Distinct<T(==)>(s: seq<T>) {
    forall i, j :: 0 <= i < j < |s| ==> s[i] != s[j]
  }

  /** What iterating over an item yields: its rule's dependency list expanded with a fresh
      history, and nothing for a file without a rule. */
  function Refs(al: AliasDeps, x: Item): seq<Group> {
    if x.rule.Some? then ExpandList(al, x.rule.value.deps, []).deps else []
  }

  /** The item the `k`-th reference group of `x` resolves to, first match winning. */
  function Resolves(al: AliasDeps, index: map<Key, Item>, x: Item, k: nat): Option<Item> {
    if k < |Refs(al, x)| then FirstMatch(index, Refs(al, x)[k]) else None
  }

  ghost predicate Edge(al: AliasDeps, index: map<Key, Item>, x: Item, y: Item) {
    exists k: nat :: Resolves(al, index, x, k) == Some(y)
  }

  /** The `i`-th item of `p` refers to the next one. */
  ghost predicate Linked(al: AliasDeps, index: map<Key, Item>, p: seq<Item>, i: nat) {
    i + 1 < |p| && Edge(al, index, p[i], p[i + 1])
  }

  /** Each item of `p` refers to the next one. */
  ghost predicate Chain(al: AliasDeps, index: map<Key, Item>, p: seq<Item>) {
    forall i: nat :: i + 1 < |p| ==> Linked(al, index, p, i)
  }

  /** `x` is reached from `y` in `n` references; every item on the way is indexed. */
  ghost predicate ReachesIn(al: AliasDeps, index: map<Key, Item>, y: Item, x: Item, n: nat)
    decreases n
  {
    if n == 0 then y == x
    else x in index.Values && exists z :: z in index.Values && Edge(al, index, y, z) && ReachesIn(al, index, z, x, n - 1)
  }

  /** `x` can be reached from `y` by following resolved references (possibly none). */
  ghost predicate Reaches(al: AliasDeps, index: map<Key, Item>, y: Item, x: Item) {
    exists n: nat :: ReachesIn(al, index, y, x, n)
  }

  /** No resolved reference closes a cycle. */
  ghost predicate Acyclic(al: AliasDeps, index: map<Key, Item>) {
    forall x, y :: x in index.Values && y in index.Values && Edge(al, index, x, y) ==> !Reaches(al, index, y, x)
  }

  function Items(s: seq<Frame>): (r: seq<Item>)
    ensures |r| == |s| && forall i :: 0 <= i < |s| ==> r[i] == s[i].item
  {
    seq(|s|, i requires 0 <= i < |s| => s[i].item)
  }

  /** The frame's groups still to come are a suffix of the item's references. */
  predicate FrameOk(al: AliasDeps, f: Frame) {
    var r := Refs(al, f.item);
    |f.refs| <= |r| && forall j :: 0 <= j < |f.refs| ==> f.refs[j] == r[|r| - |f.refs| + j]
  }

  /** The reference groups the frame's iterator has already yielded. */
  function Consumed(al: AliasDeps, f: Frame): seq<Group> {
    if |f.refs| <= |Refs(al, f.item)| then Refs(al, f.item)[..|Refs(al, f.item)| - |f.refs|] else []
  }

  /** One for every frame and one for every group a frame has still to yield. */
  function Weight(s: seq<Frame>): nat {
    if s == [] then 0 else Weight(s[..|s| - 1]) + |s[|s| - 1].refs| + 1
  }

  /** The stack after the top frame's iterator yielded its next group. */
  function Advanced(s: seq<Frame>): seq<Frame>
    requires s != [] && s[|s| - 1].refs != []
  {
    s[|s| - 1 := Frame(s[|s| - 1].item, s[|s| - 1].refs[1..])]
  }

  /** The groups of `gs` that resolve to no item, each reported with `info`. */
  function Unresolved(index: map<Key, Item>, gs: seq<Group>, info: Info): seq<Unfound> {
    if gs == [] then []
    else Unresolved(index, gs[..|gs| - 1], info) +
         (if FirstMatch(index, gs[|gs| - 1]).None? then [Unfound(gs[|gs| - 1], info)] else [])
  }

  /** What a frame has reported so far. */
  function FrameMissing(al: AliasDeps, index: map<Key, Item>, f: Frame): seq<Unfound> {
    if f.item.rule.Some? then Unresolved(index, Consumed(al, f), f.item.rule.value.info) else []
  }

  /** What the frames of a stack have reported so far. */
  function StackMissing(al: AliasDeps, index: map<Key, Item>, s: seq<Frame>): seq<Unfound> {
    if s == [] then [] else StackMissing(al, index, s[..|s| - 1]) + FrameMissing(al, index, s[|s| - 1])
  }

  /** What the items of `o` report once all their references have been followed. */
  function Missing(al: AliasDeps, index: map<Key, Item>, o: seq<Item>): seq<Unfound> {
    if o == [] then [] else Missing(al, index, o[..|o| - 1]) + FrameMissing(al, index, Frame(o[|o| - 1], []))
  }

  /** `pushed` holds exactly the emitted items and the items on the stack, each once. */
  ghost predicate Marked(t: seq<Item>, pushed: set<Item>, o: seq<Item>) {
    Distinct(o + t) && pushed == Elems(o + t)
  }

  /** Every frame is a suffix of its item's references, and each frame's item refers to
      the next one's. */
  ghost predicate StackOk(al: AliasDeps, index: map<Key, Item>, s: seq<Frame>) {
    (forall i :: 0 <= i < |s| ==> FrameOk(al, s[i])) && Chain(al, index, Items(s))
  }

  /** Every item a frame has already referred to has been pushed. */
  ghost predicate Explored(al: AliasDeps, index: map<Key, Item>, s: seq<Frame>, pushed: set<Item>) {
    forall i, k: nat :: 0 <= i < |s| && k < |Consumed(al, s[i])| && Resolves(al, index, s[i].item, k).Some? ==>
      Resolves(al, index, s[i].item, k).value in pushed
  }

  /** Every item that an emitted item refers to was emitted before it, unless it reaches back to
      that item (a cycle). */
  ghost predicate PostOrder(al: AliasDeps, index: map<Key, Item>, o: seq<Item>) {
    forall i, k: nat :: 0 <= i < |o| && Resolves(al, index, o[i], k).Some? ==>
      Resolves(al, index, o[i], k).value in o[..i] || Reaches(al, index, Resolves(al, index, o[i], k).value, o[i])
  }

  /** `unfound` holds, in some order, one report per unresolved group yielded so far. */
  ghost predicate Reported(al: AliasDeps, index: map<Key, Item>, s: seq<Frame>, o: seq<Item>, unfound: seq<Unfound>) {
    multiset(unfound) == multiset(Missing(al, index, o)) + multiset(StackMissing(al, index, s))
  }

  /** The state of the search: stack `s`, `pushed`, emitted items `o` and `unfound`, over the
      items `u` that were added. */
  ghost predicate Searching(al: AliasDeps, index: map<Key, Item>, u: set<Item>, s: seq<Frame>,
                            pushed: set<Item>, o: seq<Item>, unfound: seq<Unfound>) {
    pushed <= u && Marked(Items(s), pushed, o) && StackOk(al, index, s) && Explored(al, index, s, pushed) &&
    PostOrder(al, index, o) && Reported(al, index, s, o, unfound)
  }

  /** A search whose stack is empty and that pushed every item has popped each of them once. */
  lemma SearchDone(al: AliasDeps, index: map<Key, Item>, u: set<Item>, pushed: set<Item>, o: seq<Item>,
                   unfound: seq<Unfound>)
    requires Searching(al, index, u, [], pushed, o, unfound) && u <= pushed
    ensures Distinct(o) && Elems(o) == u && pushed == u
    ensures PostOrder(al, index, o) && Reported(al, index, [], o, unfound)
  {
    assert Items([]) == [] && o + [] == o;
  }

  /** The target of a resolved reference is an indexed item. */
  lemma EdgeIndexed(al: AliasDeps, index: map<Key, Item>, x: Item, y: Item)
    requires Edge(al, index, x, y)
    ensures y in index.Values
  {
    var k: nat :| Resolves(al, index, x, k) == Some(y);
    var keys := Refs(al, x)[k];
    var i :| 0 <= i < |keys| && keys[i] in index && y == index[keys[i]];
  }

  /** The first item of a chain reaches the last one. */
  lemma {:induction false} ChainReaches(al: AliasDeps, index: map<Key, Item>, p: seq<Item>)
    requires Chain(al, index, p) && p != []
    ensures ReachesIn(al, index, p[0], p[|p| - 1], |p| - 1)
  {
    if |p| > 1 {
      var q := p[1..];
      ChainSuffix(al, index, p, 1);
      ChainReaches(al, index, q);
      assert Linked(al, index, p, 0);
      EdgeIndexed(al, index, p[0], p[1]);
    }
  }

  /** A suffix of a chain is a chain. */
  lemma ChainSuffix(al: AliasDeps, index: map<Key, Item>, p: seq<Item>, j: nat)
    requires Chain(al, index, p) && j <= |p|
    ensures Chain(al, index, p[j..])
  {
    var q := p[j..];
    forall i: nat | i + 1 < |q| ensures Linked(al, index, q, i) {
      assert Linked(al, index, p, j + i);
      assert q[i] == p[j + i] && q[i + 1] == p[j + i + 1];
    }
  }

  /** The item on top of the stack is reached from every item on the stack. */
  lemma StackReaches(al: AliasDeps, index: map<Key, Item>, s: seq<Frame>, j: nat)
    requires Chain(al, index, Items(s)) && j < |s|
    ensures Reaches(al, index, s[j].item, s[|s| - 1].item)
  {
    var p := Items(s)[j..];
    ChainSuffix(al, index, Items(s), j);
    ChainReaches(al, index, p);
    assert p[0] == s[j].item && p[|p| - 1] == s[|s| - 1].item;
  }

  /** Pushing a new item `y` (referred to by the top frame's item, if any) keeps the search
      state. */
  lemma PushFrame(al: AliasDeps, index: map<Key, Item>, u: set<Item>, s: seq<Frame>, pushed: set<Item>,
                  o: seq<Item>, unfound: seq<Unfound>, y: Item)
    requires pushed <= u && Marked(Items(s), pushed, o) && StackOk(al, index, s)
    requires Explored(al, index, s, pushed + {y}) && PostOrder(al, index, o) && Reported(al, index, s, o, unfound)
    requires y in u && y !in pushed
    requires s != [] ==> Edge(al, index, s[|s| - 1].item, y)
    ensures Searching(al, index, u, s + [Frame(y, Refs(al, y))], pushed + {y}, o, unfound)
  {
    var s2 := s + [Frame(y, Refs(al, y))];
    assert Items(s2) == Items(s) + [y];
    PushMarked(Items(s), pushed, o, y);
    PushStack(al, index, s, y);
    PushExplored(al, index, s, pushed + {y}, y);
    PushReported(al, index, s, o, unfound, y);
  }

  lemma PushMarked(t: seq<Item>, pushed: set<Item>, o: seq<Item>, y: Item)
    requires Marked(t, pushed, o) && y !in pushed
    ensures Marked(t + [y], pushed + {y}, o)
  {
    var c := o + t;
    assert o + (t + [y]) == c + [y];
    assert Elems(c + [y]) == Elems(c) + {y};
    forall i, j | 0 <= i < j < |c| + 1 ensures (c + [y])[i] != (c + [y])[j] {
      if j == |c| {
        assert (c + [y])[i] == c[i] && c[i] in Elems(c);
      }
    }
  }

  lemma PushStack(al: AliasDeps, index: map<Key, Item>, s: seq<Frame>, y: Item)
    requires StackOk(al, index, s)
    requires s != [] ==> Edge(al, index, s[|s| - 1].item, y)
    ensures StackOk(al, index, s + [Frame(y, Refs(al, y))])
  {
    var s2 := s + [Frame(y, Refs(al, y))];
    var p := Items(s2);
    assert FrameOk(al, s2[|s|]);
    forall i: nat | i + 1 < |p| ensures Linked(al, index, p, i) {
      if i + 1 < |s| {
        assert Linked(al, index, Items(s), i);
        assert p[i] == Items(s)[i] && p[i + 1] == Items(s)[i + 1];
      } else {
        assert p[i] == s[|s| - 1].item && p[i + 1] == y;
      }
    }
  }

  lemma PushExplored(al: AliasDeps, index: map<Key, Item>, s: seq<Frame>, pushed: set<Item>, y: Item)
    requires Explored(al, index, s, pushed)
    ensures Explored(al, index, s + [Frame(y, Refs(al, y))], pushed)
  {
    var s2 := s + [Frame(y, Refs(al, y))];
    assert Consumed(al, s2[|s|]) == [];
  }

  lemma PushReported(al: AliasDeps, index: map<Key, Item>, s: seq<Frame>, o: seq<Item>, unfound: seq<Unfound>, y: Item)
    requires Reported(al, index, s, o, unfound)
    ensures Reported(al, index, s + [Frame(y, Refs(al, y))], o, unfound)
  {
    var s2 := s + [Frame(y, Refs(al, y))];
    assert s2[..|s|] == s;
    assert Consumed(al, s2[|s|]) == [];
    assert StackMissing(al, index, s2) == StackMissing(al, index, s) + [];
  }

  lemma AdvancedShape(al: AliasDeps, s: seq<Frame>)
    requires s != [] && s[|s| - 1].refs != [] && FrameOk(al, s[|s| - 1])
    ensures Items(Advanced(s)) == Items(s) && Advanced(s)[..|s| - 1] == s[..|s| - 1]
    ensures Weight(Advanced(s)) < Weight(s)
    ensures var f := s[|s| - 1]; var f2 := Advanced(s)[|s| - 1];
      FrameOk(al, f2) && Consumed(al, f2) == Consumed(al, f) + [f.refs[0]] &&
      f.refs[0] == Refs(al, f.item)[|Consumed(al, f)|] && f.item.rule.Some?
  {
    AdvancedTop(al, s[|s| - 1]);
    assert Advanced(s)[..|s| - 1] == s[..|s| - 1];
  }

  lemma AdvancedTop(al: AliasDeps, f: Frame)
    requires f.refs != [] && FrameOk(al, f)
    ensures var f2 := Frame(f.item, f.refs[1..]);
      FrameOk(al, f2) && Consumed(al, f2) == Consumed(al, f) + [f.refs[0]] &&
      f.refs[0] == Refs(al, f.item)[|Consumed(al, f)|] && f.item.rule.Some?
  {
    var r := Refs(al, f.item);
    assert f.refs[0] == r[|r| - |f.refs|];
    assert r[..|r| - |f.refs| + 1] == r[..|r| - |f.refs|] + [f.refs[0]];
  }

  /** The top frame yields its next group; a resolved group's item must be in `pushed2`. */
  lemma AdvanceExplored(al: AliasDeps, index: map<Key, Item>, s: seq<Frame>, pushed: set<Item>, pushed2: set<Item>)
    requires s != [] && s[|s| - 1].refs != []
    requires StackOk(al, index, s) && Explored(al, index, s, pushed) && pushed <= pushed2
    requires FirstMatch(index, s[|s| - 1].refs[0]).Some? ==> FirstMatch(index, s[|s| - 1].refs[0]).value in pushed2
    ensures StackOk(al, index, Advanced(s)) && Explored(al, index, Advanced(s), pushed2)
  {
    var n := |s| - 1;
    AdvancedShape(al, s);
    var s2 := Advanced(s);
    assert Items(s2) == Items(s);
    forall i, k: nat | 0 <= i < |s2| && k < |Consumed(al, s2[i])| && Resolves(al, index, s2[i].item, k).Some?
      ensures Resolves(al, index, s2[i].item, k).value in pushed2
    {
      if i < n || k < |Consumed(al, s[n])| {
        assert s2[i].item == s[i].item;
      }
    }
  }

  lemma AdvanceReported(al: AliasDeps, index: map<Key, Item>, s: seq<Frame>, o: seq<Item>, unfound: seq<Unfound>)
    requires s != [] && s[|s| - 1].refs != [] && FrameOk(al, s[|s| - 1])
    requires Reported(al, index, s, o, unfound)
    ensures s[|s| - 1].item.rule.Some?
    ensures var g := s[|s| - 1].refs[0];
      Reported(al, index, Advanced(s), o,
               unfound + if FirstMatch(index, g).None? then [Unfound(g, s[|s| - 1].item.rule.value.info)] else [])
  {
    var n := |s| - 1;
    AdvancedShape(al, s);
    var s2 := Advanced(s);
    var c := Consumed(al, s2[n]);
    assert c[..|c| - 1] == Consumed(al, s[n]);
  }

  /** The top frame yields a group that resolves to nothing: it is reported once. */
  lemma UnresolvedStep(al: AliasDeps, index: map<Key, Item>, u: set<Item>, s: seq<Frame>, pushed: set<Item>,
                       o: seq<Item>, unfound: seq<Unfound>)
    requires Searching(al, index, u, s, pushed, o, unfound)
    requires s != [] && s[|s| - 1].refs != [] && FirstMatch(index, s[|s| - 1].refs[0]).None?
    ensures s[|s| - 1].item.rule.Some?
    ensures Searching(al, index, u, Advanced(s), pushed, o, unfound + [Unfound(s[|s| - 1].refs[0], s[|s| - 1].item.rule.value.info)])
  {
    AdvanceExplored(al, index, s, pushed, pushed);
    AdvanceReported(al, index, s, o, unfound);
    AdvancedShape(al, s);
  }

  /** The top frame yields a group whose item was pushed before: nothing else happens. */
  lemma ResolvedStep(al: AliasDeps, index: map<Key, Item>, u: set<Item>, s: seq<Frame>, pushed: set<Item>,
                     o: seq<Item>, unfound: seq<Unfound>)
    requires Searching(al, index, u, s, pushed, o, unfound)
    requires s != [] && s[|s| - 1].refs != []
    requires FirstMatch(index, s[|s| - 1].refs[0]).Some? && FirstMatch(index, s[|s| - 1].refs[0]).value in pushed
    ensures Searching(al, index, u, Advanced(s), pushed, o, unfound)
  {
    AdvanceExplored(al, index, s, pushed, pushed);
    AdvanceReported(al, index, s, o, unfound);
    AdvancedShape(al, s);
  }

  /** The top frame yields a group whose item was never pushed: that item is pushed. */
  lemma DescendStep(al: AliasDeps, index: map<Key, Item>, u: set<Item>, s: seq<Frame>, pushed: set<Item>,
                    o: seq<Item>, unfound: seq<Unfound>, y: Item)
    requires Searching(al, index, u, s, pushed, o, unfound)
    requires s != [] && s[|s| - 1].refs != []
    requires FirstMatch(index, s[|s| - 1].refs[0]) == Some(y) && y in u && y !in pushed
    ensures Searching(al, index, u, Advanced(s) + [Frame(y, Refs(al, y))], pushed + {y}, o, unfound)
  {
    var f := s[|s| - 1];
    AdvanceExplored(al, index, s, pushed, pushed + {y});
    AdvanceReported(al, index, s, o, unfound);
    AdvancedShape(al, s);
    assert Resolves(al, index, f.item, |Consumed(al, f)|) == Some(y);
    PushFrame(al, index, u, Advanced(s), pushed, o, unfound, y);
  }

  /** Popping a frame whose iterator is exhausted emits its item. */
  lemma PopStep(al: AliasDeps, index: map<Key, Item>, u: set<Item>, s: seq<Frame>, pushed: set<Item>,
                o: seq<Item>, unfound: seq<Unfound>)
    requires Searching(al, index, u, s, pushed, o, unfound)
    requires s != [] && s[|s| - 1].refs == []
    ensures Searching(al, index, u, s[..|s| - 1], pushed, o + [s[|s| - 1].item], unfound)
  {
    PopStack(al, index, s, pushed);
    PopPostOrder(al, index, s, pushed, o);
    PopReported(al, index, s, o, unfound);
    PopMarked(s, pushed, o);
  }

  lemma PopStack(al: AliasDeps, index: map<Key, Item>, s: seq<Frame>, pushed: set<Item>)
    requires StackOk(al, index, s) && Explored(al, index, s, pushed) && s != []
    ensures StackOk(al, index, s[..|s| - 1]) && Explored(al, index, s[..|s| - 1], pushed)
  {
    var p := Items(s[..|s| - 1]);
    forall i: nat | i + 1 < |p| ensures Linked(al, index, p, i) {
      assert Linked(al, index, Items(s), i);
      assert p[i] == Items(s)[i] && p[i + 1] == Items(s)[i + 1];
    }
  }

  lemma PopMarked(s: seq<Frame>, pushed: set<Item>, o: seq<Item>)
    requires Marked(Items(s), pushed, o) && s != []
    ensures Marked(Items(s[..|s| - 1]), pushed, o + [s[|s| - 1].item])
  {
    var t := Items(s);
    assert Items(s[..|s| - 1]) == t[..|t| - 1] && t[|t| - 1] == s[|s| - 1].item;
    assert t == t[..|t| - 1] + [t[|t| - 1]];
    assert o + t == o + t[..|t| - 1] + [t[|t| - 1]];
    DistinctMoveLast(o, t[..|t| - 1], t[|t| - 1]);
  }

  /** Moving the last element of a distinct sequence to before a suffix keeps it distinct and keeps its elements. */
  lemma DistinctMoveLast<T>(a: seq<T>, b: seq<T>, x: T)
    requires Distinct(a + b + [x])
    ensures Distinct(a + [x] + b) && Elems(a + [x] + b) == Elems(a + b + [x])
  {
    var c, d := a + b + [x], a + [x] + b;
    forall i, j | 0 <= i < j < |d| ensures d[i] != d[j] {
      var ci := if i < |a| then i else if i == |a| then |c| - 1 else i - 1;
      var cj := if j < |a| then j else if j == |a| then |c| - 1 else j - 1;
      assert d[i] == c[ci] && d[j] == c[cj];
    }
    forall y ensures y in Elems(d) <==> y in Elems(c) {
      if y in Elems(d) {
        var i :| 0 <= i < |d| && d[i] == y;
        var ci := if i < |a| then i else if i == |a| then |c| - 1 else i - 1;
        assert c[ci] == y;
      }
      if y in Elems(c) {
        var i :| 0 <= i < |c| && c[i] == y;
        var di := if i < |a| then i else if i == |c| - 1 then |a| else i + 1;
        assert d[di] == y;
      }
    }
  }

  lemma PopPostOrder(al: AliasDeps, index: map<Key, Item>, s: seq<Frame>, pushed: set<Item>, o: seq<Item>)
    requires Marked(Items(s), pushed, o) && StackOk(al, index, s) && Explored(al, index, s, pushed)
    requires PostOrder(al, index, o)
    requires s != [] && s[|s| - 1].refs == []
    ensures PostOrder(al, index, o + [s[|s| - 1].item])
  {
    var n := |s| - 1;
    var x := s[n].item;
    var o2 := o + [x];
    assert Consumed(al, s[n]) == Refs(al, x);
    forall i, k: nat | 0 <= i < |o2| && Resolves(al, index, o2[i], k).Some?
      ensures Resolves(al, index, o2[i], k).value in o2[..i] || Reaches(al, index, Resolves(al, index, o2[i], k).value, o2[i])
    {
      var y := Resolves(al, index, o2[i], k).value;
      if i < |o| {
        assert o2[..i] == o[..i] && o2[i] == o[i];
      } else {
        assert o2[..i] == o;
        assert y in pushed;
        if y !in o {
          var j :| 0 <= j < |Items(s)| && Items(s)[j] == y;
          StackReaches(al, index, s, j);
        }
      }
    }
  }

  lemma PopReported(al: AliasDeps, index: map<Key, Item>, s: seq<Frame>, o: seq<Item>, unfound: seq<Unfound>)
    requires Reported(al, index, s, o, unfound)
    requires s != [] && s[|s| - 1].refs == []
    ensures Reported(al, index, s[..|s| - 1], o + [s[|s| - 1].item], unfound)
  {
    var x := s[|s| - 1].item;
    assert (o + [x])[..|o|] == o;
    assert Consumed(al, s[|s| - 1]) == Consumed(al, Frame(x, []));
  }

  /** Without cycles, every item an emitted item refers to was emitted before it. */
  lemma AcyclicPrecedes(al: AliasDeps, index: map<Key, Item>, o: seq<Item>, i: nat, k: nat)
    requires PostOrder(al, index, o) && Acyclic(al, index)
    requires i < |o| && Resolves(al, index, o[i], k).Some?
    ensures Resolves(al, index, o[i], k).value in o[..i]
  {
    var y := Resolves(al, index, o[i], k).value;
    assert Edge(al, index, o[i], y);
    EdgeIndexed(al, index, o[i], y);
  }

  /** Distinct sequences with the same elements are permutations of each other. */
  lemma {:induction false} DistinctCounts<T>(s: seq<T>)
    requires Distinct(s)
    ensures forall x :: multiset(s)[x] == if x in s then 1 else 0
  {
    if s != [] {
      var t := s[..|s| - 1];
      assert s == t + [s[|s| - 1]];
      DistinctCounts(t);
    }
  }

  lemma SamePermutation<T>(a: seq<T>, b: seq<T>)
    requires Distinct(a) && Distinct(b) && Elems(a) == Elems(b)
    ensures multiset(a) == multiset(b)
  {
    DistinctCounts(a);
    DistinctCounts(b);
    forall x ensures multiset(a)[x] == multiset(b)[x] {
      assert x in a <==> x in Elems(a);
      assert x in b <==> x in Elems(b);
    }
  }

  class DepList {
    /** The added items, in order; after `sort`, the sorted items. */
    var unsorted: seq<Item>
    /** Key -> the last item added under it. */
    var index: map<Key, Item>
    var stack: seq<Frame>
    var pushed: set<Item>
    var sorted: seq<Item>
    var unfound: seq<Unfound>

    /** Every indexed item was added. */
    ghost predicate Valid()
      reads this
    {
      forall k :: k in index ==> index[k] in unsorted
    }

    constructor ()
      ensures Valid() && unsorted == [] && index == map[]
      ensures stack == [] && pushed == {} && sorted == [] && unfound == []
    {
      unsorted := [];
      index := map[];
      stack := [];
      pushed := {};
      sorted := [];
      unfound := [];
    }

    method Reset()
      modifies this`stack, this`pushed, this`sorted, this`unfound
      ensures stack == [] && pushed == {} && sorted == [] && unfound == []
    {
      stack := [];
      pushed := {};
      sorted := [];
      unfound := [];
    }

    /** `add(keys, deps, path)`: appends the item and indexes it under every key, replacing
        what an earlier item left there. */
    method Add(keys: seq<Key>, rule: Option<Entry>, path: string)
      requires Valid()
      modifies this`unsorted, this`index
      ensures Valid()
      ensures unsorted == old(unsorted) + [Item(keys, rule, path)]
      ensures index == IndexUnder(old(index), keys, Item(keys, rule, path))
    {
      var item := Item(keys, rule, path);
      unsorted := unsorted + [item];
      var i := 0;
      while i < |keys|
        invariant 0 <= i <= |keys|
        invariant unsorted == old(unsorted) + [item]
        invariant index == IndexUnder(old(index), keys[..i], item)
        invariant Valid()
      {
        assert keys[..i + 1][..i] == keys[..i];
        index := index[keys[i] := item];
        i := i + 1;
      }
      assert keys[..|keys|] == keys;
    }

    /** `find(keys)`: the item of the first key present in the index. */
    method Find(keys: seq<Key>) returns (result: Option<Item>)
      ensures result == FirstMatch(index, keys)
    {
      var i := 0;
      while i < |keys|
        invariant 0 <= i <= |keys|
        invariant forall j :: 0 <= j < i ==> keys[j] !in index
      {
        if keys[i] in index {
          assert FirstHit(index, keys) == Some(i);
          return Some(index[keys[i]]);
        }
        i := i + 1;
      }
      return None;
    }

    function Top(): Frame
      reads this
      requires stack != []
    {
      stack[|stack| - 1]
    }

    /**
     * `push(item)`: an item already pushed is ignored; otherwise a frame is pushed whose
     * iterator yields the item's rule's dependency list expanded afresh (expansion counts a hit on
     * every alias it enters).
     */
    method Push(tab: DepTab, item: Item)
      requires tab.Valid()
      modifies this`stack, this`pushed, tab.Entries()
      ensures item in old(pushed) ==> stack == old(stack) && pushed == old(pushed)
      ensures item !in old(pushed) ==>
        stack == old(stack) + [Frame(item, Refs(tab.AliasTable(), item))] && pushed == old(pushed) + {item}
      ensures unsorted == old(unsorted) && index == old(index) && sorted == old(sorted) && unfound == old(unfound)
    {
      if item in pushed {
        return;
      }
      var refs: seq<Group> := [];
      if item.rule.Some? {
        var history, circular;
        refs, history, circular := item.rule.value.Expanded(tab, []);
      }
      stack := stack + [Frame(item, refs)];
      pushed := pushed + {item};
    }

    /** `pop()`: the top frame's item, or nothing when the stack is empty. */
    method Pop() returns (item: Option<Item>)
      modifies this`stack
      ensures old(stack) == [] ==> item.None? && stack == []
      ensures old(stack) != [] ==> item == Some(old(stack)[|old(stack)| - 1].item) && stack == old(stack)[..|old(stack)| - 1]
    {
      if stack == [] {
        return None;
      }
      item := Some(stack[|stack| - 1].item);
      stack := stack[..|stack| - 1];
    }

    /**
     * The `except StopIteration` branch of `sort()`'s inner loop: the top frame's iterator is
     * exhausted, so the frame is popped and its item is the next one emitted.
     */
    method PopTop(ghost al: AliasDeps, ghost u: set<Item>, ghost o: seq<Item>) returns (x: Item)
      requires stack != [] && Top().refs == [] && Searching(al, index, u, stack, pushed, o, unfound)
      modifies this`stack
      ensures Searching(al, index, u, stack, pushed, o + [x], unfound)
      ensures Weight(stack) < old(Weight(stack))
    {
      ghost var s := stack;
      var r := Pop();
      x := r.value;
      PopStep(al, index, u, s, pushed, o, unfound);
    }

    /**
     * The `try` branch of `sort()`'s inner loop: the top frame's iterator yields its next
     * group, which is either reported as unfound or resolved to an item that is pushed.
     */
    method Advance(tab: DepTab, ghost al: AliasDeps, ghost u: set<Item>, ghost o: seq<Item>)
      requires Valid() && tab.Valid() && tab.AliasTable() == al && Elems(unsorted) == u
      requires stack != [] && Top().refs != [] && Searching(al, index, u, stack, pushed, o, unfound)
      modifies this`stack, this`pushed, this`unfound, tab.Entries()
      ensures Searching(al, index, u, stack, pushed, o, unfound)
      ensures old(pushed) <= pushed
      ensures pushed == old(pushed) ==> Weight(stack) < old(Weight(stack))
      ensures pushed != old(pushed) ==> u - pushed < u - old(pushed)
    {
      ghost var s0 := stack;
      AdvancedShape(al, s0);
      var top := Top();
      stack := Advanced(stack);
      Follow(tab, top.refs[0], top.item, al, u, o, s0);
    }

    /**
     * The rest of one step of the `for ref in refs` walk, once `ref` is taken off the top
     * frame `from`: an unresolved group is reported, an unpushed item it resolves to is
     * pushed, and a pushed one is left alone.
     */
    method Follow(tab: DepTab, ref: Group, from: Item, ghost al: AliasDeps, ghost u: set<Item>, ghost o: seq<Item>,
                  ghost s0: seq<Frame>)
      requires Valid() && tab.Valid() && tab.AliasTable() == al && Elems(unsorted) == u
      requires s0 != [] && s0[|s0| - 1].refs != [] && ref == s0[|s0| - 1].refs[0] && from == s0[|s0| - 1].item
      requires stack == Advanced(s0) && Searching(al, index, u, s0, pushed, o, unfound)
      modifies this`stack, this`pushed, this`unfound, tab.Entries()
      ensures Searching(al, index, u, stack, pushed, o, unfound)
      ensures old(pushed) <= pushed
      ensures pushed == old(pushed) ==> stack == old(stack)
      ensures pushed != old(pushed) ==> u - pushed < u - old(pushed)
    {
      var refd := Find(ref);
      if refd.None? {
        UnresolvedStep(al, index, u, s0, pushed, o, unfound);
        unfound := unfound + [Unfound(ref, from.rule.value.info)];
        return;
      }
      Resolve(tab, refd.value, al, u, o, s0);
    }

    /** `push(refd)` for the item `y` that the top frame's last group resolved to. */
    method Resolve(tab: DepTab, y: Item, ghost al: AliasDeps, ghost u: set<Item>, ghost o: seq<Item>,
                   ghost s0: seq<Frame>)
      requires Valid() && tab.Valid() && tab.AliasTable() == al && Elems(unsorted) == u
      requires s0 != [] && s0[|s0| - 1].refs != [] && FirstMatch(index, s0[|s0| - 1].refs[0]) == Some(y)
      requires stack == Advanced(s0) && Searching(al, index, u, s0, pushed, o, unfound)
      modifies this`stack, this`pushed, tab.Entries()
      ensures Searching(al, index, u, stack, pushed, o, unfound)
      ensures old(pushed) <= pushed
      ensures pushed == old(pushed) ==> stack == old(stack)
      ensures pushed != old(pushed) ==> u - pushed < u - old(pushed)
    {
      ghost var p1 := pushed;
      assert y in u;
      if y in p1 {
        ResolvedStep(al, index, u, s0, p1, o, unfound);
      } else {
        DescendStep(al, index, u, s0, p1, o, unfound, y);
      }
      Push(tab, y);
      assert y !in p1 ==> y in u - p1 && pushed == p1 + {y};
    }

    /**
     * The `while len(self.stack)` loop of `sort()`: runs the stack empty and returns the
     * items in the order they were popped, after which the search invariant holds with them
     * appended to the sorted items.
     */
    method Drain(tab: DepTab, ghost al: AliasDeps, ghost u: set<Item>) returns (popped: seq<Item>)
      requires Valid() && tab.Valid() && tab.AliasTable() == al && Elems(unsorted) == u
      requires Searching(al, index, u, stack, pushed, sorted, unfound)
      modifies this`stack, this`pushed, this`unfound, tab.Entries()
      ensures stack == [] && old(pushed) <= pushed
      ensures Searching(al, index, u, stack, pushed, sorted + popped, unfound)
    {
      popped := [];
      assert sorted + popped == sorted;
      while |stack| > 0
        invariant Searching(al, index, u, stack, pushed, sorted + popped, unfound)
        invariant old(pushed) <= pushed
        decreases u - pushed, Weight(stack)
      {
        if Top().refs == [] {
          var x := PopTop(al, u, sorted + popped);
          SeqAssoc(sorted, popped, [x]);
          popped := popped + [x];
        } else {
          Advance(tab, al, u, sorted + popped);
        }
      }
    }

    /**
     * One pass of the `for item in self.unsorted` loop of `sort()` up to the `for p in popped`
     * loop: pushes `item` and drains the stack.
     */
    method Visit(tab: DepTab, item: Item, ghost al: AliasDeps, ghost u: set<Item>) returns (popped: seq<Item>)
      requires Valid() && tab.Valid() && tab.AliasTable() == al && Elems(unsorted) == u
      requires stack == [] && item in u
      requires Searching(al, index, u, stack, pushed, sorted, unfound)
      modifies this`stack, this`pushed, this`unfound, tab.Entries()
      ensures stack == [] && old(pushed) <= pushed && item in pushed
      ensures Searching(al, index, u, stack, pushed, sorted + popped, unfound)
    {
      ghost var s0, p0 := stack, pushed;
      if item !in pushed {
        PushFrame(al, index, u, s0, p0, sorted, unfound, item);
      }
      Push(tab, item);
      assert item !in p0 ==> stack == s0 + [Frame(item, Refs(al, item))] && pushed == p0 + {item};
      popped := Drain(tab, al, u);
    }

    /** The `for p in popped` loop of `sort()`: appends the popped items to the sorted list. */
    method AppendSorted(popped: seq<Item>)
      modifies this`sorted
      ensures sorted == old(sorted) + popped
    {
      var done := sorted;
      var j := 0;
      while j < |popped|
        invariant 0 <= j <= |popped|
        invariant done == old(sorted) + popped[..j]
      {
        done := done + [popped[j]];
        assert popped[..j + 1] == popped[..j] + [popped[j]];
        j := j + 1;
      }
      assert popped[..|popped|] == popped;
      sorted := done;
    }

    /**
     * `sort()`: every added item exactly once, each after the items its resolved references
     * name unless they reach back to it; one `unfound` report per unresolved reference group.
     * The sorted items become the new list.
     */
    method Sort(tab: DepTab) returns (result: seq<Item>)
      requires Valid() && tab.Valid()
      modifies this, tab.Entries()
      ensures Valid() && index == old(index)
      ensures result == sorted && unsorted == sorted && stack == [] && pushed == Elems(sorted)
      ensures Distinct(sorted) && Elems(sorted) == Elems(old(unsorted))
      ensures Distinct(old(unsorted)) ==> multiset(sorted) == multiset(old(unsorted))
      ensures PostOrder(tab.AliasTable(), index, sorted)
      ensures Reported(tab.AliasTable(), index, [], sorted, unfound)
    {
      ghost var al := tab.AliasTable();
      ghost var u := Elems(unsorted);
      var items := unsorted;
      Reset();
      var i := 0;
      while i < |items|
        invariant 0 <= i <= |items|
        invariant Valid() && index == old(index) && unsorted == items && tab.AliasTable() == al
        invariant stack == []
        invariant Searching(al, index, u, stack, pushed, sorted, unfound)
        invariant forall j :: 0 <= j < i ==> items[j] in pushed
      {
        ghost var p0 := pushed;
        var popped := Visit(tab, items[i], al, u);
        AppendSorted(popped);
        forall j | 0 <= j <= i ensures items[j] in pushed {
          if j < i {
            assert items[j] in p0;
          }
        }
        i := i + 1;
      }
      SearchDone(al, index, u, pushed, sorted, unfound);
      if Distinct(items) {
        SamePermutation(sorted, items);
      }
      unsorted := sorted;
      result := sorted;
    }
  }
}
