/**
 * The rule table (class `DepTab` and its `Entry` records in schema/util/genmain.py): rules
 * parsed from rule files, indexed under every qualified form of their subject, looked up
 * first-match-wins with a hit counter, classified as aliases when never hit, and expanded.
 */
module RuleTable {
  import opened Wrappers
  import opened Text
  import opened Names
  import opened Expansion
  import opened RuleFile

  /** Where a rule was declared: the `path:line` of `Entry.info`. */
  datatype Info = Info(file: string, line: nat)

  /** A rule. Only its hit counter ever changes. */
  class Entry {
    const info: Info
    const subject: string
    const deps: seq<Group>
    var hits: nat

    constructor (info: Info, subject: string, deps: seq<Group>)
      ensures this.info == info && this.subject == subject && this.deps == deps && hits == 0
    {
      this.info := info;
      this.subject := subject;
      this.deps := deps;
      hits := 0;
    }

    /**
     * `expanded(history)`: the rule's dependency list with every alias replaced by its own
     * expansion. The table is passed in rather than held in a field. Every alias entered
     * gets one more hit.
     */
    method Expanded(tab: DepTab, history: seq<Key>) returns (result: seq<Group>, after: seq<Key>, circular: seq<Key>)
      requires tab.Valid()
      modifies tab.Entries()
      decreases tab.AliasTable().Keys - Seen(history), 2
      ensures ListResult(result, after, circular) == ExpandList(tab.AliasTable(), deps, history)
      ensures forall e :: e in tab.Entries() ==> e.hits == old(e.hits) + Count(tab.aliases, after[|history|..], e)
    {
      ghost var al := tab.AliasTable();
      result, after, circular := [], history, [];
      var i := 0;
      while i < |deps|
        invariant 0 <= i <= |deps|
        invariant ListResult(result, after, circular) == ExpandList(al, deps[..i], history)
        invariant forall e :: e in tab.Entries() ==> e.hits == old(e.hits) + Count(tab.aliases, after[|history|..], e)
      {
        GrowsSeen(al, history, after);
        ghost var before := after;
        var keyset, expanded, h, circ := tab.Expand(deps[i], after);
        ExpandListStep(al, deps, i, history, ListResult(result, before, circular), GroupResult(keyset, expanded, h, circ));
        CountConcat(tab.aliases, history, before, h);
        if |keyset| > 0 {
          result := result + [keyset];
        }
        result := result + expanded;
        after := h;
        circular := circular + circ;
        i := i + 1;
      }
      assert deps[..|deps|] == deps;
    }
  }

  /** The number of keys of `ks` under which `al` holds `e`. */
  function Count(al: map<Key, Entry>, ks: seq<Key>, e: Entry): nat {
    if ks == [] then 0
    else Count(al, ks[..|ks| - 1], e) + (if ks[|ks| - 1] in al && al[ks[|ks| - 1]] == e then 1 else 0)
  }

  lemma {:induction false} CountAppend(al: map<Key, Entry>, a: seq<Key>, b: seq<Key>, e: Entry)
    ensures Count(al, a + b, e) == Count(al, a, e) + Count(al, b, e)
    decreases |b|
  {
    if b == [] {
      assert a + b == a;
    } else {
      assert (a + b)[..|a + b| - 1] == a + b[..|b| - 1];
      assert (a + b)[|a + b| - 1] == b[|b| - 1];
      CountAppend(al, a, b[..|b| - 1], e);
    }
  }

  /** Splits the keys added to a history in two stages. */
  lemma CountConcat(al: map<Key, Entry>, h0: seq<Key>, h1: seq<Key>, h2: seq<Key>)
    requires |h0| <= |h1| <= |h2| && h2[..|h1|] == h1
    ensures forall e :: Count(al, h2[|h0|..], e) == Count(al, h1[|h0|..], e) + Count(al, h2[|h1|..], e)
  {
    assert h2[|h0|..] == h1[|h0|..] + h2[|h1|..];
    forall e ensures Count(al, h2[|h0|..], e) == Count(al, h1[|h0|..], e) + Count(al, h2[|h1|..], e) {
      CountAppend(al, h1[|h0|..], h2[|h1|..], e);
    }
  }

  /** The keys added by entering `key`: the key itself, then what its expansion added. */
  lemma CountEntered(al: map<Key, Entry>, history: seq<Key>, key: Key, after: seq<Key>)
    requires |history| + 1 <= |after| && after[..|history| + 1] == history + [key]
    ensures forall e :: Count(al, after[|history|..], e) ==
                        Count(al, after[|history| + 1..], e) + (if key in al && al[key] == e then 1 else 0)
  {
    CountConcat(al, history, history + [key], after);
    assert (history + [key])[|history|..] == [key];
    assert [key][..0] == [];
    forall e ensures Count(al, [key], e) == if key in al && al[key] == e then 1 else 0 {
    }
  }

  lemma DepGroupsPush(path: seq<string>, tokens: seq<string>, t: nat)
    requires t < |tokens|
    ensures DepGroups(path, tokens[..t + 1]) ==
            DepGroups(path, tokens[..t]) + if |Strip(tokens[t])| > 0 then [Qualify(Many(path), Strip(tokens[t]))] else []
  {
    assert tokens[..t + 1][..t] == tokens[..t];
  }

  /** The index after the entries `es` of a file in namespace `ns` were registered in order. */
  function Register(m: map<Key, Entry>, ns: string, es: seq<Entry>): map<Key, Entry> {
    if es == [] then m
    else IndexUnder(Register(m, ns, es[..|es| - 1]), Qualify(One(ns), es[|es| - 1].subject), es[|es| - 1])
  }

  /** The subject of `e` qualified in `ns` yields the key `k`. */
  predicate Yields(ns: string, e: Entry, k: Key) {
    k in Qualify(One(ns), e.subject)
  }

  /** Every qualified form of each new subject is indexed, and nothing else is added. */
  lemma {:induction false} RegisterKeys(m: map<Key, Entry>, ns: string, es: seq<Entry>, k: Key)
    ensures k in Register(m, ns, es) <==> k in m || exists i :: 0 <= i < |es| && Yields(ns, es[i], k)
  {
    if es != [] {
      var pre := es[..|es| - 1];
      RegisterKeys(m, ns, pre, k);
      IndexUnderValue(Register(m, ns, pre), Qualify(One(ns), es[|es| - 1].subject), es[|es| - 1], k);
      if exists i :: 0 <= i < |es| && Yields(ns, es[i], k) {
        var i :| 0 <= i < |es| && Yields(ns, es[i], k);
        if i < |es| - 1 {
          assert pre[i] == es[i];
        }
      }
      if exists i :: 0 <= i < |pre| && Yields(ns, pre[i], k) {
        var i :| 0 <= i < |pre| && Yields(ns, pre[i], k);
        assert es[i] == pre[i];
      }
    }
  }

  /** A later rule overwrites an earlier one on a shared key: a key maps to the last new
      entry whose subject yields it. */
  lemma {:induction false} RegisterLastWins(m: map<Key, Entry>, ns: string, es: seq<Entry>, k: Key, i: nat)
    requires i < |es| && Yields(ns, es[i], k)
    requires forall j :: i < j < |es| ==> !Yields(ns, es[j], k)
    ensures k in Register(m, ns, es) && Register(m, ns, es)[k] == es[i]
  {
    var pre := es[..|es| - 1];
    if i < |es| - 1 {
      forall j | i < j < |pre| ensures !Yields(ns, pre[j], k) {
        assert pre[j] == es[j];
      }
      assert pre[i] == es[i];
      RegisterLastWins(m, ns, pre, k, i);
      assert !Yields(ns, es[|es| - 1], k);
      RegisterStep(m, ns, es, k);
    } else {
      assert es[|es| - 1] == es[i];
      RegisterStep(m, ns, es, k);
    }
  }

  /** Registering one more entry maps the keys its subject yields to it and keeps every other key. */
  lemma RegisterStep(m: map<Key, Entry>, ns: string, es: seq<Entry>, k: Key)
    requires es != []
    ensures var pre, last := Register(m, ns, es[..|es| - 1]), es[|es| - 1];
      (Yields(ns, last, k) ==> k in Register(m, ns, es) && Register(m, ns, es)[k] == last) &&
      (!Yields(ns, last, k) && k in pre ==> k in Register(m, ns, es) && Register(m, ns, es)[k] == pre[k])
  {
    IndexUnderValue(Register(m, ns, es[..|es| - 1]), Qualify(One(ns), es[|es| - 1].subject), es[|es| - 1], k);
  }

  /** A key that no new subject yields keeps its old entry. */
  lemma {:induction false} RegisterKeeps(m: map<Key, Entry>, ns: string, es: seq<Entry>, k: Key)
    requires k in m
    requires forall i :: 0 <= i < |es| ==> !Yields(ns, es[i], k)
    ensures k in Register(m, ns, es) && Register(m, ns, es)[k] == m[k]
  {
    if es != [] {
      var pre := es[..|es| - 1];
      assert forall i :: 0 <= i < |pre| ==> pre[i] == es[i];
      RegisterKeeps(m, ns, pre, k);
      IndexUnderValue(Register(m, ns, pre), Qualify(One(ns), es[|es| - 1].subject), es[|es| - 1], k);
    }
  }

  /** The entry carries the file, line, subject and groups of the parsed rule. */
  predicate Describes(e: Entry, file: string, rule: Rule) {
    e.info == Info(file, rule.line) && e.subject == rule.subject && e.deps == rule.deps
  }

  /** The new entries describe the parsed rules, one for one. */
  predicate Declares(es: seq<Entry>, file: string, rules: seq<Rule>) {
    |es| == |rules| && forall i :: 0 <= i < |es| ==> Describes(es[i], file, rules[i])
  }

  lemma RegisterPush(m: map<Key, Entry>, ns: string, es: seq<Entry>, e: Entry)
    ensures Register(m, ns, es + [e]) == IndexUnder(Register(m, ns, es), Qualify(One(ns), e.subject), e)
  {
    assert (es + [e])[..|es|] == es;
  }

  lemma SeqAssoc<T>(a: seq<T>, b: seq<T>, c: seq<T>)
    ensures a + b + c == a + (b + c)
  {
  }

  lemma DeclaresPush(es: seq<Entry>, file: string, rules: seq<Rule>, e: Entry, rule: Rule)
    requires Declares(es, file, rules)
    requires Describes(e, file, rule)
    ensures Declares(es + [e], file, rules + [rule])
  {
  }

  /** The state `read` has reached after the records `recs` of a file in namespace `ns`:
      the search path, the rules it added and the index, which was `i0` before the file. */
  predicate ReadReached(ns: string, file: string, recs: seq<Record>, i0: map<Key, Entry>,
                        added: seq<Entry>, path: seq<string>, index: map<Key, Entry>) {
    path == ReadSteps(ns, recs).path &&
    Declares(added, file, ReadSteps(ns, recs).rules) &&
    index == Register(i0, ns, added)
  }

  /** What one record does to the search path (`path0` to `path`) and the index (`index0`
      to `index`), and the rule it adds, if any (`step`, at most one). */
  predicate RecordEffect(ns: string, file: string, rec: Record, path0: seq<string>, index0: map<Key, Entry>,
                         path: seq<string>, index: map<Key, Entry>, step: seq<Entry>) {
    |step| <= 1 &&
    path == (if PathOption(ns, rec.text).Some? then PathOption(ns, rec.text).value else path0) &&
    (|step| == 1 <==> PathOption(ns, rec.text).None? && ParseRule(path0, rec).Some?) &&
    (step == [] ==> index == index0) &&
    (|step| == 1 ==>
      Describes(step[0], file, ParseRule(path0, rec).value) &&
      index == IndexUnder(index0, Qualify(One(ns), step[0].subject), step[0]))
  }

  lemma OptionEffect(ns: string, file: string, rec: Record, path0: seq<string>, index0: map<Key, Entry>)
    requires PathOption(ns, rec.text).Some?
    ensures RecordEffect(ns, file, rec, path0, index0, PathOption(ns, rec.text).value, index0, [])
  {
  }

  lemma NoRuleEffect(ns: string, file: string, rec: Record, path0: seq<string>, index0: map<Key, Entry>)
    requires PathOption(ns, rec.text).None? && ParseRule(path0, rec).None?
    ensures RecordEffect(ns, file, rec, path0, index0, path0, index0, [])
  {
  }

  lemma RuleEffect(ns: string, file: string, rec: Record, path0: seq<string>, index0: map<Key, Entry>,
                   index: map<Key, Entry>, e: Entry)
    requires PathOption(ns, rec.text).None? && ParseRule(path0, rec).Some?
    requires Describes(e, file, ParseRule(path0, rec).value)
    requires index == IndexUnder(index0, Qualify(One(ns), e.subject), e)
    ensures RecordEffect(ns, file, rec, path0, index0, path0, index, [e])
  {
  }

  lemma ReadReachedStep(ns: string, file: string, recs: seq<Record>, i0: map<Key, Entry>,
                        added: seq<Entry>, path0: seq<string>, index0: map<Key, Entry>,
                        path: seq<string>, index: map<Key, Entry>, step: seq<Entry>)
    requires recs != []
    requires ReadReached(ns, file, recs[..|recs| - 1], i0, added, path0, index0)
    requires RecordEffect(ns, file, recs[|recs| - 1], path0, index0, path, index, step)
    ensures ReadReached(ns, file, recs, i0, added + step, path, index)
  {
    if |step| == 1 {
      assert step == [step[0]];
      ReadReachedRule(ns, file, recs, i0, added, path0, index0, index, step[0]);
    } else {
      assert step == [] && added + step == added;
      ReadReachedSkip(ns, file, recs, i0, added, path0, index0, path);
    }
  }

  lemma ReadReachedSkip(ns: string, file: string, recs: seq<Record>, i0: map<Key, Entry>,
                        added: seq<Entry>, path0: seq<string>, index0: map<Key, Entry>, path: seq<string>)
    requires recs != []
    requires ReadReached(ns, file, recs[..|recs| - 1], i0, added, path0, index0)
    requires PathOption(ns, recs[|recs| - 1].text).Some? || ParseRule(path0, recs[|recs| - 1]).None?
    requires path == if PathOption(ns, recs[|recs| - 1].text).Some? then PathOption(ns, recs[|recs| - 1].text).value else path0
    ensures ReadReached(ns, file, recs, i0, added, path, index0)
  {
    ReadStepsLast(ns, recs);
  }

  lemma ReadReachedRule(ns: string, file: string, recs: seq<Record>, i0: map<Key, Entry>,
                        added: seq<Entry>, path0: seq<string>, index0: map<Key, Entry>,
                        index: map<Key, Entry>, e: Entry)
    requires recs != []
    requires ReadReached(ns, file, recs[..|recs| - 1], i0, added, path0, index0)
    requires PathOption(ns, recs[|recs| - 1].text).None? && ParseRule(path0, recs[|recs| - 1]).Some?
    requires Describes(e, file, ParseRule(path0, recs[|recs| - 1]).value)
    requires index == IndexUnder(index0, Qualify(One(ns), e.subject), e)
    ensures ReadReached(ns, file, recs, i0, added + [e], path0, index)
  {
    var st := ReadSteps(ns, recs[..|recs| - 1]);
    var rule := ParseRule(path0, recs[|recs| - 1]).value;
    ReadStepsLast(ns, recs);
    assert ReadSteps(ns, recs) == st.(rules := st.rules + [rule]);
    DeclaresPush(added, file, st.rules, e, rule);
    RegisterPush(i0, ns, added, e);
  }

  class DepTab {
    /** Every rule read, in order. */
    var content: seq<Entry>
    /** Qualified subject key -> rule; a later rule overwrites an earlier one. */
    var index: map<Key, Entry>
    /** The search path of the rule file being read (`options.path`). */
    var path: seq<string>
    /** Key -> rule for every index key whose rule was never hit; empty until classified. */
    var aliases: map<Key, Entry>

    ghost predicate Valid()
      reads this`content, this`index, this`aliases
    {
      (forall k :: k in index ==> index[k] in content) &&
      (forall k :: k in aliases ==> aliases[k] in content)
    }

    ghost function Entries(): set<Entry>
      reads this
    {
      set e | e in content
    }

    /** Alias key -> the alias rule's dependency list, the table expansion works on. */
    function AliasTable(): (r: AliasDeps)
      reads this
      ensures r.Keys == aliases.Keys
      ensures forall k :: k in r ==> r[k] == aliases[k].deps
    {
      map k | k in aliases :: aliases[k].deps
    }

    constructor ()
      ensures Valid() && content == [] && index == map[] && aliases == map[]
    {
      content := [];
      index := map[];
      path := [];
      aliases := map[];
    }

    /** `setoption(ns, line)`: a `path` option replaces the search path. */
    method SetOption(ns: string, line: string) returns (applied: bool)
      modifies this`path
      ensures applied <==> PathOption(ns, line).Some?
      ensures path == if applied then PathOption(ns, line).value else old(path)
    {
      applied := false;
      var parts := SplitOnce(line, "=");
      if parts.Some? {
        var tag := Strip(parts.value.0);
        if tag == "path" {
          path := Substitute(ns, Values(parts.value.1));
          applied := true;
        }
      }
    }

    /** The option's values, each `.` replaced by the file's namespace. */
    static method Substitute(ns: string, vs: seq<string>) returns (values: seq<string>)
      ensures values == Substituted(ns, vs)
    {
      values := [];
      var i := 0;
      while i < |vs|
        invariant 0 <= i <= |vs|
        invariant values == Substituted(ns, vs[..i])
      {
        var v := vs[i];
        if v == "." {
          v := ns;
        }
        values := values + [v];
        assert vs[..i + 1][..i] == vs[..i];
        i := i + 1;
      }
      assert vs[..|vs|] == vs;
    }

    /**
     * `read(ns, path)` over the file's physical lines: the search path restarts as the
     * file's own namespace; each rule line adds one fresh rule with no hits, and every
     * qualified form of its subject in `ns` is indexed to it.
     */
    method Read(ns: string, file: string, raw: seq<string>)
      requires Valid()
      modifies this`path, this`content, this`index
      ensures Valid()
      ensures |old(content)| <= |content| && content[..|old(content)|] == old(content)
      ensures ReadReached(ns, file, Joined(raw), old(index), content[|old(content)|..], path, index)
    {
      var records := Lines(raw);
      ghost var added := ReadRecords(ns, file, records);
      assert content[|old(content)|..] == added;
    }

    /** The loop of `read` over the joined records of one file. */
    method ReadRecords(ns: string, file: string, records: seq<Record>) returns (ghost added: seq<Entry>)
      requires Valid()
      modifies this`path, this`content, this`index
      ensures Valid()
      ensures content == old(content) + added
      ensures ReadReached(ns, file, records, old(index), added, path, index)
    {
      path := [ns];
      added := [];
      var j := 0;
      while j < |records|
        invariant 0 <= j <= |records|
        invariant Valid()
        invariant content == old(content) + added
        invariant ReadReached(ns, file, records[..j], old(index), added, path, index)
      {
        var rec := records[j];
        assert records[..j + 1][..j] == records[..j];
        assert records[..j + 1][j] == rec;
        ghost var path0, index0 := path, index;
        var entry := ReadRecord(ns, file, rec);
        ghost var step := if entry.Some? then [entry.value] else [];
        ReadReachedStep(ns, file, records[..j + 1], old(index), added, path0, index0, path, index, step);
        SeqAssoc(old(content), added, step);
        added := added + step;
        j := j + 1;
      }
      assert records[..|records|] == records;
    }

    /** One record of `read`: a path option sets the search path; any other line holding
        `::` adds a rule indexed in `ns`. */
    method ReadRecord(ns: string, file: string, rec: Record) returns (entry: Option<Entry>)
      requires Valid()
      modifies this`path, this`content, this`index
      ensures Valid()
      ensures RecordEffect(ns, file, rec, old(path), old(index), path, index, if entry.Some? then [entry.value] else [])
      ensures content == old(content) + if entry.Some? then [entry.value] else []
      ensures entry.Some? ==> fresh(entry.value) && entry.value.hits == 0
    {
      entry := None;
      ghost var path0, index0 := path, index;
      var applied := SetOption(ns, rec.text);
      if applied {
        OptionEffect(ns, file, rec, path0, index0);
      } else {
        entry := RuleLine(ns, file, rec);
      }
    }

    /** A record that is not an option: a line holding `::` adds a rule indexed in `ns`. */
    method RuleLine(ns: string, file: string, rec: Record) returns (entry: Option<Entry>)
      requires Valid() && PathOption(ns, rec.text).None?
      modifies this`content, this`index
      ensures Valid()
      ensures RecordEffect(ns, file, rec, path, old(index), path, index, if entry.Some? then [entry.value] else [])
      ensures content == old(content) + if entry.Some? then [entry.value] else []
      ensures entry.Some? ==> fresh(entry.value) && entry.value.hits == 0
    {
      entry := AddRule(ns, file, rec);
      if entry.Some? {
        RuleEffect(ns, file, rec, path, old(index), index, entry.value);
      } else {
        NoRuleEffect(ns, file, rec, path, old(index));
      }
    }

    /** A line holding `::` declares a rule: it is appended and indexed in `ns`. */
    method AddRule(ns: string, file: string, rec: Record) returns (entry: Option<Entry>)
      requires Valid()
      modifies this`content, this`index
      ensures Valid()
      ensures entry.Some? <==> ParseRule(path, rec).Some?
      ensures entry.None? ==> content == old(content) && index == old(index)
      ensures entry.Some? ==> fresh(entry.value) && entry.value.hits == 0
      ensures entry.Some? ==> Describes(entry.value, file, ParseRule(path, rec).value)
      ensures entry.Some? ==> content == old(content) + [entry.value]
      ensures entry.Some? ==> index == IndexUnder(old(index), Qualify(One(ns), entry.value.subject), entry.value)
    {
      entry := None;
      var parts := SplitOnce(rec.text, "::");
      if parts.Some? {
        var deps := Dependencies(parts.value.1);
        assert ParseRule(path, rec) == Some(Rule(rec.line, Strip(parts.value.0), deps));
        var e := new Entry(Info(file, rec.line), Strip(parts.value.0), deps);
        AddEntry(ns, e);
        entry := Some(e);
      }
    }

    /** The dependency groups of a rule's right-hand side, qualified in the search path. */
    method Dependencies(rest: string) returns (deps: seq<Group>)
      ensures deps == DepGroups(path, Values(RemoveAll(rest, '\\')))
    {
      var tokens := Values(RemoveAll(rest, '\\'));
      var p := path;
      deps := [];
      var t := 0;
      while t < |tokens|
        invariant 0 <= t <= |tokens|
        invariant deps == DepGroups(p, tokens[..t])
      {
        var dep := Strip(tokens[t]);
        DepGroupsPush(p, tokens, t);
        if |dep| > 0 {
          deps := deps + [Qualify(Many(p), dep)];
        }
        t := t + 1;
      }
      assert tokens[..|tokens|] == tokens;
    }

    /** Appends a rule and indexes it under every qualified form of its subject in `ns`. */
    method AddEntry(ns: string, entry: Entry)
      requires Valid()
      modifies this`content, this`index
      ensures Valid()
      ensures content == old(content) + [entry]
      ensures index == IndexUnder(old(index), Qualify(One(ns), entry.subject), entry)
    {
      content := content + [entry];
      var keys := Qualify(One(ns), entry.subject);
      var k := 0;
      while k < |keys|
        invariant 0 <= k <= |keys|
        invariant content == old(content) + [entry]
        invariant index == IndexUnder(old(index), keys[..k], entry)
        invariant forall key :: key in index ==> index[key] in content
      {
        assert keys[..k + 1][..k] == keys[..k];
        index := index[keys[k] := entry];
        k := k + 1;
      }
      assert keys[..|keys|] == keys;
    }

    /**
     * `find(ns, fn)`: the rule of the first qualified form of `fn` present in the index; that
     * rule gets exactly one more hit and no other counter changes. A miss changes nothing.
     */
    method Find(ns: string, fn: string) returns (result: Option<Entry>)
      requires Valid()
      modifies Entries()
      ensures result == FirstMatch(index, Qualify(One(ns), fn))
      ensures result.Some? ==> result.value in Entries()
      ensures forall e :: e in Entries() ==> e.hits == old(e.hits) + (if result == Some(e) then 1 else 0)
    {
      var keys := Qualify(One(ns), fn);
      result := None;
      var i := 0;
      while i < |keys|
        invariant 0 <= i <= |keys|
        invariant forall j :: 0 <= j < i ==> keys[j] !in index
        invariant forall e :: e in Entries() ==> e.hits == old(e.hits)
      {
        if keys[i] in index {
          var entry := index[keys[i]];
          entry.hits := entry.hits + 1;
          result := Some(entry);
          assert FirstHit(index, keys) == Some(i);
          return;
        }
        i := i + 1;
      }
    }

    /** `findaliases()`: exactly the index keys whose rule has no hits become aliases. */
    method FindAliases()
      requires Valid()
      modifies this`aliases
      ensures Valid()
      ensures forall k :: k in aliases <==> k in index && index[k].hits == 0
      ensures forall k :: k in aliases ==> aliases[k] == index[k]
    {
      aliases := map[];
      var todo := index.Keys;
      while todo != {}
        invariant todo <= index.Keys
        invariant forall k :: k in aliases <==> k in index && k !in todo && index[k].hits == 0
        invariant forall k :: k in aliases ==> aliases[k] == index[k]
        decreases todo
      {
        var s :| s in todo;
        var e := index[s];
        if e.hits == 0 {
          aliases := aliases[s := e];
        }
        todo := todo - {s};
      }
    }

    /** Enters the alias `key`: it joins the history, gets one more hit and its own
        dependency list is expanded. */
    method Enter(key: Key, history: seq<Key>) returns (sub: seq<Group>, after: seq<Key>, circular: seq<Key>)
      requires Valid() && key in aliases && key !in history
      modifies Entries()
      decreases AliasTable().Keys - Seen(history), 0
      ensures ListResult(sub, after, circular) == ExpandList(AliasTable(), aliases[key].deps, history + [key])
      ensures |history| <= |after| && after[..|history|] == history
      ensures forall e :: e in Entries() ==> e.hits == old(e.hits) + Count(aliases, after[|history|..], e)
    {
      var alias := aliases[key];
      ghost var al := AliasTable();
      var h := history + [key];
      assert key in al && key !in al.Keys - Seen(h);
      alias.hits := alias.hits + 1;
      sub, after, circular := alias.Expanded(this, h);
      CountEntered(aliases, history, key, after);
    }

    /**
     * `expand(keyset, history)`: keys already in the history are skipped as circular,
     * non-alias keys are kept, each alias key is appended to the history, gets one more hit
     * and is replaced by its own expansion; if the expansion yielded a group, the literal
     * keys are dropped.
     */
    method Expand(keyset: Group, history: seq<Key>) returns (literal: seq<Key>, nested: seq<Group>, after: seq<Key>, circular: seq<Key>)
      requires Valid()
      modifies Entries()
      decreases AliasTable().Keys - Seen(history), 1
      ensures GroupResult(literal, nested, after, circular) == ExpandGroup(AliasTable(), keyset, history)
      ensures forall e :: e in Entries() ==> e.hits == old(e.hits) + Count(aliases, after[|history|..], e)
    {
      ghost var al := AliasTable();
      literal, nested, after, circular := [], [], history, [];
      var i := 0;
      while i < |keyset|
        invariant 0 <= i <= |keyset|
        invariant GroupResult(literal, nested, after, circular) == ScanKeys(al, keyset[..i], history)
        invariant forall e :: e in Entries() ==> e.hits == old(e.hits) + Count(aliases, after[|history|..], e)
      {
        var key := keyset[i];
        assert keyset[..i + 1][..i] == keyset[..i];
        assert keyset[..i + 1][i] == key;
        i := i + 1;
        if key in after {
          circular := circular + [key];
          continue;
        }
        if key !in aliases {
          literal := literal + [key];
          continue;
        }
        PushShrinks(al, history, after, key);
        GrowsSeen(al, history, after);
        var sub, h, circ := Enter(key, after);
        CountConcat(aliases, history, after, h);
        nested := nested + sub;
        after := h;
        circular := circular + circ;
      }
      assert keyset[..|keyset|] == keyset;
      if |nested| > 0 {
        literal := [];
      }
    }
  }
}
