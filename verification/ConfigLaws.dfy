/**
 What `!env` resolution promises of every tree: when it succeeds, that its result is final, and that
 it reads no variable the tree doesn't name.
 */
module ConfigLaws {
  import opened Config

  // ---- Success ----

  /** Every tag, in keys and values, is a core one or an `!env` over the name of a set variable. */
  predicate Resolvable(e: Env, v: Value) {
    match v
    case Mapping(entries) =>
      forall i | 0 <= i < |entries| :: Resolvable(e, entries[i].key) && Resolvable(e, entries[i].value)
    case Sequence(items) => forall i | 0 <= i < |items| :: Resolvable(e, items[i])
    case Tagged(tag, value) =>
      if IsEnv(tag) then value.Str? && e.lookup(value.s).Some? else IsCore(tag) && Resolvable(e, value)
    case _ => true
  }

  predicate EntryResolvable(e: Env, entry: Entry) { Resolvable(e, entry.key) && Resolvable(e, entry.value) }

  /** Resolution succeeds on exactly the resolvable trees, wherever they stand. */
  lemma {:induction false} SucceedsExactly(e: Env, v: Value, path: seq<PathSeg>, mode: Mode)
    ensures ResolveAs(e, v, path, mode).Done? <==> Resolvable(e, v)
    decreases v, 1
  {
    match v
    case Mapping(entries) => EntriesSucceed(e, entries, path, mode, IsLua(e, path, entries));
    case Sequence(items) => ItemsSucceed(e, items, 0, path, mode);
    case Tagged(tag, value) =>
      if !IsEnv(tag) {
        SucceedsExactly(e, value, path, mode);
      }
    case _ =>
  }

  lemma {:induction false} EntrySucceeds(e: Env, entry: Entry, path: seq<PathSeg>, mode: Mode, lua: bool)
    ensures ResolveEntry(e, entry, path, mode, lua).Done? <==> EntryResolvable(e, entry)
    decreases entry, 2
  {
    SucceedsExactly(e, entry.key, path, mode);
    var key := ResolveAs(e, entry.key, path, mode);
    if key.Done? {
      var name := Label(key.value);
      SucceedsExactly(e, entry.value, path + [Key(name)], EntryMode(lua, name, mode));
    }
  }

  lemma {:induction false} EntriesSucceed(e: Env, entries: seq<Entry>, path: seq<PathSeg>, mode: Mode, lua: bool)
    ensures ResolveEntries(e, entries, path, mode, lua).Done?
       <==> forall i | 0 <= i < |entries| :: EntryResolvable(e, entries[i])
    decreases entries, 0
  {
    if entries != [] {
      EntrySucceeds(e, entries[0], path, mode, lua);
      EntriesSucceed(e, entries[1..], path, mode, lua);
      assert forall i | 0 < i < |entries| :: entries[i] == entries[1..][i - 1];
    }
  }

  lemma {:induction false} ItemsSucceed(e: Env, items: seq<Value>, from: nat, path: seq<PathSeg>, mode: Mode)
    ensures ResolveItems(e, items, from, path, mode).Done?
       <==> forall i | 0 <= i < |items| :: Resolvable(e, items[i])
    decreases items, 0
  {
    if items != [] {
      SucceedsExactly(e, items[0], path + [Index(from)], mode);
      ItemsSucceed(e, items[1..], from + 1, path, mode);
      assert forall i | 0 < i < |items| :: items[i] == items[1..][i - 1];
    }
  }

  // ---- The result is final ----

  predicate DistinctKeys(e: Env, entries: seq<Entry>) {
    forall i, j | 0 <= i < j < |entries| :: !e.same(entries[i].key, entries[j].key)
  }

  /** Only core tags, and every mapping's keys distinct, as a mapping's are. */
  predicate Clean(e: Env, v: Value) {
    match v
    case Mapping(entries) =>
      && DistinctKeys(e, entries)
      && forall i | 0 <= i < |entries| :: Clean(e, entries[i].key) && Clean(e, entries[i].value)
    case Sequence(items) => forall i | 0 <= i < |items| :: Clean(e, items[i])
    case Tagged(tag, value) => IsCore(tag) && Clean(e, value)
    case _ => true
  }

  predicate CleanEntry(e: Env, entry: Entry) { Clean(e, entry.key) && Clean(e, entry.value) }

  lemma InsertClean(e: Env, entries: seq<Entry>, entry: Entry)
    requires DistinctKeys(e, entries) && CleanEntry(e, entry)
    requires forall i | 0 <= i < |entries| :: CleanEntry(e, entries[i])
    ensures var m := Insert(e, entries, entry);
            DistinctKeys(e, m) && forall i | 0 <= i < |m| :: CleanEntry(e, m[i])
  {
    var at, m := FindKey(e, entries, entry.key), Insert(e, entries, entry);
    forall i | 0 <= i < |m|
      ensures CleanEntry(e, m[i])
    {
      assert i < |entries| ==> CleanEntry(e, entries[i]);
    }
  }

  lemma {:induction false} BuildClean(e: Env, list: seq<Entry>)
    requires forall i | 0 <= i < |list| :: CleanEntry(e, list[i])
    ensures var m := Build(e, list);
            DistinctKeys(e, m) && forall i | 0 <= i < |m| :: CleanEntry(e, m[i])
  {
    if list != [] {
      var last := |list| - 1;
      BuildClean(e, list[..last]);
      InsertClean(e, Build(e, list[..last]), list[last]);
    }
  }

  /** A mapping's own entries build it again. */
  lemma {:induction false} BuildDistinct(e: Env, entries: seq<Entry>)
    requires DistinctKeys(e, entries)
    ensures Build(e, entries) == entries
  {
    if entries != [] {
      var last := |entries| - 1;
      var front := entries[..last];
      assert entries == front + [entries[last]];
      BuildDistinct(e, front);
      assert forall i | 0 <= i < |front| :: front[i] == entries[i];
      assert FindKey(e, front, entries[last].key) == |front|;
    }
  }

  lemma {:induction false} ResolvedIsClean(e: Env, v: Value, path: seq<PathSeg>, mode: Mode)
    requires ResolveAs(e, v, path, mode).Done?
    ensures Clean(e, ResolveAs(e, v, path, mode).value)
    decreases v, 1
  {
    match v
    case Mapping(entries) =>
      EntriesClean(e, entries, path, mode, IsLua(e, path, entries));
      BuildClean(e, ResolveEntries(e, entries, path, mode, IsLua(e, path, entries)).value);
    case Sequence(items) => ItemsClean(e, items, 0, path, mode);
    case Tagged(tag, value) =>
      if !IsEnv(tag) {
        ResolvedIsClean(e, value, path, mode);
      }
    case _ =>
  }

  lemma {:induction false} EntryClean(e: Env, entry: Entry, path: seq<PathSeg>, mode: Mode, lua: bool)
    requires ResolveEntry(e, entry, path, mode, lua).Done?
    ensures CleanEntry(e, ResolveEntry(e, entry, path, mode, lua).value)
    decreases entry, 2
  {
    ResolvedIsClean(e, entry.key, path, mode);
    var name := Label(ResolveAs(e, entry.key, path, mode).value);
    ResolvedIsClean(e, entry.value, path + [Key(name)], EntryMode(lua, name, mode));
  }

  lemma {:induction false} EntriesClean(e: Env, entries: seq<Entry>, path: seq<PathSeg>, mode: Mode, lua: bool)
    requires ResolveEntries(e, entries, path, mode, lua).Done?
    ensures var list := ResolveEntries(e, entries, path, mode, lua).value;
            forall i | 0 <= i < |list| :: CleanEntry(e, list[i])
    decreases entries, 0
  {
    if entries != [] {
      EntryClean(e, entries[0], path, mode, lua);
      EntriesClean(e, entries[1..], path, mode, lua);
    }
  }

  lemma {:induction false} ItemsClean(e: Env, items: seq<Value>, from: nat, path: seq<PathSeg>, mode: Mode)
    requires ResolveItems(e, items, from, path, mode).Done?
    ensures var list := ResolveItems(e, items, from, path, mode).value;
            forall i | 0 <= i < |list| :: Clean(e, list[i])
    decreases items, 0
  {
    if items != [] {
      ResolvedIsClean(e, items[0], path + [Index(from)], mode);
      ItemsClean(e, items[1..], from + 1, path, mode);
    }
  }

  /** A clean tree resolves to itself and records nothing. */
  lemma {:induction false} CleanIsFixed(e: Env, v: Value, path: seq<PathSeg>, mode: Mode)
    requires Clean(e, v)
    ensures ResolveAs(e, v, path, mode) == Done(v, [])
    decreases v, 1
  {
    match v
    case Mapping(entries) =>
      EntriesFixed(e, entries, path, mode, IsLua(e, path, entries));
      BuildDistinct(e, entries);
    case Sequence(items) => ItemsFixed(e, items, 0, path, mode);
    case Tagged(tag, value) =>
      CoreIsNotEnv(tag);
      CleanIsFixed(e, value, path, mode);
    case _ =>
  }

  lemma CoreIsNotEnv(tag: string)
    requires IsCore(tag)
    ensures !IsEnv(tag)
  {
    assert tag[1] == '!';
  }

  lemma {:induction false} EntryFixed(e: Env, entry: Entry, path: seq<PathSeg>, mode: Mode, lua: bool)
    requires CleanEntry(e, entry)
    ensures ResolveEntry(e, entry, path, mode, lua) == Done(entry, [])
    decreases entry, 2
  {
    CleanIsFixed(e, entry.key, path, mode);
    var name := Label(entry.key);
    CleanIsFixed(e, entry.value, path + [Key(name)], EntryMode(lua, name, mode));
  }

  lemma {:induction false} EntriesFixed(e: Env, entries: seq<Entry>, path: seq<PathSeg>, mode: Mode, lua: bool)
    requires forall i | 0 <= i < |entries| :: CleanEntry(e, entries[i])
    ensures ResolveEntries(e, entries, path, mode, lua) == Done(entries, [])
    decreases entries, 0
  {
    if entries != [] {
      EntryFixed(e, entries[0], path, mode, lua);
      assert forall i | 0 <= i < |entries[1..]| :: entries[1..][i] == entries[i + 1];
      EntriesFixed(e, entries[1..], path, mode, lua);
      assert entries == [entries[0]] + entries[1..];
    }
  }

  lemma {:induction false} ItemsFixed(e: Env, items: seq<Value>, from: nat, path: seq<PathSeg>, mode: Mode)
    requires forall i | 0 <= i < |items| :: Clean(e, items[i])
    ensures ResolveItems(e, items, from, path, mode) == Done(items, [])
    decreases items, 0
  {
    if items != [] {
      CleanIsFixed(e, items[0], path + [Index(from)], mode);
      ItemsFixed(e, items[1..], from + 1, path, mode);
      assert items == [items[0]] + items[1..];
    }
  }

  /** Cleanness looks at nothing but the keys' equality. */
  lemma {:induction false} CleanAnywhere(e: Env, f: Env, v: Value)
    requires f.same == e.same && Clean(e, v)
    ensures Clean(f, v)
  {
    match v
    case Mapping(entries) =>
      forall i | 0 <= i < |entries|
        ensures Clean(f, entries[i].key) && Clean(f, entries[i].value)
      {
        CleanAnywhere(e, f, entries[i].key);
        CleanAnywhere(e, f, entries[i].value);
      }
    case Sequence(items) =>
      forall i | 0 <= i < |items|
        ensures Clean(f, items[i])
      {
        CleanAnywhere(e, f, items[i]);
      }
    case Tagged(_, value) => CleanAnywhere(e, f, value);
    case _ =>
  }

  /** What resolution returns holds only core tags, and resolving it again, under any environment
      and anywhere, returns it unchanged and records no substitution. */
  lemma ResolvedIsFinal(e: Env, f: Env, v: Value, path: seq<PathSeg>, mode: Mode)
    requires f.same == e.same && Resolve(e, v).Done?
    ensures Clean(e, Resolve(e, v).value)
    ensures ResolveAs(f, Resolve(e, v).value, path, mode) == Done(Resolve(e, v).value, [])
  {
    ResolvedIsClean(e, v, [], Retype);
    CleanAnywhere(e, f, Resolve(e, v).value);
    CleanIsFixed(f, Resolve(e, v).value, path, mode);
  }

  // ---- Only the named variables are read ----

  /** The variables an `!env` of the tree names. */
  function Names(v: Value): set<string>
    decreases v, 1
  {
    match v
    case Mapping(entries) => EntryNames(entries)
    case Sequence(items) => ItemNames(items)
    case Tagged(tag, value) => if IsEnv(tag) then (if value.Str? then {value.s} else {}) else Names(value)
    case _ => {}
  }

  function EntryNames(entries: seq<Entry>): set<string>
    decreases entries, 0
  {
    if entries == [] then {} else NamesIn(entries[0]) + EntryNames(entries[1..])
  }

  function NamesIn(entry: Entry): set<string>
    decreases entry, 2
  {
    Names(entry.key) + Names(entry.value)
  }

  function ItemNames(items: seq<Value>): set<string>
    decreases items, 0
  {
    if items == [] then {} else Names(items[0]) + ItemNames(items[1..])
  }

  ghost predicate Agree(e: Env, f: Env, names: set<string>) {
    e.parse == f.parse && e.same == f.same && forall n <- names :: e.lookup(n) == f.lookup(n)
  }

  lemma {:induction false} TypeIsNamed(entries: seq<Entry>)
    ensures TypeOf(entries).Some? && TypeOf(entries).value.Tagged?
            ==> Names(TypeOf(entries).value) <= EntryNames(entries)
  {
    if entries != [] && entries[0].key != Str("type") {
      TypeIsNamed(entries[1..]);
    }
  }

  lemma SameLua(e: Env, f: Env, path: seq<PathSeg>, entries: seq<Entry>)
    requires Agree(e, f, EntryNames(entries))
    ensures IsLua(e, path, entries) == IsLua(f, path, entries)
  {
    TypeIsNamed(entries);
  }

  /** FindKey and Build look at nothing but the keys' equality. */
  lemma {:induction false} SameBuild(e: Env, f: Env, list: seq<Entry>)
    requires e.same == f.same
    ensures Build(e, list) == Build(f, list)
  {
    if list != [] {
      SameBuild(e, f, list[..|list| - 1]);
      SameFind(e, f, Build(e, list[..|list| - 1]), list[|list| - 1].key);
    }
  }

  lemma {:induction false} SameFind(e: Env, f: Env, entries: seq<Entry>, key: Value)
    requires e.same == f.same
    ensures FindKey(e, entries, key) == FindKey(f, entries, key)
  {
    if entries != [] {
      SameFind(e, f, entries[1..], key);
    }
  }

  /** Environments that agree on the variables a tree names resolve it alike: the same value, the
      same substitutions, or the same error. */
  lemma {:induction false} OnlyNamedVariablesMatter(e: Env, f: Env, v: Value, path: seq<PathSeg>, mode: Mode)
    requires Agree(e, f, Names(v))
    ensures ResolveAs(e, v, path, mode) == ResolveAs(f, v, path, mode)
    decreases v, 1
  {
    match v
    case Mapping(entries) =>
      SameLua(e, f, path, entries);
      var lua := IsLua(e, path, entries);
      EntriesAgree(e, f, entries, path, mode, lua);
      var o := ResolveEntries(e, entries, path, mode, lua);
      if o.Done? {
        SameBuild(e, f, o.value);
      }
    case Sequence(items) => ItemsAgree(e, f, items, 0, path, mode);
    case Tagged(tag, value) =>
      if !IsEnv(tag) {
        OnlyNamedVariablesMatter(e, f, value, path, mode);
      }
    case _ =>
  }

  lemma {:induction false} EntryAgrees(e: Env, f: Env, entry: Entry, path: seq<PathSeg>, mode: Mode, lua: bool)
    requires Agree(e, f, NamesIn(entry))
    ensures ResolveEntry(e, entry, path, mode, lua) == ResolveEntry(f, entry, path, mode, lua)
    decreases entry, 2
  {
    OnlyNamedVariablesMatter(e, f, entry.key, path, mode);
    var key := ResolveAs(e, entry.key, path, mode);
    if key.Done? {
      var name := Label(key.value);
      OnlyNamedVariablesMatter(e, f, entry.value, path + [Key(name)], EntryMode(lua, name, mode));
    }
  }

  lemma {:induction false} EntriesAgree(e: Env, f: Env, entries: seq<Entry>, path: seq<PathSeg>, mode: Mode, lua: bool)
    requires Agree(e, f, EntryNames(entries))
    ensures ResolveEntries(e, entries, path, mode, lua) == ResolveEntries(f, entries, path, mode, lua)
    decreases entries, 0
  {
    if entries != [] {
      EntryAgrees(e, f, entries[0], path, mode, lua);
      EntriesAgree(e, f, entries[1..], path, mode, lua);
    }
  }

  lemma {:induction false} ItemsAgree(e: Env, f: Env, items: seq<Value>, from: nat, path: seq<PathSeg>, mode: Mode)
    requires Agree(e, f, ItemNames(items))
    ensures ResolveItems(e, items, from, path, mode) == ResolveItems(f, items, from, path, mode)
    decreases items, 0
  {
    if items != [] {
      OnlyNamedVariablesMatter(e, f, items[0], path + [Index(from)], mode);
      ItemsAgree(e, f, items[1..], from + 1, path, mode);
    }
  }
}
