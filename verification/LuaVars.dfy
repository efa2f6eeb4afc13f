/**
 Where `crates/logit-cli/src/config.rs` keeps an `!env` as text, against what it promises: below the
 `vars:` of each component that runs as `lua` or `lua_file`.

 The walk decides before a component's entries are resolved, by its `type` key as it is written. A
 key that is itself an `!env` can become `type` later, and then the walk has looked at another type
 than the one that runs. `PromiseKeptExactly` says for which configs that goes wrong.
 */
module LuaVars {
  import opened Config
  import opened ConfigLaws
  import opened ConfigMeaning
  import opened Wrappers

  // ---- What the YAML library is taken to do ----

  /** A text key is found by its text, and by nothing else. */
  ghost predicate TextKeys(e: Env) {
    forall k, s :: (e.same(k, Str(s)) <==> k == Str(s)) && (e.same(Str(s), k) <==> k == Str(s))
  }

  /** The words that matter here are read as text. */
  ghost predicate PlainWords(e: Env) {
    forall w <- {"type", "lua", "lua_file"} :: ScalarFromEnv(e, w) == Str(w)
  }

  // ---- The type a component runs as ----

  predicate IsLuaName(v: Value) { v == Str("lua") || v == Str("lua_file") }

  /** The component at `p`, resolved, has the type `lua` or `lua_file`. */
  predicate RunsLua(e: Env, p: Place)
    requires p.value.Mapping?
  {
    match ResolveAs(e, p.value, p.path, p.mode)
    case Done(Mapping(entries), _) => TypeOf(entries).Some? && IsLuaName(TypeOf(entries).value)
    case _ => false
  }

  /** A key that is `type`, or an `!env` over a variable that holds it. */
  predicate BecomesType(e: Env, key: Value) { TypeText(e, key) == Some("type") }

  /** The value of the last key that becomes `type`. */
  function LastType(e: Env, entries: seq<Entry>): Option<Value> {
    if entries == [] then None
    else
      var later := LastType(e, entries[1..]);
      if later.Some? then later else if BecomesType(e, entries[0].key) then Some(entries[0].value) else None
  }

  predicate TextNamesLua(e: Env, v: Option<Value>) { v.Some? && NamesLua(e, v.value) }

  /** The last key that becomes `type` names `lua` just when the key written `type` does. */
  predicate TypeSettled(e: Env, entries: seq<Entry>) {
    TextNamesLua(e, TypeOf(entries)) <==> TextNamesLua(e, LastType(e, entries))
  }

  // ---- Keys and values, resolved ----

  /** A value resolves to a text exactly when it is that text or an `!env` over a variable that holds
      it, for a word that is read as text. */
  lemma ResolvesToWord(e: Env, v: Value, path: seq<PathSeg>, mode: Mode, w: string)
    requires ScalarFromEnv(e, w) == Str(w) && ResolveAs(e, v, path, mode).Done?
    ensures ResolveAs(e, v, path, mode).value == Str(w) <==> TypeText(e, v) == Some(w)
  {
    if v.Tagged? && !IsEnv(v.tag) {
      assert ResolveAs(e, v, path, mode).value.Tagged?;
    }
  }

  lemma ResolvesToLua(e: Env, v: Value, path: seq<PathSeg>, mode: Mode)
    requires PlainWords(e) && ResolveAs(e, v, path, mode).Done?
    ensures IsLuaName(ResolveAs(e, v, path, mode).value) <==> NamesLua(e, v)
  {
    ResolvesToWord(e, v, path, mode, "lua");
    ResolvesToWord(e, v, path, mode, "lua_file");
  }

  // ---- The type of the mapping the resolved entries build ----

  /** The value of the last `type` key. */
  function LastNamed(list: seq<Entry>): Option<Value> {
    if list == [] then None
    else if list[|list| - 1].key == Str("type") then Some(list[|list| - 1].value)
    else LastNamed(list[..|list| - 1])
  }

  lemma {:induction false} TypeAppended(entries: seq<Entry>, x: Entry)
    ensures TypeOf(entries + [x])
         == if TypeOf(entries).Some? then TypeOf(entries)
            else if x.key == Str("type") then Some(x.value) else None
  {
    if entries == [] {
      assert [] + [x] == [x] && [x][1..] == [];
    } else {
      assert (entries + [x])[1..] == entries[1..] + [x];
      TypeAppended(entries[1..], x);
    }
  }

  /** A new value under the same key changes the type only where the type is. */
  lemma {:induction false} TypeUpdated(entries: seq<Entry>, at: nat, v: Value)
    requires at < |entries| && forall i | 0 <= i < at :: entries[i].key != Str("type")
    ensures entries[at].key == Str("type") ==> TypeOf(entries[at := Entry(entries[at].key, v)]) == Some(v)
  {
    if at > 0 {
      assert entries[at := Entry(entries[at].key, v)][1..] == entries[1..][at - 1 := Entry(entries[at].key, v)];
      TypeUpdated(entries[1..], at - 1, v);
    }
  }

  lemma {:induction false} OtherUpdated(entries: seq<Entry>, at: nat, v: Value)
    requires at < |entries| && entries[at].key != Str("type")
    ensures TypeOf(entries[at := Entry(entries[at].key, v)]) == TypeOf(entries)
  {
    if at > 0 {
      assert entries[at := Entry(entries[at].key, v)][1..] == entries[1..][at - 1 := Entry(entries[at].key, v)];
      OtherUpdated(entries[1..], at - 1, v);
    } else {
      assert entries[at := Entry(entries[at].key, v)][1..] == entries[1..];
    }
  }

  lemma {:induction false} NoTypeKey(entries: seq<Entry>)
    requires forall i | 0 <= i < |entries| :: entries[i].key != Str("type")
    ensures TypeOf(entries) == None
  {
    if entries != [] {
      NoTypeKey(entries[1..]);
    }
  }

  lemma InsertType(e: Env, m: seq<Entry>, x: Entry)
    requires TextKeys(e)
    ensures TypeOf(Insert(e, m, x)) == if x.key == Str("type") then Some(x.value) else TypeOf(m)
  {
    var at := FindKey(e, m, x.key);
    if at < |m| {
      if x.key == Str("type") {
        TypeUpdated(m, at, x.value);
      } else {
        OtherUpdated(m, at, x.value);
      }
    } else {
      TypeAppended(m, x);
      if x.key == Str("type") {
        NoTypeKey(m);
      }
    }
  }

  /** The mapping the entries build has the type of the last `type` key among them. */
  lemma {:induction false} BuiltType(e: Env, list: seq<Entry>)
    requires TextKeys(e)
    ensures TypeOf(Build(e, list)) == LastNamed(list)
  {
    if list != [] {
      var last := |list| - 1;
      BuiltType(e, list[..last]);
      InsertType(e, Build(e, list[..last]), list[last]);
    }
  }

  lemma {:induction false} LastNamedCons(x: Entry, list: seq<Entry>)
    ensures LastNamed([x] + list)
         == if LastNamed(list).Some? then LastNamed(list)
            else if x.key == Str("type") then Some(x.value) else None
    decreases |list|
  {
    var all := [x] + list;
    if list == [] {
      assert all == [x] && all[..0] == [];
    } else {
      assert all[..|list|] == [x] + list[..|list| - 1];
      LastNamedCons(x, list[..|list| - 1]);
    }
  }

  predicate NamedLua(v: Option<Value>) { v.Some? && IsLuaName(v.value) }

  /** An entry resolves to a `type` key exactly when its key becomes one, and then to `lua` exactly
      when its value names it. */
  lemma EntryType(e: Env, entry: Entry, path: seq<PathSeg>, mode: Mode, lua: bool)
    requires PlainWords(e) && ResolveEntry(e, entry, path, mode, lua).Done?
    ensures var r := ResolveEntry(e, entry, path, mode, lua).value;
            && (r.key == Str("type") <==> BecomesType(e, entry.key))
            && (IsLuaName(r.value) <==> NamesLua(e, entry.value))
  {
    ResolvesToWord(e, entry.key, path, mode, "type");
    var name := Label(ResolveAs(e, entry.key, path, mode).value);
    ResolvesToLua(e, entry.value, path + [Key(name)], EntryMode(lua, name, mode));
  }

  lemma {:induction false} ListType(e: Env, entries: seq<Entry>, path: seq<PathSeg>, mode: Mode, lua: bool)
    requires PlainWords(e) && ResolveEntries(e, entries, path, mode, lua).Done?
    ensures var last := LastNamed(ResolveEntries(e, entries, path, mode, lua).value);
            && (last.Some? <==> LastType(e, entries).Some?)
            && (NamedLua(last) <==> TextNamesLua(e, LastType(e, entries)))
    decreases |entries|
  {
    if entries != [] {
      var first := ResolveEntry(e, entries[0], path, mode, lua);
      var rest := ResolveEntries(e, entries[1..], path, mode, lua);
      EntryType(e, entries[0], path, mode, lua);
      ListType(e, entries[1..], path, mode, lua);
      LastNamedCons(first.value, rest.value);
    }
  }

  /** A component that resolves runs as `lua` exactly when the last of its keys that becomes `type`
      names it. */
  lemma RunsLuaExactly(e: Env, p: Place)
    requires PlainWords(e) && TextKeys(e) && p.value.Mapping? && ResolveAs(e, p.value, p.path, p.mode).Done?
    ensures RunsLua(e, p) <==> TextNamesLua(e, LastType(e, p.value.entries))
  {
    var entries := p.value.entries;
    var lua := IsLua(e, p.path, entries);
    ListType(e, entries, p.path, p.mode, lua);
    BuiltType(e, ResolveEntries(e, entries, p.path, p.mode, lua).value);
  }

  /** The walk takes a component for `lua` exactly when it runs as `lua`, exactly when its type is
      settled. */
  lemma GuardRightExactly(e: Env, p: Place)
    requires PlainWords(e) && TextKeys(e) && p.value.Mapping? && ResolveAs(e, p.value, p.path, p.mode).Done?
    requires IsComponentPath(p.path)
    ensures (IsLua(e, p.path, p.value.entries) <==> RunsLua(e, p)) <==> TypeSettled(e, p.value.entries)
  {
    RunsLuaExactly(e, p);
  }

  predicate AtMostOneType(entries: seq<Entry>) {
    forall i, j | 0 <= i < j < |entries| :: entries[i].key != Str("type") || entries[j].key != Str("type")
  }

  /** A mapping with one `type` key at most, as parsed mappings have, and no `!env` key that becomes
      `type` is settled. */
  lemma {:induction false} PlainKeysSettle(e: Env, entries: seq<Entry>)
    requires AtMostOneType(entries)
    requires forall i | 0 <= i < |entries| :: BecomesType(e, entries[i].key) ==> entries[i].key == Str("type")
    ensures LastType(e, entries) == TypeOf(entries) && TypeSettled(e, entries)
  {
    if entries != [] {
      PlainKeysSettle(e, entries[1..]);
      if entries[0].key == Str("type") {
        assert forall i | 0 <= i < |entries[1..]| :: entries[1..][i] == entries[i + 1];
        NoTypeKey(entries[1..]);
      }
    }
  }

  /** So for such a component the walk is right. */
  lemma PlainGuardRight(e: Env, p: Place)
    requires PlainWords(e) && TextKeys(e) && p.value.Mapping? && ResolveAs(e, p.value, p.path, p.mode).Done?
    requires IsComponentPath(p.path) && AtMostOneType(p.value.entries)
    requires forall i | 0 <= i < |p.value.entries| ::
               BecomesType(e, p.value.entries[i].key) ==> p.value.entries[i].key == Str("type")
    ensures IsLua(e, p.path, p.value.entries) <==> RunsLua(e, p)
  {
    PlainKeysSettle(e, p.value.entries);
    GuardRightExactly(e, p);
  }

  // ---- The promise, over a whole config ----

  /** The step goes into the `vars:` of a component that runs as `lua`. */
  predicate EntersRunningVars(e: Env, p: Place, step: Step) {
    && p.value.Mapping? && step.OfValue? && step.i < |p.value.entries|
    && IsComponentPath(p.path) && RunsLua(e, p) && LabelAt(e, p, step.i) == "vars"
  }

  predicate EntersRunningAt(e: Env, root: Value, at: Address, k: nat) {
    k < |at| && EntersRunningVars(e, PlaceAt(e, root, at[..k]), at[k])
  }

  ghost predicate BelowRunningVars(e: Env, root: Value, at: Address) {
    exists k: nat :: EntersRunningAt(e, root, at, k)
  }

  /** Below the `vars:` of the components that run as `lua` an `!env` is kept as text, and nowhere
      else. */
  ghost predicate PromiseKept(e: Env, root: Value) {
    forall at :: PlaceAt(e, root, at).mode.Verbatim? <==> BelowRunningVars(e, root, at)
  }

  /** A component mapping with an entry for `vars:`, the i-th. */
  predicate HasVars(e: Env, p: Place, i: nat) {
    p.value.Mapping? && i < |p.value.entries| && IsComponentPath(p.path) && LabelAt(e, p, i) == "vars"
  }

  /** What to ask of a config: each component with `vars:` has a settled type. */
  ghost predicate TypesSettled(e: Env, root: Value) {
    forall at, i | HasVars(e, PlaceAt(e, root, at), i) :: TypeSettled(e, PlaceAt(e, root, at).value.entries)
  }

  // ---- Places of a config that resolves ----

  lemma EnteredResolves(e: Env, p: Place, step: Step)
    requires Resolvable(e, p.value)
    ensures Resolvable(e, Enter(e, p, step).value)
  {
    if p.value.Mapping? && (step.OfKey? || step.OfValue?) && step.i < |p.value.entries| {
      assert EntryResolvable(e, p.value.entries[step.i]);
    }
  }

  lemma {:induction false} PlaceResolves(e: Env, root: Value, at: Address)
    requires Resolvable(e, root)
    ensures Resolvable(e, PlaceAt(e, root, at).value)
  {
    if at != [] {
      PlaceResolves(e, root, at[..|at| - 1]);
      EnteredResolves(e, PlaceAt(e, root, at[..|at| - 1]), at[|at| - 1]);
    }
  }

  /** Paths only grow, and text is kept only past a component's own. */
  lemma {:induction false} VerbatimIsDeep(e: Env, root: Value, at: Address)
    ensures PlaceAt(e, root, at).mode.Verbatim? ==> |PlaceAt(e, root, at).path| > 2
  {
    if at != [] {
      VerbatimIsDeep(e, root, at[..|at| - 1]);
    }
  }

  /** At a component with a settled type the two ways in are one. */
  lemma SettledEnters(e: Env, root: Value, at: Address, step: Step)
    requires PlainWords(e) && TextKeys(e) && Resolvable(e, root)
    requires step.OfValue? && HasVars(e, PlaceAt(e, root, at), step.i)
    ensures var p := PlaceAt(e, root, at);
            (EntersVars(e, p, step) <==> EntersRunningVars(e, p, step)) <==> TypeSettled(e, p.value.entries)
  {
    var p := PlaceAt(e, root, at);
    PlaceResolves(e, root, at);
    SucceedsExactly(e, p.value, p.path, p.mode);
    GuardRightExactly(e, p);
  }

  lemma StepAlike(e: Env, root: Value, at: Address, step: Step)
    requires PlainWords(e) && TextKeys(e) && Resolvable(e, root) && TypesSettled(e, root)
    ensures var p := PlaceAt(e, root, at);
            EntersVars(e, p, step) <==> EntersRunningVars(e, p, step)
  {
    if step.OfValue? && HasVars(e, PlaceAt(e, root, at), step.i) {
      SettledEnters(e, root, at, step);
    }
  }

  lemma SettledKeeps(e: Env, root: Value, at: Address)
    requires PlainWords(e) && TextKeys(e) && Resolvable(e, root) && TypesSettled(e, root)
    ensures PlaceAt(e, root, at).mode.Verbatim? <==> BelowRunningVars(e, root, at)
  {
    VerbatimExactly(e, root, at);
    forall k: nat
      ensures EntersAt(e, root, at, k) <==> EntersRunningAt(e, root, at, k)
    {
      if k < |at| {
        StepAlike(e, root, at[..k], at[k]);
      }
    }
  }

  // ---- A component whose type isn't settled ----

  lemma {:induction false} PathsGrow(e: Env, root: Value, at: Address, k: nat)
    requires k < |at|
    ensures |PlaceAt(e, root, at[..k]).path| <= |PlaceAt(e, root, at).path|
    ensures at[k].OfValue? && PlaceAt(e, root, at[..k]).value.Mapping?
            && at[k].i < |PlaceAt(e, root, at[..k]).value.entries|
            ==> |PlaceAt(e, root, at[..k]).path| < |PlaceAt(e, root, at).path|
    decreases |at|
  {
    var front := at[..|at| - 1];
    if k < |at| - 1 {
      PathsGrow(e, root, front, k);
      assert front[..k] == at[..k];
    } else {
      assert at[..k] == front;
    }
  }

  /** No step above a component goes into a component's `vars:`. */
  lemma NothingAbove(e: Env, root: Value, at: Address)
    requires |PlaceAt(e, root, at).path| == 2
    ensures !BelowRunningVars(e, root, at)
  {
    forall k: nat
      ensures !EntersRunningAt(e, root, at, k)
    {
      if EntersRunningAt(e, root, at, k) {
        PathsGrow(e, root, at, k);
      }
    }
  }

  lemma RunningStep(e: Env, root: Value, at: Address, step: Step)
    requires |PlaceAt(e, root, at).path| == 2
    ensures BelowRunningVars(e, root, at + [step]) <==> EntersRunningVars(e, PlaceAt(e, root, at), step)
  {
    var more := at + [step];
    assert more[..|at|] == at;
    NothingAbove(e, root, at);
    if EntersRunningVars(e, PlaceAt(e, root, at), step) {
      assert EntersRunningAt(e, root, more, |at|);
    }
    if BelowRunningVars(e, root, more) {
      var k: nat :| EntersRunningAt(e, root, more, k);
      if k < |at| {
        assert more[..k] == at[..k];
        assert EntersRunningAt(e, root, at, k);
      }
    }
  }

  /** The entry for `vars:` of such a component breaks the promise. */
  lemma UnsettledBreaks(e: Env, root: Value, at: Address, i: nat)
    requires PlainWords(e) && TextKeys(e) && Resolvable(e, root)
    requires HasVars(e, PlaceAt(e, root, at), i) && !TypeSettled(e, PlaceAt(e, root, at).value.entries)
    ensures !PromiseKept(e, root)
  {
    var p, step := PlaceAt(e, root, at), OfValue(i);
    SettledEnters(e, root, at, step);
    VerbatimIsDeep(e, root, at);
    Child(e, root, at, step);
    RunningStep(e, root, at, step);
    assert PlaceAt(e, root, at + [step]).mode.Verbatim? <==> EntersVars(e, p, step);
  }

  /** A config that resolves keeps the promise exactly when the type of each component with `vars:` is
      settled. */
  lemma PromiseKeptExactly(e: Env, root: Value)
    requires PlainWords(e) && TextKeys(e) && Resolve(e, root).Done?
    ensures PromiseKept(e, root) <==> TypesSettled(e, root)
  {
    SucceedsExactly(e, root, [], Retype);
    if TypesSettled(e, root) {
      forall at
        ensures PlaceAt(e, root, at).mode.Verbatim? <==> BelowRunningVars(e, root, at)
      {
        SettledKeeps(e, root, at);
      }
    } else {
      var at, i :| HasVars(e, PlaceAt(e, root, at), i) && !TypeSettled(e, PlaceAt(e, root, at).value.entries);
      UnsettledBreaks(e, root, at, i);
    }
  }

  // ---- Two components that break it ----

  /** `K` holds `type` and `N` holds `8125`. */
  function Sample(): Env {
    Env(name => if name == "K" then Some("type") else if name == "N" then Some("8125") else None,
        text => Some(if text == "8125" then Number(true, "8125") else Str(text)),
        (a, b) => a == b)
  }

  lemma SampleIsYaml()
    ensures PlainWords(Sample()) && TextKeys(Sample())
  {
  }

  const COMPONENT: seq<PathSeg> := [Key("components"), Key("x")]

  function EnvOver(name: string): Value { Tagged("!env", Str(name)) }

  /** `vars: {a: <a>}`. */
  function VarsOf(a: Value): Entry { Entry(Str("vars"), Mapping([Entry(Str("a"), a)])) }

  lemma FirstOfEntries(e: Env, x: Entry, rest: seq<Entry>, path: seq<PathSeg>, mode: Mode, lua: bool)
    requires ResolveEntry(e, x, path, mode, lua).Done? && ResolveEntries(e, rest, path, mode, lua).Done?
    ensures var o := ResolveEntries(e, [x] + rest, path, mode, lua);
            && o.Done?
            && o.value == [ResolveEntry(e, x, path, mode, lua).value] + ResolveEntries(e, rest, path, mode, lua).value
  {
    assert ([x] + rest)[1..] == rest;
  }

  lemma OnlyEntry(e: Env, x: Entry, path: seq<PathSeg>, mode: Mode, lua: bool)
    requires ResolveEntry(e, x, path, mode, lua).Done?
    ensures var o := ResolveEntries(e, [x], path, mode, lua);
            o.Done? && o.value == [ResolveEntry(e, x, path, mode, lua).value]
  {
    FirstOfEntries(e, x, [], path, mode, lua);
    assert [x] + [] == [x];
  }

  lemma OneBuilt(e: Env, x: Entry)
    ensures Build(e, [x]) == [x]
  {
    assert [x][..0] == [];
  }

  lemma MappingOf(e: Env, entries: seq<Entry>, path: seq<PathSeg>, mode: Mode, lua: bool, built: seq<Entry>)
    requires lua == IsLua(e, path, entries) && ResolveEntries(e, entries, path, mode, lua).Done?
    requires Build(e, ResolveEntries(e, entries, path, mode, lua).value) == built
    ensures var o := ResolveAs(e, Mapping(entries), path, mode);
            o.Done? && o.value == Mapping(built)
  {
  }

  lemma SampleVariable(path: seq<PathSeg>, mode: Mode)
    ensures var o := ResolveEntry(Sample(), Entry(Str("a"), EnvOver("N")), path, mode, false);
            o.Done? && o.value == Entry(Str("a"), if mode.Verbatim? then Str("8125") else Number(true, "8125"))
  {
  }

  lemma SampleVars(lua: bool)
    ensures var o := ResolveEntry(Sample(), VarsOf(EnvOver("N")), COMPONENT, Retype, lua);
            o.Done? && o.value == VarsOf(if lua then Str("8125") else Number(true, "8125"))
  {
    var below, mode := COMPONENT + [Key("vars")], if lua then Verbatim else Retype;
    var a := Entry(Str("a"), EnvOver("N"));
    SampleVariable(below, mode);
    OnlyEntry(Sample(), a, below, mode, false);
    OneBuilt(Sample(), ResolveEntry(Sample(), a, below, mode, false).value);
  }

  lemma SampleType(key: Value, kind: string, lua: bool)
    requires key == Str("type") || key == EnvOver("K")
    ensures var o := ResolveEntry(Sample(), Entry(key, Str(kind)), COMPONENT, Retype, lua);
            o.Done? && o.value == Entry(Str("type"), Str(kind))
  {
  }

  lemma TypeThenVars(key: Value, kind: string, lua: bool)
    requires key == Str("type") || key == EnvOver("K")
    ensures var o := ResolveEntries(Sample(), [Entry(key, Str(kind)), VarsOf(EnvOver("N"))], COMPONENT, Retype, lua);
            && o.Done?
            && o.value == [Entry(Str("type"), Str(kind)), VarsOf(if lua then Str("8125") else Number(true, "8125"))]
  {
    var x, vars := Entry(key, Str(kind)), VarsOf(EnvOver("N"));
    SampleType(key, kind, lua);
    SampleVars(lua);
    OnlyEntry(Sample(), vars, COMPONENT, Retype, lua);
    FirstOfEntries(Sample(), x, [vars], COMPONENT, Retype, lua);
    assert [x] + [vars] == [x, vars];
  }

  lemma TypeAndVarsBuild(kind: string, a: Value)
    ensures Build(Sample(), [Entry(Str("type"), Str(kind)), VarsOf(a)]) == [Entry(Str("type"), Str(kind)), VarsOf(a)]
  {
    BuildDistinct(Sample(), [Entry(Str("type"), Str(kind)), VarsOf(a)]);
  }

  /** `{!env K: lua, vars: {a: !env N}}` runs as `lua`, and its variable is a number. */
  lemma NumberInLua()
    ensures var component := Mapping([Entry(EnvOver("K"), Str("lua")), VarsOf(EnvOver("N"))]);
            var o := ResolveAs(Sample(), component, COMPONENT, Retype);
            o.Done? && o.value == Mapping([Entry(Str("type"), Str("lua")), VarsOf(Number(true, "8125"))])
  {
    var entries := [Entry(EnvOver("K"), Str("lua")), VarsOf(EnvOver("N"))];
    NoTypeKey(entries);
    TypeThenVars(EnvOver("K"), "lua", false);
    TypeAndVarsBuild("lua", Number(true, "8125"));
    MappingOf(Sample(), entries, COMPONENT, Retype, false,
              [Entry(Str("type"), Str("lua")), VarsOf(Number(true, "8125"))]);
  }

  /** The second `type` replaces the first. */
  lemma SecondTypeBuilds(kind: string, other: string, a: Value)
    ensures Build(Sample(), [Entry(Str("type"), Str(kind)), Entry(Str("type"), Str(other)), VarsOf(a)])
         == [Entry(Str("type"), Str(other)), VarsOf(a)]
  {
    var x, y, vars := Entry(Str("type"), Str(kind)), Entry(Str("type"), Str(other)), VarsOf(a);
    assert [x, y, vars][..2] == [x, y] && [x, y][..1] == [x];
    OneBuilt(Sample(), x);
    assert Build(Sample(), [x, y]) == [x][0 := y] == [y];
    TypeAndVarsBuild(other, a);
    assert [y, vars][..1] == [y];
    OneBuilt(Sample(), y);
  }

  function TwoTypes(): seq<Entry> {
    [Entry(Str("type"), Str("lua")), Entry(EnvOver("K"), Str("null_out")), VarsOf(EnvOver("N"))]
  }

  lemma TwoTypesGuard()
    ensures IsLua(Sample(), COMPONENT, TwoTypes())
  {
    assert TypeOf(TwoTypes()) == Some(Str("lua"));
  }

  lemma TwoTypesResolve()
    ensures var o := ResolveEntries(Sample(), TwoTypes(), COMPONENT, Retype, true);
            && o.Done?
            && o.value == [Entry(Str("type"), Str("lua")), Entry(Str("type"), Str("null_out")), VarsOf(Str("8125"))]
  {
    var x, rest := Entry(Str("type"), Str("lua")), [Entry(EnvOver("K"), Str("null_out")), VarsOf(EnvOver("N"))];
    SampleType(Str("type"), "lua", true);
    TypeThenVars(EnvOver("K"), "null_out", true);
    FirstOfEntries(Sample(), x, rest, COMPONENT, Retype, true);
    assert TwoTypes() == [x] + rest;
  }

  /** `{type: lua, !env K: null_out, vars: {a: !env N}}` doesn't run as `lua`, and its variable is
      kept as text. */
  lemma TextElsewhere()
    ensures var o := ResolveAs(Sample(), Mapping(TwoTypes()), COMPONENT, Retype);
            o.Done? && o.value == Mapping([Entry(Str("type"), Str("null_out")), VarsOf(Str("8125"))])
  {
    TwoTypesResolve();
    SecondTypeBuilds("lua", "null_out", Str("8125"));
    TwoTypesGuard();
    MappingOf(Sample(), TwoTypes(), COMPONENT, Retype, true,
              [Entry(Str("type"), Str("null_out")), VarsOf(Str("8125"))]);
  }
}
