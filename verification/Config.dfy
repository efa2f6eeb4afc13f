/**
 `!env` resolution of `crates/logit-cli/src/config.rs`: every `!env NAME` in a parsed config becomes
 the variable's value, retyped as a YAML scalar, or kept as text inside a `lua` component's `vars:`.

 The tree is what the YAML parser hands over. Reading a scalar and comparing mapping keys are the
 YAML library's and stay arbitrary functions.
 */
module Config {
  import Bytes
  import opened Wrappers

  datatype Value =
    | Null
    | Bool(b: bool)
    | Number(isInteger: bool, text: string)
    | Str(s: string)
    | Sequence(items: seq<Value>)
    | Mapping(entries: seq<Entry>)
    | Tagged(tag: string, value: Value)

  datatype Entry = Entry(key: Value, value: Value)

  /** The environment, the YAML reader, and the equality a mapping finds its keys by. */
  datatype Env = Env(lookup: string -> Option<string>, parse: string -> Option<Value>, same: (Value, Value) -> bool)

  datatype PathSeg = Key(name: string) | Index(i: nat)

  /** How an `!env` value becomes a YAML value: retyped, or kept as text. */
  datatype Mode = Retype | Verbatim

  datatype Substitution = Substitution(path: seq<PathSeg>, variable: string, kind: string)

  datatype Error =
    | UnknownTag(path: seq<PathSeg>, tag: string)
    | NotAName(path: seq<PathSeg>, kind: string)
    | Unset(path: seq<PathSeg>, variable: string)

  /** A resolved value or an error, and the substitutions recorded on the way to it. */
  datatype Outcome<T> = Done(value: T, subs: seq<Substitution>) | Bad(error: Error, subs: seq<Substitution>)

  function Kind(v: Value): string {
    match v
    case Null => "null"
    case Bool(_) => "boolean"
    case Number(isInteger, _) => if isInteger then "integer" else "float"
    case Str(_) => "string"
    case Sequence(_) => "sequence"
    case Mapping(_) => "mapping"
    case Tagged(_, _) => "tagged value"
  }

  /** A resolved key's name in a path. */
  function Label(key: Value): string { if key.Str? then key.s else "<" + Kind(key) + ">" }

  // ---- Scalars ----

  function ScalarFromEnv(e: Env, raw: string): Value {
    if raw == [] then Str(raw)
    else
      match e.parse(raw)
      case None => Str(raw)
      case Some(v) => if v.Null? || v.Bool? || v.Number? then v else Str(raw)
  }

  function Scalar(e: Env, raw: string, mode: Mode): Value {
    if mode.Verbatim? then Str(raw) else ScalarFromEnv(e, raw)
  }

  predicate IsEnv(tag: string) { tag == "!env" }
  predicate IsCore(tag: string) { "!!" <= tag }

  /** The `!env` over `value`. */
  function ResolveEnvTag(e: Env, value: Value, path: seq<PathSeg>, mode: Mode): Outcome<Value> {
    if !value.Str? then Bad(NotAName(path, Kind(value)), [])
    else
      match e.lookup(value.s)
      case None => Bad(Unset(path, value.s), [])
      case Some(raw) =>
        var resolved := Scalar(e, raw, mode);
        Done(resolved, if resolved.Str? then [] else [Substitution(path, value.s, Kind(resolved))])
  }

  // ---- Lua components ----

  function TypeOf(entries: seq<Entry>): Option<Value> {
    if entries == [] then None
    else if entries[0].key == Str("type") then Some(entries[0].value)
    else TypeOf(entries[1..])
  }

  /** The type a value names, inline or as an `!env`. */
  function TypeText(e: Env, v: Value): Option<string> {
    match v
    case Str(kind) => Some(kind)
    case Tagged(tag, Str(variable)) => if IsEnv(tag) then e.lookup(variable) else None
    case _ => None
  }

  predicate NamesLua(e: Env, v: Value) { TypeText(e, v) == Some("lua") || TypeText(e, v) == Some("lua_file") }

  predicate IsComponentPath(path: seq<PathSeg>) { |path| == 2 && path[0] == Key("components") && path[1].Key? }

  /** A mapping at `components.<id>` whose `type` key, as it is written, names `lua` or `lua_file`. */
  predicate IsLua(e: Env, path: seq<PathSeg>, entries: seq<Entry>) {
    IsComponentPath(path) && TypeOf(entries).Some? && NamesLua(e, TypeOf(entries).value)
  }

  function EntryMode(lua: bool, name: string, mode: Mode): Mode {
    if lua && name == "vars" then Verbatim else mode
  }

  // ---- Mappings ----

  /** Where `key` is in the mapping, or its length. */
  function FindKey(e: Env, entries: seq<Entry>, key: Value): (at: nat)
    ensures at <= |entries|
    ensures at < |entries| ==> e.same(entries[at].key, key)
    ensures forall i | 0 <= i < at :: !e.same(entries[i].key, key)
  {
    if entries == [] || e.same(entries[0].key, key) then 0 else 1 + FindKey(e, entries[1..], key)
  }

  /** `insert`: a key that is there keeps its place and takes the new value. */
  function Insert(e: Env, entries: seq<Entry>, entry: Entry): seq<Entry> {
    var at := FindKey(e, entries, entry.key);
    if at < |entries| then entries[at := Entry(entries[at].key, entry.value)] else entries + [entry]
  }

  /** The mapping the entries make, inserted in order. */
  function Build(e: Env, entries: seq<Entry>): seq<Entry> {
    if entries == [] then [] else Insert(e, Build(e, entries[..|entries| - 1]), entries[|entries| - 1])
  }

  // ---- Resolution ----

  /** `rest`, after `list` has been resolved and `added` recorded. */
  function Continue<T>(list: seq<T>, added: seq<Substitution>, rest: Outcome<seq<T>>): Outcome<seq<T>> {
    match rest
    case Done(more, subs) => Done(list + more, added + subs)
    case Bad(error, subs) => Bad(error, added + subs)
  }

  /** The outcome of one element and then of the rest. */
  function AndThen<T>(first: Outcome<T>, rest: Outcome<seq<T>>): Outcome<seq<T>> {
    match first
    case Bad(error, subs) => Bad(error, subs)
    case Done(v, subs) => Continue([v], subs, rest)
  }

  function ResolveAs(e: Env, v: Value, path: seq<PathSeg>, mode: Mode): Outcome<Value>
    decreases v, 1
  {
    match v
    case Mapping(entries) =>
      (match ResolveEntries(e, entries, path, mode, IsLua(e, path, entries))
       case Done(resolved, subs) => Done(Mapping(Build(e, resolved)), subs)
       case Bad(error, subs) => Bad(error, subs))
    case Sequence(items) =>
      (match ResolveItems(e, items, 0, path, mode)
       case Done(resolved, subs) => Done(Sequence(resolved), subs)
       case Bad(error, subs) => Bad(error, subs))
    case Tagged(tag, value) =>
      if IsEnv(tag) then ResolveEnvTag(e, value, path, mode)
      else if IsCore(tag) then
        (match ResolveAs(e, value, path, mode)
         case Done(resolved, subs) => Done(Tagged(tag, resolved), subs)
         case Bad(error, subs) => Bad(error, subs))
      else Bad(UnknownTag(path, tag), [])
    case _ => Done(v, [])
  }

  function ResolveEntry(e: Env, entry: Entry, path: seq<PathSeg>, mode: Mode, lua: bool): Outcome<Entry>
    decreases entry, 2
  {
    match ResolveAs(e, entry.key, path, mode)
    case Bad(error, subs) => Bad(error, subs)
    case Done(key, subs) =>
      match ResolveAs(e, entry.value, path + [Key(Label(key))], EntryMode(lua, Label(key), mode))
      case Bad(error, more) => Bad(error, subs + more)
      case Done(value, more) => Done(Entry(key, value), subs + more)
  }

  function ResolveEntries(e: Env, entries: seq<Entry>, path: seq<PathSeg>, mode: Mode, lua: bool): Outcome<seq<Entry>>
    decreases entries, 0
  {
    if entries == [] then Done([], [])
    else AndThen(ResolveEntry(e, entries[0], path, mode, lua), ResolveEntries(e, entries[1..], path, mode, lua))
  }

  function ResolveItems(e: Env, items: seq<Value>, from: nat, path: seq<PathSeg>, mode: Mode): Outcome<seq<Value>>
    decreases items, 0
  {
    if items == [] then Done([], [])
    else AndThen(ResolveAs(e, items[0], path + [Index(from)], mode), ResolveItems(e, items[1..], from + 1, path, mode))
  }

  function Resolve(e: Env, v: Value): Outcome<Value> { ResolveAs(e, v, [], Retype) }

  // ---- The walk ----

  datatype Result<T> = Ok(value: T) | Err(error: Error)

  /** The walk's result and substitution list are the outcome's. */
  ghost predicate Reports<T>(o: Outcome<T>, r: Result<T>, before: seq<Substitution>, after: seq<Substitution>) {
    && after == before + o.subs
    && r == match o
            case Done(value, _) => Ok(value)
            case Bad(error, _) => Err(error)
  }

  /** What an `!env` over a value comes to, case by case, and the substitutions it adds. */
  ghost predicate IsEnvResult(e: Env, value: Value, path: seq<PathSeg>, mode: Mode, r: Result<Value>,
                              added: seq<Substitution>)
  {
    match value
    case Null => r == Err(NotAName(path, "null")) && added == []
    case Bool(_) => r == Err(NotAName(path, "boolean")) && added == []
    case Number(isInteger, _) => r == Err(NotAName(path, if isInteger then "integer" else "float")) && added == []
    case Sequence(_) => r == Err(NotAName(path, "sequence")) && added == []
    case Mapping(_) => r == Err(NotAName(path, "mapping")) && added == []
    case Tagged(_, _) => r == Err(NotAName(path, "tagged value")) && added == []
    case Str(name) =>
      (match e.lookup(name)
       case None => r == Err(Unset(path, name)) && added == []
       case Some(raw) => IsScalarOf(e, raw, path, name, mode, r, added))
  }

  /** A null, a boolean or a number where the text reads as one and is retyped, with its substitution;
      otherwise the text. */
  ghost predicate IsScalarOf(e: Env, raw: string, path: seq<PathSeg>, name: string, mode: Mode, r: Result<Value>,
                             added: seq<Substitution>)
  {
    if mode.Verbatim? || raw == "" then r == Ok(Str(raw)) && added == []
    else
      match e.parse(raw)
      case Some(Null) => r == Ok(Null) && added == [Substitution(path, name, "null")]
      case Some(Bool(b)) => r == Ok(Bool(b)) && added == [Substitution(path, name, "boolean")]
      case Some(Number(isInteger, text)) =>
        && r == Ok(Number(isInteger, text))
        && added == [Substitution(path, name, if isInteger then "integer" else "float")]
      case _ => r == Ok(Str(raw)) && added == []
  }

  /** The path stack and the substitution list `resolve_as` updates as it walks the tree. */
  class Walker {
    const e: Env
    var path: seq<PathSeg>
    var subs: seq<Substitution>

    constructor (e: Env)
      ensures this.e == e && path == [] && subs == []
    {
      this.e := e;
      path, subs := [], [];
    }

    /** The walk does what `ResolveAs` says, adds its substitutions, and leaves the path stack as it
        found it, on success and on error. */
    method Walk(v: Value, mode: Mode) returns (r: Result<Value>)
      modifies this
      ensures path == old(path)
      ensures Reports(ResolveAs(e, v, path, mode), r, old(subs), subs)
      ensures v.Tagged? && v.tag == "!env" ==>
                old(subs) <= subs && IsEnvResult(e, v.value, path, mode, r, subs[|old(subs)|..])
      decreases v, 1
    {
      match v {
        case Mapping(entries) =>
          var lua := IsLua(e, path, entries);
          var resolved := WalkEntries(entries, mode, lua, ResolveEntries(e, entries, path, mode, lua));
          r := if resolved.Ok? then Ok(Mapping(resolved.value)) else Err(resolved.error);
        case Sequence(items) =>
          var resolved := WalkItems(items, mode, ResolveItems(e, items, 0, path, mode));
          r := if resolved.Ok? then Ok(Sequence(resolved.value)) else Err(resolved.error);
        case Tagged(tag, value) =>
          if IsEnv(tag) {
            r := WalkEnvTag(value, mode);
          } else if IsCore(tag) {
            var inner := Walk(value, mode);
            r := if inner.Ok? then Ok(Tagged(tag, inner.value)) else Err(inner.error);
          } else {
            r := Err(UnknownTag(path, tag));
          }
        case _ =>
          r := Ok(v);
      }
    }

    method WalkEnvTag(value: Value, mode: Mode) returns (r: Result<Value>)
      modifies `subs
      ensures Reports(ResolveEnvTag(e, value, path, mode), r, old(subs), subs)
      ensures old(subs) <= subs && IsEnvResult(e, value, path, mode, r, subs[|old(subs)|..])
    {
      if !value.Str? {
        return Err(NotAName(path, Kind(value)));
      }
      var raw := e.lookup(value.s);
      if raw.None? {
        return Err(Unset(path, value.s));
      }
      var resolved := Scalar(e, raw.value, mode);
      if !resolved.Str? {
        subs := subs + [Substitution(path, value.s, Kind(resolved))];
      }
      return Ok(resolved);
    }

    method WalkEntry(entry: Entry, mode: Mode, lua: bool) returns (r: Result<Entry>)
      modifies this
      ensures path == old(path)
      ensures Reports(ResolveEntry(e, entry, path, mode, lua), r, old(subs), subs)
      decreases entry, 3
    {
      var key := Walk(entry.key, mode);
      if key.Err? {
        return Err(key.error);
      }
      var name := Label(key.value);
      ghost var first := ResolveAs(e, entry.key, path, mode).subs;
      var value := WalkUnder(Key(name), entry.value, EntryMode(lua, name, mode));
      Bytes.Assoc(old(subs), first, ResolveAs(e, entry.value, path + [Key(name)], EntryMode(lua, name, mode)).subs);
      if value.Err? {
        return Err(value.error);
      }
      return Ok(Entry(key.value, value.value));
    }

    method WalkEntries(entries: seq<Entry>, mode: Mode, lua: bool, ghost o: Outcome<seq<Entry>>)
        returns (r: Result<seq<Entry>>)
      requires o == ResolveEntries(e, entries, path, mode, lua)
      modifies this
      ensures path == old(path) && subs == old(subs) + o.subs
      ensures r == match o
                   case Done(list, _) => Ok(Build(e, list))
                   case Bad(error, _) => Err(error)
      decreases entries, 0
    {
      var resolved: seq<Entry> := [];
      ghost var list, added, rest := [], [], o;
      ContinueFromNothing(o);
      for i := 0 to |entries|
        invariant path == old(path) && subs == old(subs) + added && resolved == Build(e, list)
        invariant rest == ResolveEntries(e, entries[i..], path, mode, lua)
        invariant o == Continue(list, added, rest)
      {
        ghost var turn, later := NextEntry(e, entries, i, path, mode, lua);
        ContinueOne(list, added, turn, later);
        var entry := WalkEntry(entries[i], mode, lua);
        Bytes.Assoc(old(subs), added, turn.subs);
        if entry.Err? {
          return Err(entry.error);
        }
        resolved := Insert(e, resolved, entry.value);
        BuildAppend(e, list, entry.value);
        list, added, rest := list + [entry.value], added + turn.subs, later;
      }
      ContinueAtEnd(list, added);
      return Ok(resolved);
    }

    /** A walk below one more path segment, pushed before and popped after. */
    method WalkUnder(seg: PathSeg, v: Value, mode: Mode) returns (r: Result<Value>)
      modifies this
      ensures path == old(path)
      ensures Reports(ResolveAs(e, v, path + [seg], mode), r, old(subs), subs)
      decreases v, 2
    {
      path := path + [seg];
      r := Walk(v, mode);
      path := path[..|path| - 1];
    }

    method WalkItems(items: seq<Value>, mode: Mode, ghost o: Outcome<seq<Value>>) returns (r: Result<seq<Value>>)
      requires o == ResolveItems(e, items, 0, path, mode)
      modifies this
      ensures path == old(path)
      ensures Reports(o, r, old(subs), subs)
      decreases items, 0
    {
      var resolved: seq<Value> := [];
      ghost var added, rest := [], o;
      ContinueFromNothing(o);
      for i := 0 to |items|
        invariant path == old(path) && subs == old(subs) + added
        invariant rest == ResolveItems(e, items[i..], i, path, mode)
        invariant o == Continue(resolved, added, rest)
      {
        ghost var turn, later := NextItem(e, items, i, path, mode);
        ContinueOne(resolved, added, turn, later);
        var item := WalkUnder(Index(i), items[i], mode);
        Bytes.Assoc(old(subs), added, turn.subs);
        if item.Err? {
          return Err(item.error);
        }
        resolved, added, rest := resolved + [item.value], added + turn.subs, later;
      }
      ContinueAtEnd(resolved, added);
      return Ok(resolved);
    }
  }

  lemma NextEntry(e: Env, entries: seq<Entry>, i: nat, path: seq<PathSeg>, mode: Mode, lua: bool)
      returns (turn: Outcome<Entry>, later: Outcome<seq<Entry>>)
    requires i < |entries|
    ensures turn == ResolveEntry(e, entries[i], path, mode, lua)
    ensures later == ResolveEntries(e, entries[i + 1..], path, mode, lua)
    ensures ResolveEntries(e, entries[i..], path, mode, lua) == AndThen(turn, later)
  {
    turn := ResolveEntry(e, entries[i], path, mode, lua);
    later := ResolveEntries(e, entries[i + 1..], path, mode, lua);
    assert entries[i..][0] == entries[i] && entries[i..][1..] == entries[i + 1..];
  }

  lemma NextItem(e: Env, items: seq<Value>, i: nat, path: seq<PathSeg>, mode: Mode)
      returns (turn: Outcome<Value>, later: Outcome<seq<Value>>)
    requires i < |items|
    ensures turn == ResolveAs(e, items[i], path + [Index(i)], mode)
    ensures later == ResolveItems(e, items[i + 1..], i + 1, path, mode)
    ensures ResolveItems(e, items[i..], i, path, mode) == AndThen(turn, later)
  {
    turn := ResolveAs(e, items[i], path + [Index(i)], mode);
    later := ResolveItems(e, items[i + 1..], i + 1, path, mode);
    assert items[i..][0] == items[i] && items[i..][1..] == items[i + 1..];
  }

  lemma BuildAppend(e: Env, list: seq<Entry>, entry: Entry)
    ensures Build(e, list + [entry]) == Insert(e, Build(e, list), entry)
  {
    assert (list + [entry])[..|list|] == list;
  }

  lemma ContinueAtEnd<T>(list: seq<T>, added: seq<Substitution>)
    ensures Continue(list, added, Done([], [])) == Done(list, added)
  {
    assert list + [] == list && added + [] == added;
  }

  lemma ContinueFromNothing<T>(o: Outcome<seq<T>>)
    ensures Continue([], [], o) == o
  {
    assert [] + o.subs == o.subs;
    assert o.Done? ==> [] + o.value == o.value;
  }

  lemma ContinueOne<T>(list: seq<T>, added: seq<Substitution>, first: Outcome<T>, rest: Outcome<seq<T>>)
    ensures first.Done? ==>
              Continue(list, added, AndThen(first, rest)) == Continue(list + [first.value], added + first.subs, rest)
  {
    if first.Done? {
      assert added + (first.subs + rest.subs) == added + first.subs + rest.subs;
      assert rest.Done? ==> list + ([first.value] + rest.value) == list + [first.value] + rest.value;
    }
  }
}
