/**
 What `!env` resolution means, said without walking the tree: by the address of each tag.

 The walk carries a path and a mode down the tree and substitutions along it. Here a place of the
 tree is an address from the root, `BelowVars` says which addresses are inside the `vars:` of a
 component written as `lua`, and `TagAddresses` lists the tags that decide the outcome in document order. `Meaning`
 says the walk is the scan of that list: the first bad tag is the error, the tags before it give
 the substitutions, and the result is the tree with each tag's scalar in its place.
 */
module ConfigMeaning {
  import opened Config
  import opened Wrappers

  /** A step from a node to a child: an entry's key or value, an item, or what a tag holds. */
  datatype Step = OfKey(i: nat) | OfValue(i: nat) | OfItem(i: nat) | OfTag
  type Address = seq<Step>

  /** A node with its path, and whether an `!env` there is kept as text. */
  datatype Place = Place(value: Value, path: seq<PathSeg>, mode: Mode)

  /** The label of a mapping's entry: its key's, resolved where the mapping stands. */
  function LabelAt(e: Env, p: Place, i: nat): string
    requires p.value.Mapping? && i < |p.value.entries|
  {
    match ResolveAs(e, p.value.entries[i].key, p.path, p.mode)
    case Done(key, _) => Label(key)
    case Bad(_, _) => ""
  }

  /** The step goes into the `vars:` of a component whose `type`, as it is written, is `lua`. */
  predicate EntersVars(e: Env, p: Place, step: Step) {
    && p.value.Mapping? && step.OfValue? && step.i < |p.value.entries|
    && IsLua(e, p.path, p.value.entries) && LabelAt(e, p, step.i) == "vars"
  }

  function Enter(e: Env, p: Place, step: Step): Place {
    match step
    case OfKey(i) =>
      if p.value.Mapping? && i < |p.value.entries| then p.(value := p.value.entries[i].key) else p.(value := Null)
    case OfValue(i) =>
      if p.value.Mapping? && i < |p.value.entries| then
        var mode := if EntersVars(e, p, step) then Verbatim else p.mode;
        Place(p.value.entries[i].value, p.path + [Key(LabelAt(e, p, i))], mode)
      else p.(value := Null)
    case OfItem(i) =>
      if p.value.Sequence? && i < |p.value.items| then Place(p.value.items[i], p.path + [Index(i)], p.mode)
      else p.(value := Null)
    case OfTag => if p.value.Tagged? then p.(value := p.value.value) else p.(value := Null)
  }

  function PlaceAt(e: Env, root: Value, at: Address): Place {
    if at == [] then Place(root, [], Retype) else Enter(e, PlaceAt(e, root, at[..|at| - 1]), at[|at| - 1])
  }

  /** The k-th step of the address goes into such a `vars:`. */
  predicate EntersAt(e: Env, root: Value, at: Address, k: nat) {
    k < |at| && EntersVars(e, PlaceAt(e, root, at[..k]), at[k])
  }

  /** Some step of the address does. */
  ghost predicate BelowVars(e: Env, root: Value, at: Address) {
    exists k: nat :: EntersAt(e, root, at, k)
  }

  lemma EntersInFront(e: Env, root: Value, at: Address, k: nat)
    requires at != []
    ensures EntersAt(e, root, at[..|at| - 1], k) <==> k < |at| - 1 && EntersAt(e, root, at, k)
  {
    assert k < |at| - 1 ==> at[..|at| - 1][..k] == at[..k];
  }

  lemma BelowVarsStep(e: Env, root: Value, at: Address)
    requires at != []
    ensures BelowVars(e, root, at) <==> BelowVars(e, root, at[..|at| - 1]) || EntersAt(e, root, at, |at| - 1)
  {
    var front := at[..|at| - 1];
    forall k: nat
      ensures EntersAt(e, root, front, k) <==> k < |at| - 1 && EntersAt(e, root, at, k)
    {
      EntersInFront(e, root, at, k);
    }
    if BelowVars(e, root, front) {
      var k: nat :| EntersAt(e, root, front, k);
      assert EntersAt(e, root, at, k);
    }
    if BelowVars(e, root, at) {
      var k: nat :| EntersAt(e, root, at, k);
      assert k == |at| - 1 || EntersAt(e, root, front, k);
    }
  }

  /** An `!env` is kept as text exactly below the `vars:` of a component written as `lua`. */
  lemma {:induction false} VerbatimExactly(e: Env, root: Value, at: Address)
    ensures PlaceAt(e, root, at).mode.Verbatim? <==> BelowVars(e, root, at)
  {
    if at != [] {
      VerbatimExactly(e, root, at[..|at| - 1]);
      BelowVarsStep(e, root, at);
    }
  }

  lemma Child(e: Env, root: Value, at: Address, step: Step)
    ensures PlaceAt(e, root, at + [step]) == Enter(e, PlaceAt(e, root, at), step)
  {
    assert (at + [step])[..|at|] == at;
  }

  // ---- The tags that decide ----

  predicate Decides(tag: string) { IsEnv(tag) || !IsCore(tag) }

  /** The addresses of the `!env` and unknown tags, in document order, below `at`. */
  function TagAddresses(v: Value, at: Address): seq<Address>
    decreases v, 1
  {
    match v
    case Mapping(entries) => EntryTags(entries, 0, at)
    case Sequence(items) => ItemTags(items, 0, at)
    case Tagged(tag, value) => if Decides(tag) then [at] else TagAddresses(value, at + [OfTag])
    case _ => []
  }

  function OneEntryTags(entry: Entry, i: nat, at: Address): seq<Address>
    decreases entry, 2
  {
    TagAddresses(entry.key, at + [OfKey(i)]) + TagAddresses(entry.value, at + [OfValue(i)])
  }

  function EntryTags(entries: seq<Entry>, from: nat, at: Address): seq<Address>
    decreases entries, 0
  {
    if entries == [] then [] else OneEntryTags(entries[0], from, at) + EntryTags(entries[1..], from + 1, at)
  }

  function ItemTags(items: seq<Value>, from: nat, at: Address): seq<Address>
    decreases items, 0
  {
    if items == [] then [] else TagAddresses(items[0], at + [OfItem(from)]) + ItemTags(items[1..], from + 1, at)
  }

  /** What the `!env` at an address yields: below `vars:` the variable's text, elsewhere the null,
      boolean or number it reads as, or its text again. */
  ghost function EnvScalar(e: Env, root: Value, at: Address, raw: string): Value {
    if BelowVars(e, root, at) || raw == "" then Str(raw)
    else
      match e.parse(raw)
      case Some(Null) => Null
      case Some(Bool(b)) => Bool(b)
      case Some(Number(isInteger, text)) => Number(isInteger, text)
      case _ => Str(raw)
  }

  /** What the tag at an address comes to. */
  ghost function TagOutcome(e: Env, root: Value, at: Address): Outcome<Value> {
    var p := PlaceAt(e, root, at);
    if !p.value.Tagged? then Bad(UnknownTag(p.path, ""), [])
    else if !IsEnv(p.value.tag) then Bad(UnknownTag(p.path, p.value.tag), [])
    else if !p.value.value.Str? then Bad(NotAName(p.path, Kind(p.value.value)), [])
    else
      var variable := p.value.value.s;
      match e.lookup(variable)
      case None => Bad(Unset(p.path, variable), [])
      case Some(raw) =>
        var scalar := EnvScalar(e, root, at, raw);
        Done(scalar, if scalar.Str? then [] else [Substitution(p.path, variable, Kind(scalar))])
  }

  /** The substitutions up to the first bad tag, and its error. */
  datatype Scanned = Scanned(subs: seq<Substitution>, error: Option<Error>)

  function Then(a: Scanned, b: Scanned): Scanned {
    if a.error.Some? then a else Scanned(a.subs + b.subs, b.error)
  }

  function ScanOne(o: Outcome<Value>): Scanned {
    match o
    case Done(_, subs) => Scanned(subs, None)
    case Bad(error, subs) => Scanned(subs, Some(error))
  }

  ghost function Scan(e: Env, root: Value, list: seq<Address>): Scanned {
    if list == [] then Scanned([], None)
    else Then(ScanOne(TagOutcome(e, root, list[0])), Scan(e, root, list[1..]))
  }

  lemma ThenAssociative(a: Scanned, b: Scanned, c: Scanned)
    ensures Then(Then(a, b), c) == Then(a, Then(b, c))
    ensures Then(Scanned([], None), a) == a && Then(a, Scanned([], None)) == a
  {
    assert a.subs + b.subs + c.subs == a.subs + (b.subs + c.subs);
    assert [] + a.subs == a.subs && a.subs + [] == a.subs;
  }

  lemma {:induction false} ScanConcat(e: Env, root: Value, a: seq<Address>, b: seq<Address>)
    ensures Scan(e, root, a + b) == Then(Scan(e, root, a), Scan(e, root, b))
  {
    var later := Scan(e, root, b);
    if a == [] {
      assert a + b == b;
      ThenAssociative(later, later, later);
    } else {
      assert (a + b)[1..] == a[1..] + b;
      ScanConcat(e, root, a[1..], b);
      ThenAssociative(ScanOne(TagOutcome(e, root, a[0])), Scan(e, root, a[1..]), later);
    }
  }

  // ---- One tag ----

  /** An `!env` outside `vars:`, case by case: what its variable's text reads as, and the one
      substitution that records a value that isn't text. */
  lemma EnvRetyped(e: Env, root: Value, at: Address, name: string, raw: string)
    requires PlaceAt(e, root, at).value == Tagged("!env", Str(name)) && e.lookup(name) == Some(raw)
    requires !BelowVars(e, root, at)
    ensures var p := PlaceAt(e, root, at);
            var o := ResolveAs(e, p.value, p.path, p.mode);
            && (raw == "" ==> o == Done(Str(""), []))
            && (raw != "" ==>
                  && (e.parse(raw) == Some(Null) ==> o == Done(Null, [Substitution(p.path, name, "null")]))
                  && (forall b | e.parse(raw) == Some(Bool(b)) ::
                        o == Done(Bool(b), [Substitution(p.path, name, "boolean")]))
                  && (forall t | e.parse(raw) == Some(Number(true, t)) ::
                        o == Done(Number(true, t), [Substitution(p.path, name, "integer")]))
                  && (forall t | e.parse(raw) == Some(Number(false, t)) ::
                        o == Done(Number(false, t), [Substitution(p.path, name, "float")]))
                  && (e.parse(raw).None? || !IsScalar(e.parse(raw).value) ==> o == Done(Str(raw), [])))
  {
    VerbatimExactly(e, root, at);
  }

  predicate IsScalar(v: Value) { v.Null? || v.Bool? || v.Number? }

  /** Below `vars:`, its variable's text, whatever it reads as, and no substitution. */
  lemma EnvKept(e: Env, root: Value, at: Address, name: string, raw: string)
    requires PlaceAt(e, root, at).value == Tagged("!env", Str(name)) && e.lookup(name) == Some(raw)
    requires BelowVars(e, root, at)
    ensures var p := PlaceAt(e, root, at);
            ResolveAs(e, p.value, p.path, p.mode) == Done(Str(raw), [])
  {
    VerbatimExactly(e, root, at);
  }

  /** What is refused, and how it is told: an `!env` over anything but a string, over an unset
      variable, and every tag but `!env` and those that start with `!!`. */
  lemma TagRefused(e: Env, path: seq<PathSeg>, mode: Mode, tag: string, v: Value)
    ensures var o := ResolveAs(e, Tagged(tag, v), path, mode);
            && (tag == "!env" ==>
                  && (v == Null ==> o == Bad(NotAName(path, "null"), []))
                  && (v.Bool? ==> o == Bad(NotAName(path, "boolean"), []))
                  && (v.Number? ==> o == Bad(NotAName(path, if v.isInteger then "integer" else "float"), []))
                  && (v.Sequence? ==> o == Bad(NotAName(path, "sequence"), []))
                  && (v.Mapping? ==> o == Bad(NotAName(path, "mapping"), []))
                  && (v.Tagged? ==> o == Bad(NotAName(path, "tagged value"), []))
                  && (v.Str? && e.lookup(v.s).None? ==> o == Bad(Unset(path, v.s), [])))
            && (tag != "!env" && !(|tag| >= 2 && tag[0] == '!' && tag[1] == '!') ==>
                  o == Bad(UnknownTag(path, tag), []))
            && (|tag| >= 2 && tag[0] == '!' && tag[1] == '!' ==>
                  match ResolveAs(e, v, path, mode)
                  case Done(inner, subs) => o == Done(Tagged(tag, inner), subs)
                  case Bad(error, subs) => o == Bad(error, subs))
  {
  }

  // ---- The tree with its scalars in place ----

  ghost function Fill(e: Env, root: Value, v: Value, at: Address): Value
    decreases v, 1
  {
    match v
    case Mapping(entries) => Mapping(Build(e, FillEntries(e, root, entries, 0, at)))
    case Sequence(items) => Sequence(FillItems(e, root, items, 0, at))
    case Tagged(tag, value) =>
      if !Decides(tag) then Tagged(tag, Fill(e, root, value, at + [OfTag]))
      else
        (match TagOutcome(e, root, at)
         case Done(scalar, _) => scalar
         case Bad(_, _) => v)
    case _ => v
  }

  ghost function FillEntry(e: Env, root: Value, entry: Entry, i: nat, at: Address): Entry
    decreases entry, 2
  {
    Entry(Fill(e, root, entry.key, at + [OfKey(i)]), Fill(e, root, entry.value, at + [OfValue(i)]))
  }

  ghost function FillEntries(e: Env, root: Value, entries: seq<Entry>, from: nat, at: Address): seq<Entry>
    decreases entries, 0
  {
    if entries == [] then []
    else [FillEntry(e, root, entries[0], from, at)] + FillEntries(e, root, entries[1..], from + 1, at)
  }

  ghost function FillItems(e: Env, root: Value, items: seq<Value>, from: nat, at: Address): seq<Value>
    decreases items, 0
  {
    if items == [] then []
    else [Fill(e, root, items[0], at + [OfItem(from)])] + FillItems(e, root, items[1..], from + 1, at)
  }

  // ---- The walk is the scan ----

  function Outcomes<T>(value: T, s: Scanned): Outcome<T> {
    match s.error
    case None => Done(value, s.subs)
    case Some(error) => Bad(error, s.subs)
  }

  /** The walk of the node at an address. */
  lemma {:induction false} WalkIsScan(e: Env, root: Value, v: Value, at: Address)
    requires PlaceAt(e, root, at).value == v
    ensures var p := PlaceAt(e, root, at);
            ResolveAs(e, v, p.path, p.mode) == Outcomes(Fill(e, root, v, at), Scan(e, root, TagAddresses(v, at)))
    decreases v, 1
  {
    var p := PlaceAt(e, root, at);
    match v
    case Mapping(entries) => EntriesScan(e, root, entries, entries, 0, at);
    case Sequence(items) => ItemsScan(e, root, items, items, 0, at);
    case Tagged(tag, value) =>
      if Decides(tag) {
        TagScan(e, root, at);
      } else {
        Child(e, root, at, OfTag);
        WalkIsScan(e, root, value, at + [OfTag]);
      }
    case _ =>
  }

  lemma TagScan(e: Env, root: Value, at: Address)
    requires PlaceAt(e, root, at).value.Tagged? && Decides(PlaceAt(e, root, at).value.tag)
    ensures var p := PlaceAt(e, root, at);
            ResolveAs(e, p.value, p.path, p.mode) == Outcomes(Fill(e, root, p.value, at), Scan(e, root, [at]))
  {
    var p, o := PlaceAt(e, root, at), TagOutcome(e, root, at);
    VerbatimExactly(e, root, at);
    assert ResolveAs(e, p.value, p.path, p.mode) == o;
    assert [at][1..] == [];
    ThenAssociative(ScanOne(o), ScanOne(o), ScanOne(o));
  }

  lemma {:induction false} EntryScan(e: Env, root: Value, entries: seq<Entry>, entry: Entry, i: nat, at: Address)
    requires PlaceAt(e, root, at).value == Mapping(entries) && i < |entries| && entries[i] == entry
    ensures var p := PlaceAt(e, root, at);
            ResolveEntry(e, entry, p.path, p.mode, IsLua(e, p.path, entries))
              == Outcomes(FillEntry(e, root, entry, i, at), Scan(e, root, OneEntryTags(entry, i, at)))
    decreases entry, 2
  {
    var p := PlaceAt(e, root, at);
    var keyAt, valueAt := at + [OfKey(i)], at + [OfValue(i)];
    Child(e, root, at, OfKey(i));
    Child(e, root, at, OfValue(i));
    ScanConcat(e, root, TagAddresses(entry.key, keyAt), TagAddresses(entry.value, valueAt));
    WalkIsScan(e, root, entry.key, keyAt);
    WalkIsScan(e, root, entry.value, valueAt);
    var q := PlaceAt(e, root, valueAt);
    var key := ResolveAs(e, entry.key, p.path, p.mode);
    if key.Done? {
      assert q.path == p.path + [Key(Label(key.value))];
      assert q.mode == EntryMode(IsLua(e, p.path, entries), Label(key.value), p.mode);
    }
  }

  lemma {:induction false} EntriesScan(e: Env, root: Value, entries: seq<Entry>, rest: seq<Entry>, from: nat,
                                       at: Address)
    requires PlaceAt(e, root, at).value == Mapping(entries) && from <= |entries| && rest == entries[from..]
    ensures var p := PlaceAt(e, root, at);
            ResolveEntries(e, rest, p.path, p.mode, IsLua(e, p.path, entries))
              == Outcomes(FillEntries(e, root, rest, from, at), Scan(e, root, EntryTags(rest, from, at)))
    decreases rest, 0
  {
    if rest != [] {
      assert rest[0] == entries[from] && rest[1..] == entries[from + 1..];
      EntryScan(e, root, entries, rest[0], from, at);
      EntriesScan(e, root, entries, rest[1..], from + 1, at);
      ScanConcat(e, root, OneEntryTags(rest[0], from, at), EntryTags(rest[1..], from + 1, at));
    }
  }

  lemma {:induction false} ItemsScan(e: Env, root: Value, items: seq<Value>, rest: seq<Value>, from: nat, at: Address)
    requires PlaceAt(e, root, at).value == Sequence(items) && from <= |items| && rest == items[from..]
    ensures var p := PlaceAt(e, root, at);
            ResolveItems(e, rest, from, p.path, p.mode)
              == Outcomes(FillItems(e, root, rest, from, at), Scan(e, root, ItemTags(rest, from, at)))
    decreases rest, 0
  {
    if rest != [] {
      assert rest[0] == items[from] && rest[1..] == items[from + 1..];
      Child(e, root, at, OfItem(from));
      WalkIsScan(e, root, rest[0], at + [OfItem(from)]);
      ItemsScan(e, root, items, rest[1..], from + 1, at);
      ScanConcat(e, root, TagAddresses(rest[0], at + [OfItem(from)]), ItemTags(rest[1..], from + 1, at));
    }
  }

  /** Resolution of a whole tree: an error exactly when some deciding tag is bad, and then the first
      one's, with the substitutions of the tags before it; otherwise every tag's scalar in its
      place, and every substitution, in document order. */
  lemma Meaning(e: Env, root: Value)
    ensures Resolve(e, root) == Outcomes(Fill(e, root, root, []), Scan(e, root, TagAddresses(root, [])))
  {
    WalkIsScan(e, root, root, []);
  }
}
