/**
 What `resolve_as` of `crates/logit-cli/src/config.rs` makes of a mapping: when keys meet after
 resolution, the first one's place and the last one's value; and what its entries are called in the
 paths of errors and substitutions.
 */
module ConfigMappings {
  import opened Config
  import opened ConfigMeaning
  import opened Wrappers

  // ---- Keys that meet ----

  /** Key equality is one. */
  ghost predicate IsEquality(same: (Value, Value) -> bool) {
    && (forall a :: same(a, a))
    && (forall a, b | same(a, b) :: same(b, a))
    && (forall a, b, c | same(a, b) && same(b, c) :: same(a, c))
  }

  /** The first of the entries that has its key. */
  ghost predicate IsFirst(e: Env, list: seq<Entry>, i: int) {
    0 <= i < |list| && forall j | 0 <= j < i :: !e.same(list[j].key, list[i].key)
  }

  /** The last of the entries that has the key. */
  ghost predicate IsLast(e: Env, list: seq<Entry>, key: Value, i: int) {
    0 <= i < |list| && e.same(list[i].key, key) && forall j | i < j < |list| :: !e.same(list[j].key, key)
  }

  /** `firsts` are the entries whose key is new, in order; the mapping has their keys, each with the
      value of the last entry of that key. */
  ghost predicate Merges(e: Env, list: seq<Entry>, m: seq<Entry>, firsts: seq<nat>) {
    && |firsts| == |m|
    && (forall k, l | 0 <= k < l < |firsts| :: firsts[k] < firsts[l])
    && (forall k | 0 <= k < |firsts| :: IsFirst(e, list, firsts[k]))
    && (forall i | IsFirst(e, list, i) :: i in firsts)
    && (forall k | 0 <= k < |m| :: MergedAt(e, list, m, firsts, k))
  }

  ghost predicate MergedAt(e: Env, list: seq<Entry>, m: seq<Entry>, firsts: seq<nat>, k: int)
    requires 0 <= k < |m| == |firsts|
  {
    && firsts[k] < |list| && m[k].key == list[firsts[k]].key
    && exists i :: IsLast(e, list, m[k].key, i) && m[k].value == list[i].value
  }

  lemma FirstInFront(e: Env, list: seq<Entry>, entry: Entry, i: int)
    requires i < |list|
    ensures IsFirst(e, list + [entry], i) <==> IsFirst(e, list, i)
  {
    var all := list + [entry];
    assert forall j | 0 <= j < |list| :: all[j] == list[j];
  }

  lemma LastInFront(e: Env, list: seq<Entry>, entry: Entry, key: Value, i: int)
    requires IsLast(e, list, key, i) && !e.same(entry.key, key)
    ensures IsLast(e, list + [entry], key, i)
  {
  }

  /** Every entry's key is some first one's. */
  lemma {:induction false} HasFirst(e: Env, list: seq<Entry>, i: nat) returns (f: nat)
    requires IsEquality(e.same) && i < |list|
    ensures IsFirst(e, list, f) && f <= i && e.same(list[f].key, list[i].key)
  {
    f := i;
    if !IsFirst(e, list, i) {
      var j :| 0 <= j < i && e.same(list[j].key, list[i].key);
      f := HasFirst(e, list, j);
    }
  }

  /** A key that is there: its place stays, its value is the new one. */
  lemma MetKey(e: Env, list: seq<Entry>, m: seq<Entry>, firsts: seq<nat>, entry: Entry, at: nat)
    requires IsEquality(e.same) && Merges(e, list, m, firsts)
    requires at < |m| && e.same(m[at].key, entry.key)
    requires forall i | 0 <= i < |m| && i != at :: !e.same(m[i].key, entry.key)
    ensures Merges(e, list + [entry], m[at := Entry(m[at].key, entry.value)], firsts)
  {
    var all, m' := list + [entry], m[at := Entry(m[at].key, entry.value)];
    FirstsStay(e, list, firsts, entry);
    assert MergedAt(e, list, m, firsts, at);
    assert !IsFirst(e, all, |list|) by {
      assert all[firsts[at]] == list[firsts[at]];
    }
    forall k | 0 <= k < |m'|
      ensures MergedAt(e, all, m', firsts, k)
    {
      assert MergedAt(e, list, m, firsts, k);
      if k == at {
        assert IsLast(e, all, m'[k].key, |list|);
      } else {
        OtherStays(e, list, m, firsts, entry, m', k);
      }
    }
  }

  /** An entry with another key leaves one as it is. */
  lemma OtherStays(e: Env, list: seq<Entry>, m: seq<Entry>, firsts: seq<nat>, entry: Entry, m': seq<Entry>, k: nat)
    requires k < |m| == |firsts| && MergedAt(e, list, m, firsts, k) && IsEquality(e.same)
    requires k < |m'| && m'[k] == m[k] && !e.same(m[k].key, entry.key)
    ensures firsts[k] < |list| && m'[k].key == (list + [entry])[firsts[k]].key
    ensures exists i :: IsLast(e, list + [entry], m'[k].key, i) && m'[k].value == (list + [entry])[i].value
  {
    var i :| IsLast(e, list, m[k].key, i) && m[k].value == list[i].value;
    assert !e.same(entry.key, m[k].key);
    LastInFront(e, list, entry, m[k].key, i);
    assert (list + [entry])[i] == list[i];
  }

  lemma FirstsStay(e: Env, list: seq<Entry>, firsts: seq<nat>, entry: Entry)
    requires forall k | 0 <= k < |firsts| :: IsFirst(e, list, firsts[k])
    requires forall i | IsFirst(e, list, i) :: i in firsts
    ensures forall k | 0 <= k < |firsts| :: IsFirst(e, list + [entry], firsts[k])
    ensures forall i | IsFirst(e, list + [entry], i) && i < |list| :: i in firsts
  {
    forall i | 0 <= i < |list|
      ensures IsFirst(e, list + [entry], i) <==> IsFirst(e, list, i)
    {
      FirstInFront(e, list, entry, i);
    }
  }

  /** A key that isn't: a new place at the end. */
  lemma NewKey(e: Env, list: seq<Entry>, m: seq<Entry>, firsts: seq<nat>, entry: Entry)
    requires IsEquality(e.same) && Merges(e, list, m, firsts)
    requires forall i | 0 <= i < |m| :: !e.same(m[i].key, entry.key)
    ensures Merges(e, list + [entry], m + [entry], firsts + [|list|])
  {
    var all, m', firsts' := list + [entry], m + [entry], firsts + [|list|];
    FirstsStay(e, list, firsts, entry);
    NoneSame(e, list, m, firsts, entry);
    assert IsLast(e, all, entry.key, |list|) && all[|list|] == entry;
    forall k | 0 <= k < |m'|
      ensures MergedAt(e, all, m', firsts', k)
    {
      if k < |m| {
        assert MergedAt(e, list, m, firsts, k);
        OtherStays(e, list, m, firsts, entry, m', k);
      }
    }
  }

  lemma NoneSame(e: Env, list: seq<Entry>, m: seq<Entry>, firsts: seq<nat>, entry: Entry)
    requires IsEquality(e.same) && Merges(e, list, m, firsts)
    requires forall i | 0 <= i < |m| :: !e.same(m[i].key, entry.key)
    ensures IsFirst(e, list + [entry], |list|)
  {
    forall j | 0 <= j < |list|
      ensures !e.same(list[j].key, entry.key)
    {
      var f := HasFirst(e, list, j);
      var k :| 0 <= k < |firsts| && firsts[k] == f;
      assert MergedAt(e, list, m, firsts, k);
      assert m[k].key == list[f].key;
    }
  }

  /** No two keys of the mapping are the same. */
  lemma DistinctMerged(e: Env, list: seq<Entry>, m: seq<Entry>, firsts: seq<nat>, at: nat, entry: Entry)
    requires IsEquality(e.same) && Merges(e, list, m, firsts) && at < |m| && e.same(m[at].key, entry.key)
    ensures forall i | 0 <= i < |m| && i != at :: !e.same(m[i].key, entry.key)
  {
    forall i | 0 <= i < |m| && i != at
      ensures !e.same(m[i].key, entry.key)
    {
      assert MergedAt(e, list, m, firsts, i) && MergedAt(e, list, m, firsts, at);
      var a, b := if i < at then i else at, if i < at then at else i;
      assert firsts[a] < firsts[b] && IsFirst(e, list, firsts[b]);
      assert !e.same(m[a].key, m[b].key);
    }
  }

  /** What the entries of a mapping come to, inserted one by one. */
  lemma {:induction false} BuildMerges(e: Env, list: seq<Entry>) returns (firsts: seq<nat>)
    requires IsEquality(e.same)
    ensures Merges(e, list, Build(e, list), firsts)
  {
    firsts := [];
    if list != [] {
      var front, entry := list[..|list| - 1], list[|list| - 1];
      var before := BuildMerges(e, front);
      var m := Build(e, front);
      var at := FindKey(e, m, entry.key);
      assert list == front + [entry];
      if at < |m| {
        DistinctMerged(e, front, m, before, at, entry);
        MetKey(e, front, m, before, entry, at);
        firsts := before;
      } else {
        NewKey(e, front, m, before, entry);
        firsts := before + [|front|];
      }
    }
  }

  // ---- Paths ----

  /** What a key is called in a path: a string by itself, anything else by its kind. */
  predicate IsCalled(key: Value, name: string) {
    match key
    case Str(s) => name == s
    case Null => name == "<null>"
    case Bool(_) => name == "<boolean>"
    case Number(isInteger, _) => name == if isInteger then "<integer>" else "<float>"
    case Sequence(_) => name == "<sequence>"
    case Mapping(_) => name == "<mapping>"
    case Tagged(_, _) => name == "<tagged value>"
  }

  lemma Called(key: Value)
    ensures IsCalled(key, Label(key))
  {
  }

  lemma EnterEntry(e: Env, p: Place, i: nat, key: Value)
    requires p.value.Mapping? && i < |p.value.entries|
    requires var o := ResolveAs(e, p.value.entries[i].key, p.path, p.mode); o.Done? && o.value == key
    ensures Enter(e, p, OfValue(i)).path == p.path + [Key(Label(key))] && Enter(e, p, OfKey(i)).path == p.path
  {
  }

  /** An entry's value stands below its mapping's path and its resolved key's name; its key stands
      where the mapping does. */
  lemma EntryPath(e: Env, root: Value, at: Address, i: nat, key: Value) returns (name: string)
    requires var p := PlaceAt(e, root, at);
             && p.value.Mapping? && i < |p.value.entries|
             && var o := ResolveAs(e, p.value.entries[i].key, p.path, p.mode); o.Done? && o.value == key
    ensures IsCalled(key, name)
    ensures PlaceAt(e, root, at + [OfValue(i)]).path == PlaceAt(e, root, at).path + [Key(name)]
    ensures PlaceAt(e, root, at + [OfKey(i)]).path == PlaceAt(e, root, at).path
  {
    name := Label(key);
    Called(key);
    EnterEntry(e, PlaceAt(e, root, at), i, key);
    Child(e, root, at, OfValue(i));
    Child(e, root, at, OfKey(i));
  }
}
