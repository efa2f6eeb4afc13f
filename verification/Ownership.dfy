/**
 The consumer-group judge of `tools/kafka-interop/check.py`: `ownership` turns every member's reads
 of a topic into missing offsets, duplicate reads and member changes per partition, and
 `judge_group` holds them against a leg's thresholds.

 A dictionary whose items are walked is a sequence here, in the order Python walks it.
 */
module Ownership {
  import Bytes
  import opened Wrappers

  /** The record an event arrived in, and its `seq` attribute. */
  datatype Event = Event(topic: Option<string>, partition: int, offset: int, sequence: Option<int>)
  datatype Member = Member(name: string, events: seq<Event>)
  datatype End = End(topic: string, partition: int, end: nat)

  type Place = (int, int)
  datatype Read = Read(member: string, place: Place)

  // ---- What the members read ----

  function EventReads(name: string, events: seq<Event>, topic: string): seq<Read> {
    if events == [] then []
    else EventReads(name, events[..|events| - 1], topic) + ReadOf(name, events[|events| - 1], topic)
  }

  function ReadOf(name: string, e: Event, topic: string): seq<Read> {
    if e.topic == Some(topic) then [Read(name, (e.partition, e.offset))] else []
  }

  /** Every read of `topic`, in the order `ownership` walks them. */
  function Reads(members: seq<Member>, topic: string): seq<Read> {
    if members == [] then []
    else
      var last := |members| - 1;
      Reads(members[..last], topic) + EventReads(members[last].name, members[last].events, topic)
  }

  /** The members that read `place`, in order, once per read. */
  function Readers(log: seq<Read>, place: Place): seq<string> {
    if log == [] then []
    else
      var last := |log| - 1;
      Readers(log[..last], place) + if log[last].place == place then [log[last].member] else []
  }

  function CountOf(log: seq<Read>, member: string): nat {
    if log == [] then 0
    else
      var last := |log| - 1;
      CountOf(log[..last], member) + if log[last].member == member then 1 else 0
  }

  function Places(log: seq<Read>): set<Place> {
    set r <- log :: r.place
  }

  // ---- What `ownership` reports, as functions of the reads ----

  function MissingIn(log: seq<Read>, partition: int, end: nat): nat {
    if end == 0 then 0
    else MissingIn(log, partition, end - 1)
         + if Readers(log, (partition, end - 1)) == [] then 1 else 0
  }

  function Missing(log: seq<Read>, topic: string, ends: seq<End>): nat {
    if ends == [] then 0
    else
      var last := |ends| - 1;
      Missing(log, topic, ends[..last])
      + if ends[last].topic == topic then MissingIn(log, ends[last].partition, ends[last].end) else 0
  }

  /** An offset read, and by one member only, however often. */
  predicate Sole(readers: seq<string>) {
    readers != [] && forall r <- readers :: r == readers[0]
  }

  function OwnerOf(readers: seq<string>): seq<string> {
    if Sole(readers) then [readers[0]] else []
  }

  /** The owner of each offset below `end` that has just one. */
  function Owners(log: seq<Read>, partition: int, end: nat): seq<string> {
    if end == 0 then []
    else Owners(log, partition, end - 1) + OwnerOf(Readers(log, (partition, end - 1)))
  }

  /** How often neighbours differ. */
  function Changes(owners: seq<string>): nat {
    if |owners| <= 1 then 0
    else
      var last := |owners| - 1;
      Changes(owners[..last]) + if owners[last - 1] != owners[last] then 1 else 0
  }

  function Switches(log: seq<Read>, partition: int, end: nat): nat {
    Changes(Owners(log, partition, end))
  }

  // ---- The walk ----

  /** The dictionaries hold what the reads so far say. */
  ghost predicate Tallied(readers: map<Place, seq<string>>, perMember: map<string, nat>, log: seq<Read>) {
    && readers.Keys == Places(log)
    && (forall p <- readers :: readers[p] == Readers(log, p))
    && (forall m :: m in perMember <==> CountOf(log, m) > 0)
    && (forall m <- perMember :: perMember[m] == CountOf(log, m))
  }

  lemma OneMoreRead(log: seq<Read>, read: Read, p: Place, m: string)
    ensures Readers(log + [read], p) == Readers(log, p) + if p == read.place then [read.member] else []
    ensures CountOf(log + [read], m) == CountOf(log, m) + if m == read.member then 1 else 0
    ensures Places(log + [read]) == Places(log) + {read.place}
  {
    assert (log + [read])[..|log|] == log;
  }

  /** `readers.setdefault(place, []).append(member)`. */
  method TallyReader(readers: map<Place, seq<string>>, read: Read, ghost log: seq<Read>)
      returns (readers': map<Place, seq<string>>)
    requires readers.Keys == Places(log) && forall p <- readers :: readers[p] == Readers(log, p)
    ensures readers'.Keys == Places(log + [read])
    ensures forall p <- readers' :: readers'[p] == Readers(log + [read], p)
  {
    var seen := if read.place in readers then readers[read.place] else [];
    readers' := readers[read.place := seen + [read.member]];
    ReadHere(readers, read, log);
    forall p <- readers' | p != read.place
      ensures readers'[p] == Readers(log + [read], p)
    {
      ReadElsewhere(log, read, p);
    }
  }

  lemma ReadHere(readers: map<Place, seq<string>>, read: Read, log: seq<Read>)
    requires readers.Keys == Places(log) && forall p <- readers :: readers[p] == Readers(log, p)
    ensures Places(log + [read]) == readers.Keys + {read.place}
    ensures Readers(log + [read], read.place)
         == (if read.place in readers then readers[read.place] else []) + [read.member]
  {
    OneMoreRead(log, read, read.place, "");
    NoReadersElsewhere(log, read.place);
  }

  lemma ReadElsewhere(log: seq<Read>, read: Read, p: Place)
    requires p != read.place
    ensures Readers(log + [read], p) == Readers(log, p)
  {
    OneMoreRead(log, read, p, "");
  }

  /** `per_member[member] = per_member.get(member, 0) + 1`. */
  method TallyMember(perMember: map<string, nat>, read: Read, ghost log: seq<Read>)
      returns (perMember': map<string, nat>)
    requires forall m :: m in perMember <==> CountOf(log, m) > 0
    requires forall m <- perMember :: perMember[m] == CountOf(log, m)
    ensures forall m :: m in perMember' <==> CountOf(log + [read], m) > 0
    ensures forall m <- perMember' :: perMember'[m] == CountOf(log + [read], m)
  {
    var count := if read.member in perMember then perMember[read.member] else 0;
    perMember' := perMember[read.member := count + 1];
    forall m
      ensures CountOf(log + [read], m) == CountOf(log, m) + if m == read.member then 1 else 0
    {
      OneMoreRead(log, read, read.place, m);
    }
  }

  lemma {:induction false} NoReadersElsewhere(log: seq<Read>, place: Place)
    ensures place !in Places(log) <==> Readers(log, place) == []
  {
    if log != [] {
      var last := |log| - 1;
      NoReadersElsewhere(log[..last], place);
      assert log == log[..last] + [log[last]];
      assert Places(log) == Places(log[..last]) + {log[last].place};
    }
  }

  lemma OneMoreEvent(name: string, events: seq<Event>, i: nat, topic: string)
    requires i < |events|
    ensures EventReads(name, events[..i + 1], topic)
         == EventReads(name, events[..i], topic) + ReadOf(name, events[i], topic)
  {
    assert events[..i + 1][..i] == events[..i];
  }

  /** One event's turn: counted in both tallies if it is the topic's. */
  method TallyEvent(readers: map<Place, seq<string>>, perMember: map<string, nat>, name: string, event: Event,
                    topic: string, ghost log: seq<Read>)
      returns (readers': map<Place, seq<string>>, perMember': map<string, nat>, n: nat)
    requires Tallied(readers, perMember, log)
    ensures Tallied(readers', perMember', log + ReadOf(name, event, topic)) && n == |ReadOf(name, event, topic)|
  {
    if event.topic != Some(topic) {
      assert log + [] == log;
      return readers, perMember, 0;
    }
    var read := Read(name, (event.partition, event.offset));
    readers' := TallyReader(readers, read, log);
    perMember' := TallyMember(perMember, read, log);
    n := 1;
  }

  method WalkEvents(member: Member, topic: string, readers0: map<Place, seq<string>>,
                    perMember0: map<string, nat>, ghost log: seq<Read>)
      returns (readers: map<Place, seq<string>>, perMember: map<string, nat>, count: nat)
    requires Tallied(readers0, perMember0, log)
    ensures var mine := EventReads(member.name, member.events, topic);
            Tallied(readers, perMember, log + mine) && count == |mine|
  {
    readers, perMember, count := readers0, perMember0, 0;
    ghost var events, mine := member.events, [];
    assert log + mine == log;
    for i := 0 to |member.events|
      invariant mine == EventReads(member.name, events[..i], topic)
      invariant Tallied(readers, perMember, log + mine) && count == |mine|
    {
      var n;
      ghost var added := ReadOf(member.name, events[i], topic);
      readers, perMember, n := TallyEvent(readers, perMember, member.name, member.events[i], topic, log + mine);
      OneMoreEvent(member.name, events, i, topic);
      Bytes.Assoc(log, mine, added);
      mine, count := mine + added, count + n;
    }
    assert events[..|events|] == events;
  }

  method Walk(members: seq<Member>, topic: string)
      returns (readers: map<Place, seq<string>>, perMember: map<string, nat>, count: nat)
    ensures Tallied(readers, perMember, Reads(members, topic)) && count == |Reads(members, topic)|
  {
    readers, perMember, count := map[], map[], 0;
    for i := 0 to |members|
      invariant Tallied(readers, perMember, Reads(members[..i], topic))
      invariant count == |Reads(members[..i], topic)|
    {
      var added;
      readers, perMember, added := WalkEvents(members[i], topic, readers, perMember, Reads(members[..i], topic));
      count := count + added;
      assert members[..i + 1][..i] == members[..i];
    }
    assert members[..|members|] == members;
  }

  method CountMissing(readers: map<Place, seq<string>>, topic: string, ends: seq<End>, ghost log: seq<Read>)
      returns (missing: nat)
    requires readers.Keys == Places(log)
    ensures missing == Missing(log, topic, ends)
  {
    missing := 0;
    for i := 0 to |ends|
      invariant missing == Missing(log, topic, ends[..i])
    {
      assert ends[..i + 1][..i] == ends[..i];
      var End(t, partition, end) := ends[i];
      if t == topic {
        ghost var before := missing;
        for o := 0 to end
          invariant missing == before + MissingIn(log, partition, o)
        {
          NoReadersElsewhere(log, (partition, o));
          if (partition, o) !in readers {
            missing := missing + 1;
          }
        }
      }
    }
    assert ends[..|ends|] == ends;
  }

  method SoleOwner(readers: map<Place, seq<string>>, place: Place, ghost log: seq<Read>)
      returns (owner: seq<string>)
    requires readers.Keys == Places(log) && forall p <- readers :: readers[p] == Readers(log, p)
    ensures owner == OwnerOf(Readers(log, place))
  {
    var mine := if place in readers then readers[place] else [];
    NoReadersElsewhere(log, place);
    OneName(mine);
    owner := if |Names(mine)| == 1 then [mine[0]] else [];
  }

  method ListOwners(readers: map<Place, seq<string>>, partition: int, end: nat, ghost log: seq<Read>)
      returns (owners: seq<string>)
    requires readers.Keys == Places(log) && forall p <- readers :: readers[p] == Readers(log, p)
    ensures owners == Owners(log, partition, end)
  {
    owners := [];
    for o := 0 to end
      invariant owners == Owners(log, partition, o)
    {
      var owner := SoleOwner(readers, (partition, o), log);
      owners := owners + owner;
    }
  }

  method CountSwitches(owners: seq<string>) returns (switches: nat)
    ensures switches == Changes(owners)
  {
    switches := 0;
    for i := 0 to |owners|
      invariant switches == Changes(owners[..i])
    {
      assert owners[..i + 1] == owners[..i] + [owners[i]];
      OneMoreOwner(owners[..i], owners[i]);
      if i > 0 && owners[i - 1] != owners[i] {
        switches := switches + 1;
      }
    }
    assert owners[..|owners|] == owners;
  }

  function Names(names: seq<string>): set<string> {
    set r | r in names
  }

  /** `len(set(names)) == 1` says that all the names are the first one. */
  lemma OneName(names: seq<string>)
    ensures |Names(names)| == 1 <==> Sole(names)
  {
    if names != [] {
      var rest := Names(names) - {names[0]};
      assert names[0] in Names(names);
      assert Names(names) == rest + {names[0]};
      assert Sole(names) <==> rest == {} by {
        assert forall r <- names :: r == names[0] || r in rest;
      }
    }
  }

  /** No partition is listed twice: `ends` is a dictionary. */
  predicate DistinctEnds(ends: seq<End>) {
    forall i, j | 0 <= i < j < |ends| :: ends[i].topic != ends[j].topic || ends[i].partition != ends[j].partition
  }

  method Ownership(members: seq<Member>, topic: string, ends: seq<End>)
      returns (missing: nat, duplicates: nat, switches: map<int, nat>, perMember: map<string, nat>)
    requires DistinctEnds(ends)
    ensures missing == Missing(Reads(members, topic), topic, ends)
    ensures duplicates == Rereads(Reads(members, topic))
    ensures forall p :: p in switches <==> exists e <- ends :: e.topic == topic && e.partition == p
    ensures forall e <- ends | e.topic == topic ::
              e.partition in switches && switches[e.partition] == Switches(Reads(members, topic), e.partition, e.end)
    ensures forall m :: m in perMember <==> CountOf(Reads(members, topic), m) > 0
    ensures forall m <- perMember :: perMember[m] == CountOf(Reads(members, topic), m)
  {
    ghost var log := Reads(members, topic);
    var readers, count;
    readers, perMember, count := Walk(members, topic);
    missing := CountMissing(readers, topic, ends, log);
    switches := SwitchesByPartition(readers, topic, ends, log);
    RereadsCount(log);
    assert readers.Keys == Places(log);
    duplicates := count - |readers|;
  }

  /** The switches counted for some ends: one entry for each of the topic's partitions. */
  ghost predicate Counted(switches: map<int, nat>, log: seq<Read>, topic: string, ends: seq<End>) {
    && (forall p :: p in switches <==> HasPartition(topic, ends, p))
    && (forall e <- ends | e.topic == topic ::
          e.partition in switches && switches[e.partition] == Switches(log, e.partition, e.end))
  }

  method SwitchesByPartition(readers: map<Place, seq<string>>, topic: string, ends: seq<End>, ghost log: seq<Read>)
      returns (switches: map<int, nat>)
    requires readers.Keys == Places(log) && forall p <- readers :: readers[p] == Readers(log, p)
    requires DistinctEnds(ends)
    ensures Counted(switches, log, topic, ends)
  {
    switches := map[];
    ghost var done: seq<End> := [];
    for i := 0 to |ends|
      invariant done == ends[..i] && Counted(switches, log, topic, done)
    {
      EndIsNew(ends, i);
      switches := CountPartition(readers, topic, ends[i], switches, done, log);
      done := done + [ends[i]];
    }
    assert done == ends;
  }

  /** One end's turn: its partition's switches, if it is the topic's. */
  method CountPartition(readers: map<Place, seq<string>>, topic: string, end: End, switches: map<int, nat>,
                        ghost done: seq<End>, ghost log: seq<Read>)
      returns (switches': map<int, nat>)
    requires readers.Keys == Places(log) && forall p <- readers :: readers[p] == Readers(log, p)
    requires Counted(switches, log, topic, done)
    requires forall e <- done :: e.topic != end.topic || e.partition != end.partition
    ensures Counted(switches', log, topic, done + [end])
  {
    if end.topic != topic {
      OtherTopic(switches, log, topic, done, end);
      return switches;
    }
    var owners := ListOwners(readers, end.partition, end.end, log);
    var n := CountSwitches(owners);
    OneMoreCounted(switches, log, topic, done, end);
    switches' := switches[end.partition := n];
  }

  lemma EndIsNew(ends: seq<End>, i: nat)
    requires DistinctEnds(ends) && i < |ends|
    ensures forall e <- ends[..i] :: e.topic != ends[i].topic || e.partition != ends[i].partition
  {
  }

  lemma OneMoreCounted(switches: map<int, nat>, log: seq<Read>, topic: string, ends: seq<End>, end: End)
    requires Counted(switches, log, topic, ends) && end.topic == topic
    requires forall e <- ends :: e.topic != topic || e.partition != end.partition
    ensures Counted(switches[end.partition := Switches(log, end.partition, end.end)], log, topic, ends + [end])
  {
    var after := switches[end.partition := Switches(log, end.partition, end.end)];
    PartitionsGrow(topic, ends, end);
    forall e <- ends + [end] | e.topic == topic
      ensures e.partition in after && after[e.partition] == Switches(log, e.partition, e.end)
    {
      assert e in ends || e == end;
    }
  }

  lemma OtherTopic(switches: map<int, nat>, log: seq<Read>, topic: string, ends: seq<End>, end: End)
    requires Counted(switches, log, topic, ends) && end.topic != topic
    ensures Counted(switches, log, topic, ends + [end])
  {
    PartitionsGrow(topic, ends, end);
    assert forall e <- ends + [end] | e.topic == topic :: e in ends;
  }

  predicate HasPartition(topic: string, ends: seq<End>, p: int) {
    exists e <- ends :: e.topic == topic && e.partition == p
  }

  lemma PartitionsGrow(topic: string, ends: seq<End>, end: End)
    ensures forall p :: HasPartition(topic, ends + [end], p)
                   <==> HasPartition(topic, ends, p) || (end.topic == topic && end.partition == p)
  {
    forall p
      ensures HasPartition(topic, ends + [end], p)
         <==> HasPartition(topic, ends, p) || (end.topic == topic && end.partition == p)
    {
      assert forall e :: e in ends + [end] <==> e in ends || e == end;
    }
  }

  // ---- Duplicates ----

  /** The reads beyond the first of an offset. */
  function Rereads(log: seq<Read>): nat {
    if log == [] then 0
    else
      var last := |log| - 1;
      Rereads(log[..last]) + if log[last].place in Places(log[..last]) then 1 else 0
  }

  lemma {:induction false} RereadsCount(log: seq<Read>)
    ensures Rereads(log) == |log| - |Places(log)|
  {
    if log == [] {
      assert Places(log) == {};
    } else {
      var last := |log| - 1;
      RereadsCount(log[..last]);
      assert log == log[..last] + [log[last]];
      OneMorePlace(log[..last], log[last]);
    }
  }

  lemma {:induction false} OneMorePlace(log: seq<Read>, r: Read)
    ensures |Places(log + [r])| == |Places(log)| + if r.place in Places(log) then 0 else 1
  {
    assert Places(log + [r]) == Places(log) + {r.place};
  }

  // ---- Ownership segments ----

  /** One stretch of a member's ownership of a partition: the offsets in `start..stop`. */
  datatype Segment = Segment(member: string, start: nat, stop: nat)

  predicate Covers(s: Segment, o: int) { s.start <= o < s.stop }

  predicate OwnedBy(segs: seq<Segment>, m: string, o: int) {
    exists s <- segs :: s.member == m && Covers(s, o)
  }

  predicate Owned(segs: seq<Segment>, o: int) {
    exists s <- segs :: Covers(s, o)
  }

  /** The partition's reads are those of the segments, each offset read by those that cover it. */
  ghost predicate ReadInSegments(log: seq<Read>, partition: int, segs: seq<Segment>) {
    forall o, m :: m in Readers(log, (partition, o)) <==> OwnedBy(segs, m, o)
  }

  /** How many segments have started by offset `o`. */
  function Started(segs: seq<Segment>, o: int): (n: nat)
    ensures n <= |segs|
  {
    if segs == [] then 0 else (if segs[0].start <= o then 1 else 0) + Started(segs[1..], o)
  }

  lemma {:induction false} StartedGrows(segs: seq<Segment>, o: int, o': int)
    requires o <= o'
    ensures Started(segs, o) <= Started(segs, o')
    ensures (exists s <- segs :: o < s.start <= o') ==> Started(segs, o) < Started(segs, o')
    ensures (exists s <- segs :: s.start <= o') ==> 0 < Started(segs, o')
  {
    if segs != [] {
      StartedGrows(segs[1..], o, o');
      assert segs == [segs[0]] + segs[1..];
    }
  }

  lemma OneMoreOwner(owners: seq<string>, m: string)
    ensures Changes(owners + [m])
         == Changes(owners) + if owners != [] && owners[|owners| - 1] != m then 1 else 0
  {
    assert (owners + [m])[..|owners|] == owners;
  }

  /** An offset with another sole owner than an earlier one has a segment that starts between. */
  lemma LaterSegment(log: seq<Read>, partition: int, segs: seq<Segment>, last: int, o: int)
    requires ReadInSegments(log, partition, segs) && last <= o
    requires Sole(Readers(log, (partition, o)))
    ensures 0 < Started(segs, o)
    ensures Readers(log, (partition, o))[0] !in Readers(log, (partition, last))
            ==> Started(segs, last) < Started(segs, o)
  {
    var m := Readers(log, (partition, o))[0];
    assert m in Readers(log, (partition, o)) && OwnedBy(segs, m, o);
    var s :| s in segs && s.member == m && Covers(s, o);
    StartedGrows(segs, last, o);
    if m !in Readers(log, (partition, last)) {
      assert !OwnedBy(segs, m, last);
      assert !Covers(s, last);
    }
  }

  /** `last` is the last owned offset below `end`, and every change so far has used up the start of
      a segment at or before it. */
  ghost predicate ChangesPaid(log: seq<Read>, partition: int, end: nat, segs: seq<Segment>, last: nat) {
    var owners := Owners(log, partition, end);
    owners == [] || (last < end && LastPaid(owners, Readers(log, (partition, last)), Started(segs, last)))
  }

  ghost predicate LastPaid(owners: seq<string>, readers: seq<string>, started: nat)
    requires owners != []
  {
    Sole(readers) && owners[|owners| - 1] == readers[0] && Changes(owners) + 1 <= started
  }

  lemma NoOwnerAdded(log: seq<Read>, partition: int, o: nat)
    requires !Sole(Readers(log, (partition, o)))
    ensures Owners(log, partition, o + 1) == Owners(log, partition, o)
  {
  }

  lemma {:induction false} NextChangePaid(log: seq<Read>, partition: int, o: nat, segs: seq<Segment>, last: nat)
    requires ReadInSegments(log, partition, segs) && ChangesPaid(log, partition, o, segs, last)
    requires Sole(Readers(log, (partition, o)))
    ensures ChangesPaid(log, partition, o + 1, segs, o)
  {
    var before := Owners(log, partition, o);
    var from := if before == [] then o else last;
    OwnerAdded(log, partition, o);
    LaterSegment(log, partition, segs, from, o);
    StartedGrows(segs, from, o);
    ChangePaid(before, Readers(log, (partition, from)), Started(segs, from),
               Readers(log, (partition, o)), Started(segs, o));
  }

  lemma OwnerAdded(log: seq<Read>, partition: int, o: nat)
    requires Sole(Readers(log, (partition, o)))
    ensures Owners(log, partition, o + 1) == Owners(log, partition, o) + [Readers(log, (partition, o))[0]]
  {
  }

  /** A change of owner uses up the start of a further segment. */
  lemma ChangePaid(owners: seq<string>, readers: seq<string>, started: nat, readers': seq<string>, started': nat)
    requires owners == [] || LastPaid(owners, readers, started)
    requires Sole(readers') && 0 < started' && started <= started'
    requires readers'[0] !in readers ==> started < started'
    ensures LastPaid(owners + [readers'[0]], readers', started')
  {
    OneMoreOwner(owners, readers'[0]);
  }

  lemma {:induction false} NoChangePaid(log: seq<Read>, partition: int, o: nat, segs: seq<Segment>, last: nat)
    requires ChangesPaid(log, partition, o, segs, last)
    requires !Sole(Readers(log, (partition, o)))
    ensures ChangesPaid(log, partition, o + 1, segs, last)
  {
    NoOwnerAdded(log, partition, o);
  }

  lemma {:induction false} SwitchesBelow(log: seq<Read>, partition: int, end: nat, segs: seq<Segment>)
      returns (last: nat)
    requires ReadInSegments(log, partition, segs)
    ensures ChangesPaid(log, partition, end, segs, last)
  {
    last := 0;
    if end > 0 {
      var o := end - 1;
      last := SwitchesBelow(log, partition, o, segs);
      if Sole(Readers(log, (partition, o))) {
        NextChangePaid(log, partition, o, segs, last);
        last := o;
      } else {
        NoChangePaid(log, partition, o, segs, last);
      }
    }
  }

  /** A partition read in n segments changes member at most n - 1 times, in whatever order the
      segments start and however much they overlap. */
  lemma SegmentsBoundSwitches(log: seq<Read>, partition: int, end: nat, segs: seq<Segment>)
    requires ReadInSegments(log, partition, segs)
    ensures segs != [] ==> Switches(log, partition, end) <= |segs| - 1
    ensures segs == [] ==> Switches(log, partition, end) == 0
  {
    var last := SwitchesBelow(log, partition, end, segs);
  }

  /** Nothing below the end is missing exactly when the segments cover every offset below it. */
  lemma {:induction false} NothingMissingWhenCovered(log: seq<Read>, partition: int, end: nat, segs: seq<Segment>)
    requires ReadInSegments(log, partition, segs)
    ensures MissingIn(log, partition, end) == 0
       <==> forall o | 0 <= o < end :: Owned(segs, o)
  {
    if end > 0 {
      NothingMissingWhenCovered(log, partition, end - 1, segs);
      var readers := Readers(log, (partition, end - 1));
      if readers != [] {
        assert readers[0] in readers && OwnedBy(segs, readers[0], end - 1);
      } else if Owned(segs, end - 1) {
        var s :| s in segs && Covers(s, end - 1);
        assert OwnedBy(segs, s.member, end - 1);
      }
    }
  }

  function SegmentReads(s: Segment, partition: int): seq<Read> {
    if s.stop <= s.start then []
    else seq(s.stop - s.start, i requires 0 <= i < s.stop - s.start => Read(s.member, (partition, s.start + i)))
  }

  function AllSegmentReads(segs: seq<Segment>, partition: int): seq<Read> {
    if segs == [] then [] else SegmentReads(segs[0], partition) + AllSegmentReads(segs[1..], partition)
  }

  function TotalLength(segs: seq<Segment>): nat {
    if segs == [] then 0
    else (if segs[0].stop > segs[0].start then segs[0].stop - segs[0].start else 0) + TotalLength(segs[1..])
  }

  /** The offsets some segment covers. */
  function Covered(segs: seq<Segment>, partition: int): set<Place> {
    set r <- AllSegmentReads(segs, partition) :: r.place
  }

  lemma {:induction false} SegmentReadsLength(segs: seq<Segment>, partition: int)
    ensures |AllSegmentReads(segs, partition)| == TotalLength(segs)
  {
    if segs != [] {
      SegmentReadsLength(segs[1..], partition);
    }
  }

  lemma {:induction false} SegmentReadsHold(segs: seq<Segment>, partition: int, m: string, o: int)
    ensures Read(m, (partition, o)) in AllSegmentReads(segs, partition) <==> OwnedBy(segs, m, o)
  {
    if segs != [] {
      SegmentReadsHold(segs[1..], partition, m, o);
      OneSegmentHolds(segs[0], partition, m, o);
      assert segs == [segs[0]] + segs[1..];
      assert OwnedBy(segs, m, o) <==> (segs[0].member == m && Covers(segs[0], o)) || OwnedBy(segs[1..], m, o);
    }
  }

  lemma OneSegmentHolds(s: Segment, partition: int, m: string, o: int)
    ensures Read(m, (partition, o)) in SegmentReads(s, partition) <==> s.member == m && Covers(s, o)
  {
    if s.member == m && Covers(s, o) {
      assert SegmentReads(s, partition)[o - s.start] == Read(m, (partition, o));
    }
  }

  lemma {:induction false} InReaders(log: seq<Read>, place: Place, m: string)
    ensures m in Readers(log, place) <==> Read(m, place) in log
  {
    if log != [] {
      var last := |log| - 1;
      InReaders(log[..last], place, m);
      assert log == log[..last] + [log[last]];
    }
  }

  // ---- Whole topics ----

  /** A partition and the segments it is read in. */
  datatype Part = Part(partition: int, segs: seq<Segment>)

  predicate DistinctParts(parts: seq<Part>) {
    forall i, j | 0 <= i < j < |parts| :: parts[i].partition != parts[j].partition
  }

  function PartReads(parts: seq<Part>): seq<Read> {
    if parts == [] then []
    else AllSegmentReads(parts[0].segs, parts[0].partition) + PartReads(parts[1..])
  }

  /** A partition's segments: none for one that isn't there. */
  function SegmentsOf(parts: seq<Part>, partition: int): seq<Segment> {
    if parts == [] then []
    else if parts[0].partition == partition then parts[0].segs
    else SegmentsOf(parts[1..], partition)
  }

  /** How much the segments overlap: their lengths less the offsets they cover, over all partitions. */
  function Overlap(parts: seq<Part>): int {
    if parts == [] then 0
    else TotalLength(parts[0].segs) - |Covered(parts[0].segs, parts[0].partition)| + Overlap(parts[1..])
  }

  lemma {:induction false} OwnPartition(segs: seq<Segment>, partition: int, r: Read)
    requires r in AllSegmentReads(segs, partition)
    ensures r.place.0 == partition
  {
    if r !in SegmentReads(segs[0], partition) {
      OwnPartition(segs[1..], partition, r);
    }
  }

  lemma NoOtherPartition(segs: seq<Segment>, partition: int, p: int, m: string, o: int)
    requires p != partition
    ensures Read(m, (p, o)) !in AllSegmentReads(segs, partition)
  {
    if Read(m, (p, o)) in AllSegmentReads(segs, partition) {
      OwnPartition(segs, partition, Read(m, (p, o)));
    }
  }

  lemma {:induction false} PartReadsHold(parts: seq<Part>, m: string, p: int, o: int)
    requires DistinctParts(parts)
    ensures Read(m, (p, o)) in PartReads(parts) <==> OwnedBy(SegmentsOf(parts, p), m, o)
  {
    if parts != [] {
      PartReadsHold(parts[1..], m, p, o);
      if parts[0].partition == p {
        SegmentReadsHold(parts[0].segs, p, m, o);
        NotThere(parts[1..], p);
      } else {
        NoOtherPartition(parts[0].segs, parts[0].partition, p, m, o);
      }
    }
  }

  lemma {:induction false} NotThere(parts: seq<Part>, p: int)
    requires forall part <- parts :: part.partition != p
    ensures SegmentsOf(parts, p) == []
  {
    if parts != [] {
      NotThere(parts[1..], p);
    }
  }

  lemma {:induction false} PartReadsIn(parts: seq<Part>, r: Read)
    requires r in PartReads(parts)
    ensures exists part <- parts :: part.partition == r.place.0
  {
    if r in AllSegmentReads(parts[0].segs, parts[0].partition) {
      OwnPartition(parts[0].segs, parts[0].partition, r);
      assert parts[0] in parts;
    } else {
      PartReadsIn(parts[1..], r);
    }
  }

  /** The parts' reads less the places they read are what overlaps. */
  lemma {:induction false} OverlapCounts(parts: seq<Part>)
    requires DistinctParts(parts)
    ensures |PartReads(parts)| - |Places(PartReads(parts))| == Overlap(parts)
  {
    if parts == [] {
      assert Places(PartReads(parts)) == {};
    } else {
      var first, rest := AllSegmentReads(parts[0].segs, parts[0].partition), PartReads(parts[1..]);
      OverlapCounts(parts[1..]);
      SegmentReadsLength(parts[0].segs, parts[0].partition);
      assert Places(first + rest) == Places(first) + Places(rest);
      assert Places(first) == Covered(parts[0].segs, parts[0].partition);
      PartsApart(parts);
    }
  }

  lemma PartsApart(parts: seq<Part>)
    requires parts != [] && DistinctParts(parts)
    ensures Places(AllSegmentReads(parts[0].segs, parts[0].partition)) !! Places(PartReads(parts[1..]))
  {
    var first, rest := AllSegmentReads(parts[0].segs, parts[0].partition), PartReads(parts[1..]);
    forall r, q | r in first && q in rest
      ensures r.place != q.place
    {
      OwnPartition(parts[0].segs, parts[0].partition, r);
      PartReadsIn(parts[1..], q);
    }
  }

  lemma {:induction false} NoneMissing(log: seq<Read>, topic: string, ends: seq<End>)
    ensures Missing(log, topic, ends) == 0
       <==> forall e <- ends | e.topic == topic :: MissingIn(log, e.partition, e.end) == 0
  {
    if ends != [] {
      var last := |ends| - 1;
      NoneMissing(log, topic, ends[..last]);
      assert ends == ends[..last] + [ends[last]];
    }
  }

  lemma ReadByParts(log: seq<Read>, parts: seq<Part>, p: int)
    requires DistinctParts(parts) && multiset(log) == multiset(PartReads(parts))
    ensures ReadInSegments(log, p, SegmentsOf(parts, p))
  {
    SameElements(log, PartReads(parts));
    forall o, m
      ensures m in Readers(log, (p, o)) <==> OwnedBy(SegmentsOf(parts, p), m, o)
    {
      InReaders(log, (p, o), m);
      PartReadsHold(parts, m, p, o);
    }
  }

  predicate AllOwned(segs: seq<Segment>, end: nat) { forall o | 0 <= o < end :: Owned(segs, o) }

  /** Reads of a topic that are its partitions' segments' own, in any interleaving of the members,
      are duplicated exactly as often as the segments overlap, change member in each partition at
      most once per further segment, and miss nothing exactly when every partition is covered. */
  lemma SegmentedGroup(log: seq<Read>, topic: string, ends: seq<End>, parts: seq<Part>)
    requires DistinctParts(parts) && multiset(log) == multiset(PartReads(parts))
    ensures Rereads(log) == Overlap(parts)
    ensures forall p, end: nat ::
              var segs := SegmentsOf(parts, p); Switches(log, p, end) <= if segs == [] then 0 else |segs| - 1
    ensures Missing(log, topic, ends) == 0
       <==> forall e <- ends | e.topic == topic :: AllOwned(SegmentsOf(parts, e.partition), e.end)
  {
    SameElements(log, PartReads(parts));
    RereadsCount(log);
    OverlapCounts(parts);
    assert Places(log) == Places(PartReads(parts));
    forall p, end: nat
      ensures var segs := SegmentsOf(parts, p); Switches(log, p, end) <= if segs == [] then 0 else |segs| - 1
    {
      ReadByParts(log, parts, p);
      SegmentsBoundSwitches(log, p, end, SegmentsOf(parts, p));
    }
    NoneMissing(log, topic, ends);
    forall e <- ends | e.topic == topic
      ensures MissingIn(log, e.partition, e.end) == 0 <==> AllOwned(SegmentsOf(parts, e.partition), e.end)
    {
      ReadByParts(log, parts, e.partition);
      NothingMissingWhenCovered(log, e.partition, e.end, SegmentsOf(parts, e.partition));
    }
  }

  lemma SameElements(a: seq<Read>, b: seq<Read>)
    requires multiset(a) == multiset(b)
    ensures |a| == |b| && forall r :: r in a <==> r in b
  {
    assert |multiset(a)| == |a| && |multiset(b)| == |b|;
    forall r
      ensures r in a <==> r in b
    {
      assert r in a <==> r in multiset(a);
    }
  }

  // ---- The verdict ----

  const GROUP_RECORDS: nat := 400

  /** A member's output file: its events, or `None` when it wrote none. */
  datatype Output = Output(name: string, events: Option<seq<Event>>)

  datatype Verdict =
    | NoOutput | NoEnds | MissingRecords | TooManySwitches | TooManyDuplicates | MemberReadNothing | Pass

  predicate DistinctNames(outputs: seq<Output>) {
    forall i, j | 0 <= i < j < |outputs| :: outputs[i].name != outputs[j].name
  }

  function Members(outputs: seq<Output>): (members: seq<Member>)
    requires forall o <- outputs :: o.events.Some?
    ensures |members| == |outputs|
    ensures forall i | 0 <= i < |outputs| :: members[i] == Member(outputs[i].name, outputs[i].events.value)
  {
    seq(|outputs|, i requires 0 <= i < |outputs| => Member(outputs[i].name, outputs[i].events.value))
  }

  /** The sequence numbers read, of any topic. */
  function Sequences(members: seq<Member>): set<int> {
    set m <- members, e <- m.events | e.sequence.Some? :: e.sequence.value
  }

  /** `set(range(n))`. */
  function Range(n: nat): set<int> {
    set i | 0 <= i < n && InRange(i, n)
  }

  predicate InRange(i: int, n: nat) { 0 <= i < n }

  /** Every record was read. */
  ghost predicate Complete(members: seq<Member>, topic: string, ends: seq<End>) {
    Missing(Reads(members, topic), topic, ends) == 0 && Sequences(members) == Range(GROUP_RECORDS)
  }

  ghost predicate SwitchesWithin(members: seq<Member>, topic: string, ends: seq<End>, max: nat) {
    forall e <- ends | e.topic == topic :: Switches(Reads(members, topic), e.partition, e.end) <= max
  }

  ghost predicate EveryMemberRead(members: seq<Member>, topic: string) {
    forall m <- members :: CountOf(Reads(members, topic), m.name) > 0
  }

  method JudgeGroup(outputs: seq<Output>, topic: string, allEnds: seq<End>, maxSwitches: nat, maxDuplicates: nat)
      returns (v: Verdict)
    requires DistinctNames(outputs) && DistinctEnds(allEnds)
    ensures v.NoOutput? <==> exists o <- outputs :: o.events.None?
    ensures !v.NoOutput? ==> (v.NoEnds? <==> forall e <- allEnds :: e.topic != topic)
    ensures !v.NoOutput? && !v.NoEnds? ==>
              && var members := Members(outputs);
              && (v.MissingRecords? <==> !Complete(members, topic, allEnds))
              && (!v.MissingRecords? ==>
                    (v.TooManySwitches? <==> !SwitchesWithin(members, topic, allEnds, maxSwitches)))
              && (!v.MissingRecords? && !v.TooManySwitches? ==>
                    (v.TooManyDuplicates? <==> Rereads(Reads(members, topic)) > maxDuplicates))
              && (!v.MissingRecords? && !v.TooManySwitches? && !v.TooManyDuplicates? ==>
                    (v.MemberReadNothing? <==> !EveryMemberRead(members, topic)))
              && (v.Pass? <==> && Complete(members, topic, allEnds)
                               && SwitchesWithin(members, topic, allEnds, maxSwitches)
                               && Rereads(Reads(members, topic)) <= maxDuplicates
                               && EveryMemberRead(members, topic))
  {
    if exists o <- outputs :: o.events.None? {
      return NoOutput;
    }
    if forall e <- allEnds :: e.topic != topic {
      return NoEnds;
    }
    var members := Members(outputs);
    var missing, duplicates, switches, perMember := Ownership(members, topic, allEnds);
    MembersInTally(members, topic, perMember);
    if missing > 0 || Sequences(members) != Range(GROUP_RECORDS) {
      return MissingRecords;
    }
    assert (exists p <- switches :: switches[p] > maxSwitches)
      <==> !SwitchesWithin(members, topic, allEnds, maxSwitches);
    if exists p <- switches :: switches[p] > maxSwitches {
      return TooManySwitches;
    }
    if duplicates > maxDuplicates {
      return TooManyDuplicates;
    }
    if |perMember| != |members| {
      return MemberReadNothing;
    }
    return Pass;
  }

  lemma {:induction false} NameSet(members: seq<Member>)
    requires forall i, j | 0 <= i < j < |members| :: members[i].name != members[j].name
    ensures |set m <- members :: m.name| == |members|
  {
    if members == [] {
      assert (set m <- members :: m.name) == {};
    } else {
      var last := |members| - 1;
      var front := members[..last];
      NameSet(front);
      assert members == front + [members[last]];
      assert (set m <- members :: m.name) == (set m <- front :: m.name) + {members[last].name};
    }
  }

  lemma {:induction false} ReaderIsMember(members: seq<Member>, topic: string)
    ensures forall r <- Reads(members, topic) :: exists m <- members :: m.name == r.member
  {
    if members != [] {
      var last := |members| - 1;
      ReaderIsMember(members[..last], topic);
      EventReadsName(members[last].name, members[last].events, topic);
      assert members == members[..last] + [members[last]];
    }
  }

  lemma {:induction false} EventReadsName(name: string, events: seq<Event>, topic: string)
    ensures forall r <- EventReads(name, events, topic) :: r.member == name
  {
    if events != [] {
      EventReadsName(name, events[..|events| - 1], topic);
    }
  }

  lemma {:induction false} CountedIsRead(log: seq<Read>, member: string)
    ensures CountOf(log, member) > 0 ==> exists r <- log :: r.member == member
  {
    if log != [] {
      CountedIsRead(log[..|log| - 1], member);
      assert log == log[..|log| - 1] + [log[|log| - 1]];
    }
  }

  /** The tally has as many entries as there are members exactly when every member read something. */
  lemma MembersInTally(members: seq<Member>, topic: string, perMember: map<string, nat>)
    requires forall i, j | 0 <= i < j < |members| :: members[i].name != members[j].name
    requires forall m :: m in perMember <==> CountOf(Reads(members, topic), m) > 0
    ensures |perMember| == |members| <==> EveryMemberRead(members, topic)
  {
    var names := set m <- members :: m.name;
    NameSet(members);
    ReaderIsMember(members, topic);
    forall n <- perMember
      ensures n in names
    {
      CountedIsRead(Reads(members, topic), n);
    }
    assert perMember.Keys <= names;
    SubsetOfSameSize(perMember.Keys, names);
    assert EveryMemberRead(members, topic) <==> forall n <- names :: n in perMember;
  }

  lemma SubsetOfSameSize(a: set<string>, b: set<string>)
    requires a <= b
    ensures |a| == |b| <==> forall x <- b :: x in a
  {
    var rest := b - a;
    assert b == a + rest;
    assert |b| == |a| + |rest|;
    assert rest == {} <==> forall x <- b :: x in a;
  }

  /** The switch threshold never fails a group whose members owned each partition in turn: a
      partition read in `max + 1` segments or fewer is within it. */
  lemma OwnershipInTurnIsWithin(members: seq<Member>, topic: string, ends: seq<End>, max: nat,
                                segments: map<int, seq<Segment>>)
    requires forall e <- ends | e.topic == topic ::
               && e.partition in segments
               && |segments[e.partition]| <= max + 1
               && ReadInSegments(Reads(members, topic), e.partition, segments[e.partition])
    ensures SwitchesWithin(members, topic, ends, max)
  {
    forall e <- ends | e.topic == topic
      ensures Switches(Reads(members, topic), e.partition, e.end) <= max
    {
      SegmentsBoundSwitches(Reads(members, topic), e.partition, e.end, segments[e.partition]);
    }
  }
}
