/**
 What `ownership` of `tools/kafka-interop/check.py` counts, said as the sizes of plain sets: which
 offsets are missing, where the owner changes, whose reads they are.
 */
module OwnershipCounts {
  import opened Ownership
  import opened Wrappers

  // ---- Reads ----

  /** An event of the topic, by member and position. */
  predicate IsRead(members: seq<Member>, topic: string, at: (int, int)) {
    && 0 <= at.0 < |members| && 0 <= at.1 < |members[at.0].events|
    && members[at.0].events[at.1].topic == Some(topic)
  }

  /** The first comes before the second: of an earlier member, or of the same one but earlier. */
  predicate Precedes(a: (int, int), b: (int, int)) { a.0 < b.0 || (a.0 == b.0 && a.1 < b.1) }

  /** The read of the event there. */
  predicate IsReadAt(members: seq<Member>, topic: string, at: (int, int), r: Read) {
    && IsRead(members, topic, at)
    && r.member == members[at.0].name
    && r.place == (members[at.0].events[at.1].partition, members[at.0].events[at.1].offset)
  }

  /** One place per read, in order. */
  ghost predicate Traces(places: seq<(int, int)>, log: seq<Read>, members: seq<Member>, topic: string) {
    && |places| == |log|
    && (forall k | 0 <= k < |log| :: IsReadAt(members, topic, places[k], log[k]))
    && (forall k, l | 0 <= k < l < |places| :: Precedes(places[k], places[l]))
  }

  ghost predicate ListsAll(places: seq<(int, int)>, members: seq<Member>, topic: string) {
    forall at | IsRead(members, topic, at) :: at in places
  }

  lemma TracesJoin(before: seq<(int, int)>, here: seq<(int, int)>, log: seq<Read>, more: seq<Read>,
                   members: seq<Member>, topic: string)
    requires Traces(before, log, members, topic) && Traces(here, more, members, topic)
    requires forall b <- before, h <- here :: Precedes(b, h)
    ensures Traces(before + here, log + more, members, topic)
  {
  }

  /** The events of one member that are the topic's. */
  lemma {:induction false} EventPlaces(members: seq<Member>, i: nat, n: nat, topic: string)
      returns (places: seq<(int, int)>)
    requires i < |members| && n <= |members[i].events|
    ensures Traces(places, EventReads(members[i].name, members[i].events[..n], topic), members, topic)
    ensures forall k | 0 <= k < |places| :: places[k].0 == i && places[k].1 < n
    ensures forall j | 0 <= j < n && IsRead(members, topic, (i, j)) :: (i, j) in places
  {
    places := [];
    if n > 0 {
      var e := members[i].events[n - 1];
      places := EventPlaces(members, i, n - 1, topic);
      OneMoreEvent(members[i].name, members[i].events, n - 1, topic);
      if e.topic == Some(topic) {
        var here, read := [(i, n - 1)], Read(members[i].name, (e.partition, e.offset));
        var log := EventReads(members[i].name, members[i].events[..n - 1], topic);
        TracesJoin(places, here, log, [read], members, topic);
        places := places + here;
      }
    }
  }

  /** The reads are the topic's events, each once, members in order and each one's events in order. */
  lemma {:induction false} ReadsInOrder(members: seq<Member>, topic: string) returns (places: seq<(int, int)>)
    ensures Traces(places, Reads(members, topic), members, topic) && ListsAll(places, members, topic)
  {
    places := ReadsUpTo(members, |members|, topic);
    assert members[..|members|] == members;
  }

  lemma {:induction false} ReadsUpTo(members: seq<Member>, n: nat, topic: string) returns (places: seq<(int, int)>)
    requires n <= |members|
    ensures Traces(places, Reads(members[..n], topic), members, topic)
    ensures forall k | 0 <= k < |places| :: places[k].0 < n
    ensures forall at | IsRead(members, topic, at) && at.0 < n :: at in places
  {
    places := [];
    if n > 0 {
      var i := n - 1;
      var before := ReadsUpTo(members, i, topic);
      var here := EventPlaces(members, i, |members[i].events|, topic);
      assert members[i].events[..|members[i].events|] == members[i].events;
      assert members[..n][..i] == members[..i];
      TracesJoin(before, here, Reads(members[..i], topic), EventReads(members[i].name, members[i].events, topic),
                 members, topic);
      places := before + here;
    }
  }

  // ---- Sizes of sets ----

  /** Where a member's reads are in the log. */
  function ReadsBy(log: seq<Read>, m: string): set<int> {
    set i | 0 <= i < |log| && log[i].member == m
  }

  lemma {:induction false} CountIsSize(log: seq<Read>, m: string)
    ensures CountOf(log, m) == |ReadsBy(log, m)|
  {
    if log != [] {
      var last := |log| - 1;
      CountIsSize(log[..last], m);
      assert ReadsBy(log, m) == ReadsBy(log[..last], m) + if log[last].member == m then {last} else {};
    }
  }

  /** The places of a partition, below its end, that nobody read. */
  function Unread(log: seq<Read>, partition: int, end: nat): set<Place> {
    set o | 0 <= o < end && (partition, o) !in Places(log) :: (partition, o)
  }

  lemma {:induction false} MissingIsSize(log: seq<Read>, partition: int, end: nat)
    ensures MissingIn(log, partition, end) == |Unread(log, partition, end)|
  {
    if end > 0 {
      var o := end - 1;
      MissingIsSize(log, partition, o);
      NoReadersElsewhere(log, (partition, o));
      UnreadMore(log, partition, o);
    }
  }

  lemma UnreadMore(log: seq<Read>, partition: int, o: nat)
    ensures |Unread(log, partition, o + 1)|
         == |Unread(log, partition, o)| + if (partition, o) !in Places(log) then 1 else 0
  {
    assert Unread(log, partition, o + 1)
        == Unread(log, partition, o) + if (partition, o) !in Places(log) then {(partition, o)} else {};
  }

  /** All the missing places of the topic. */
  function Gaps(log: seq<Read>, topic: string, ends: seq<End>): set<Place> {
    set e, o | e in ends && e.topic == topic && 0 <= o < e.end && (e.partition, o) !in Places(log) :: (e.partition, o)
  }

  lemma {:induction false} GapsCounted(log: seq<Read>, topic: string, ends: seq<End>)
    requires DistinctEnds(ends)
    ensures Missing(log, topic, ends) == |Gaps(log, topic, ends)|
  {
    if ends == [] {
      assert Gaps(log, topic, ends) == {};
    } else {
      var last := |ends| - 1;
      GapsCounted(log, topic, ends[..last]);
      GapsOfOne(log, topic, ends);
    }
  }

  lemma GapsOfOne(log: seq<Read>, topic: string, ends: seq<End>)
    requires ends != [] && DistinctEnds(ends)
    ensures var last := |ends| - 1;
            |Gaps(log, topic, ends)| == |Gaps(log, topic, ends[..last])|
              + if ends[last].topic == topic then MissingIn(log, ends[last].partition, ends[last].end) else 0
  {
    var last := |ends| - 1;
    var End(t, p, end) := ends[last];
    var before, here := Gaps(log, topic, ends[..last]), Unread(log, p, end);
    assert ends == ends[..last] + [ends[last]];
    if t == topic {
      assert Gaps(log, topic, ends) == before + here;
      assert before !! here by {
        EndIsNew(ends, last);
      }
      MissingIsSize(log, p, end);
    } else {
      assert Gaps(log, topic, ends) == before;
    }
  }

  /** The places where an owner differs from the one before. */
  function ChangePoints(owners: seq<string>): set<int> {
    set i | 0 < i < |owners| && ChangesAt(owners, i)
  }

  predicate ChangesAt(owners: seq<string>, i: int)
    requires 0 < i < |owners|
  {
    owners[i - 1] != owners[i]
  }

  lemma {:induction false} ChangesIsSize(owners: seq<string>)
    ensures Changes(owners) == |ChangePoints(owners)|
  {
    if |owners| <= 1 {
      assert ChangePoints(owners) == {};
    } else {
      var last := |owners| - 1;
      ChangesIsSize(owners[..last]);
      assert ChangePoints(owners)
          == ChangePoints(owners[..last]) + if owners[last - 1] != owners[last] then {last} else {};
    }
  }

  // ---- Owners ----

  /** Read, and by this member only. */
  ghost predicate OwnedOnly(log: seq<Read>, partition: int, o: int, m: string) {
    Read(m, (partition, o)) in log && forall r <- log :: r.place == (partition, o) ==> r.member == m
  }

  lemma OnlyReader(log: seq<Read>, partition: int, o: int, m: string)
    requires OwnedOnly(log, partition, o, m)
    ensures var readers := Readers(log, (partition, o)); Sole(readers) && readers[0] == m
  {
    var readers := Readers(log, (partition, o));
    InReaders(log, (partition, o), m);
    forall i | 0 <= i < |readers|
      ensures readers[i] == m
    {
      InReaders(log, (partition, o), readers[i]);
      assert Read(readers[i], (partition, o)).place == (partition, o);
    }
  }

  lemma SoleIsOnly(log: seq<Read>, partition: int, o: int)
    ensures var readers := Readers(log, (partition, o));
            && (Sole(readers) ==> OwnedOnly(log, partition, o, readers[0]))
            && (forall m | OwnedOnly(log, partition, o, m) :: Sole(readers) && readers[0] == m)
  {
    var readers := Readers(log, (partition, o));
    forall m | OwnedOnly(log, partition, o, m)
      ensures Sole(readers) && readers[0] == m
    {
      OnlyReader(log, partition, o, m);
    }
    if Sole(readers) {
      InReaders(log, (partition, o), readers[0]);
      forall r <- log | r.place == (partition, o)
        ensures r.member == readers[0]
      {
        InReaders(log, (partition, o), r.member);
      }
    }
  }

  /** The owners are those of exactly the offsets one member alone read, in offset order. */
  lemma {:induction false} OwnersInOrder(log: seq<Read>, partition: int, end: nat) returns (offsets: seq<nat>)
    ensures var owners := Owners(log, partition, end);
            && |offsets| == |owners|
            && (forall k, l | 0 <= k < l < |offsets| :: offsets[k] < offsets[l])
            && (forall k | 0 <= k < |offsets| :: offsets[k] < end && OwnedOnly(log, partition, offsets[k], owners[k]))
            && (forall o, m | 0 <= o < end && OwnedOnly(log, partition, o, m) :: o in offsets)
  {
    offsets := [];
    if end > 0 {
      var o := end - 1;
      offsets := OwnersInOrder(log, partition, o);
      SoleIsOnly(log, partition, o);
      if Sole(Readers(log, (partition, o))) {
        OwnerAdded(log, partition, o);
        offsets := offsets + [o];
      } else {
        NoOwnerAdded(log, partition, o);
      }
    }
  }

  // ---- A complete group ----

  /** Some member's event of the topic has the offset. */
  ghost predicate WasRead(members: seq<Member>, topic: string, partition: int, o: int) {
    exists at :: IsReadOf(members, topic, at, partition, o)
  }

  predicate IsReadOf(members: seq<Member>, topic: string, at: (int, int), partition: int, o: int) {
    && IsRead(members, topic, at)
    && members[at.0].events[at.1].partition == partition && members[at.0].events[at.1].offset == o
  }

  lemma ReadIsInPlaces(members: seq<Member>, topic: string, partition: int, o: int)
    ensures (partition, o) in Places(Reads(members, topic)) <==> WasRead(members, topic, partition, o)
  {
    var log := Reads(members, topic);
    var places := ReadsInOrder(members, topic);
    if (partition, o) in Places(log) {
      var r :| r in log && r.place == (partition, o);
      var k :| 0 <= k < |log| && log[k] == r;
      assert IsReadAt(members, topic, places[k], log[k]);
      assert IsReadOf(members, topic, places[k], partition, o);
    }
    if at :| IsReadOf(members, topic, at, partition, o) {
      var k :| 0 <= k < |places| && places[k] == at;
      assert IsReadAt(members, topic, places[k], log[k]);
      assert log[k] in log;
    }
  }

  /** Some member's event, of any topic, has the sequence number. */
  ghost predicate HasSequence(members: seq<Member>, n: int) {
    exists m <- members, e <- m.events :: e.sequence == Some(n)
  }

  lemma SequencesAre(members: seq<Member>)
    ensures Sequences(members) == Range(GROUP_RECORDS) <==> forall n :: HasSequence(members, n) <==> 0 <= n < 400
  {
    assert forall n :: n in Sequences(members) <==> HasSequence(members, n);
    if Sequences(members) == Range(GROUP_RECORDS) {
      forall n
        ensures HasSequence(members, n) <==> 0 <= n < 400
      {
        assert n in Sequences(members) <==> n in Range(GROUP_RECORDS);
      }
    }
  }

  /** Every offset below an end of the topic was read. */
  ghost predicate AllRead(members: seq<Member>, topic: string, ends: seq<End>) {
    forall e <- ends | e.topic == topic :: forall o | 0 <= o < e.end :: WasRead(members, topic, e.partition, o)
  }

  lemma NoGaps(members: seq<Member>, topic: string, ends: seq<End>)
    ensures Gaps(Reads(members, topic), topic, ends) == {} <==> AllRead(members, topic, ends)
  {
    var gaps := Gaps(Reads(members, topic), topic, ends);
    forall p, o
      ensures (p, o) in Places(Reads(members, topic)) <==> WasRead(members, topic, p, o)
    {
      ReadIsInPlaces(members, topic, p, o);
    }
    if gaps == {} {
      forall e <- ends, o | e.topic == topic && 0 <= o < e.end
        ensures WasRead(members, topic, e.partition, o)
      {
        assert (e.partition, o) !in gaps;
      }
    }
  }

  /** A group is complete exactly when every offset was read and the 400 sequence numbers, and no
      others, arrived. */
  lemma CompleteExactly(members: seq<Member>, topic: string, ends: seq<End>)
    requires DistinctEnds(ends)
    ensures Complete(members, topic, ends)
       <==> AllRead(members, topic, ends) && forall n :: HasSequence(members, n) <==> 0 <= n < 400
  {
    GapsCounted(Reads(members, topic), topic, ends);
    NoGaps(members, topic, ends);
    SequencesAre(members);
  }

  /** A member of that name read the topic. */
  ghost predicate ReadSomething(members: seq<Member>, topic: string, name: string) {
    exists at :: IsRead(members, topic, at) && members[at.0].name == name
  }

  lemma CountedExactly(members: seq<Member>, topic: string, name: string)
    ensures CountOf(Reads(members, topic), name) > 0 <==> ReadSomething(members, topic, name)
  {
    var log := Reads(members, topic);
    var places := ReadsInOrder(members, topic);
    CountIsSize(log, name);
    if CountOf(log, name) > 0 {
      CountedIsRead(log, name);
      var r :| r in log && r.member == name;
      var k :| 0 <= k < |log| && log[k] == r;
      assert IsReadAt(members, topic, places[k], log[k]);
    }
    if at :| IsRead(members, topic, at) && members[at.0].name == name {
      var k :| 0 <= k < |places| && places[k] == at;
      assert IsReadAt(members, topic, places[k], log[k]);
      assert k in ReadsBy(log, name);
    }
  }
}
