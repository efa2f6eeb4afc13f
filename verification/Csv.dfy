/**
 The CSV row reader of `fuzz/fuzz_targets/message_csv.rs`: one byte at a time through four
 states, following section 2 of RFC 4180, and the writer that quotes every field.

 `Cell` and `Tail` describe rows from the outside: a row is some leading cells, each ended by the
 delimiter, and then a last cell, an opened quote that never closes, or a closed quote followed by
 a stray byte. Every row has such a shape (`RowShape`), and the shape fixes what the reader says
 (`ShapeIsRead`); the reader's meaning, its errors, and the round trip all follow from the two.
 */
module Csv {
  import opened Bytes
  import Utf8

  datatype State = Start | Unquoted | Quoted | QuoteInQuoted
  datatype RowError = UnterminatedQuote | TrailingAfterQuote
  datatype Reading = Ok(fields: seq<bytes>) | Err(error: RowError)

  /** The delimiters graph rule 32 admits: every ASCII byte but `"`, LF and CR. */
  predicate Admitted(d: byte) { d < 128 && d != QUOTE && d != LF && d != CR }

  // ---- The reader ----

  /** What the reader says of `rest`, in `state` with `field` read so far. */
  function ReadFrom(rest: bytes, d: byte, state: State, field: bytes): Reading
    decreases rest
  {
    if rest == [] then
      if state.Quoted? then Err(UnterminatedQuote) else Ok([field])
    else
      var b, tail := rest[0], rest[1..];
      match state
      case Start | Unquoted =>
        if state.Start? && b == QUOTE then ReadFrom(tail, d, Quoted, field)
        else if b == d then Before([field], ReadFrom(tail, d, Start, []))
        else ReadFrom(tail, d, Unquoted, field + [b])
      case Quoted =>
        if b == QUOTE then ReadFrom(tail, d, QuoteInQuoted, field)
        else ReadFrom(tail, d, Quoted, field + [b])
      case QuoteInQuoted =>
        if b == QUOTE then ReadFrom(tail, d, Quoted, field + [QUOTE])
        else if b == d then Before([field], ReadFrom(tail, d, Start, []))
        else Err(TrailingAfterQuote)
  }

  function Read(row: bytes, d: byte): Reading {
    ReadFrom(row, d, Start, [])
  }

  /** `r` with `fields` read before it. */
  function Before(fields: seq<bytes>, r: Reading): Reading {
    match r
    case Ok(more) => Ok(fields + more)
    case Err(_) => r
  }

  /** The reading loop. */
  method Reference(row: bytes, d: byte) returns (r: Reading)
    ensures r == Read(row, d)
  {
    var out: seq<bytes> := [];
    var field: bytes := [];
    var state := Start;
    var i := 0;
    while i < |row|
      invariant 0 <= i <= |row|
      invariant Read(row, d) == Before(out, ReadFrom(row[i..], d, state, field))
    {
      var b := row[i];
      assert row[i..][0] == b && row[i..][1..] == row[i + 1..];
      ghost var later := ReadFrom(row[i + 1..], d, Start, []);
      assert later.Ok? ==> out + ([field] + later.fields) == (out + [field]) + later.fields;
      match state {
        case Start | Unquoted =>
          if state.Start? && b == QUOTE {
            state := Quoted;
          } else if b == d {
            out, field, state := out + [field], [], Start;
          } else {
            field, state := field + [b], Unquoted;
          }
        case Quoted =>
          if b == QUOTE {
            state := QuoteInQuoted;
          } else {
            field := field + [b];
          }
        case QuoteInQuoted =>
          if b == QUOTE {
            field, state := field + [QUOTE], Quoted;
          } else if b == d {
            out, field, state := out + [field], [], Start;
          } else {
            return Err(TrailingAfterQuote);
          }
      }
      i := i + 1;
    }
    if state.Quoted? {
      return Err(UnterminatedQuote);
    }
    return Ok(out + [field]);
  }

  // ---- Rows, seen from the outside ----

  /** A field and whether the row writes it in quotes. */
  datatype Cell = Cell(value: bytes, quoted: bool)

  /** How a row ends: with a last cell, inside a quoted field, or with `stray` after a closed one. */
  datatype Tail =
    | Last(cell: Cell)
    | Open(value: bytes)
    | Broken(value: bytes, stray: byte, rest: bytes)

  function Doubled(f: bytes): bytes {
    if f == [] then [] else (if f[0] == QUOTE then [QUOTE, QUOTE] else [f[0]]) + Doubled(f[1..])
  }

  function Enclosed(f: bytes): bytes { [QUOTE] + Doubled(f) + [QUOTE] }

  function Shown(c: Cell): bytes { if c.quoted then Enclosed(c.value) else c.value }

  /** An unquoted field holds no delimiter and doesn't start with a quote. */
  predicate Legal(c: Cell, d: byte) {
    c.quoted || (d !in c.value && (c.value == [] || c.value[0] != QUOTE))
  }

  predicate AllLegal(cells: seq<Cell>, d: byte) { forall c <- cells :: Legal(c, d) }

  /** The cells, each followed by the delimiter. */
  function Leading(cells: seq<Cell>, d: byte): bytes {
    if cells == [] then [] else Shown(cells[0]) + [d] + Leading(cells[1..], d)
  }

  /** The whole row of `cells`. */
  function Render(cells: seq<Cell>, d: byte): bytes
    requires cells != []
  {
    Leading(cells[..|cells| - 1], d) + Shown(cells[|cells| - 1])
  }

  function Values(cells: seq<Cell>): (vs: seq<bytes>)
    ensures |vs| == |cells|
    ensures forall i | 0 <= i < |cells| :: vs[i] == cells[i].value
  {
    seq(|cells|, i requires 0 <= i < |cells| => cells[i].value)
  }

  predicate LegalTail(t: Tail, d: byte) {
    match t
    case Last(c) => Legal(c, d)
    case Open(_) => true
    case Broken(_, b, _) => b != QUOTE && b != d
  }

  function TailText(t: Tail): bytes {
    match t
    case Last(c) => Shown(c)
    case Open(v) => [QUOTE] + Doubled(v)
    case Broken(v, b, rest) => Enclosed(v) + [b] + rest
  }

  function TailReading(t: Tail): Reading {
    match t
    case Last(c) => Ok([c.value])
    case Open(_) => Err(UnterminatedQuote)
    case Broken(_, _, _) => Err(TrailingAfterQuote)
  }

  ghost predicate HasShape(row: bytes, d: byte, cells: seq<Cell>, tail: Tail) {
    AllLegal(cells, d) && LegalTail(tail, d) && row == Leading(cells, d) + TailText(tail)
  }

  // ---- A row's shape fixes its reading ----

  lemma {:induction false} ReadUnquoted(f: bytes, d: byte, field: bytes, rest: bytes)
    requires d !in f
    ensures ReadFrom(f + rest, d, Unquoted, field) == ReadFrom(rest, d, Unquoted, field + f)
    decreases f
  {
    if f == [] {
      assert f + rest == rest && field + f == field;
    } else {
      assert (f + rest)[1..] == f[1..] + rest;
      assert field + f == (field + [f[0]]) + f[1..];
      ReadUnquoted(f[1..], d, field + [f[0]], rest);
    }
  }

  lemma {:induction false} ReadDoubled(f: bytes, d: byte, field: bytes, rest: bytes)
    ensures ReadFrom(Doubled(f) + rest, d, Quoted, field) == ReadFrom(rest, d, Quoted, field + f)
    decreases f
  {
    if f == [] {
      assert Doubled(f) + rest == rest && field + f == field;
    } else {
      var more := Doubled(f[1..]) + rest;
      HeadTail(f);
      Assoc(field, [f[0]], f[1..]);
      ReadDoubled(f[1..], d, field + [f[0]], rest);
      if f[0] == QUOTE {
        Assoc([QUOTE, QUOTE], Doubled(f[1..]), rest);
        TailOf([QUOTE, QUOTE], more);
        TailOf([QUOTE], more);
      } else {
        Assoc([f[0]], Doubled(f[1..]), rest);
        TailOf([f[0]], more);
      }
    }
  }

  /** A closed quoted field, up to the byte after it. */
  lemma ReadEnclosed(f: bytes, d: byte, rest: bytes)
    ensures ReadFrom(Enclosed(f) + rest, d, Start, []) == ReadFrom(rest, d, QuoteInQuoted, f)
  {
    var inner := Doubled(f) + ([QUOTE] + rest);
    assert Enclosed(f) + rest == [QUOTE] + inner;
    ReadDoubled(f, d, [], [QUOTE] + rest);
    assert [] + f == f;
    assert ([QUOTE] + rest)[1..] == rest;
  }

  lemma ReadCell(c: Cell, d: byte, rest: bytes)
    requires Legal(c, d) && d != QUOTE
    ensures Read(Shown(c) + [d] + rest, d) == Before([c.value], Read(rest, d))
    ensures Read(Shown(c), d) == Ok([c.value])
  {
    var f := c.value;
    assert ([d] + rest)[1..] == rest;
    if c.quoted {
      assert Shown(c) + [d] + rest == Enclosed(f) + ([d] + rest);
      ReadEnclosed(f, d, [d] + rest);
      ReadEnclosed(f, d, []);
      assert Enclosed(f) + [] == Enclosed(f);
    } else if f == [] {
      assert f + [d] + rest == [d] + rest;
    } else {
      var head, more := f[0], f[1..];
      assert f + [d] + rest == [head] + (more + ([d] + rest));
      assert f == [head] + more && more + [] == more && [] + [head] == [head];
      ReadUnquoted(more, d, [head], [d] + rest);
      ReadUnquoted(more, d, [head], []);
    }
  }

  lemma ReadTail(t: Tail, d: byte)
    requires LegalTail(t, d) && d != QUOTE
    ensures Read(TailText(t), d) == TailReading(t)
  {
    match t
    case Last(c) =>
      ReadCell(c, d, []);
    case Open(v) =>
      TailOf([QUOTE], Doubled(v));
      assert Doubled(v) + [] == Doubled(v);
      ReadDoubled(v, d, [], []);
    case Broken(v, b, rest) =>
      Assoc(Enclosed(v), [b], rest);
      ReadEnclosed(v, d, [b] + rest);
  }

  /** The shape of a row fixes what the reader says of it, errors included. */
  lemma {:induction false} ShapeIsRead(d: byte, cells: seq<Cell>, tail: Tail)
    requires d != QUOTE && AllLegal(cells, d) && LegalTail(tail, d)
    ensures Read(Leading(cells, d) + TailText(tail), d) == Before(Values(cells), TailReading(tail))
  {
    var last := TailText(tail);
    if cells == [] {
      assert Leading(cells, d) + last == last;
      ReadTail(tail, d);
    } else {
      var c, more := cells[0], cells[1..];
      var rest := Leading(more, d) + last;
      Assoc(Shown(c) + [d], Leading(more, d), last);
      assert Legal(c, d);
      assert AllLegal(more, d);
      ReadCell(c, d, rest);
      ShapeIsRead(d, more, tail);
      assert Values(cells) == [c.value] + Values(more);
    }
  }

  // ---- Every row has a shape ----

  lemma {:induction false} DoubledAppend(f: bytes, b: byte)
    ensures Doubled(f + [b]) == Doubled(f) + (if b == QUOTE then [QUOTE, QUOTE] else [b])
  {
    if f == [] {
      assert f + [b] == [b];
      assert [b][1..] == [];
    } else {
      assert (f + [b])[1..] == f[1..] + [b];
      DoubledAppend(f[1..], b);
    }
  }

  /** The text of the field the reader is in, as the row holds it so far. */
  function Pending(state: State, field: bytes): bytes {
    match state
    case Start => []
    case Unquoted => field
    case Quoted => [QUOTE] + Doubled(field)
    case QuoteInQuoted => Enclosed(field)
  }

  predicate LegalPending(state: State, field: bytes, d: byte) {
    match state
    case Start => field == []
    case Unquoted => field != [] && Legal(Cell(field, false), d)
    case _ => true
  }

  /** The state and field after a byte that neither ends the field nor breaks the row. */
  function Advance(state: State, field: bytes, b: byte): (State, bytes) {
    if b == QUOTE && state.Start? then (Quoted, field)
    else if b == QUOTE && state.Quoted? then (QuoteInQuoted, field)
    else (if state.Start? then Unquoted else if state.QuoteInQuoted? then Quoted else state, field + [b])
  }

  lemma PendingAdvance(state: State, field: bytes, b: byte, d: byte)
    requires LegalPending(state, field, d) && d != QUOTE
    requires (b != d || state.Quoted?) && (state.QuoteInQuoted? ==> b == QUOTE)
    ensures var (next, field') := Advance(state, field, b);
            LegalPending(next, field', d) && Pending(next, field') == Pending(state, field) + [b]
  {
    DoubledAppend(field, b);
    var (next, field') := Advance(state, field, b);
    if state.QuoteInQuoted? {
      assert Enclosed(field) + [b] == [QUOTE] + (Doubled(field) + [QUOTE, QUOTE]);
    }
  }

  /** A field the delimiter ends becomes the first leading cell. */
  lemma PendingEnds(state: State, field: bytes, rest: bytes, d: byte, cells: seq<Cell>, tail: Tail)
    requires LegalPending(state, field, d) && !state.Quoted? && HasShape(rest, d, cells, tail)
    ensures var c := Cell(field, state.QuoteInQuoted?);
            HasShape(Pending(state, field) + ([d] + rest), d, [c] + cells, tail)
  {
    var c := Cell(field, state.QuoteInQuoted?);
    assert Shown(c) == Pending(state, field) && Legal(c, d);
    CellInFront(c, cells, d);
    Regroup(Shown(c), [d], Leading(cells, d), TailText(tail));
  }

  lemma CellInFront(c: Cell, cells: seq<Cell>, d: byte)
    requires Legal(c, d) && AllLegal(cells, d)
    ensures AllLegal([c] + cells, d)
    ensures Leading([c] + cells, d) == Shown(c) + [d] + Leading(cells, d)
  {
    TailOf([c], cells);
  }

  lemma Regroup(a: bytes, b: bytes, c: bytes, e: bytes)
    ensures a + (b + (c + e)) == a + b + c + e
  {
  }

  lemma ShapeAlone(row: bytes, d: byte, tail: Tail)
    requires LegalTail(tail, d) && row == TailText(tail)
    ensures HasShape(row, d, [], tail)
  {
    assert Leading([], d) + TailText(tail) == TailText(tail);
  }

  lemma LastPending(state: State, field: bytes, d: byte) returns (tail: Tail)
    requires LegalPending(state, field, d)
    ensures HasShape(Pending(state, field), d, [], tail)
  {
    tail := if state.Quoted? then Open(field) else Last(Cell(field, state.QuoteInQuoted?));
    ShapeAlone(Pending(state, field), d, tail);
  }

  lemma {:induction false} PendingShape(rest: bytes, d: byte, state: State, field: bytes)
      returns (cells: seq<Cell>, tail: Tail)
    requires LegalPending(state, field, d) && d != QUOTE
    ensures HasShape(Pending(state, field) + rest, d, cells, tail)
    decreases rest
  {
    var pending := Pending(state, field);
    if rest == [] {
      cells := [];
      tail := LastPending(state, field, d);
      assert pending + rest == pending;
    } else {
      var b, after := rest[0], rest[1..];
      HeadTail(rest);
      Assoc(pending, [b], after);
      if b == d && !state.Quoted? {
        cells, tail := PendingShape(after, d, Start, []);
        assert Pending(Start, []) + after == after;
        PendingEnds(state, field, after, d, cells, tail);
        cells := [Cell(field, state.QuoteInQuoted?)] + cells;
      } else if state.QuoteInQuoted? && b != QUOTE {
        cells, tail := [], Broken(field, b, after);
        ShapeAlone(pending + [b] + after, d, tail);
      } else {
        PendingAdvance(state, field, b, d);
        var (next, field') := Advance(state, field, b);
        cells, tail := PendingShape(after, d, next, field');
      }
    }
  }

  /** Every row has a shape. */
  lemma RowShape(row: bytes, d: byte) returns (cells: seq<Cell>, tail: Tail)
    requires d != QUOTE
    ensures HasShape(row, d, cells, tail)
    ensures Read(row, d) == Before(Values(cells), TailReading(tail))
  {
    cells, tail := PendingShape(row, d, Start, []);
    assert Pending(Start, []) + row == row;
    ShapeReads(row, d, cells, tail);
  }

  lemma ShapeReads(row: bytes, d: byte, cells: seq<Cell>, tail: Tail)
    requires d != QUOTE && HasShape(row, d, cells, tail)
    ensures Read(row, d) == Before(Values(cells), TailReading(tail))
  {
    ShapeIsRead(d, cells, tail);
  }

  // ---- What the reader accepts, and what it refuses ----

  ghost predicate Writes(cells: seq<Cell>, row: bytes, fields: seq<bytes>, d: byte) {
    && cells != [] && AllLegal(cells, d)
    && row == Render(cells, d) && fields == Values(cells)
  }

  /** A row reads as `fields` exactly when it is those fields written out, each quoted or legal
      without quotes, with the delimiter between them. */
  lemma AcceptedExactly(row: bytes, d: byte, fields: seq<bytes>)
    requires d != QUOTE
    ensures Read(row, d) == Ok(fields) <==> exists cells :: Writes(cells, row, fields, d)
  {
    if Read(row, d) == Ok(fields) {
      var cells, tail := RowShape(row, d);
      var all := cells + [tail.cell];
      assert all[..|all| - 1] == cells;
      assert Values(all) == Values(cells) + [tail.cell.value];
      assert Writes(all, row, fields, d);
    }
    forall cells | Writes(cells, row, fields, d)
      ensures Read(row, d) == Ok(fields)
    {
      RenderedIsRead(cells, d);
    }
  }

  /** The general round trip: any legal writing of the fields reads back to them. */
  lemma RenderedIsRead(cells: seq<Cell>, d: byte)
    requires d != QUOTE && cells != [] && AllLegal(cells, d)
    ensures Read(Render(cells, d), d) == Ok(Values(cells))
  {
    var n := |cells| - 1;
    assert Legal(cells[n], d);
    ShapeIsRead(d, cells[..n], Last(cells[n]));
    assert Values(cells) == Values(cells[..n]) + [cells[n].value];
  }

  /** A row is unterminated exactly when its last field opens a quote that never closes. */
  lemma UnterminatedExactly(row: bytes, d: byte)
    requires d != QUOTE
    ensures Read(row, d) == Err(UnterminatedQuote)
       <==> exists cells, v :: HasShape(row, d, cells, Open(v))
  {
    var cells, tail := RowShape(row, d);
    forall cells, v | HasShape(row, d, cells, Open(v))
      ensures Read(row, d) == Err(UnterminatedQuote)
    {
      ShapeIsRead(d, cells, Open(v));
    }
  }

  /** A row has trailing text exactly when a closed quote is followed by a byte other than a
      quote and the delimiter. */
  lemma TrailingExactly(row: bytes, d: byte)
    requires d != QUOTE
    ensures Read(row, d) == Err(TrailingAfterQuote)
       <==> exists cells, v, b, rest :: HasShape(row, d, cells, Broken(v, b, rest))
  {
    var cells, tail := RowShape(row, d);
    forall cells, v, b, rest | HasShape(row, d, cells, Broken(v, b, rest))
      ensures Read(row, d) == Err(TrailingAfterQuote)
    {
      ShapeIsRead(d, cells, Broken(v, b, rest));
    }
  }

  /** A row without a quote reads as a plain split on the delimiter. */
  lemma NoQuotesIsPlainSplit(row: bytes, d: byte)
    requires d != QUOTE && QUOTE !in row
    ensures Read(row, d) == Ok(Split(row, d))
  {
    var parts := Split(row, d);
    JoinSplit(row, d);
    SplitPieces(row, d);
    var cells := seq(|parts|, i requires 0 <= i < |parts| => Cell(parts[i], false));
    assert Values(cells) == parts;
    PlainRender(cells, d);
    assert AllLegal(cells, d) by {
      forall i | 0 <= i < |cells|
        ensures Legal(cells[i], d)
      {
        assert parts[i] in parts;
        JoinHolds(parts, [d], i);
        if parts[i] != [] {
          assert parts[i][0] in row;
        }
      }
      assert forall c <- cells :: exists i :: 0 <= i < |cells| && cells[i] == c;
    }
    RenderedIsRead(cells, d);
  }

  lemma {:induction false} PlainRender(cells: seq<Cell>, d: byte)
    requires cells != [] && forall c <- cells :: !c.quoted
    ensures Render(cells, d) == Join(Values(cells), [d])
  {
    assert !cells[0].quoted;
    if |cells| == 1 {
      assert cells[..0] == [];
      assert Render(cells, d) == [] + cells[0].value;
    } else {
      var more := cells[1..];
      PlainRender(more, d);
      RenderCons(cells, d);
      assert Values(cells)[1..] == Values(more);
    }
  }

  lemma RenderCons(cells: seq<Cell>, d: byte)
    requires |cells| > 1
    ensures Render(cells, d) == Shown(cells[0]) + [d] + Render(cells[1..], d)
  {
    var front := cells[..|cells| - 1];
    assert front[1..] == cells[1..][..|cells| - 2];
  }

  lemma {:induction false} JoinHolds(parts: seq<bytes>, sep: bytes, i: nat)
    requires i < |parts|
    ensures forall b <- parts[i] :: b in Join(parts, sep)
  {
    if i > 0 {
      JoinHolds(parts[1..], sep, i - 1);
    }
  }

  // ---- The quoting writer ----

  function AllQuoted(fields: seq<bytes>): (cells: seq<Cell>)
    ensures |cells| == |fields| && Values(cells) == fields
    ensures forall c <- cells :: c.quoted
  {
    seq(|fields|, i requires 0 <= i < |fields| => Cell(fields[i], true))
  }

  /** The writer's inner loop: a field's bytes in quotes, each quote in them doubled. */
  method PushEnclosed(out: bytes, field: bytes) returns (quoted: bytes)
    ensures quoted == out + Enclosed(field)
  {
    quoted := out + [QUOTE];
    for j := 0 to |field|
      invariant quoted == out + [QUOTE] + Doubled(field[..j])
    {
      assert field[..j + 1] == field[..j] + [field[j]];
      DoubledAppend(field[..j], field[j]);
      if field[j] == QUOTE {
        quoted := quoted + [QUOTE];
      }
      quoted := quoted + [field[j]];
    }
    assert field[..|field|] == field;
    quoted := quoted + [QUOTE];
  }

  /** The writer's loop: every field quoted, the delimiter between. */
  method Quote(fields: seq<bytes>, d: byte) returns (quoted: bytes)
    requires d != QUOTE
    ensures fields == [] ==> quoted == []
    ensures fields != [] ==> quoted == Render(AllQuoted(fields), d)
    ensures fields != [] ==> Read(quoted, d) == Ok(fields)
  {
    quoted := [];
    ghost var cells := AllQuoted(fields);
    for i := 0 to |fields|
      invariant i == 0 ==> quoted == []
      invariant i > 0 ==> quoted == Render(cells[..i], d)
    {
      if i > 0 {
        quoted := quoted + [d];
      }
      quoted := PushEnclosed(quoted, fields[i]);
      RenderAppend(cells, i, d);
    }
    assert cells[..|fields|] == cells;
    if fields != [] {
      RenderedIsRead(cells, d);
    }
  }

  lemma RenderAppend(cells: seq<Cell>, i: nat, d: byte)
    requires i < |cells|
    ensures i == 0 ==> Render(cells[..1], d) == Shown(cells[0])
    ensures i > 0 ==> Render(cells[..i + 1], d) == Render(cells[..i], d) + [d] + Shown(cells[i])
  {
    assert cells[..i + 1][..i] == cells[..i];
    if i > 0 {
      var front := cells[..i];
      assert front == front[..i - 1] + [front[i - 1]];
      LeadingAppend(front[..i - 1], front[i - 1], d);
    }
  }

  lemma {:induction false} LeadingAppend(cells: seq<Cell>, c: Cell, d: byte)
    ensures Leading(cells + [c], d) == Leading(cells, d) + Shown(c) + [d]
  {
    if cells == [] {
      assert cells + [c] == [c];
      assert [c][1..] == [];
      assert Leading([c], d) == Shown(c) + [d] + Leading([], d);
    } else {
      var first, rest := Shown(cells[0]) + [d], Leading(cells[1..], d);
      TailOf(cells, [c]);
      LeadingAppend(cells[1..], c, d);
      Assoc(first, rest + Shown(c), [d]);
      Assoc(first, rest, Shown(c));
    }
  }

  // ---- Where a row's bytes go ----

  function QuoteCount(f: bytes): nat {
    if f == [] then 0 else (if f[0] == QUOTE then 1 else 0) + QuoteCount(f[1..])
  }

  /** The bytes of the values alone. */
  function ValueBytes(cells: seq<Cell>): nat {
    if cells == [] then 0 else |cells[0].value| + ValueBytes(cells[1..])
  }

  /** The enclosing quotes and the doubled ones. */
  function QuotingBytes(cells: seq<Cell>): nat {
    if cells == [] then 0
    else (if cells[0].quoted then 2 + QuoteCount(cells[0].value) else 0) + QuotingBytes(cells[1..])
  }

  lemma {:induction false} DoubledLength(f: bytes)
    ensures |Doubled(f)| == |f| + QuoteCount(f)
  {
    if f != [] {
      DoubledLength(f[1..]);
    }
  }

  lemma {:induction false} RenderLength(cells: seq<Cell>, d: byte)
    requires cells != []
    ensures |Render(cells, d)| == ValueBytes(cells) + (|cells| - 1) + QuotingBytes(cells)
  {
    DoubledLength(cells[0].value);
    if |cells| == 1 {
      assert cells[..0] == [] && cells[1..] == [];
      assert ValueBytes(cells[1..]) == 0 && QuotingBytes(cells[1..]) == 0;
    } else {
      RenderCons(cells, d);
      RenderLength(cells[1..], d);
    }
  }

  /** Every byte of an accepted row is a field byte, a delimiter, an enclosing quote or a doubled
      one. */
  lemma AcceptedLength(row: bytes, d: byte) returns (cells: seq<Cell>)
    requires d != QUOTE && Read(row, d).Ok?
    ensures Writes(cells, row, Read(row, d).fields, d)
    ensures |row| == ValueBytes(cells) + (|Read(row, d).fields| - 1) + QuotingBytes(cells)
  {
    var fields := Read(row, d).fields;
    AcceptedExactly(row, d, fields);
    cells :| Writes(cells, row, fields, d);
    RenderLength(cells, d);
  }

  // ---- UTF-8 ----

  /** The scanner is in the same state after the field as after the row's prefix: the bytes the
      reader drops are ASCII, which are read only between characters. */
  lemma {:induction false} FieldsStayUtf8(rest: bytes, d: byte, state: State, field: bytes, q: Utf8.Scan)
    requires d < 128
    requires Utf8.Run(Utf8.Ready, field) == q && Utf8.Run(q, rest) == Utf8.Ready
    requires state.Start? ==> field == []
    ensures var r := ReadFrom(rest, d, state, field); r.Ok? ==> forall f <- r.fields :: Utf8.Valid(f)
    decreases rest
  {
    Utf8.ScannerDecides(field);
    if rest != [] {
      var b, after := rest[0], rest[1..];
      var q' := Utf8.Step(q, b);
      Utf8.RunAppend(Utf8.Ready, field, b);
      if b < 128 {
        Utf8.AsciiOnlyWhenReady(q, b, after);
      }
      if b == QUOTE && state.Start? {
        FieldsStayUtf8(after, d, Quoted, field, q');
      } else if b == QUOTE && state.Quoted? {
        FieldsStayUtf8(after, d, QuoteInQuoted, field, q');
      } else if b == d && !state.Quoted? && (state.QuoteInQuoted? ==> b != QUOTE) {
        FieldsStayUtf8(after, d, Start, [], q');
      } else if state.Quoted? || b == QUOTE || !state.QuoteInQuoted? {
        FieldsStayUtf8(after, d, if state.Start? then Unquoted
                                 else if state.QuoteInQuoted? then Quoted else state, field + [b], q');
      }
    }
  }

  /** Every field of a well-formed row is well-formed, for every ASCII delimiter. */
  lemma FieldsAreUtf8(row: bytes, d: byte)
    requires d < 128 && Utf8.Valid(row)
    ensures Read(row, d).Ok? ==> forall f <- Read(row, d).fields :: Utf8.Valid(f)
  {
    Utf8.ScannerDecides(row);
    FieldsStayUtf8(row, d, Start, [], Utf8.Ready);
  }

  // ---- The delimiter a fuzz input picks ----

  /** The admitted bytes below `n`, in byte order. */
  function AdmittedBelow(n: nat): seq<byte>
    requires n <= 128
  {
    if n == 0 then [] else AdmittedBelow(n - 1) + if Admitted(n - 1) then [n - 1] else []
  }

  /** How many of the three bytes left out are below `b`. */
  function LeftOutBelow(b: nat): nat {
    (if b > LF then 1 else 0) + (if b > CR then 1 else 0) + (if b > QUOTE then 1 else 0)
  }

  lemma {:induction false} AdmittedAt(n: nat)
    requires n <= 128
    ensures |AdmittedBelow(n)| == n - LeftOutBelow(n)
    ensures forall i | 0 <= i < |AdmittedBelow(n)| :: Admitted(AdmittedBelow(n)[i])
    ensures forall b: byte | b < n && Admitted(b) ::
              b - LeftOutBelow(b) < |AdmittedBelow(n)| && AdmittedBelow(n)[b - LeftOutBelow(b)] == b
  {
    if n > 0 {
      AdmittedAt(n - 1);
    }
  }

  method Delimiter(selector: byte) returns (d: byte)
    ensures Admitted(d)
    ensures |AdmittedBelow(128)| == 125 && d == AdmittedBelow(128)[selector % 125]
    ensures var k := selector % 125;
            d == if k < 10 then k else if k < 12 then k + 1 else if k < 32 then k + 2 else k + 3
  {
    var allowed: seq<byte> := [];
    for b := 0 to 128
      invariant allowed == AdmittedBelow(b)
    {
      if Admitted(b) {
        allowed := allowed + [b];
      }
    }
    AdmittedAt(128);
    d := allowed[selector % |allowed|];
    PickedIs(selector % 125);
  }

  /** The k-th admitted byte, past those of the three that are below it. */
  lemma PickedIs(k: nat)
    requires k < 125
    ensures |AdmittedBelow(128)| == 125
    ensures AdmittedBelow(128)[k] == if k < 10 then k else if k < 12 then k + 1 else if k < 32 then k + 2 else k + 3
  {
    AdmittedAt(128);
    var b: byte := if k < 10 then k else if k < 12 then k + 1 else if k < 32 then k + 2 else k + 3;
    assert Admitted(b) && b - LeftOutBelow(b) == k;
  }

  /** Every admitted delimiter is some input's. */
  lemma EveryDelimiterPicked(d: byte)
    requires Admitted(d)
    ensures exists selector: byte :: |AdmittedBelow(128)| == 125 && AdmittedBelow(128)[selector % 125] == d
  {
    AdmittedAt(128);
    var selector: byte := d - LeftOutBelow(d);
    assert AdmittedBelow(128)[selector % 125] == d;
  }
}
