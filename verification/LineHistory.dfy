/** What a terminal delivers over a whole session, with any changes of mode in between. */
module LineHistory {
  import opened Prelude
  import opened LineDiscipline

  // ---------------------------------------------------------------------------
  // Reference: split the input at line ends; a segment gives the bytes that pass it by, then its edited line
  // ---------------------------------------------------------------------------

  /** In canonical mode a return, a newline or Ctrl-D ends the line; Ctrl-C does when it signals. */
  predicate EndsLine(a: Arrival<byte>) {
    (a.icanon && (a.code == LF || a.code == CR || a.code == CTRL_D)) || (a.isig && a.code == CTRL_C)
  }

  /** In raw mode every other byte goes straight to the reader; Ctrl-C does in every mode when it does not signal. */
  predicate Passes(a: Arrival<byte>) {
    !EndsLine(a) && (!a.icanon || a.code == CTRL_C)
  }

  /** The text a segment without line ends leaves on the line. */
  ghost function Edit(segment: seq<Arrival<byte>>): (line: seq<byte>) {
    if segment == [] then []
    else
      var line, a := Edit(segment[..|segment| - 1]), segment[|segment| - 1];
      if Passes(a) then line
      else if a.code == BS || a.code == DEL then (if line == [] then [] else line[..|line| - 1])
      else if |line| < LINE_BUF_SIZE then line + [a.code]
      else line
  }

  /** The bytes of a segment that go straight to the reader, one at a time. */
  ghost function Passed(segment: seq<Arrival<byte>>): seq<seq<byte>> {
    if segment == [] then []
    else
      var a := segment[|segment| - 1];
      Passed(segment[..|segment| - 1]) + if Passes(a) then [[a.code]] else []
  }

  /** What a line end sends to the reader. */
  ghost function Sent(end: byte, line: seq<byte>): seq<byte> {
    if end == CTRL_C then [] else if end == CTRL_D then line else line + [LF]
  }

  ghost function FirstEnd(input: seq<Arrival<byte>>): (i: nat)
    ensures i <= |input| && (i < |input| ==> EndsLine(input[i]))
    ensures forall j :: 0 <= j < i ==> !EndsLine(input[j])
  {
    if input == [] || EndsLine(input[0]) then 0 else 1 + FirstEnd(input[1..])
  }

  /** What the input sends to the reader, piece by piece: bytes that pass, and lines. */
  ghost function Sendings(input: seq<Arrival<byte>>): seq<seq<byte>>
    decreases |input|
  {
    var i := FirstEnd(input);
    if i == |input| then Passed(input)
    else Passed(input[..i]) + [Sent(input[i].code, Edit(input[..i]))] + Sendings(input[i + 1..])
  }

  /** The input after its last line end. */
  ghost function LastSegment(input: seq<Arrival<byte>>): seq<Arrival<byte>>
    decreases |input|
  {
    var i := FirstEnd(input);
    if i == |input| then input else LastSegment(input[i + 1..])
  }

  /** What one more arrival sends, with `line` being edited. */
  ghost function Sends(a: Arrival<byte>, line: seq<byte>): seq<seq<byte>> {
    if EndsLine(a) then [Sent(a.code, line)] else if Passes(a) then [[a.code]] else []
  }

  lemma {:induction false} FirstEndSnoc(input: seq<Arrival<byte>>, a: Arrival<byte>)
    ensures var i := FirstEnd(input);
            FirstEnd(input + [a]) == if i < |input| || EndsLine(a) then i else i + 1
  {
    if input != [] && !EndsLine(input[0]) {
      FirstEndSnoc(input[1..], a);
      assert (input + [a])[1..] == input[1..] + [a];
    }
  }

  /** One more arrival. */
  lemma {:induction false} InputSnoc(input: seq<Arrival<byte>>, a: Arrival<byte>)
    ensures Sendings(input + [a]) == Sendings(input) + Sends(a, Edit(LastSegment(input)))
    ensures LastSegment(input + [a]) == if EndsLine(a) then [] else LastSegment(input) + [a]
    decreases |input|
  {
    var i := FirstEnd(input);
    if i < |input| {
      var head, rest := Passed(input[..i]) + [Sent(input[i].code, Edit(input[..i]))], input[i + 1..];
      FirstLine(input, i, a);
      InputSnoc(rest, a);
      Regroup(head, Sendings(rest), Sends(a, Edit(LastSegment(rest))));
    } else {
      LastLine(input, a);
    }
  }

  /** The first line end splits both the input and the longer input. */
  lemma FirstLine(input: seq<Arrival<byte>>, i: nat, a: Arrival<byte>)
    requires i == FirstEnd(input) < |input|
    ensures
      var head, rest := Passed(input[..i]) + [Sent(input[i].code, Edit(input[..i]))], input[i + 1..];
      && Sendings(input) == head + Sendings(rest) && LastSegment(input) == LastSegment(rest)
      && Sendings(input + [a]) == head + Sendings(rest + [a]) && LastSegment(input + [a]) == LastSegment(rest + [a])
  {
    var all := input + [a];
    FirstEndSnoc(input, a);
    assert all[i] == input[i] && input == input[..i] + [input[i]] + input[i + 1..];
    UnfoldLine(input, i, input[..i], input[i + 1..]);
    UnfoldLine(all, i, input[..i], input[i + 1..] + [a]);
  }

  lemma UnfoldLine(input: seq<Arrival<byte>>, i: nat, segment: seq<Arrival<byte>>, rest: seq<Arrival<byte>>)
    requires i == FirstEnd(input) < |input| && |segment| == i && input == segment + [input[i]] + rest
    ensures Sendings(input) == Passed(segment) + [Sent(input[i].code, Edit(segment))] + Sendings(rest)
    ensures LastSegment(input) == LastSegment(rest)
  {
    assert input[..i] == segment && input[i + 1..] == rest;
  }

  lemma LastLine(input: seq<Arrival<byte>>, a: Arrival<byte>)
    requires FirstEnd(input) == |input|
    ensures Sendings(input + [a]) == Sendings(input) + Sends(a, Edit(LastSegment(input)))
    ensures LastSegment(input + [a]) == if EndsLine(a) then [] else LastSegment(input) + [a]
  {
    FirstEndSnoc(input, a);
    if EndsLine(a) {
      EndOfLine(input, a);
    } else {
      PassedSnoc(input, a);
    }
  }

  lemma EndOfLine(input: seq<Arrival<byte>>, a: Arrival<byte>)
    requires FirstEnd(input + [a]) == |input| && EndsLine(a)
    ensures Sendings(input + [a]) == Passed(input) + [Sent(a.code, Edit(input))] && LastSegment(input + [a]) == []
  {
    var all, line := input + [a], Passed(input) + [Sent(a.code, Edit(input))];
    assert all[|input|] == a && all == input + [a] + [];
    UnfoldLine(all, |input|, input, []);
    NoInput();
    assert line + [] == line;
  }

  lemma PassedSnoc(input: seq<Arrival<byte>>, a: Arrival<byte>)
    ensures Passed(input + [a]) == Passed(input) + if Passes(a) then [[a.code]] else []
  {
    var all, n := input + [a], |input|;
    assert all[..n] == input && all[n] == a;
  }

  lemma Regroup<T>(a: seq<T>, b: seq<T>, c: seq<T>)
    ensures a + (b + c) == (a + b) + c
  {
  }

  lemma NoInput()
    ensures Sendings([]) == [] && LastSegment([]) == [] && Edit([]) == []
  {
  }

  lemma EditSnoc(segment: seq<Arrival<byte>>, a: Arrival<byte>)
    ensures
      var line := Edit(segment);
      Edit(segment + [a]) == if Passes(a) then line
                             else if a.code == BS || a.code == DEL then line[..Max(0, |line| - 1)]
                             else if |line| < LINE_BUF_SIZE then line + [a.code] else line
  {
    var longer, n := segment + [a], |segment|;
    assert |longer| == n + 1 && longer[n] == a && longer[..n] == segment;
  }

  ghost function Concat(pieces: seq<seq<byte>>): seq<byte> {
    if pieces == [] then [] else Concat(pieces[..|pieces| - 1]) + pieces[|pieces| - 1]
  }

  lemma ConcatSnoc(pieces: seq<seq<byte>>, piece: seq<byte>)
    ensures Concat(pieces + [piece]) == Concat(pieces) + piece
  {
    var longer, n := pieces + [piece], |pieces|;
    assert longer[..n] == pieces && longer[n] == piece;
  }

  /** All bytes the input sends. */
  ghost function Delivered(input: seq<Arrival<byte>>): seq<byte> {
    Concat(Sendings(input))
  }

  // ---------------------------------------------------------------------------
  // Sessions
  // ---------------------------------------------------------------------------

  datatype Event = Type(a: Arrival<byte>) | Read(n: nat)

  datatype Session = Session(buffers: Buffers, input: seq<Arrival<byte>>, taken: seq<byte>)

  ghost function After(events: seq<Event>): Session {
    if events == [] then Session(Buffers([], [], false), [], [])
    else Happens(After(events[..|events| - 1]), events[|events| - 1])
  }

  ghost function Happens(s: Session, e: Event): Session {
    match e
    case Type(a) => s.(buffers := AsciiStep(s.buffers, a.code, a.icanon, a.isig).0, input := s.input + [a])
    case Read(n) =>
      var (buffers, r) := ReadStep(s.buffers, n);
      s.(buffers := buffers, taken := s.taken + if r.Some? then r.value else [])
  }

  lemma AfterSnoc(events: seq<Event>, e: Event)
    ensures After(events + [e]) == Happens(After(events), e)
  {
    var longer, n := events + [e], |events|;
    assert longer[..n] == events && longer[n] == e;
  }

  /** A terminal that goes through a session, event by event. */
  method Play(t: LineDiscipline, events: seq<Event>) returns (taken: seq<byte>)
    requires t.Valid() && t.View() == Buffers([], [], false)
    modifies t, t.lineBuf
    ensures t.Valid() && t.View() == After(events).buffers && taken == After(events).taken
  {
    taken := [];
    for i := 0 to |events|
      invariant t.Valid() && t.View() == After(events[..i]).buffers && taken == After(events[..i]).taken
    {
      AfterSnoc(events[..i], events[i]);
      assert events[..i + 1] == events[..i] + [events[i]];
      match events[i] {
        case Type(a) =>
          var _ := t.ProcessAsciiByte(a.code, a.icanon, a.isig);
        case Read(n) =>
          var buf := new byte[n];
          var r := t.TryRead(buf);
          taken := taken + if r.Some? then buf[..r.value] else [];
      }
    }
    assert events[..|events|] == events;
  }

  /** What one arrival does to the buffers. */
  lemma TypeStep(s: Buffers, a: Arrival<byte>)
    requires |s.ready| <= READY_CAPACITY
    ensures
      var s' := AsciiStep(s, a.code, a.icanon, a.isig).0;
      && s'.ready == Push(s.ready, Concat(Sends(a, s.line)))
      && s'.line == (if EndsLine(a) then [] else if Passes(a) then s.line
                     else if a.code == BS || a.code == DEL then s.line[..Max(0, |s.line| - 1)]
                     else if |s.line| < LINE_BUF_SIZE then s.line + [a.code] else s.line)
  {
    assert s.ready + [] == s.ready;
    forall piece: seq<byte>
      ensures Concat([piece]) == piece
    {
      ConcatSnoc([], piece);
      assert [] + [piece] == [piece];
    }
  }

  // ---------------------------------------------------------------------------
  // Every byte accounted for
  // ---------------------------------------------------------------------------

  /** Bytes that found the ready buffer full when `e` happened. */
  ghost function Overflow(s: Session, e: Event): nat {
    match e
    case Read(_) => 0
    case Type(a) => Max(0, |s.buffers.ready| + |Concat(Sends(a, s.buffers.line))| - READY_CAPACITY)
  }

  ghost function Dropped(events: seq<Event>): nat {
    if events == [] then 0
    else
      var before := events[..|events| - 1];
      Dropped(before) + Overflow(After(before), events[|events| - 1])
  }

  /** Whatever is sent finds room. */
  ghost predicate NeverFills(events: seq<Event>) {
    events == [] ||
    var before := events[..|events| - 1];
    NeverFills(before) && Overflow(After(before), events[|events| - 1]) == 0
  }

  lemma {:induction false} NeverFillsIff(events: seq<Event>)
    ensures NeverFills(events) <==> Dropped(events) == 0
  {
    if events != [] {
      NeverFillsIff(events[..|events| - 1]);
    }
  }

  /** The line being edited is the edited tail of the input, and every byte sent is read, ready or dropped. */
  ghost predicate Accounted(s: Session, dropped: nat) {
    && s.buffers.line == Edit(LastSegment(s.input))
    && |s.buffers.ready| <= READY_CAPACITY
    && |s.taken| + |s.buffers.ready| + dropped == |Delivered(s.input)|
    && (dropped == 0 ==> s.taken + s.buffers.ready == Delivered(s.input))
  }

  lemma {:induction false} EveryByteAccounted(events: seq<Event>)
    ensures Accounted(After(events), Dropped(events))
  {
    if events == [] {
      NoInput();
    } else {
      var before, e := events[..|events| - 1], events[|events| - 1];
      EveryByteAccounted(before);
      if e.Read? {
        AccountRead(After(before), Dropped(before), e.n);
      } else {
        AccountType(After(before), Dropped(before), e.a);
      }
    }
  }

  lemma AccountRead(s: Session, dropped: nat, n: nat)
    requires Accounted(s, dropped)
    ensures Accounted(Happens(s, Read(n)), dropped)
  {
    ReadConserves(s.buffers, n, s.taken);
    var s' := Happens(s, Read(n));
    assert |s'.taken + s'.buffers.ready| == |s.taken + s.buffers.ready|;
  }

  lemma AccountType(s: Session, dropped: nat, a: Arrival<byte>)
    requires Accounted(s, dropped)
    ensures Accounted(Happens(s, Type(a)), dropped + Overflow(s, Type(a)))
  {
    var sent := Concat(Sends(a, s.buffers.line));
    InputSnoc(s.input, a);
    TypeStep(s.buffers, a);
    PushConserves(s.buffers.ready, sent, s.taken);
    DeliveredSnoc(s.input, a);
    EditSnoc(LastSegment(s.input), a);
    NoInput();
  }

  lemma DeliveredSnoc(input: seq<Arrival<byte>>, a: Arrival<byte>)
    ensures Delivered(input + [a]) == Delivered(input) + Concat(Sends(a, Edit(LastSegment(input))))
  {
    InputSnoc(input, a);
    ConcatOneMore(Sendings(input), Sends(a, Edit(LastSegment(input))));
  }

  lemma ConcatOneMore(pieces: seq<seq<byte>>, more: seq<seq<byte>>)
    requires |more| <= 1
    ensures Concat(pieces + more) == Concat(pieces) + Concat(more)
  {
    if more == [] {
      assert pieces + more == pieces;
    } else {
      assert more == [more[0]] && [] + more == more;
      ConcatSnoc(pieces, more[0]);
      ConcatSnoc([], more[0]);
    }
  }

  lemma ReadConserves(s: Buffers, n: nat, taken: seq<byte>)
    ensures
      var (s', r) := ReadStep(s, n);
      s'.line == s.line && (taken + if r.Some? then r.value else []) + s'.ready == taken + s.ready
  {
    if s.eof {
      assert taken + [] == taken;
    } else {
      var k := Min(n, |s.ready|);
      Rejoin(taken, s.ready, k);
      if k == 0 {
        assert taken + [] == taken && s.ready[..0] == [];
      }
    }
  }

  lemma Rejoin(taken: seq<byte>, ready: seq<byte>, k: nat)
    requires k <= |ready|
    ensures (taken + ready[..k]) + ready[k..] == taken + ready
  {
    assert ready == ready[..k] + ready[k..];
  }

  lemma PushConserves(ready: seq<byte>, bytes: seq<byte>, taken: seq<byte>)
    requires |ready| <= READY_CAPACITY
    ensures |Push(ready, bytes)| + Max(0, |ready| + |bytes| - READY_CAPACITY) == |ready| + |bytes|
    ensures |Push(ready, bytes)| <= READY_CAPACITY
    ensures |ready| + |bytes| <= READY_CAPACITY ==> taken + Push(ready, bytes) == taken + ready + bytes
  {
  }

  /** Over every session of typing and reading, in any modes: the bytes read, then the bytes still ready, are what
      the input sends, exactly when nothing sent finds the ready buffer too full. */
  lemma ReadsAreDeliveredIff(events: seq<Event>)
    ensures var s := After(events); s.taken + s.buffers.ready == Delivered(s.input) <==> NeverFills(events)
  {
    EveryByteAccounted(events);
    NeverFillsIff(events);
  }

  // ---------------------------------------------------------------------------
  // What survives a full buffer
  // ---------------------------------------------------------------------------

  ghost function Cut(sent: seq<byte>, n: nat): seq<byte> {
    if n < |sent| then sent[..n] else sent
  }

  /** The pieces one after the other, each cut after as many bytes as there was room for. */
  ghost function CutConcat(pieces: seq<seq<byte>>, room: seq<nat>): seq<byte>
    requires |pieces| == |room|
  {
    if pieces == [] then []
    else
      var n := |pieces| - 1;
      CutConcat(pieces[..n], room[..n]) + Cut(pieces[n], room[n])
  }

  lemma CutConcatSnoc(pieces: seq<seq<byte>>, room: seq<nat>, piece: seq<byte>, n: nat)
    requires |pieces| == |room|
    ensures CutConcat(pieces + [piece], room + [n]) == CutConcat(pieces, room) + Cut(piece, n)
  {
    var longer, rooms := pieces + [piece], room + [n];
    assert longer[..|pieces|] == pieces && rooms[..|pieces|] == room;
  }

  /** The room each piece sent in the session found in the ready buffer, in order. */
  ghost function Room(events: seq<Event>): seq<nat> {
    if events == [] then []
    else
      var before, e := events[..|events| - 1], events[|events| - 1];
      var room := Max(0, READY_CAPACITY - |After(before).buffers.ready|);
      Room(before) + if e.Type? && (EndsLine(e.a) || Passes(e.a)) then [room] else []
  }

  lemma PushIsCut(ready: seq<byte>, bytes: seq<byte>)
    requires |ready| <= READY_CAPACITY
    ensures Push(ready, bytes) == ready + Cut(bytes, READY_CAPACITY - |ready|)
  {
    if |ready| == READY_CAPACITY && bytes != [] {
      assert Cut(bytes, 0) == [];
    }
  }

  /** What was read, then what is ready, are the pieces sent, each cut to its room. */
  ghost predicate CutSoFar(s: Session, room: seq<nat>) {
    |room| == |Sendings(s.input)| && s.taken + s.buffers.ready == CutConcat(Sendings(s.input), room)
  }

  /** Which bytes survive, over every session in any modes: those read, then those ready, are the pieces the input
      sends, each cut where it found the ready buffer full. */
  lemma {:induction false} ReadsAreCutPieces(events: seq<Event>)
    ensures CutSoFar(After(events), Room(events))
  {
    if events == [] {
      NoInput();
    } else {
      var before, e := events[..|events| - 1], events[|events| - 1];
      ReadsAreCutPieces(before);
      LineIsEdited(before);
      if e.Read? {
        ReadIsCut(After(before), Room(before), e.n);
      } else {
        TypeIsCut(After(before), Room(before), e.a);
      }
    }
  }

  lemma LineIsEdited(events: seq<Event>)
    ensures var s := After(events);
            s.buffers.line == Edit(LastSegment(s.input)) && |s.buffers.ready| <= READY_CAPACITY
  {
    EveryByteAccounted(events);
  }

  lemma ReadIsCut(s: Session, room: seq<nat>, n: nat)
    requires CutSoFar(s, room)
    ensures CutSoFar(Happens(s, Read(n)), room + [])
  {
    ReadConserves(s.buffers, n, s.taken);
    assert room + [] == room;
  }

  lemma TypeIsCut(s: Session, room: seq<nat>, a: Arrival<byte>)
    requires |s.buffers.ready| <= READY_CAPACITY && s.buffers.line == Edit(LastSegment(s.input)) && CutSoFar(s, room)
    ensures CutSoFar(Happens(s, Type(a)),
                     room + if EndsLine(a) || Passes(a) then [READY_CAPACITY - |s.buffers.ready|] else [])
  {
    var n, pieces := READY_CAPACITY - |s.buffers.ready|, Sends(a, s.buffers.line);
    InputSnoc(s.input, a);
    TypeStep(s.buffers, a);
    CutOneMore(Sendings(s.input), room, pieces, s.taken, s.buffers.ready);
  }

  /** One more piece, or none, pushed to the ready bytes. */
  lemma CutOneMore(sent: seq<seq<byte>>, room: seq<nat>, more: seq<seq<byte>>, taken: seq<byte>, ready: seq<byte>)
    requires |room| == |sent| && taken + ready == CutConcat(sent, room) && |more| <= 1 && |ready| <= READY_CAPACITY
    ensures
      var room' := room + if more != [] then [READY_CAPACITY - |ready|] else [];
      |room'| == |sent + more| && taken + Push(ready, Concat(more)) == CutConcat(sent + more, room')
  {
    if more == [] {
      assert room + [] == room && sent + more == sent && Push(ready, []) == ready;
    } else {
      var n := READY_CAPACITY - |ready|;
      assert more == [more[0]] && [] + more == more;
      ConcatSnoc([], more[0]);
      CutConcatSnoc(sent, room, more[0], n);
      PushIsCut(ready, more[0]);
      Regroup(taken, ready, Cut(more[0], n));
    }
  }

  /** The typed bytes that found room. */
  ghost function Kept(input: seq<Arrival<byte>>, room: seq<nat>): seq<byte>
    requires |input| == |room|
  {
    if input == [] then []
    else
      var n := |input| - 1;
      Kept(input[..n], room[..n]) + if room[n] > 0 then [input[n].code] else []
  }

  /** All of it in raw mode, with signals off or no Ctrl-C. */
  ghost predicate IsRaw(input: seq<Arrival<byte>>) {
    forall i :: 0 <= i < |input| ==> !input[i].icanon && (input[i].isig ==> input[i].code != CTRL_C)
  }

  /** In raw mode, with signals off or no Ctrl-C typed, the bytes read, then the bytes ready, are the bytes typed,
      less those that found the ready buffer full. */
  lemma RawReadsAreTyped(events: seq<Event>)
    requires IsRaw(After(events).input)
    ensures var s := After(events);
            |Room(events)| == |s.input| && s.taken + s.buffers.ready == Kept(s.input, Room(events))
  {
    ReadsAreCutPieces(events);
    RawIsKept(After(events), Room(events));
  }

  lemma RawIsKept(s: Session, room: seq<nat>)
    requires CutSoFar(s, room) && IsRaw(s.input)
    ensures |room| == |s.input| && s.taken + s.buffers.ready == Kept(s.input, room)
  {
    RawSendings(s.input);
    RawCut(s.input, Sendings(s.input), room);
  }

  lemma {:induction false} RawSendings(input: seq<Arrival<byte>>)
    requires forall i :: 0 <= i < |input| ==> Passes(input[i])
    ensures |Sendings(input)| == |input| && forall i :: 0 <= i < |input| ==> Sendings(input)[i] == [input[i].code]
  {
    if input == [] {
      NoInput();
    } else {
      var front, a := input[..|input| - 1], input[|input| - 1];
      assert input == front + [a];
      RawSendings(front);
      InputSnoc(front, a);
    }
  }

  lemma {:induction false} RawCut(input: seq<Arrival<byte>>, pieces: seq<seq<byte>>, room: seq<nat>)
    requires |input| == |pieces| == |room| && forall i :: 0 <= i < |input| ==> pieces[i] == [input[i].code]
    ensures CutConcat(pieces, room) == Kept(input, room)
  {
    if input != [] {
      var n := |input| - 1;
      RawCut(input[..n], pieces[..n], room[..n]);
      assert room[n] == 0 ==> Cut(pieces[n], 0) == [];
    }
  }

  // ---------------------------------------------------------------------------
  // End of file
  // ---------------------------------------------------------------------------

  /** Event `p` is a Ctrl-D in canonical mode on an empty line. */
  ghost predicate EmptyLineEnd(events: seq<Event>, p: nat) {
    && p < |events| && events[p].Type? && events[p].a.icanon && events[p].a.code == CTRL_D
    && Edit(LastSegment(After(events[..p]).input)) == []
  }

  ghost predicate EofSinceRead(events: seq<Event>) {
    exists p: nat :: EmptyLineEnd(events, p) && forall q :: p < q < |events| ==> !events[q].Read?
  }

  lemma EofSinceReadSnoc(events: seq<Event>, e: Event)
    ensures EofSinceRead(events + [e]) <==>
            EmptyLineEnd(events + [e], |events|) || (e.Type? && EofSinceRead(events))
  {
    var longer, n := events + [e], |events|;
    assert forall p: nat :: p < n ==> longer[p] == events[p] && longer[..p] == events[..p];
    assert forall p: nat :: p < n ==> (EmptyLineEnd(longer, p) <==> EmptyLineEnd(events, p));
    if e.Type? && EofSinceRead(events) {
      var p: nat :| EmptyLineEnd(events, p) && forall q :: p < q < n ==> !events[q].Read?;
      assert EmptyLineEnd(longer, p);
    }
    if EofSinceRead(longer) {
      var p: nat :| EmptyLineEnd(longer, p) && forall q :: p < q < n + 1 ==> !longer[q].Read?;
      if p < n {
        assert EmptyLineEnd(events, p) && longer[n] == e;
        assert forall q :: p < q < n ==> !longer[q].Read?;
      }
    }
  }

  lemma EofStep(s: Session, e: Event)
    ensures Happens(s, e).buffers.eof <==>
            e.Type? && (s.buffers.eof || (e.a.icanon && e.a.code == CTRL_D && s.buffers.line == []))
  {
  }

  /** The end-of-file flag is set exactly when a Ctrl-D came on an empty line since the last read. */
  lemma {:induction false} EofIff(events: seq<Event>)
    ensures After(events).buffers.eof <==> EofSinceRead(events)
  {
    if events != [] {
      var before, e := events[..|events| - 1], events[|events| - 1];
      assert events == before + [e];
      EofIff(before);
      EveryByteAccounted(before);
      EofSinceReadSnoc(before, e);
      EofStep(After(before), e);
    }
  }

  /** A read returns no bytes exactly when a Ctrl-D came on an empty line since the last one; otherwise it returns
      as many ready bytes as it wants and there are, or finds none. */
  lemma ReadTells(events: seq<Event>, n: nat)
    ensures
      var s, r := After(events).buffers, ReadStep(After(events).buffers, n).1;
      && (r == Some([]) <==> EofSinceRead(events))
      && (r == None <==> !EofSinceRead(events) && (n == 0 || s.ready == []))
      && (!EofSinceRead(events) && r.Some? ==> r.value <= s.ready && |r.value| == Min(n, |s.ready|))
  {
    EofIff(events);
  }

  // ---------------------------------------------------------------------------
  // Actions
  // ---------------------------------------------------------------------------

  /** Which action an arrival gives, from what it does: the four kinds of line end; an erase when the line lost a
      character; an echo when a byte went to the line or straight to the reader; none when nothing happened. */
  lemma ActionTells(s: Buffers, a: Arrival<byte>)
    ensures
      var (s', r) := AsciiStep(s, a.code, a.icanon, a.isig);
      && (r == Some(Interrupt) <==> EndsLine(a) && a.code == CTRL_C)
      && (r == Some(Newline) <==> EndsLine(a) && (a.code == LF || a.code == CR))
      && (r == Some(Eof) <==> EndsLine(a) && a.code == CTRL_D && s.line == [])
      && (r == Some(FlushLine) <==> EndsLine(a) && a.code == CTRL_D && s.line != [])
      && (r == Some(EraseChar) <==> !EndsLine(a) && |s'.line| < |s.line|)
      && (r == Some(Echo(a.code)) <==> Passes(a) || |s'.line| > |s.line|)
      && (r == None <==> !EndsLine(a) && !Passes(a) && s' == s)
      && (r.Some? && r.value.Echo? ==> r.value.ch == a.code)
  {
  }
}
