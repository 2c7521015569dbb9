/** The RFID reader simulator (src/app/dev/rfid/page.tsx): a newest-first log of card
    reads, fed by hand or by an automatic simulation that keeps only the last twenty. */
module Rfid {
  import opened Wrappers
  import Keyed

  datatype Outcome = Success | Failure

  /** `id` and `timestamp` stand for `Date.now()` and `new Date()` at the read: two
      separate readings of the clock. */
  datatype RfidEvent = RfidEvent(
    id: int,
    rfidTag: string,
    readerId: string,
    timestamp: int,
    studentName: Option<string>,
    status: Outcome)

  datatype Reader = Reader(id: string, location: string)
  datatype Tag = Tag(tag: string, name: string)

  const Readers: seq<Reader> := [
    Reader("READER_001", "Main Entrance"),
    Reader("READER_002", "CS Department"),
    Reader("READER_003", "Library"),
    Reader("READER_004", "Cafeteria")]

  const Tags: seq<Tag> := [
    Tag("RFID001234", "Alice Johnson"),
    Tag("RFID001235", "Bob Smith"),
    Tag("RFID001236", "Carol Davis"),
    Tag("RFID001237", "David Wilson"),
    Tag("RFID001238", "Emma Brown")]

  /** The auto simulation keeps this many events. */
  const AutoLogLimit: nat := 20

  /** The simulator page: the two input fields and the log. */
  datatype Simulator = Simulator(tag: string, reader: string, events: seq<RfidEvent>)

  /** `mockStudentTags.find(s => s.tag === tag)?.name`. */
  function StudentName(tag: string): (r: Option<string>)
    ensures r.None? <==> forall j :: 0 <= j < |Tags| ==> Tags[j].tag != tag
    ensures forall j :: 0 <= j < |Tags| && Tags[j].tag == tag ==> r == Some(Tags[j].name)
  {
    TagsDistinct();
    NameIn(Tags, tag)
  }

  predicate DistinctTags(table: seq<Tag>)
  {
    forall i, j :: 0 <= i < j < |table| ==> table[i].tag != table[j].tag
  }

  lemma TagsDistinct()
    ensures DistinctTags(Tags)
  {
  }

  /** The first entry of the table with the tag gives the name; it is the only one. */
  function NameIn(table: seq<Tag>, tag: string): (r: Option<string>)
    requires DistinctTags(table)
    ensures r.None? <==> forall j :: 0 <= j < |table| ==> table[j].tag != tag
    ensures forall j :: 0 <= j < |table| && table[j].tag == tag ==> r == Some(table[j].name)
  {
    match Keyed.Find(table, (t: Tag) => t.tag == tag)
    case Some(t) => Some(t.name)
    case None => None
  }

  /** `handleSendEvent`: with both fields filled, a successful read of the typed tag at
      the chosen reader goes on top of the log and both fields are cleared; with either
      field empty nothing happens. `id` and `at` are the handler's two clock readings. */
  function Send(s: Simulator, id: int, at: int): (r: Simulator)
    ensures s.tag == "" || s.reader == "" ==> r == s
    ensures s.tag != "" && s.reader != "" ==>
              && r.tag == "" && r.reader == ""
              && |r.events| == |s.events| + 1
              && r.events[1..] == s.events
              && r.events[0] == RfidEvent(id, s.tag, s.reader, at, StudentName(s.tag), Success)
  {
    if s.tag == "" || s.reader == "" then s
    else Simulator("", "", [RfidEvent(id, s.tag, s.reader, at, StudentName(s.tag), Success)] + s.events)
  }

  /** One tick of the auto simulation: a read of a random known tag at a random reader
      goes on top, and only the twenty newest are kept. `tagPick` and `readerPick` stand
      for `Math.floor(Math.random() * length)` over the two tables, and `id` and `at` for
      the two clock readings. */
  function AutoTick(events: seq<RfidEvent>, tagPick: int, readerPick: int, id: int, at: int): (r: seq<RfidEvent>)
    requires 0 <= tagPick < |Tags| && 0 <= readerPick < |Readers|
    ensures |r| == if |events| + 1 < AutoLogLimit then |events| + 1 else AutoLogLimit
    ensures r[1..] == events[..|r| - 1]
    ensures r[0].rfidTag == Tags[tagPick].tag && r[0].readerId == Readers[readerPick].id
    ensures r[0].studentName == Some(Tags[tagPick].name) && r[0].timestamp == at
    ensures r[0] == RfidEvent(id, Tags[tagPick].tag, Readers[readerPick].id, at, Some(Tags[tagPick].name), Success)
  {
    var keep := if |events| < AutoLogLimit - 1 then events else events[..AutoLogLimit - 1];
    [RfidEvent(id, Tags[tagPick].tag, Readers[readerPick].id, at, Some(Tags[tagPick].name), Success)] + keep
  }

  /** The name an automatic read carries is the one the tag table gives its tag. */
  lemma AutoReadsAreNamed(events: seq<RfidEvent>, tagPick: int, readerPick: int, id: int, at: int)
    requires 0 <= tagPick < |Tags| && 0 <= readerPick < |Readers|
    ensures var e := AutoTick(events, tagPick, readerPick, id, at)[0];
            e.studentName.Some? && e.studentName == StudentName(e.rfidTag)
  {
  }

  /** `clearEvents`. */
  function Clear(s: Simulator): (r: Simulator)
    ensures |r.events| == 0
    ensures r.tag == s.tag && r.reader == s.reader
  {
    s.(events := [])
  }

  /** The log reads newest first. */
  predicate NewestFirst(events: seq<RfidEvent>)
  {
    forall i, j :: 0 <= i < j < |events| ==> events[i].timestamp >= events[j].timestamp
  }

  /** Clearing is idempotent and leaves a log that is trivially newest first, and the next
      read on a cleared simulator is the log's only event whatever the clock says. */
  lemma ClearStartsFreshLog(s: Simulator, id: int, at: int)
    ensures Clear(Clear(s)) == Clear(s)
    ensures NewestFirst(Clear(s).events)
    ensures s.tag != "" && s.reader != "" ==>
              Send(Clear(s), id, at).events == [RfidEvent(id, s.tag, s.reader, at, StudentName(s.tag), Success)]
  {
  }

  /** With a clock that does not run backwards, sends and ticks keep the log newest
      first. */
  lemma ReadsKeepNewestFirst(s: Simulator, tagPick: int, readerPick: int, id: int, at: int)
    requires 0 <= tagPick < |Tags| && 0 <= readerPick < |Readers|
    requires NewestFirst(s.events)
    requires |s.events| > 0 ==> at >= s.events[0].timestamp
    ensures NewestFirst(Send(s, id, at).events)
    ensures NewestFirst(AutoTick(s.events, tagPick, readerPick, id, at))
  {
    if s.tag != "" && s.reader != "" {
      var t := Send(s, id, at).events;
      assert t == [t[0]] + s.events;
      PrependKeepsNewestFirst(t[0], s.events);
    }
    var r := AutoTick(s.events, tagPick, readerPick, id, at);
    var keep := s.events[..|r| - 1];
    assert r == [r[0]] + keep;
    PrependKeepsNewestFirst(r[0], keep);
  }

  /** A read no older than the newest one can go on top of a newest-first log. */
  lemma PrependKeepsNewestFirst(e: RfidEvent, events: seq<RfidEvent>)
    requires NewestFirst(events)
    requires |events| > 0 ==> e.timestamp >= events[0].timestamp
    ensures NewestFirst([e] + events)
  {
    var r := [e] + events;
    assert forall k :: 1 <= k < |r| ==> r[k] == events[k - 1];
  }
}
