/**
 * The pin tester: every configured input pin is read, and the pins whose
 * level differs from what their pull resistor would give them are listed,
 * tagged with the level they were found at.
 */
module PinTester {

  /** The pull resistor a pin is configured with. */
  datatype Pull = Up | Down | None

  datatype Level = Low | High

  /** One configured pin as read in this pass: its GPIO number, its pull
      configuration and the level it reads. */
  datatype PinReading = PinReading(number: bv8, pull: Pull, level: Level)

  /** A recorded pin: its number and the level it was found at. */
  datatype Entry = Entry(number: bv8, tag: string)

  /** A pin is recorded when it reads away from its pull: a pulled-up pin
      that reads low, or a pulled-down or floating pin that reads high. */
  predicate Recorded(p: PinReading)
  {
    match p.pull
    case Up => p.level == Low
    case Down | None => p.level == High
  }

  /** The entry a recorded pin gets: "low" for a pulled-up pin, "high"
      otherwise. */
  function EntryOf(p: PinReading): Entry
  {
    Entry(p.number, if p.pull == Up then "low" else "high")
  }

  /** The entries a pass over `pins` records, in pin order. */
  function RecordedEntries(pins: seq<PinReading>): seq<Entry>
  {
    if pins == [] then []
    else
      var last := pins[|pins| - 1];
      RecordedEntries(pins[..|pins| - 1]) + (if Recorded(last) then [EntryOf(last)] else [])
  }

  /** A pin's entry is tagged "low" exactly when it is pulled up and reads
      low, and "high" exactly when it is pulled down or floating and reads
      high. */
  lemma EntryTags(p: PinReading)
    requires Recorded(p)
    ensures EntryOf(p).tag == "low" <==> (p.pull == Up && p.level == Low)
    ensures EntryOf(p).tag == "high" <==> (p.pull != Up && p.level == High)
  {
  }

  /** Recording distributes over concatenation: the entries of a longer
      list of pins keep the order of the pins. */
  lemma {:induction false} RecordedEntriesAppend(a: seq<PinReading>, b: seq<PinReading>)
    ensures RecordedEntries(a + b) == RecordedEntries(a) + RecordedEntries(b)
    decreases |b|
  {
    if b == [] {
      assert a + b == a;
    } else {
      var last := b[|b| - 1];
      assert (a + b)[..|a + b| - 1] == a + b[..|b| - 1];
      RecordedEntriesAppend(a, b[..|b| - 1]);
    }
  }

  /** An entry is recorded exactly when some recorded pin produced it. */
  lemma {:induction false} RecordedEntriesMembership(pins: seq<PinReading>, e: Entry)
    ensures e in RecordedEntries(pins) <==> exists i :: 0 <= i < |pins| && Recorded(pins[i]) && e == EntryOf(pins[i])
  {
    if pins != [] {
      var init := pins[..|pins| - 1];
      RecordedEntriesMembership(init, e);
      if exists i :: 0 <= i < |pins| && Recorded(pins[i]) && e == EntryOf(pins[i]) {
        var i :| 0 <= i < |pins| && Recorded(pins[i]) && e == EntryOf(pins[i]);
        if i < |pins| - 1 {
          assert init[i] == pins[i];
        }
      }
      if e in RecordedEntries(init) {
        var i :| 0 <= i < |init| && Recorded(init[i]) && e == EntryOf(init[i]);
        assert pins[i] == init[i];
      }
    }
  }

  /** At most one entry per pin: the list is never longer than the pins,
      which is the capacity of the vector it is pushed into. */
  lemma {:induction false} RecordedEntriesLength(pins: seq<PinReading>)
    ensures |RecordedEntries(pins)| <= |pins|
  {
    if pins != [] {
      RecordedEntriesLength(pins[..|pins| - 1]);
    }
  }

  /** When the pins have distinct numbers, so do the entries: every pin
      appears at most once. */
  lemma {:induction false} RecordedEntriesDistinct(pins: seq<PinReading>)
    requires forall i, j :: 0 <= i < j < |pins| ==> pins[i].number != pins[j].number
    ensures forall i, j :: 0 <= i < j < |RecordedEntries(pins)| ==>
              RecordedEntries(pins)[i].number != RecordedEntries(pins)[j].number
  {
    if pins != [] {
      var init := pins[..|pins| - 1];
      var last := pins[|pins| - 1];
      RecordedEntriesDistinct(init);
      forall e | e in RecordedEntries(init)
        ensures e.number != last.number
      {
        RecordedEntriesMembership(init, e);
      }
    }
  }

  /** The bounded vector the results are collected in: a fixed capacity and
      its current items; a push onto a full vector is refused. */
  class HighPins {
    const capacity: nat
    var items: seq<Entry>

    ghost predicate Valid()
      reads this
    {
      |items| <= capacity
    }

    constructor (capacity: nat)
      ensures Valid() && this.capacity == capacity && items == []
    {
      this.capacity := capacity;
      items := [];
    }

    method Clear()
      modifies this
      ensures Valid() && items == []
    {
      items := [];
    }

    method Push(e: Entry) returns (ok: bool)
      requires Valid()
      modifies this
      ensures Valid()
      ensures ok <==> |old(items)| < capacity
      ensures items == if ok then old(items) + [e] else old(items)
    {
      ok := |items| < capacity;
      if ok {
        items := items + [e];
      }
    }
  }

  /** One test pass: the vector is cleared, then every pin read away from
      its pull is pushed, in pin order. The result depends on the current
      readings only, and no push is refused. */
  method TestPins(pins: seq<PinReading>, highPins: HighPins)
    requires highPins.capacity == |pins|
    modifies highPins
    ensures highPins.Valid() && highPins.capacity == |pins|
    ensures highPins.items == RecordedEntries(pins)
  {
    highPins.Clear();
    for i := 0 to |pins|
      invariant highPins.Valid() && highPins.capacity == |pins|
      invariant highPins.items == RecordedEntries(pins[..i])
    {
      RecordedEntriesLength(pins[..i]);
      var p := pins[i];
      assert pins[..i + 1][..i] == pins[..i];
      match p.pull {
        case Up =>
          if p.level == Low {
            var ok := highPins.Push(Entry(p.number, "low"));
          }
        case Down | None =>
          if p.level == High {
            var ok := highPins.Push(Entry(p.number, "high"));
          }
      }
    }
    assert pins[..|pins|] == pins;
  }
}
