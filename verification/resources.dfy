/** The scheduler's resources: slots, events and the records built from
    them (src/conference_scheduler/resources.py). `Slot` and the records are
    values; an `Event` keeps its tag and unavailability lists in fields that
    its methods change in place. */
module Resources {
  import opened Sequences

  /** A period of time at a venue; `startsAt` is in minutes. */
  datatype Slot = Slot(venue: string, startsAt: int, duration: int, capacity: int, session: string)

  /** What an event's unavailability list may hold: slots and other events. */
  datatype Resource = SlotItem(slot: Slot) | EventItem(event: EventValue)

  /** The value of an `Event`: what `==` on events compares. */
  datatype EventValue = EventValue(
    name: string, duration: int, demand: int, tags: seq<string>, unavailability: seq<Resource>)

  datatype ScheduledItem = ScheduledItem(event: EventValue, slot: Slot)

  /** A change seen from an event; `None` stands for Python's `None`. */
  datatype ChangedEventScheduledItem =
    ChangedEventScheduledItem(event: EventValue, oldSlot: Option<Slot>, newSlot: Option<Slot>)

  /** A change seen from a slot. */
  datatype ChangedSlotScheduledItem =
    ChangedSlotScheduledItem(slot: Slot, oldEvent: Option<EventValue>, newEvent: Option<EventValue>)

  /** A labelled condition that a schedule must meet (`text` is the label). */
  datatype Constraint = Constraint(text: string, condition: bool)

  /** No event value is in its own unavailability list: a datatype value is
      larger than every element of its sequence fields. */
  lemma NotSelfUnavailable(e: EventValue)
    ensures EventItem(e) !in e.unavailability
  {
  }

  class Event {
    var name: string
    var duration: int
    var demand: int
    var tagList: seq<string>
    var unavailabilityList: seq<Resource>

    /** An omitted `tags` or `unavailability` (`None`) starts as an empty
        list of the event's own. */
    constructor (name: string, duration: int, demand: int,
                 tags: Option<seq<string>>, unavailability: Option<seq<Resource>>)
      ensures this.name == name && this.duration == duration && this.demand == demand
      ensures tagList == (if tags.None? then [] else tags.value)
      ensures unavailabilityList == (if unavailability.None? then [] else unavailability.value)
    {
      this.name := name;
      this.duration := duration;
      this.demand := demand;
      tagList := if tags.None? then [] else tags.value;
      unavailabilityList := if unavailability.None? then [] else unavailability.value;
    }

    /** The `tags` property: a snapshot of the current list. */
    function Tags(): (t: seq<string>)
      reads this
      ensures t == tagList
    {
      tagList
    }

    /** The `unavailability` property: a snapshot of the current list. */
    function Unavailability(): (u: seq<Resource>)
      reads this
      ensures u == unavailabilityList
    {
      unavailabilityList
    }

    /** The value this event currently has. */
    function Value(): (v: EventValue)
      reads this
      ensures v.name == name && v.duration == duration && v.demand == demand
      ensures v.tags == tagList && v.unavailability == unavailabilityList
    {
      EventValue(name, duration, demand, tagList, unavailabilityList)
    }

    /** `__eq__`: equal to another event exactly when all five fields agree,
        and never equal to a slot. */
    function Equals(other: Resource): (b: bool)
      reads this
      ensures other.SlotItem? ==> !b
      ensures other.EventItem? ==>
        (b <==> other.event.name == name && other.event.duration == duration &&
                other.event.demand == demand && other.event.tags == tagList &&
                other.event.unavailability == unavailabilityList)
    {
      other.EventItem? && other.event == Value()
    }

    /** Appends each argument, in order, as one element. */
    method AddTags(args: seq<string>)
      modifies this
      ensures tagList == old(tagList) + args
      ensures name == old(name) && duration == old(duration) && demand == old(demand)
      ensures unavailabilityList == old(unavailabilityList)
    {
      var k := 0;
      while k < |args|
        invariant 0 <= k <= |args|
        invariant tagList == old(tagList) + args[..k]
        invariant name == old(name) && duration == old(duration) && demand == old(demand)
        invariant unavailabilityList == old(unavailabilityList)
      {
        tagList := tagList + [args[k]];
        k := k + 1;
        assert args[..k] == args[..k - 1] + [args[k - 1]];
      }
      assert args[..k] == args;
    }

    /** Drops the first occurrence of `tag`; `ok` is false, and nothing
        changes, where Python raises ValueError because `tag` is absent. */
    method RemoveTag(tag: string) returns (ok: bool)
      modifies this
      ensures ok <==> tag in old(tagList)
      ensures ok ==> tagList == RemoveFirst(old(tagList), tag)
      ensures !ok ==> tagList == old(tagList)
      ensures name == old(name) && duration == old(duration) && demand == old(demand)
      ensures unavailabilityList == old(unavailabilityList)
    {
      ok := tag in tagList;
      if ok {
        tagList := RemoveFirst(tagList, tag);
      }
    }

    method ClearTags()
      modifies this
      ensures tagList == []
      ensures name == old(name) && duration == old(duration) && demand == old(demand)
      ensures unavailabilityList == old(unavailabilityList)
    {
      tagList := [];
    }

    /** Appends each argument, in order, as one element. */
    method AddUnavailability(args: seq<Resource>)
      modifies this
      ensures unavailabilityList == old(unavailabilityList) + args
      ensures name == old(name) && duration == old(duration) && demand == old(demand)
      ensures tagList == old(tagList)
    {
      var k := 0;
      while k < |args|
        invariant 0 <= k <= |args|
        invariant unavailabilityList == old(unavailabilityList) + args[..k]
        invariant name == old(name) && duration == old(duration) && demand == old(demand)
        invariant tagList == old(tagList)
      {
        unavailabilityList := unavailabilityList + [args[k]];
        k := k + 1;
        assert args[..k] == args[..k - 1] + [args[k - 1]];
      }
      assert args[..k] == args;
    }

    /** Drops the first occurrence of `item`; `ok` is false, and nothing
        changes, where Python raises ValueError because `item` is absent. */
    method RemoveUnavailability(item: Resource) returns (ok: bool)
      modifies this
      ensures ok <==> item in old(unavailabilityList)
      ensures ok ==> unavailabilityList == RemoveFirst(old(unavailabilityList), item)
      ensures !ok ==> unavailabilityList == old(unavailabilityList)
      ensures name == old(name) && duration == old(duration) && demand == old(demand)
      ensures tagList == old(tagList)
    {
      ok := item in unavailabilityList;
      if ok {
        unavailabilityList := RemoveFirst(unavailabilityList, item);
      }
    }

    method ClearUnavailability()
      modifies this
      ensures unavailabilityList == []
      ensures name == old(name) && duration == old(duration) && demand == old(demand)
      ensures tagList == old(tagList)
    {
      unavailabilityList := [];
    }
  }

  /** Two events built without tags do not share a list: tagging one leaves
      the other untagged, and a snapshot taken before a change keeps its
      value. */
  method DefaultListsAreIndependent() returns (first: seq<string>, second: seq<string>, before: seq<string>)
    ensures first == ["intermediate"] && second == [] && before == []
  {
    var e := new Event("example", 60, 100, None, None);
    before := e.Tags();
    e.AddTags(["intermediate"]);
    var f := new Event("another example", 30, 50, None, None);
    first := e.Tags();
    second := f.Tags();
  }
}
