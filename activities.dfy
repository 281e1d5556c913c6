/**
 * Events and elections: their records, the events grid's search filter,
 * numbering of new records by `length + 1`, and the RSVP and vote counters.
 */
module Activities {
  import opened Lists
  import opened Text

  /** An event; `kind` is the source's `type` field (Cultural, Sports, Workshop, ...). */
  datatype Event = Event(id: int, title: string, date: string, kind: string, description: string, status: string, attendees: int)

  /** An election; new ones start as "Pending" with no voters. */
  datatype Election = Election(id: int, title: string, status: string, voters: int, candidates: seq<string>)

  const DefaultEvents: seq<Event> := [
    Event(1, "Cultural Day", "2025-11-15", "Cultural", "Annual cultural celebration.", "Upcoming", 250),
    Event(2, "Sports Tournament", "2025-12-01", "Sports", "Inter-department competition.", "Ongoing", 400),
    Event(3, "Leadership Workshop", "2025-10-30", "Workshop", "Training session.", "Completed", 150)
  ]

  const DefaultElections: seq<Election> := [
    Election(1, "President Election 2025", "Active", 450, ["Candidate A", "Candidate B"]),
    Election(2, "Secretary Election", "Pending", 0, ["Candidate C", "Candidate D"])
  ]

  function EventId(e: Event): int {
    e.id
  }

  function EventIds(es: seq<Event>): seq<int> {
    Map(es, EventId)
  }

  function ElectionId(e: Election): int {
    e.id
  }

  function ElectionIds(es: seq<Election>): seq<int> {
    Map(es, ElectionId)
  }

  /** The ids are exactly 1, 2, ..., n in order. */
  ghost predicate NumberedOneToN(ids: seq<int>) {
    forall i :: 0 <= i < |ids| ==> ids[i] == i + 1
  }

  // ---------------------------------------------------------------------------
  // Search filter of the events grid

  /** An event is shown when the lower-cased search text occurs in its lower-cased
      title and the type filter is empty or equal to its type. */
  predicate EventMatches(e: Event, search: string, kind: string) {
    Includes(ToLower(e.title), search) && (kind == "" || e.kind == kind)
  }

  function EventFilter(search: string, kind: string): Event -> bool {
    e => EventMatches(e, search, kind)
  }

  function FilteredEvents(data: seq<Event>, rawSearch: string, kind: string): seq<Event> {
    Filter(data, EventFilter(ToLower(rawSearch), kind))
  }

  /** The filter keeps, in their original order, exactly the matching events,
      each as often as it occurs in the input. */
  lemma FilteredEventsSpec(data: seq<Event>, rawSearch: string, kind: string)
    ensures IsSubsequence(FilteredEvents(data, rawSearch, kind), data)
    ensures forall e :: e in FilteredEvents(data, rawSearch, kind) <==>
                        e in data && EventMatches(e, ToLower(rawSearch), kind)
    ensures forall e :: multiset(FilteredEvents(data, rawSearch, kind))[e] ==
                        if EventMatches(e, ToLower(rawSearch), kind) then multiset(data)[e] else 0
  {
    var keep := EventFilter(ToLower(rawSearch), kind);
    FilterIsSubsequence(data, keep);
    forall e ensures multiset(Filter(data, keep))[e] ==
                     if EventMatches(e, ToLower(rawSearch), kind) then multiset(data)[e] else 0
    {
      FilterCount(data, keep, e);
    }
    forall e ensures e in Filter(data, keep) <==> e in data && EventMatches(e, ToLower(rawSearch), kind) {
      FilterMembership(data, keep, e);
    }
  }

  /** An empty search box and an empty type filter show every event. */
  lemma UnfilteredEvents(data: seq<Event>)
    ensures FilteredEvents(data, "", "") == data
  {
    forall i | 0 <= i < |data| ensures EventFilter("", "")(data[i]) {
      IncludesEmpty(ToLower(data[i].title));
    }
    FilterKeepsAll(data, EventFilter("", ""));
  }

  // ---------------------------------------------------------------------------
  // Numbering

  /** Appending the id `length + 1` to ids numbered 1..n gives ids numbered 1..n+1. */
  lemma NumberingExtends(ids: seq<int>, next: int)
    requires NumberedOneToN(ids) && next == |ids| + 1
    ensures NumberedOneToN(ids + [next])
  {
  }

  /** With ids numbered 1..n, looking up id k finds position k - 1 exactly when
      1 <= k <= n, and nothing otherwise. */
  lemma NumberedLookup(ids: seq<int>, k: int)
    requires NumberedOneToN(ids)
    ensures IndexOf(ids, k) == if 1 <= k <= |ids| then Some(k - 1) else None
  {
    if 1 <= k <= |ids| {
      assert ids[k - 1] == k;
    }
  }

  lemma DefaultsNumbered()
    ensures NumberedOneToN(EventIds(DefaultEvents))
    ensures NumberedOneToN(ElectionIds(DefaultElections))
  {
  }

  // ---------------------------------------------------------------------------
  // Counters

  /** Sum of a sequence of counts. */
  function Total(s: seq<int>): int {
    if s == [] then 0 else s[0] + Total(s[1..])
  }

  /** Raising one count by one raises the total by exactly one. */
  lemma {:induction false} TotalAfterIncrement(s: seq<int>, i: nat)
    requires i < |s|
    ensures Total(s[i := s[i] + 1]) == Total(s) + 1
  {
    if i > 0 {
      TotalAfterIncrement(s[1..], i - 1);
      assert s[i := s[i] + 1][1..] == s[1..][i - 1 := s[i] + 1];
    }
  }

  function Attendees(es: seq<Event>): (r: seq<int>)
    ensures |r| == |es|
    ensures forall i :: 0 <= i < |es| ==> r[i] == es[i].attendees
  {
    seq(|es|, i requires 0 <= i < |es| => es[i].attendees)
  }

  function Voters(es: seq<Election>): (r: seq<int>)
    ensures |r| == |es|
    ensures forall i :: 0 <= i < |es| ==> r[i] == es[i].voters
  {
    seq(|es|, i requires 0 <= i < |es| => es[i].voters)
  }

  /** RSVP: one more attendee on the first event with the id; `None` when there is
      no such event (the source then fails before saving anything). */
  function Rsvped(es: seq<Event>, id: int): Option<seq<Event>> {
    match IndexOf(EventIds(es), id)
    case None => None
    case Some(i) => Some(es[i := es[i].(attendees := es[i].attendees + 1)])
  }

  lemma RsvpedSpec(es: seq<Event>, id: int)
    ensures Rsvped(es, id).None? <==> id !in EventIds(es)
    ensures Rsvped(es, id).Some? ==>
              var r := Rsvped(es, id).value;
              && |r| == |es|
              && EventIds(r) == EventIds(es)
              && Total(Attendees(r)) == Total(Attendees(es)) + 1
              && exists i :: (0 <= i < |es| && es[i].id == id && id !in EventIds(es)[..i]
                              && r[i] == es[i].(attendees := es[i].attendees + 1)
                              && forall j :: 0 <= j < |es| && j != i ==> r[j] == es[j])
  {
    match IndexOf(EventIds(es), id)
    case None =>
    case Some(i) =>
      var r := Rsvped(es, id).value;
      assert Attendees(r) == Attendees(es)[i := es[i].attendees + 1];
      TotalAfterIncrement(Attendees(es), i);
  }

  /** Vote: one more voter on the first election with the id, whatever its status;
      `None` when there is no such election (the source then fails before saving). */
  function Voted(es: seq<Election>, id: int): Option<seq<Election>> {
    match IndexOf(ElectionIds(es), id)
    case None => None
    case Some(i) => Some(es[i := es[i].(voters := es[i].voters + 1)])
  }

  lemma VotedSpec(es: seq<Election>, id: int)
    ensures Voted(es, id).None? <==> id !in ElectionIds(es)
    ensures Voted(es, id).Some? ==>
              var r := Voted(es, id).value;
              && |r| == |es|
              && ElectionIds(r) == ElectionIds(es)
              && Total(Voters(r)) == Total(Voters(es)) + 1
              && exists i :: (0 <= i < |es| && es[i].id == id && id !in ElectionIds(es)[..i]
                              && r[i] == es[i].(voters := es[i].voters + 1)
                              && forall j :: 0 <= j < |es| && j != i ==> r[j] == es[j])
  {
    match IndexOf(ElectionIds(es), id)
    case None =>
    case Some(i) =>
      var r := Voted(es, id).value;
      assert Voters(r) == Voters(es)[i := es[i].voters + 1];
      TotalAfterIncrement(Voters(es), i);
  }

  /** The candidates of a new election, from the comma-separated prompt text,
      untrimmed: one more candidate than there are commas, none holding a comma,
      and together with commas between them they are the text. */
  function CandidateList(text: string): (r: seq<string>)
    ensures |r| == multiset(text)[','] + 1
    ensures forall k :: 0 <= k < |r| ==> ',' !in r[k]
    ensures Join(r, ',') == text
  {
    JoinSplit(text, ',');
    SplitPieces(text, ',');
    Split(text, ',')
  }
}
