/** The module-level state of the widget: the fetched events, the selected event,
    the `aria-selected` flag of each rendered card, and the registration-form
    inputs that selecting writes. */
module Selection {
  import opened Wrappers
  import opened Text

  /** One event as the backend delivers it. */
  datatype Event = Event(
    id: JsString,
    name: JsString,
    datum: JsString,
    zeit: Option<JsString>,
    freiePlaetze: int,
    aktuelleHelfer: int,
    maxHelfer: int,
    beschreibung: Option<JsString>)

  /** The position of the first event with id `id`, or `|events|` when none has it. */
  function FirstWithId(events: seq<Event>, id: JsString): (k: nat)
    ensures k <= |events|
    ensures k < |events| ==> events[k].id == id
    ensures forall j :: 0 <= j < k ==> events[j].id != id
  {
    if events == [] || events[0].id == id then 0 else 1 + FirstWithId(events[1..], id)
  }

  /** `events.find(e => e.id == id)`. */
  function Find(events: seq<Event>, id: JsString): (r: Option<Event>)
    ensures r.None? <==> forall j :: 0 <= j < |events| ==> events[j].id != id
    ensures r.Some? ==> r.value == events[FirstWithId(events, id)]
  {
    var k := FirstWithId(events, id);
    if k < |events| then Some(events[k]) else None
  }

  /** The card flags after selecting `id`: a card is marked exactly when its id is `id`. */
  function SelectionFlags(events: seq<Event>, id: JsString): (flags: seq<bool>)
    ensures |flags| == |events|
    ensures forall k :: 0 <= k < |events| ==> (flags[k] <==> events[k].id == id)
  {
    seq(|events|, k requires 0 <= k < |events| => events[k].id == id)
  }

  function CountTrue(flags: seq<bool>): (n: nat)
    ensures n <= |flags|
  {
    if flags == [] then 0 else (if flags[0] then 1 else 0) + CountTrue(flags[1..])
  }

  predicate DistinctIds(events: seq<Event>) {
    forall j, k :: 0 <= j < k < |events| ==> events[j].id != events[k].id
  }

  /** With distinct ids, selecting marks one card when the id is found and none
      otherwise: at most one event is selected at a time. */
  lemma {:induction false} OneCardMarked(events: seq<Event>, id: JsString)
    requires DistinctIds(events)
    ensures CountTrue(SelectionFlags(events, id)) == if Find(events, id).Some? then 1 else 0
  {
    if events != [] {
      var flags := SelectionFlags(events, id);
      assert flags[1..] == SelectionFlags(events[1..], id);
      OneCardMarked(events[1..], id);
      if events[0].id == id {
        assert Find(events[1..], id).None? by {
          forall j | 0 <= j < |events[1..]|
            ensures events[1..][j].id != id
          {
            assert events[1..][j] == events[j + 1];
          }
        }
      } else {
        assert Find(events[1..], id).Some? <==> Find(events, id).Some? by {
          if Find(events, id).Some? {
            var k := FirstWithId(events, id);
            assert events[1..][k - 1].id == id;
          }
          if Find(events[1..], id).Some? {
            var k := FirstWithId(events[1..], id);
            assert events[k + 1].id == id;
          }
        }
      }
    }
  }

  class EventBoard {
    /** The most recently fetched events, in the order the cards are rendered. */
    var events: seq<Event>
    /** `selectedEvent`; `None` for `null`. */
    var selected: Option<Event>
    /** The `aria-selected` flag of each rendered card; card `k` shows `events[k]`. */
    var cardSelected: array<bool>
    /** The hidden input holding the id of the chosen event. */
    var eventIdField: JsString
    /** The event name shown above the registration form. */
    var eventNameShown: JsString
    /** Whether the registration section is visible. */
    var registrationOpen: bool

    /** There is one card per event. */
    ghost predicate Valid()
      reads this
    {
      cardSelected.Length == |events|
    }

    /** The selection, the cards and the form agree: a selected event is one of
        the events, its card and only cards with its id are marked, its id is in
        the hidden input and the form is open; with no selection no card is marked. */
    ghost predicate Consistent()
      reads this, cardSelected
      requires Valid()
    {
      match selected
      case None => forall k :: 0 <= k < cardSelected.Length ==> !cardSelected[k]
      case Some(e) =>
        && e in events
        && cardSelected[..] == SelectionFlags(events, e.id)
        && eventIdField == e.id
        && registrationOpen
    }

    /** The state when the page loads: no events, no cards, nothing selected. */
    constructor ()
      ensures Valid() && Consistent()
      ensures events == [] && selected == None && !registrationOpen
      ensures eventIdField == [] && eventNameShown == []
    {
      events := [];
      selected := None;
      cardSelected := new bool[0];
      eventIdField := [];
      eventNameShown := [];
      registrationOpen := false;
    }

    /** A successful `loadEvents`: `fetched` is the response's `events` member
        (`None` when it has none). The list is replaced wholesale and the cards are
        rendered afresh, none of them marked; the selection is left as it was. */
    method Load(fetched: Option<seq<Event>>)
      modifies this
      ensures Valid() && fresh(cardSelected)
      ensures events == (if fetched.Some? then fetched.value else [])
      ensures forall k :: 0 <= k < cardSelected.Length ==> !cardSelected[k]
      ensures selected == old(selected) && registrationOpen == old(registrationOpen)
      ensures eventIdField == old(eventIdField) && eventNameShown == old(eventNameShown)
      ensures old(selected).None? ==> Consistent()
    {
      events := if fetched.Some? then fetched.value else [];
      cardSelected := new bool[|events|](_ => false);
    }

    /** `selectEvent(eventId, eventName)`. An id that no event has clears the
        selection and changes nothing else; an id that some event has selects the
        first such event, marks exactly the cards with that id, writes the id into
        the hidden input and opens the form. */
    method Select(eventId: JsString, eventName: JsString)
      requires Valid()
      modifies this, cardSelected
      ensures Valid() && events == old(events) && cardSelected == old(cardSelected)
      ensures selected == Find(events, eventId)
      ensures selected.None? ==>
        && cardSelected[..] == old(cardSelected[..])
        && eventIdField == old(eventIdField) && eventNameShown == old(eventNameShown)
        && registrationOpen == old(registrationOpen)
      ensures selected.Some? ==>
        && cardSelected[..] == SelectionFlags(events, eventId)
        && eventIdField == eventId && eventNameShown == eventName
        && registrationOpen
        && Consistent()
    {
      selected := Find(events, eventId);
      if selected.None? {
        return;
      }
      var k := 0;
      while k < cardSelected.Length
        invariant 0 <= k <= cardSelected.Length
        invariant forall j :: 0 <= j < k ==> cardSelected[j] == (events[j].id == eventId)
        modifies cardSelected
      {
        cardSelected[k] := events[k].id == eventId;
        k := k + 1;
      }
      eventIdField := eventId;
      eventNameShown := eventName;
      registrationOpen := true;
    }

    /** A click on card `k`, or Enter or Space pressed on it: the card's own id
        and name go to `Select`, so a pressed card always finds its event. Other
        keys change nothing. */
    method ActivateCard(k: nat, key: Option<string>)
      requires Valid() && k < |events|
      modifies this, cardSelected
      ensures Valid() && events == old(events) && cardSelected == old(cardSelected)
      ensures key.None? || key.value in {"Enter", " "} ==>
        && selected == Some(events[FirstWithId(events, events[k].id)])
        && cardSelected[..] == SelectionFlags(events, events[k].id)
        && cardSelected[k]
        && eventIdField == events[k].id && eventNameShown == events[k].name
        && registrationOpen
        && Consistent()
      ensures !(key.None? || key.value in {"Enter", " "}) ==>
        && selected == old(selected) && cardSelected[..] == old(cardSelected[..])
        && eventIdField == old(eventIdField) && eventNameShown == old(eventNameShown)
        && registrationOpen == old(registrationOpen)
    {
      if key.None? || key.value == "Enter" || key.value == " " {
        Select(events[k].id, events[k].name);
      }
    }

    /** The selection part of `resetForm`: the form closes, nothing is selected
        and no card is marked. */
    method Reset()
      requires Valid()
      modifies this, cardSelected
      ensures Valid() && events == old(events) && cardSelected == old(cardSelected)
      ensures selected == None && !registrationOpen
      ensures forall k :: 0 <= k < cardSelected.Length ==> !cardSelected[k]
      ensures eventIdField == old(eventIdField) && eventNameShown == old(eventNameShown)
      ensures Consistent()
    {
      registrationOpen := false;
      selected := None;
      var k := 0;
      while k < cardSelected.Length
        invariant 0 <= k <= cardSelected.Length
        invariant forall j :: 0 <= j < k ==> !cardSelected[j]
        modifies cardSelected
      {
        cardSelected[k] := false;
        k := k + 1;
      }
    }
  }
}
