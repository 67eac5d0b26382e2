/**
 * The capacity display of an event card.
 */
module EventCard {
  import opened Wrappers
  import opened Strings
  import opened EventTables
  import opened EventRegistration

  /** What a card shows: where it links, whether it is full, and the capacity caption. */
  datatype CardView = CardView(href: string, isFull: bool, caption: string)

  /**
   * `EventCard({ event, confirmedCount = 0 })`: the free spots are
   * `maxAttendees - confirmedCount` and the card is full when none are left.
   */
  function Card(event: Event, confirmedCount: Option<int>): (v: CardView)
    ensures v.href == "/events/" + event.slug
    ensures v.isFull <==> confirmedCount.GetOr(0) >= event.maxAttendees
    ensures v.isFull ==> v.caption == "Waitlist"
  {
    var spotsRemaining := event.maxAttendees - confirmedCount.GetOr(0);
    var isFull := spotsRemaining <= 0;
    CardView("/events/" + event.slug, isFull,
      if isFull then "Waitlist" else IntToString(spotsRemaining) + " spots left")
  }

  /**
   * A card is full exactly when a new registration would be waitlisted, and a
   * card that is not full announces at least one spot.
   */
  lemma CardAgreesWithRegistration(event: Event, confirmedCount: int)
    ensures Card(event, Some(confirmedCount)).isFull <==> NewStatus(confirmedCount, event.maxAttendees) == Waitlisted
    ensures !Card(event, Some(confirmedCount)).isFull ==>
      exists n: nat :: n >= 1 && n == event.maxAttendees - confirmedCount
        && Card(event, Some(confirmedCount)).caption == NatToString(n) + " spots left"
  {
    if !Card(event, Some(confirmedCount)).isFull {
      var n: nat := event.maxAttendees - confirmedCount;
      assert Card(event, Some(confirmedCount)).caption == NatToString(n) + " spots left";
    }
  }

  /** Without a count the card treats the event as empty. */
  lemma CardDefaultCount(event: Event)
    ensures Card(event, None) == Card(event, Some(0))
  {
  }
}
