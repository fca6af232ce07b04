/**
 * Keyboard handling: which arrow key names which direction, when a key is
 * accepted as the snake's buffered turn, and what the buffered turn is
 * after a batch of events has been processed in order.
 */
module Keys {

  import opened Board
  import opened Wrappers

  datatype Key = ArrowUp | ArrowDown | ArrowLeft | ArrowRight | OtherKey

  /** A polled event: a key press, or anything else (mouse, window, key release). */
  datatype Event = KeyDown(key: Key) | OtherEvent

  /** The direction an arrow key stands for; other keys stand for none. */
  function KeyDirection(key: Key): (r: Option<Direction>)
    ensures r.Some? <==> key != OtherKey
  {
    match key
    case ArrowUp => Some(Up)
    case ArrowDown => Some(Down)
    case ArrowLeft => Some(Left)
    case ArrowRight => Some(Right)
    case OtherKey => None
  }

  /**
   * The turn a key press requests while the snake travels in current:
   * the key's direction unless that is the exact reverse of current.
   */
  function AcceptKey(current: Direction, key: Key): (r: Option<Direction>)
    ensures r.Some? <==> KeyDirection(key).Some? && KeyDirection(key).value != current.Opposite()
    ensures r.Some? ==> r == KeyDirection(key)
  {
    if key == ArrowUp && current != Down then Some(Up)
    else if key == ArrowDown && current != Up then Some(Down)
    else if key == ArrowLeft && current != Right then Some(Left)
    else if key == ArrowRight && current != Left then Some(Right)
    else None
  }

  predicate Accepted(current: Direction, e: Event) {
    e.KeyDown? && AcceptKey(current, e.key).Some?
  }

  /** The buffered turn after one event: an accepted key replaces it, anything else keeps it. */
  function HandleEvent(current: Direction, pending: Option<Direction>, e: Event): (r: Option<Direction>)
    ensures Accepted(current, e) ==> r == KeyDirection(e.key)
    ensures !Accepted(current, e) ==> r == pending
  {
    match e
    case KeyDown(key) =>
      var accepted := AcceptKey(current, key);
      if accepted.Some? then accepted else pending
    case OtherEvent => pending
  }

  /**
   * The buffered turn after the events are handled in order; current stays
   * fixed throughout, since handling keys never changes the direction. The
   * result is the turn buffered before or the direction of an accepted key.
   */
  function PendingAfter(current: Direction, pending: Option<Direction>, events: seq<Event>): (r: Option<Direction>)
    ensures r == pending ||
      exists i :: 0 <= i < |events| && Accepted(current, events[i]) && r == KeyDirection(events[i].key)
    decreases |events|
  {
    if events == [] then pending
    else
      var before := PendingAfter(current, pending, events[..|events| - 1]);
      assert forall i :: 0 <= i < |events| - 1 ==> events[..|events| - 1][i] == events[i];
      HandleEvent(current, before, events[|events| - 1])
  }

  /**
   * Handling keys never buffers the exact reverse of the current direction:
   * the result is the old turn or an accepted key's direction.
   */
  lemma PendingNeverReverses(current: Direction, pending: Option<Direction>, events: seq<Event>)
    requires pending != Some(current.Opposite())
    ensures PendingAfter(current, pending, events) != Some(current.Opposite())
  {
  }

  /** A batch with no accepted key leaves the buffered turn as it was. */
  lemma RejectedKeysKeepPending(current: Direction, pending: Option<Direction>, events: seq<Event>)
    requires forall j :: 0 <= j < |events| ==> !Accepted(current, events[j])
    ensures PendingAfter(current, pending, events) == pending
  {
  }

  /** Among several keys in one batch the last accepted one wins. */
  lemma {:induction false} LastAcceptedWins(current: Direction, pending: Option<Direction>, events: seq<Event>, i: nat)
    requires i < |events| && Accepted(current, events[i])
    requires forall j :: i < j < |events| ==> !Accepted(current, events[j])
    ensures PendingAfter(current, pending, events) == KeyDirection(events[i].key)
  {
    if i < |events| - 1 {
      LastAcceptedWins(current, pending, events[..|events| - 1], i);
    }
  }
}
