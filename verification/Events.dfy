/**
 Federation events, reduced to the four fields the DAG reads.

 An id is the 32-byte hash of the signed content; ids compare as big-endian
 byte strings, which is the order of the numbers they spell, so an id is a
 natural number here.  A public key is only ever compared for equality.
 */
module Events {
  type EventId = nat
  type PublicKey = nat

  const CHANNEL_MESSAGE_KIND := 42
  const DAG_EVENT_KIND := 21000

  datatype Event = Event(id: EventId, author: PublicKey, kind: nat, parents: seq<EventId>)

  // NIP-01: the id is the hash of the rest of the event, so it fixes the event.
  ghost predicate IdDetermines(es: set<Event>) {
    forall a, b :: a in es && b in es && a.id == b.id ==> a == b
  }

  // The acknowledgment a member signs over a list of parents.  The id, a hash
  // over content and time of signing, comes from outside.
  function CreateAck(id: EventId, author: PublicKey, parents: seq<EventId>): Event {
    Event(id, author, DAG_EVENT_KIND, parents)
  }
}
