/** The state the root component keeps: the anecdote table and the
    notification line, with the callbacks that replace them. */
module AppState {
  import opened Wrappers
  import opened Anecdotes

  class Store {
    /** The table, in display order. */
    var anecdotes: seq<Anecdote>
    /** The notification line; `None` until the first message is set. */
    var notification: Option<string>

    /** The state on page load: the two seed records and no notification. */
    constructor ()
      ensures anecdotes == Seed() && notification == None
    {
      anecdotes := Seed();
      notification := None;
    }

    /** `addNew`: stamp the id drawn as `n` onto the candidate and append
        it. No existing id is consulted. */
    method AddNew(candidate: Anecdote, n: nat)
      requires n <= 10000
      modifies this
      ensures anecdotes == Appended(old(anecdotes), candidate, n)
      ensures notification == old(notification)
    {
      var stamped := Stamp(candidate, n);
      anecdotes := anecdotes + [stamped];
    }

    /** `vote`: look the record up, copy it with one more vote and put the
        copy in place of every record carrying `id`. On a miss the source
        fails reading `votes` of the absent record before the table is
        replaced: `thrown` reports that, and the state is left as it was. */
    method Vote(id: string) returns (thrown: bool)
      modifies this
      ensures thrown <==> id !in Ids(old(anecdotes))
      ensures thrown ==> anecdotes == old(anecdotes)
      ensures !thrown ==> Voted(old(anecdotes), id) == Some(anecdotes)
      ensures notification == old(notification)
    {
      var found := FindById(anecdotes, id);
      if found.None? {
        return true;
      }
      var voted := Bump(found.value);
      anecdotes := Replace(anecdotes, id, voted);
      thrown := false;
    }

    /** `setNotification` as handed to the form: overwrite the line. */
    method SetNotification(message: string)
      modifies this
      ensures notification == Some(message)
      ensures anecdotes == old(anecdotes)
    {
      notification := Some(message);
    }
  }
}
