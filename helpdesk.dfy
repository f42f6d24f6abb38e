/**
 * The help desk component itself: three mutable state cells updated in
 * place by its handlers, and the copy of the list mirrored to local
 * storage after every change to the list.  Each method is proved against
 * the transition of the same name in module Transitions.
 */
module Component {
  import opened Wrappers
  import opened Tickets
  import Transitions

  class Helpdesk {
    var tickets: seq<Ticket>
    var showPopup: bool
    var currentTicket: Ticket

    /** The list as last written to local storage under the key "tickets". */
    ghost var stored: seq<Ticket>

    /** The persistence mirror: storage always holds the current list. */
    ghost predicate Valid()
      reads this
    {
      stored == tickets
    }

    /** The three state cells as one value. */
    function Snapshot(): Transitions.State
      reads this
    {
      Transitions.State(tickets, showPopup, currentTicket)
    }

    /** Mount: load the stored list (`saved` is None when nothing was stored). */
    constructor (saved: Option<seq<Ticket>>)
      ensures Valid() && Snapshot() == Transitions.Mount(saved)
    {
      match saved {
        case None => tickets := [];
        case Some(ts) => tickets := ts;
      }
      showPopup := false;
      currentTicket := EmptyDraft;
      stored := tickets;
    }

    /** `addTicket`, with the clock reading `Date.now()` passed in as `freshId`. */
    method AddTicket(freshId: int)
      requires Valid()
      modifies this
      ensures Valid() && Snapshot() == Transitions.AddTicket(old(Snapshot()), freshId)
      ensures WellFormed(old(tickets)) && Transitions.FreshFor(old(Snapshot()), freshId) ==> WellFormed(tickets)
    {
      ghost var before := Snapshot();
      if currentTicket.id != NewId {
        tickets := ReplaceById(tickets, currentTicket);
      } else {
        var created := Ticket(freshId, currentTicket.title, currentTicket.description);
        tickets := tickets + [created];
      }
      currentTicket := EmptyDraft;
      showPopup := false;
      stored := tickets;
      if WellFormed(before.tickets) && Transitions.FreshFor(before, freshId) {
        Transitions.AddTicketPreservesWellFormed(before, freshId);
      }
    }

    /** `deleteTicket(id)`. */
    method DeleteTicket(id: int)
      requires Valid()
      modifies this
      ensures Valid() && Snapshot() == Transitions.DeleteTicket(old(Snapshot()), id)
      ensures WellFormed(old(tickets)) ==> WellFormed(tickets)
    {
      if WellFormed(tickets) {
        RemoveByIdPreservesWellFormed(tickets, id);
      }
      tickets := RemoveById(tickets, id);
      stored := tickets;
    }

    /** `editTicket(id)`. */
    method EditTicket(id: int)
      requires Valid()
      modifies this
      ensures Valid() && Snapshot() == Transitions.EditTicket(old(Snapshot()), id)
    {
      var found := FindById(tickets, id);
      if found.Some? {
        currentTicket := found.value;
        showPopup := true;
      }
    }

    /** The "Create" button's click handler. */
    method OpenEditor()
      requires Valid()
      modifies this
      ensures Valid() && Snapshot() == Transitions.OpenEditor(old(Snapshot()))
    {
      showPopup := true;
    }

    /** The "Cancel" button's click handler. */
    method CancelEditor()
      requires Valid()
      modifies this
      ensures Valid() && Snapshot() == Transitions.CancelEditor(old(Snapshot()))
    {
      showPopup := false;
    }

    /** The title input's change handler. */
    method EditTitle(title: string)
      requires Valid()
      modifies this
      ensures Valid() && Snapshot() == Transitions.EditTitle(old(Snapshot()), title)
    {
      currentTicket := currentTicket.(title := title);
    }

    /** The description textarea's change handler. */
    method EditDescription(description: string)
      requires Valid()
      modifies this
      ensures Valid() && Snapshot() == Transitions.EditDescription(old(Snapshot()), description)
    {
      currentTicket := currentTicket.(description := description);
    }
  }
}
