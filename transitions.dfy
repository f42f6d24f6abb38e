/**
 * The help desk component as a state machine: its three state cells, one
 * transition per handler, and runs of user events.  Each handler is one
 * atomic transition over the current state.
 */
module Transitions {
  import opened Wrappers
  import opened Tickets

  /** The component state: the ticket list, the editor's visibility and the draft. */
  datatype State = State(tickets: seq<Ticket>, showPopup: bool, currentTicket: Ticket)

  /**
   * The state once mounted: the list read back from local storage, where a
   * missing entry (or an empty string) reads as the empty list; the editor
   * hidden; the empty draft.
   */
  function Mount(saved: Option<seq<Ticket>>): (s: State)
    ensures !s.showPopup && s.currentTicket == EmptyDraft
    ensures s.tickets == if saved.Some? then saved.value else []
  {
    match saved
    case None => State([], false, EmptyDraft)
    case Some(ts) => State(ts, false, EmptyDraft)
  }

  /**
   * Save: a draft with a non-sentinel id replaces every ticket carrying
   * that id in place; a draft with the sentinel id is appended as a new
   * ticket under `freshId`.  Either way the editor closes and the draft is
   * reset.
   */
  function AddTicket(s: State, freshId: int): (r: State)
    ensures !r.showPopup && r.currentTicket == EmptyDraft
    ensures s.currentTicket.id == NewId ==>
              && |r.tickets| == |s.tickets| + 1
              && r.tickets[..|s.tickets|] == s.tickets
              && r.tickets[|s.tickets|] == Ticket(freshId, s.currentTicket.title, s.currentTicket.description)
    ensures s.currentTicket.id != NewId ==>
              && |r.tickets| == |s.tickets|
              && forall i :: 0 <= i < |s.tickets| ==>
                   r.tickets[i] == if s.tickets[i].id == s.currentTicket.id then s.currentTicket else s.tickets[i]
  {
    var draft := s.currentTicket;
    var tickets :=
      if draft.id != NewId then ReplaceById(s.tickets, draft)
      else s.tickets + [Ticket(freshId, draft.title, draft.description)];
    State(tickets, false, EmptyDraft)
  }

  /** Delete: drop every ticket carrying `id`; the editor is left alone. */
  function DeleteTicket(s: State, id: int): (r: State)
    ensures r.showPopup == s.showPopup && r.currentTicket == s.currentTicket
    ensures forall t :: t in r.tickets <==> t in s.tickets && t.id != id
  {
    s.(tickets := RemoveById(s.tickets, id))
  }

  /**
   * Edit: when some ticket carries `id`, the first such ticket becomes the
   * draft and the editor opens; otherwise nothing happens.  The list is
   * never touched.
   */
  function EditTicket(s: State, id: int): (r: State)
    ensures r.tickets == s.tickets
    ensures HasId(s.tickets, id) ==>
              r.showPopup && exists i :: IsFirstWithId(s.tickets, id, i) && r.currentTicket == s.tickets[i]
    ensures !HasId(s.tickets, id) ==> r == s
  {
    match FindById(s.tickets, id)
    case Some(t) => State(s.tickets, true, t)
    case None => s
  }

  /** The "Create" button: shows the editor and keeps whatever draft is there. */
  function OpenEditor(s: State): (r: State)
    ensures r.showPopup
    ensures r.tickets == s.tickets && r.currentTicket == s.currentTicket
  {
    s.(showPopup := true)
  }

  /** The "Cancel" button: hides the editor and keeps whatever draft is there. */
  function CancelEditor(s: State): (r: State)
    ensures !r.showPopup
    ensures r.tickets == s.tickets && r.currentTicket == s.currentTicket
  {
    s.(showPopup := false)
  }

  /** Typing in the title field: only the draft's title changes. */
  function EditTitle(s: State, title: string): (r: State)
    ensures r.currentTicket.title == title
    ensures r.currentTicket.id == s.currentTicket.id && r.currentTicket.description == s.currentTicket.description
    ensures r.tickets == s.tickets && r.showPopup == s.showPopup
  {
    s.(currentTicket := s.currentTicket.(title := title))
  }

  /** Typing in the description field: only the draft's description changes. */
  function EditDescription(s: State, description: string): (r: State)
    ensures r.currentTicket.description == description
    ensures r.currentTicket.id == s.currentTicket.id && r.currentTicket.title == s.currentTicket.title
    ensures r.tickets == s.tickets && r.showPopup == s.showPopup
  {
    s.(currentTicket := s.currentTicket.(description := description))
  }

  // ------------------------------------------------------------ invariants

  /** A save needs a fresh id only on the create branch; there it must be new and non-sentinel. */
  predicate FreshFor(s: State, freshId: int) {
    s.currentTicket.id == NewId ==> freshId != NewId && !HasId(s.tickets, freshId)
  }

  /** Saving keeps the collection invariant when the clock value is fresh. */
  lemma AddTicketPreservesWellFormed(s: State, freshId: int)
    requires WellFormed(s.tickets) && FreshFor(s, freshId)
    ensures WellFormed(AddTicket(s, freshId).tickets)
  {
  }

  /** Deleting keeps the collection invariant. */
  lemma DeleteTicketPreservesWellFormed(s: State, id: int)
    requires WellFormed(s.tickets)
    ensures WellFormed(DeleteTicket(s, id).tickets)
  {
    RemoveByIdPreservesWellFormed(s.tickets, id);
  }

  // ------------------------------------------------------ related handlers

  /** Opening a stored ticket and saving it unchanged leaves the list as it was. */
  lemma EditThenSaveIsIdentity(s: State, id: int, freshId: int)
    requires WellFormed(s.tickets) && HasId(s.tickets, id)
    ensures AddTicket(EditTicket(s, id), freshId).tickets == s.tickets
  {
  }

  /** Deleting a ticket just created under a fresh id restores the list. */
  lemma CreateThenDeleteRestores(s: State, freshId: int)
    requires s.currentTicket.id == NewId && !HasId(s.tickets, freshId)
    ensures DeleteTicket(AddTicket(s, freshId), freshId).tickets == s.tickets
  {
    var d := s.currentTicket;
    var t := Ticket(freshId, d.title, d.description);
    assert AddTicket(s, freshId).tickets == s.tickets + [t];
    RemoveByIdAfterAppend(s.tickets, t);
  }

  /**
   * A draft whose ticket was deleted after it was opened for editing is
   * dropped silently on save: the list does not change, and no ticket is
   * re-created.  `DeletedDraftSavesNothing` follows the clicks that reach
   * this state.
   */
  lemma SaveOfDeletedDraftIsNoOp(s: State, freshId: int)
    requires s.currentTicket.id != NewId && !HasId(s.tickets, s.currentTicket.id)
    ensures AddTicket(s, freshId).tickets == s.tickets
  {
  }

  // ------------------------------------------------------------------ runs

  /**
   * The user intents the page dispatches.  `Step` accepts every event in
   * every state, so runs cover more than the page offers: it renders the
   * editor's controls only while the editor is shown.
   */
  datatype Event =
    | OpenCreate
    | Cancel
    | TypeTitle(title: string)
    | TypeDescription(description: string)
    | Save(freshId: int)
    | Edit(id: int)
    | Delete(id: int)

  /** One event applied to the state by its handler. */
  function Step(s: State, e: Event): State {
    match e
    case OpenCreate => OpenEditor(s)
    case Cancel => CancelEditor(s)
    case TypeTitle(title) => EditTitle(s, title)
    case TypeDescription(description) => EditDescription(s, description)
    case Save(freshId) => AddTicket(s, freshId)
    case Edit(id) => EditTicket(s, id)
    case Delete(id) => DeleteTicket(s, id)
  }

  /** A sequence of events applied in order. */
  function Run(s: State, evs: seq<Event>): State
    decreases |evs|
  {
    if evs == [] then s else Run(Step(s, evs[0]), evs[1..])
  }

  /** Every save in the run gets a clock value that is fresh at the moment it happens. */
  predicate FreshRun(s: State, evs: seq<Event>)
    decreases |evs|
  {
    evs == [] || ((evs[0].Save? ==> FreshFor(s, evs[0].freshId)) && FreshRun(Step(s, evs[0]), evs[1..]))
  }

  /** One event keeps the collection invariant. */
  lemma StepPreservesWellFormed(s: State, e: Event)
    requires WellFormed(s.tickets) && (e.Save? ==> FreshFor(s, e.freshId))
    ensures WellFormed(Step(s, e).tickets)
  {
    match e
    case Save(freshId) => AddTicketPreservesWellFormed(s, freshId);
    case Delete(id) => DeleteTicketPreservesWellFormed(s, id);
    case _ =>
  }

  /** Ids stay unique and non-sentinel over any run whose clock values are fresh. */
  lemma {:induction false} RunPreservesWellFormed(s: State, evs: seq<Event>)
    requires WellFormed(s.tickets) && FreshRun(s, evs)
    ensures WellFormed(Run(s, evs).tickets)
    decreases |evs|
  {
    if evs != [] {
      StepPreservesWellFormed(s, evs[0]);
      RunPreservesWellFormed(Step(s, evs[0]), evs[1..]);
    }
  }

  /**
   * Without a save or a delete the stored list never changes, whatever is
   * opened, typed into the draft or cancelled.
   */
  lemma {:induction false} DraftOnlyRunKeepsTickets(s: State, evs: seq<Event>)
    requires forall k :: 0 <= k < |evs| ==> !evs[k].Save? && !evs[k].Delete?
    ensures Run(s, evs).tickets == s.tickets
    decreases |evs|
  {
    if evs != [] {
      DraftOnlyRunKeepsTickets(Step(s, evs[0]), evs[1..]);
    }
  }

  /**
   * Neither "Create" nor "Cancel" resets the draft: after opening a stored
   * ticket for editing, cancelling, pressing "Create" and typing a title,
   * the save updates that ticket in place instead of creating a new one.
   */
  lemma StaleDraftSavesAsUpdate(s: State, k: int, title: string, freshId: int)
    requires WellFormed(s.tickets) && 0 <= k < |s.tickets|
    ensures Run(s, [Edit(s.tickets[k].id), Cancel, OpenCreate, TypeTitle(title), Save(freshId)]).tickets
            == s.tickets[k := s.tickets[k].(title := title)]
  {
    var t := s.tickets[k];
    var edited := t.(title := title);
    FindByIdUnique(s.tickets, k);
    var s1 := EditTicket(s, t.id);
    var s2 := CancelEditor(s1);
    var s3 := OpenEditor(s2);
    var s4 := EditTitle(s3, title);
    var s5 := AddTicket(s4, freshId);
    assert Run(s4, [Save(freshId)]) == s5;
    assert Run(s3, [TypeTitle(title), Save(freshId)]) == s5 by {
      assert [TypeTitle(title), Save(freshId)][1..] == [Save(freshId)];
    }
    assert Run(s2, [OpenCreate, TypeTitle(title), Save(freshId)]) == s5 by {
      assert [OpenCreate, TypeTitle(title), Save(freshId)][1..] == [TypeTitle(title), Save(freshId)];
    }
    assert Run(s1, [Cancel, OpenCreate, TypeTitle(title), Save(freshId)]) == s5 by {
      assert [Cancel, OpenCreate, TypeTitle(title), Save(freshId)][1..] == [OpenCreate, TypeTitle(title), Save(freshId)];
    }
    assert Run(s, [Edit(t.id), Cancel, OpenCreate, TypeTitle(title), Save(freshId)]) == s5 by {
      assert [Edit(t.id), Cancel, OpenCreate, TypeTitle(title), Save(freshId)][1..]
          == [Cancel, OpenCreate, TypeTitle(title), Save(freshId)];
    }
    assert s4.currentTicket == edited && edited.id != NewId;
    forall i | 0 <= i < |s.tickets| ensures s5.tickets[i] == s.tickets[k := edited][i] {
      if i != k {
        assert s.tickets[i].id != t.id;
      }
    }
  }

  /**
   * Open a stored ticket for editing, cancel, delete that ticket, press
   * "Create" and save: the stale draft still carries the deleted id, so
   * the save updates nothing and the ticket stays deleted.
   */
  lemma DeletedDraftSavesNothing(s: State, k: int, freshId: int)
    requires WellFormed(s.tickets) && 0 <= k < |s.tickets|
    ensures Run(s, [Edit(s.tickets[k].id), Cancel, Delete(s.tickets[k].id), OpenCreate, Save(freshId)]).tickets
            == RemoveById(s.tickets, s.tickets[k].id)
  {
    var t := s.tickets[k];
    FindByIdUnique(s.tickets, k);
    var s1 := EditTicket(s, t.id);
    var s2 := CancelEditor(s1);
    var s3 := DeleteTicket(s2, t.id);
    var s4 := OpenEditor(s3);
    var s5 := AddTicket(s4, freshId);
    assert Run(s4, [Save(freshId)]) == s5;
    assert Run(s3, [OpenCreate, Save(freshId)]) == s5 by {
      assert [OpenCreate, Save(freshId)][1..] == [Save(freshId)];
    }
    assert Run(s2, [Delete(t.id), OpenCreate, Save(freshId)]) == s5 by {
      assert [Delete(t.id), OpenCreate, Save(freshId)][1..] == [OpenCreate, Save(freshId)];
    }
    assert Run(s1, [Cancel, Delete(t.id), OpenCreate, Save(freshId)]) == s5 by {
      assert [Cancel, Delete(t.id), OpenCreate, Save(freshId)][1..] == [Delete(t.id), OpenCreate, Save(freshId)];
    }
    assert Run(s, [Edit(t.id), Cancel, Delete(t.id), OpenCreate, Save(freshId)]) == s5 by {
      assert [Edit(t.id), Cancel, Delete(t.id), OpenCreate, Save(freshId)][1..]
          == [Cancel, Delete(t.id), OpenCreate, Save(freshId)];
    }
    assert s4.currentTicket == t && t.id != NewId;
    RemoveByIdGone(s.tickets, t.id);
    ReplaceByIdAbsent(s4.tickets, t);
  }
}
