# Helpdesk ticket list — a verified model

This project models the `Helpdesk` component of a single-page ticket
widget (`src/App.tsx`). The component keeps three pieces of state:

- an ordered list of tickets `{id, title, description}`;
- a flag saying whether the modal editor is shown;
- a draft ticket ("current ticket"), where id `0` means "not stored yet".

Its handlers are modelled as atomic transitions over that state:

- Save (`addTicket`) updates the tickets matching a stored draft in place, or appends a new ticket under a clock value.
- Delete (`deleteTicket`) filters tickets out by id.
- Edit (`editTicket`) copies the first matching ticket into the draft and opens the editor.
- The inline handlers open the editor ("Create"), close it ("Cancel") and edit the draft's title and description.

Layout:

- `wrappers.dfy`: `Option`, the result of `Array.prototype.find`.
- `tickets.dfy` (module `Tickets`): the `Ticket` record and the three list transforms the handlers use. These are `ReplaceById` (`map`), `RemoveById` (`filter`) and `FindById` (`find`). The module also holds the id invariant (`WellFormed`: ids distinct and never the sentinel `0`) and the lemmas about the transforms.
- `transitions.dfy` (module `Transitions`): the state as a value, one pure transition per handler, and user event sequences (`Event`, `Run`). It also holds the lemmas that relate several handlers. A run may contain any event in any state, so runs cover more than the page offers: the page renders the editor's controls only while the editor is shown (`src/App.tsx:82`).
- `helpdesk.dfy` (module `Component`): the class `Helpdesk`, with the three state cells as fields and one method per handler. It also has a ghost copy of the list as written to local storage. Each method is proved to perform the transition of the same name. Every method keeps the storage copy equal to the list.

`Date.now()` is a parameter `freshId` of the save. Where uniqueness of
ids matters, the freshness of that value is a hypothesis (`FreshFor`), not
a precondition of the handler. The source does not check it either.

Two behaviours of the code are easy to misread; the model follows the code:

- The "Create" button (`src/App.tsx:77`) and "Cancel" (`src/App.tsx:141`) only toggle visibility; they do not reset the draft. A draft left over from an edit survives. A later "Create" then saves as an update of that ticket (`Transitions.StaleDraftSavesAsUpdate`).
- Loading reads `localStorage.getItem('tickets') || '[]'` and parses it. A missing or empty entry gives the empty list. Malformed content makes `JSON.parse` throw; it does not silently become the empty list. The model's `saved` parameter therefore stands for a successful parse, or `None` for a missing or empty entry.

## Model

| member | source | states |
|---|---|---|
| `Tickets.ReplaceById` | src/App.tsx:28-30 | length kept; each position holds the edited ticket if its id matched, else the old ticket |
| `Tickets.RemoveById` | src/App.tsx:47 | a ticket survives exactly when it was present and does not carry the id; never longer |
| `Tickets.FindById` | src/App.tsx:52 | nothing exactly when no ticket carries the id; otherwise the ticket at the first position carrying it |
| `Tickets.FindByIdUnique` | src/App.tsx:52 | with distinct ids, finding a stored ticket's id yields that ticket |
| `Tickets.ReplaceByIdPreservesWellFormed` | src/App.tsx:28-30 | replacing keeps ids distinct and non-sentinel |
| `Tickets.ReplaceByIdAbsent` | src/App.tsx:28-30 | replacing with an id nobody carries leaves the list unchanged |
| `Tickets.ReplaceByIdIdempotent` | src/App.tsx:28-30 | saving the same draft twice equals saving it once |
| `Tickets.ReplaceByIdFound` | src/App.tsx:28-30 | with distinct ids, writing back the ticket `find` returned leaves the list unchanged |
| `Tickets.AppendPreservesWellFormed` | src/App.tsx:34-39 | appending a ticket under a fresh non-zero id keeps ids distinct and non-sentinel |
| `Tickets.RemoveByIdConcat` | src/App.tsx:47 | the filter distributes over concatenation (it acts position by position) |
| `Tickets.RemoveByIdAbsent` | src/App.tsx:47 | deleting an absent id is a no-op |
| `Tickets.RemoveByIdGone` | src/App.tsx:47 | after a delete no ticket carries that id |
| `Tickets.RemoveByIdIdempotent` | src/App.tsx:47 | deleting twice equals deleting once |
| `Tickets.RemoveByIdAfterAppend` | src/App.tsx:34-47 | deleting a just-appended ticket by its fresh id restores the list |
| `Tickets.RemoveByIdPreservesWellFormed` | src/App.tsx:47 | deleting keeps ids distinct and non-sentinel |
| `Tickets.RemoveByIdRemovesOne` | src/App.tsx:47 | with distinct ids, deleting a present id shortens the list by exactly one |
| `Tickets.RemoveByIdKeepsOrder` | src/App.tsx:47 | `a` precedes `b` after a delete exactly when it did before and neither carries the id |
| `Transitions.Mount` | src/App.tsx:10-18 | initial state: stored list (empty when nothing stored), editor hidden, empty draft |
| `Transitions.AddTicket` | src/App.tsx:25-44 | sentinel draft: one ticket appended with the fresh id and the draft's text, earlier tickets kept in place; stored draft: length kept, matching tickets become the draft, others kept; always editor hidden and draft reset |
| `Transitions.DeleteTicket` | src/App.tsx:46-49 | a ticket survives exactly when it does not carry the id; editor and draft unchanged |
| `Transitions.EditTicket` | src/App.tsx:51-57 | list never changes; present id: editor shown on the first ticket with that id; absent id: state unchanged |
| `Transitions.OpenEditor` | src/App.tsx:77 | editor shown; list and draft unchanged |
| `Transitions.CancelEditor` | src/App.tsx:141 | editor hidden; list and draft unchanged |
| `Transitions.EditTitle` | src/App.tsx:110 | only the draft's title changes; its id and description, the list and visibility are kept |
| `Transitions.EditDescription` | src/App.tsx:116 | only the draft's description changes; its id and title, the list and visibility are kept |
| `Transitions.AddTicketPreservesWellFormed` | src/App.tsx:25-44 | save keeps ids distinct and non-sentinel when the clock value is fresh on the create branch |
| `Transitions.DeleteTicketPreservesWellFormed` | src/App.tsx:46-49 | delete keeps ids distinct and non-sentinel |
| `Transitions.EditThenSaveIsIdentity` | src/App.tsx:25-57 | editing a stored ticket and saving it unchanged leaves the list unchanged |
| `Transitions.CreateThenDeleteRestores` | src/App.tsx:32-49 | deleting a just-created ticket by its id restores the list |
| `Transitions.SaveOfDeletedDraftIsNoOp` | src/App.tsx:26-31 | a draft whose ticket was deleted meanwhile is dropped on save; no ticket is re-created |
| `Transitions.StepPreservesWellFormed` | src/App.tsx:25-57 | every handler keeps ids distinct and non-sentinel, given a fresh clock value on save |
| `Transitions.RunPreservesWellFormed` | src/App.tsx:25-57 | any event sequence with fresh clock values keeps ids distinct and non-sentinel |
| `Transitions.DraftOnlyRunKeepsTickets` | src/App.tsx:77-141 | opening, typing and cancelling, in any order and number, never change the list |
| `Transitions.StaleDraftSavesAsUpdate` | src/App.tsx:77-141 | edit, cancel, "Create", type a title, save: the edited ticket gets the title in place, and no ticket is added |
| `Transitions.DeletedDraftSavesNothing` | src/App.tsx:25-141 | edit, cancel, delete that ticket, "Create", save: the list is the list with that ticket deleted; the stale draft re-creates nothing |
| `Component.Helpdesk.constructor` | src/App.tsx:10-18 | fields equal the mounted state; storage copy equals the list |
| `Component.Helpdesk.AddTicket` | src/App.tsx:25-44 | new state is the save transition of the old; storage mirrors the list; ids stay well formed under a fresh clock value |
| `Component.Helpdesk.DeleteTicket` | src/App.tsx:46-49 | new state is the delete transition of the old; storage mirrors the list; ids stay well formed |
| `Component.Helpdesk.EditTicket` | src/App.tsx:51-57 | new state is the edit transition of the old |
| `Component.Helpdesk.OpenEditor` | src/App.tsx:77 | new state is the open transition of the old |
| `Component.Helpdesk.CancelEditor` | src/App.tsx:141 | new state is the cancel transition of the old |
| `Component.Helpdesk.EditTitle` | src/App.tsx:110 | new state is the title-edit transition of the old |
| `Component.Helpdesk.EditDescription` | src/App.tsx:116 | new state is the description-edit transition of the old |

## Left out

- Rendering and styling (`src/App.tsx:59-196` apart from the handlers): presentation only.
- Local storage and JSON encoding (`src/App.tsx:14-23`): browser I/O through library code. The model keeps a ghost copy of the last list written, equal to the list after every handler. Reading is a parameter of the constructor. A malformed stored value makes the source throw, and that path is not modelled.
- `Date.now()` (`src/App.tsx:35`): a clock read, taken as the parameter `freshId`.
- React scheduling: effect order on mount, setter batching and re-rendering. Each handler is one atomic transition over the current state.
- JavaScript truthiness of the draft id (`src/App.tsx:26`): ids are integers and the test is `id != 0`, so a `NaN` id is not modelled.
- Ticket shape checks: the stored JSON is taken to hold well-typed tickets.
