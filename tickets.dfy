/**
 * The ticket record of the help desk and the three list transforms its
 * handlers apply to the ordered ticket list: replace by id (`map`),
 * remove by id (`filter`) and find by id (`find`).
 */
module Tickets {
  import opened Wrappers

  /** A support ticket: a numeric id, a title and a description. */
  datatype Ticket = Ticket(id: int, title: string, description: string)

  /** The sentinel id of a draft that has no stored counterpart yet. */
  const NewId: int := 0

  /** The draft the editor starts from and is reset to after every save. */
  const EmptyDraft: Ticket := Ticket(NewId, "", "")

  /** Some ticket of `ts` carries `id`. */
  predicate HasId(ts: seq<Ticket>, id: int) {
    exists i :: 0 <= i < |ts| && ts[i].id == id
  }

  /** No two tickets of `ts` share an id. */
  predicate UniqueIds(ts: seq<Ticket>) {
    forall i, j :: 0 <= i < j < |ts| ==> ts[i].id != ts[j].id
  }

  /** No stored ticket carries the sentinel id. */
  predicate NoSentinel(ts: seq<Ticket>) {
    forall i :: 0 <= i < |ts| ==> ts[i].id != NewId
  }

  /** The collection invariant: ids identify tickets and none is the sentinel. */
  predicate WellFormed(ts: seq<Ticket>) {
    UniqueIds(ts) && NoSentinel(ts)
  }

  /** Position `i` holds the first ticket of `ts` that carries `id`. */
  predicate IsFirstWithId(ts: seq<Ticket>, id: int, i: int) {
    0 <= i < |ts| && ts[i].id == id && forall j :: 0 <= j < i ==> ts[j].id != id
  }

  /** Ticket `a` stands somewhere before ticket `b` in `ts`. */
  predicate Before(ts: seq<Ticket>, a: Ticket, b: Ticket) {
    exists i, j :: 0 <= i < j < |ts| && ts[i] == a && ts[j] == b
  }

  /**
   * `tickets.map(t => t.id === edited.id ? edited : t)`: every ticket that
   * carries the edited ticket's id becomes the edited ticket, every other
   * ticket stays, and positions are kept.
   */
  function ReplaceById(ts: seq<Ticket>, edited: Ticket): (r: seq<Ticket>)
    ensures |r| == |ts|
    ensures forall i :: 0 <= i < |ts| ==> r[i] == if ts[i].id == edited.id then edited else ts[i]
  {
    if ts == [] then []
    else [if ts[0].id == edited.id then edited else ts[0]] + ReplaceById(ts[1..], edited)
  }

  /**
   * `tickets.filter(t => t.id !== id)`: exactly the tickets that do not
   * carry `id` remain.
   */
  function RemoveById(ts: seq<Ticket>, id: int): (r: seq<Ticket>)
    ensures |r| <= |ts|
    ensures forall t :: t in r <==> t in ts && t.id != id
  {
    if ts == [] then []
    else (if ts[0].id != id then [ts[0]] else []) + RemoveById(ts[1..], id)
  }

  /**
   * `tickets.find(t => t.id === id)`: the first ticket that carries `id`,
   * or nothing when no ticket does.
   */
  function FindById(ts: seq<Ticket>, id: int): (r: Option<Ticket>)
    ensures r.None? <==> !HasId(ts, id)
    ensures r.Some? ==> exists i :: IsFirstWithId(ts, id, i) && ts[i] == r.value
  {
    if ts == [] then None
    else if ts[0].id == id then
      assert IsFirstWithId(ts, id, 0);
      Some(ts[0])
    else
      var r := FindById(ts[1..], id);
      assert HasId(ts[1..], id) <==> HasId(ts, id) by {
        if HasId(ts, id) {
          var i :| 0 <= i < |ts| && ts[i].id == id;
          assert ts[1..][i - 1].id == id;
        }
      }
      assert r.Some? ==> exists i :: IsFirstWithId(ts, id, i) && ts[i] == r.value by {
        if r.Some? {
          var i :| IsFirstWithId(ts[1..], id, i) && ts[1..][i] == r.value;
          assert IsFirstWithId(ts, id, i + 1);
        }
      }
      r
  }

  // ---------------------------------------------------------------- find

  /** With distinct ids, finding a stored ticket's id yields that very ticket. */
  lemma FindByIdUnique(ts: seq<Ticket>, k: int)
    requires UniqueIds(ts) && 0 <= k < |ts|
    ensures FindById(ts, ts[k].id) == Some(ts[k])
  {
  }

  // ------------------------------------------------------------- replace

  /** Replacing keeps every position's id, so the collection invariant survives. */
  lemma ReplaceByIdPreservesWellFormed(ts: seq<Ticket>, edited: Ticket)
    requires WellFormed(ts)
    ensures WellFormed(ReplaceById(ts, edited))
  {
  }

  /** When no ticket carries the edited id, replacing changes nothing. */
  lemma ReplaceByIdAbsent(ts: seq<Ticket>, edited: Ticket)
    requires !HasId(ts, edited.id)
    ensures ReplaceById(ts, edited) == ts
  {
  }

  /** Saving the same draft twice is the same as saving it once. */
  lemma ReplaceByIdIdempotent(ts: seq<Ticket>, edited: Ticket)
    ensures ReplaceById(ReplaceById(ts, edited), edited) == ReplaceById(ts, edited)
  {
  }

  /** Saving a ticket exactly as it was found leaves the collection as it was. */
  lemma ReplaceByIdFound(ts: seq<Ticket>, id: int)
    requires UniqueIds(ts) && FindById(ts, id).Some?
    ensures ReplaceById(ts, FindById(ts, id).value) == ts
  {
  }

  // -------------------------------------------------------------- append

  /** Appending a ticket with a fresh, non-sentinel id keeps the invariant. */
  lemma AppendPreservesWellFormed(ts: seq<Ticket>, t: Ticket)
    requires WellFormed(ts) && t.id != NewId && !HasId(ts, t.id)
    ensures WellFormed(ts + [t])
  {
  }

  // -------------------------------------------------------------- remove

  /** Removing distributes over concatenation: the filter works position by position. */
  lemma {:induction false} RemoveByIdConcat(a: seq<Ticket>, b: seq<Ticket>, id: int)
    ensures RemoveById(a + b, id) == RemoveById(a, id) + RemoveById(b, id)
  {
    if a == [] {
      assert a + b == b;
    } else {
      assert (a + b)[1..] == a[1..] + b;
      RemoveByIdConcat(a[1..], b, id);
    }
  }

  /** Removing an id no ticket carries is a no-op. */
  lemma {:induction false} RemoveByIdAbsent(ts: seq<Ticket>, id: int)
    requires !HasId(ts, id)
    ensures RemoveById(ts, id) == ts
  {
    if ts != [] {
      assert ts[0].id != id;
      assert !HasId(ts[1..], id);
      RemoveByIdAbsent(ts[1..], id);
      assert ts == [ts[0]] + ts[1..];
    }
  }

  /** After a removal no ticket carries the removed id. */
  lemma RemoveByIdGone(ts: seq<Ticket>, id: int)
    ensures !HasId(RemoveById(ts, id), id)
  {
  }

  /** Deleting twice is deleting once. */
  lemma RemoveByIdIdempotent(ts: seq<Ticket>, id: int)
    ensures RemoveById(RemoveById(ts, id), id) == RemoveById(ts, id)
  {
    RemoveByIdGone(ts, id);
    RemoveByIdAbsent(RemoveById(ts, id), id);
  }

  /** Deleting a just-created ticket by its fresh id restores the collection. */
  lemma RemoveByIdAfterAppend(ts: seq<Ticket>, t: Ticket)
    requires !HasId(ts, t.id)
    ensures RemoveById(ts + [t], t.id) == ts
  {
    RemoveByIdConcat(ts, [t], t.id);
    RemoveByIdAbsent(ts, t.id);
    assert RemoveById([t], t.id) == [];
  }

  /** Removing keeps the collection invariant. */
  lemma {:induction false} RemoveByIdPreservesWellFormed(ts: seq<Ticket>, id: int)
    requires WellFormed(ts)
    ensures WellFormed(RemoveById(ts, id))
  {
    if ts != [] {
      var rest := ts[1..];
      assert WellFormed(rest) by {
        forall i, j | 0 <= i < j < |rest| ensures rest[i].id != rest[j].id {
          assert rest[i] == ts[i + 1] && rest[j] == ts[j + 1];
        }
      }
      RemoveByIdPreservesWellFormed(rest, id);
      var tail := RemoveById(rest, id);
      var r := RemoveById(ts, id);
      if ts[0].id != id {
        assert r == [ts[0]] + tail;
        forall j | 0 < j < |r| ensures r[0].id != r[j].id {
          assert r[j] == tail[j - 1];
          assert tail[j - 1] in rest;
          var k :| 0 <= k < |rest| && rest[k] == tail[j - 1];
          assert ts[k + 1] == r[j];
        }
      } else {
        assert r == tail;
      }
    }
  }

  /** With distinct ids, deleting a present id removes exactly one ticket. */
  lemma {:induction false} RemoveByIdRemovesOne(ts: seq<Ticket>, id: int)
    requires UniqueIds(ts) && HasId(ts, id)
    ensures |RemoveById(ts, id)| == |ts| - 1
  {
    var rest := ts[1..];
    assert UniqueIds(rest) by {
      forall i, j | 0 <= i < j < |rest| ensures rest[i].id != rest[j].id {
        assert rest[i] == ts[i + 1] && rest[j] == ts[j + 1];
      }
    }
    if ts[0].id == id {
      assert !HasId(rest, id) by {
        forall i | 0 <= i < |rest| ensures rest[i].id != id {
          assert ts[i + 1].id != ts[0].id;
        }
      }
      RemoveByIdAbsent(rest, id);
    } else {
      var i :| 0 <= i < |ts| && ts[i].id == id;
      assert rest[i - 1].id == id;
      RemoveByIdRemovesOne(rest, id);
    }
  }

  /** Order in a sequence with a head: the head comes before everything in the rest. */
  lemma BeforeCons(x: Ticket, rest: seq<Ticket>, a: Ticket, b: Ticket)
    ensures Before([x] + rest, a, b) <==> (x == a && b in rest) || Before(rest, a, b)
  {
    var ts := [x] + rest;
    if Before(ts, a, b) {
      var i, j :| 0 <= i < j < |ts| && ts[i] == a && ts[j] == b;
      assert rest[j - 1] == b;
      if i > 0 {
        assert rest[i - 1] == a;
      }
    }
    if x == a && b in rest {
      var j :| 0 <= j < |rest| && rest[j] == b;
      assert ts[0] == a && ts[j + 1] == b;
    }
    if Before(rest, a, b) {
      var i, j :| 0 <= i < j < |rest| && rest[i] == a && rest[j] == b;
      assert ts[i + 1] == a && ts[j + 1] == b;
    }
  }

  /**
   * Removing keeps the relative order of the survivors: `a` stands before
   * `b` afterwards exactly when it did before and neither carries `id`.
   */
  lemma {:induction false} RemoveByIdKeepsOrder(ts: seq<Ticket>, id: int, a: Ticket, b: Ticket)
    ensures Before(RemoveById(ts, id), a, b) <==> Before(ts, a, b) && a.id != id && b.id != id
  {
    if ts != [] {
      var x, rest := ts[0], ts[1..];
      var tail := RemoveById(rest, id);
      RemoveByIdKeepsOrder(rest, id, a, b);
      assert ts == [x] + rest;
      BeforeCons(x, rest, a, b);
      if x.id != id {
        assert RemoveById(ts, id) == [x] + tail;
        BeforeCons(x, tail, a, b);
      } else {
        assert RemoveById(ts, id) == tail;
      }
    }
  }
}
