/**
  The drafts table (convex/drafts.ts): a user's post ideas, each with its text,
  whether it has been posted and when it was written. Document ids are handed
  out in creation order, so listing "newest first" is listing by descending id.
*/
module Drafts {
  import opened Text

  datatype Draft = Draft(id: nat, userId: string, text: string, isPosted: bool, createdAt: int)

  /** The drafts of `userId` among the rows with an id below `below`, highest id first. */
  function DraftsOf(rows: map<nat, Draft>, userId: string, below: nat): (r: seq<Draft>)
    ensures |r| <= below
    ensures forall i :: 0 <= i < |r| ==> r[i].userId == userId && r[i] in rows.Values
    decreases below
  {
    if below == 0 then []
    else
      var id := below - 1;
      var here := if id in rows && rows[id].userId == userId then [rows[id]] else [];
      here + DraftsOf(rows, userId, id)
  }

  /** Rows sit under their own id. */
  ghost predicate Keyed(rows: map<nat, Draft>) {
    forall id :: id in rows ==> rows[id].id == id
  }

  /** Every listed draft is a stored row of the user below the bound. */
  ghost predicate OwnRows(rows: map<nat, Draft>, userId: string, below: nat, r: seq<Draft>) {
    forall i :: 0 <= i < |r| ==> r[i].id in rows && rows[r[i].id] == r[i] && r[i].userId == userId && r[i].id < below
  }

  /** Listed drafts go from the highest id down. */
  ghost predicate NewestFirst(r: seq<Draft>) {
    forall i, j :: 0 <= i < j < |r| ==> r[i].id > r[j].id
  }

  /** Every draft of the user below the bound is listed. */
  ghost predicate AllOfUser(rows: map<nat, Draft>, userId: string, below: nat, r: seq<Draft>) {
    forall id :: id in rows && rows[id].userId == userId && id < below ==> rows[id] in r
  }

  /**
    The listing holds exactly the user's drafts below the bound, from the
    highest id down, each as stored.
  */
  lemma DraftsOfListsUser(rows: map<nat, Draft>, userId: string, below: nat)
    requires Keyed(rows)
    ensures OwnRows(rows, userId, below, DraftsOf(rows, userId, below))
    ensures NewestFirst(DraftsOf(rows, userId, below))
    ensures AllOfUser(rows, userId, below, DraftsOf(rows, userId, below))
  {
    DraftsOfSound(rows, userId, below);
    DraftsOfComplete(rows, userId, below);
  }

  lemma {:induction false} DraftsOfSound(rows: map<nat, Draft>, userId: string, below: nat)
    requires Keyed(rows)
    ensures OwnRows(rows, userId, below, DraftsOf(rows, userId, below))
    ensures NewestFirst(DraftsOf(rows, userId, below))
    decreases below
  {
    if below > 0 {
      var id := below - 1;
      DraftsOfSound(rows, userId, id);
      var rest := DraftsOf(rows, userId, id);
      var r := DraftsOf(rows, userId, below);
      if id in rows && rows[id].userId == userId {
        assert r == [rows[id]] + rest;
        assert rows[id].id == id;
        forall i | 1 <= i < |r| ensures r[i] == rest[i - 1] {
        }
      } else {
        assert r == rest;
      }
    }
  }

  lemma {:induction false} DraftsOfComplete(rows: map<nat, Draft>, userId: string, below: nat)
    ensures AllOfUser(rows, userId, below, DraftsOf(rows, userId, below))
    decreases below
  {
    if below > 0 {
      var id := below - 1;
      DraftsOfComplete(rows, userId, id);
      var rest := DraftsOf(rows, userId, id);
      var r := DraftsOf(rows, userId, below);
      if id in rows && rows[id].userId == userId {
        assert r == [rows[id]] + rest;
      } else {
        assert r == rest;
      }
    }
  }

  /** The rows after `toggleDraft`: the draft's posted flag flipped and nothing else; a missing id changes nothing. */
  function Toggled(rows: map<nat, Draft>, id: nat): (r: map<nat, Draft>)
    ensures r.Keys == rows.Keys
    ensures forall k :: k in rows && k != id ==> r[k] == rows[k]
    ensures id in rows ==> r[id].isPosted != rows[id].isPosted && r[id].(isPosted := rows[id].isPosted) == rows[id]
  {
    if id in rows then rows[id := rows[id].(isPosted := !rows[id].isPosted)] else rows
  }

  /** Toggling a draft twice restores the table. */
  lemma ToggleTwice(rows: map<nat, Draft>, id: nat)
    ensures Toggled(Toggled(rows, id), id) == rows
  {
    if id in rows {
      assert Toggled(Toggled(rows, id), id)[id] == rows[id];
    }
  }

  /** A new draft is listed first among its author's drafts, before all the earlier ones. */
  lemma {:induction false} AddedListedFirst(rows: map<nat, Draft>, d: Draft)
    requires forall id :: id in rows ==> id < d.id
    ensures DraftsOf(rows[d.id := d], d.userId, d.id + 1) == [d] + DraftsOf(rows, d.userId, d.id)
  {
    DraftsOfBelowSame(rows, rows[d.id := d], d.userId, d.id);
  }

  /** Rows that agree below a bound give the same listing below it. */
  lemma {:induction false} DraftsOfBelowSame(a: map<nat, Draft>, b: map<nat, Draft>, userId: string, below: nat)
    requires forall id :: id < below ==> (id in a <==> id in b) && (id in a ==> a[id] == b[id])
    ensures DraftsOf(a, userId, below) == DraftsOf(b, userId, below)
    decreases below
  {
    if below > 0 {
      DraftsOfBelowSame(a, b, userId, below - 1);
    }
  }

  class DraftTable {
    var rows: map<nat, Draft>
    var nextId: nat

    /** Every row sits under its own id, and ids not yet handed out are unused. */
    ghost predicate Valid()
      reads this
    {
      Keyed(rows) && forall id :: id in rows ==> id < nextId
    }

    constructor()
      ensures Valid() && rows == map[] && nextId == 0
    {
      rows := map[];
      nextId := 0;
    }

    /** `getDrafts`: the user's drafts, newest first. */
    method GetDrafts(userId: string) returns (drafts: seq<Draft>)
      requires Valid()
      ensures drafts == DraftsOf(rows, userId, nextId)
      ensures forall i :: 0 <= i < |drafts| ==> drafts[i].id in rows && rows[drafts[i].id] == drafts[i] && drafts[i].userId == userId
      ensures forall i, j :: 0 <= i < j < |drafts| ==> drafts[i].id > drafts[j].id
      ensures forall id :: id in rows && rows[id].userId == userId ==> rows[id] in drafts
    {
      drafts := [];
      var id := 0;
      while id < nextId
        invariant id <= nextId
        invariant drafts == DraftsOf(rows, userId, id)
      {
        if id in rows && rows[id].userId == userId {
          drafts := [rows[id]] + drafts;
        }
        id := id + 1;
      }
      DraftsOfListsUser(rows, userId, nextId);
    }

    /** `addDraft`: a new unposted draft of the trimmed text, stamped with `now`, under a fresh id. */
    method AddDraft(userId: string, text: string, now: int) returns (id: nat)
      requires Valid()
      modifies this
      ensures Valid()
      ensures id == old(nextId) && nextId == old(nextId) + 1 && id !in old(rows)
      ensures rows == old(rows)[id := Draft(id, userId, Trim(text), false, now)]
    {
      id := nextId;
      rows := rows[id := Draft(id, userId, Trim(text), false, now)];
      nextId := nextId + 1;
    }

    /** `toggleDraft`: flips whether the draft has been posted; an id with no draft is ignored. */
    method ToggleDraft(id: nat)
      requires Valid()
      modifies this
      ensures Valid()
      ensures rows == Toggled(old(rows), id) && nextId == old(nextId)
    {
      if id in rows {
        rows := rows[id := rows[id].(isPosted := !rows[id].isPosted)];
      }
    }

    /** `deleteDraft`: removes the draft and no other. */
    method DeleteDraft(id: nat)
      requires Valid()
      modifies this
      ensures Valid()
      ensures rows == old(rows) - {id} && nextId == old(nextId)
    {
      rows := rows - {id};
    }
  }
}
