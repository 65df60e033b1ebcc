/** The remote Participants table seen as a sequence of rows, and the one
    write the dashboard issues against it:
    `update({ Payment: status }).eq('id', id)` (src/App.tsx:38-41). */
module Store {
  import opened Wrappers
  import opened Participants

  /** Sets the payment of every row whose id is `id`; all other rows, and
      every other column, are left alone. A missing id matches no row. */
  function SetPayment(table: seq<Participant>, id: int, status: string): (r: seq<Participant>)
    ensures |r| == |table|
    ensures forall i :: 0 <= i < |table| ==> SameExceptPayment(r[i], table[i])
    ensures forall i :: 0 <= i < |table| && table[i].id == id ==> r[i].payment == Some(status)
    ensures forall i :: 0 <= i < |table| && table[i].id != id ==> r[i] == table[i]
    decreases |table|
  {
    if |table| == 0 then
      []
    else
      var row := table[|table| - 1];
      var patched := if row.id == id then row.(payment := Some(status)) else row;
      SetPayment(table[..|table| - 1], id, status) + [patched]
  }

  /** An update whose id matches no row leaves the table unchanged. */
  lemma SetPaymentMissingId(table: seq<Participant>, id: int, status: string)
    requires forall i :: 0 <= i < |table| ==> table[i].id != id
    ensures SetPayment(table, id, status) == table
  {
  }

  /** Last write wins: a second update of the same row overwrites the first
      completely, with no trace of it left. */
  lemma SetPaymentLastWriteWins(table: seq<Participant>, id: int, s1: string, s2: string)
    ensures SetPayment(SetPayment(table, id, s1), id, s2) == SetPayment(table, id, s2)
  {
    var once := SetPayment(table, id, s2);
    var twice := SetPayment(SetPayment(table, id, s1), id, s2);
    assert forall i :: 0 <= i < |table| ==> twice[i] == once[i];
  }

  /** Writing the same status twice is writing it once. */
  lemma SetPaymentIdempotent(table: seq<Participant>, id: int, status: string)
    ensures SetPayment(SetPayment(table, id, status), id, status) == SetPayment(table, id, status)
  {
    SetPaymentLastWriteWins(table, id, status, status);
  }

  /** Updates of two different rows do not interfere. */
  lemma SetPaymentCommutes(table: seq<Participant>, id1: int, s1: string, id2: int, s2: string)
    requires id1 != id2
    ensures SetPayment(SetPayment(table, id1, s1), id2, s2) == SetPayment(SetPayment(table, id2, s2), id1, s1)
  {
    var a := SetPayment(SetPayment(table, id1, s1), id2, s2);
    var b := SetPayment(SetPayment(table, id2, s2), id1, s1);
    assert forall i :: 0 <= i < |table| ==> a[i] == b[i];
  }
}
