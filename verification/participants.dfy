/** The record shape of one row of the Participants table, restricted to the
    columns the dashboard reads or writes. `id` is the table's key;
    `idNo`, `name` and `payment` are nullable columns, `email` is not. */
module Participants {
  import opened Wrappers

  datatype Participant = Participant(
    id: int,
    idNo: Option<string>,
    name: Option<string>,
    email: string,
    payment: Option<string>)

  /** The two payment values the dashboard writes. */
  const PaymentSuccessful: string := "payment successful"
  const PaymentCancelled: string := "payment cancelled"

  /** Two rows agree on every column except `payment`. */
  predicate SameExceptPayment(p: Participant, q: Participant) {
    p.id == q.id && p.idNo == q.idNo && p.name == q.name && p.email == q.email
  }

  /** The table's key column holds no duplicates. */
  ghost predicate UniqueIds(table: seq<Participant>) {
    forall i, j :: 0 <= i < |table| && 0 <= j < |table| && table[i].id == table[j].id ==> i == j
  }
}
