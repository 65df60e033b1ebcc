/** What one table row shows: the payment badge in the "Current Status"
    column (src/App.tsx:128-137) and the contents of the "Actions" column
    (src/App.tsx:141-160). Styling is reduced to the badge colour. */
module RowView {
  import opened Wrappers
  import opened Participants

  /** The four outcomes of the status cell: the grey "null" text, or a
      pill-shaped badge in green, red or yellow. */
  datatype Badge = NullText | Green | Red | Yellow

  function BadgeOf(payment: Option<string>): (b: Badge)
    ensures b == NullText <==> payment.None?
    ensures b == Green <==> payment == Some(PaymentSuccessful)
    ensures b == Red <==> payment == Some(PaymentCancelled)
    ensures b == Yellow <==> payment.Some? && payment.value != PaymentSuccessful && payment.value != PaymentCancelled
  {
    match payment
    case None => NullText
    case Some(s) =>
      if s == PaymentSuccessful then Green
      else if s == PaymentCancelled then Red
      else Yellow
  }

  /** The text inside the status cell: the literal "null" for a null
      payment, the payment value itself otherwise. */
  function StatusText(payment: Option<string>): (s: string)
    ensures payment.None? ==> s == "null"
    ensures payment.Some? ==> s == payment.value
  {
    match payment
    case None => "null"
    case Some(s) => s
  }

  /** The status cell shows the stored payment unambiguously: two payments
      that render with the same badge and text are equal, even the null
      payment and the string "null", which differ in colour. */
  lemma StatusCellDistinguishes(p1: Option<string>, p2: Option<string>)
    requires BadgeOf(p1) == BadgeOf(p2)
    requires StatusText(p1) == StatusText(p2)
    ensures p1 == p2
  {
  }

  /** The two buttons of the action cell. */
  datatype Action = MarkSuccessful | MarkCancelled

  /** The payment value each button writes. */
  function Target(a: Action): (s: string)
    ensures s == PaymentSuccessful || s == PaymentCancelled
    ensures a == MarkSuccessful <==> s == PaymentSuccessful
    ensures a == MarkCancelled <==> s == PaymentCancelled
  {
    match a
    case MarkSuccessful => PaymentSuccessful
    case MarkCancelled => PaymentCancelled
  }

  datatype ActionCell = UpdatingLabel | Buttons(actions: seq<Action>) | NoActions

  /** The action cell of row `p` while `updating` marks the row, if any,
      whose update is in flight. */
  function ActionCellOf(p: Participant, updating: Option<int>): (c: ActionCell)
    ensures c.UpdatingLabel? <==> updating == Some(p.id)
    ensures c.Buttons? <==> updating != Some(p.id) && p.payment.Some?
    ensures c.NoActions? <==> updating != Some(p.id) && p.payment.None?
    ensures c.Buttons? ==> c.actions == [MarkSuccessful, MarkCancelled]
  {
    if updating == Some(p.id) then UpdatingLabel
    else if p.payment.Some? then Buttons([MarkSuccessful, MarkCancelled])
    else NoActions
  }

  /** The cell offers a button that writes `status`. */
  predicate Offers(c: ActionCell, status: string) {
    c.Buttons? && exists a :: a in c.actions && Target(a) == status
  }

  /** A row offers to write a status exactly when it is not the row being
      updated, its payment is not null, and the status is one of the two the
      buttons write. In particular a row with a null payment offers nothing. */
  lemma OffersExactly(p: Participant, updating: Option<int>, status: string)
    ensures Offers(ActionCellOf(p, updating), status) <==>
      updating != Some(p.id) && p.payment.Some? && (status == PaymentSuccessful || status == PaymentCancelled)
  {
    var c := ActionCellOf(p, updating);
    if c.Buttons? {
      if status == PaymentSuccessful {
        assert Target(MarkSuccessful) == status;
      } else if status == PaymentCancelled {
        assert Target(MarkCancelled) == status;
      }
    }
  }

  /** One rendered table row. `key` is the React key, the row's id. */
  datatype Row = Row(
    key: int,
    idNo: Option<string>,
    name: Option<string>,
    email: string,
    badge: Badge,
    statusText: string,
    actions: ActionCell)

  function RenderRow(p: Participant, updating: Option<int>): (r: Row)
    ensures r.key == p.id
    ensures r.idNo == p.idNo && r.name == p.name && r.email == p.email
    ensures r.badge == BadgeOf(p.payment) && r.statusText == StatusText(p.payment)
    ensures r.actions == ActionCellOf(p, updating)
  {
    Row(p.id, p.idNo, p.name, p.email, BadgeOf(p.payment), StatusText(p.payment), ActionCellOf(p, updating))
  }
}
