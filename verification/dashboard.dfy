/** The dashboard component (src/App.tsx:7-173) as a state record and pure
    transitions. The remote store is the table held beside the view; each
    store call's success or failure is a parameter of the transition that
    issues it. Asynchrony is flattened: every call completes before the next
    user event. */
module Dashboard {
  import opened Wrappers
  import opened Participants
  import opened Search
  import opened RowView
  import opened Store

  /** The component's state hooks (src/App.tsx:8-11). */
  datatype View = View(
    participants: seq<Participant>,
    loading: bool,
    searchTerm: string,
    updating: Option<int>)

  /** The dashboard together with the remote table it reads and writes. */
  datatype World = World(view: View, table: seq<Participant>)

  /** The initial hook values: no rows, loading, empty search, nothing updating. */
  const Initial: View := View([], true, "", None)

  /** The outcome of `select('*')`: rows, a null payload without an error
      (`data || []` turns it into no rows), or an error. */
  datatype FetchOutcome = Delivered | DeliveredNull | FetchFailed

  /** The outcome of `update(...).eq('id', id)`. */
  datatype WriteOutcome = Written | WriteFailed

  /** Neither a load nor an update is in flight. */
  predicate Settled(v: View) {
    !v.loading && v.updating.None?
  }

  /** `fetchParticipants` (src/App.tsx:13-29). The store delivers its rows in
      id order, which is taken to be the order of `table`. */
  function FetchParticipants(v: View, table: seq<Participant>, outcome: FetchOutcome): (r: View)
    ensures !r.loading
    ensures r.searchTerm == v.searchTerm && r.updating == v.updating
    ensures outcome == Delivered ==> r.participants == table
    ensures outcome == DeliveredNull ==> r.participants == []
    ensures outcome == FetchFailed ==> r.participants == v.participants
  {
    var inFlight := v.(loading := true);
    match outcome
    case Delivered => inFlight.(participants := table, loading := false)
    case DeliveredNull => inFlight.(participants := [], loading := false)
    case FetchFailed => inFlight.(loading := false)
  }

  /** The state while an update of row `id` is awaiting the store. */
  function UpdateInFlight(v: View, id: int): (r: View)
    ensures r.updating == Some(id)
    ensures r.participants == v.participants && r.loading == v.loading && r.searchTerm == v.searchTerm
    ensures forall p: Participant :: p.id == id ==> ActionCellOf(p, r.updating) == UpdatingLabel
  {
    v.(updating := Some(id))
  }

  /** `updatePaymentStatus` (src/App.tsx:35-53). On a successful write the
      table is patched and the page reloads with outcome `reload`; on a
      failed write neither the table nor the rows change. Either way the
      `finally` block clears `updating`. */
  function UpdatePaymentStatus(w: World, id: int, status: string, write: WriteOutcome, reload: FetchOutcome): (r: World)
    ensures r.view.updating.None?
    ensures r.view.searchTerm == w.view.searchTerm
    ensures write == Written ==> r.table == SetPayment(w.table, id, status) && !r.view.loading
    ensures write == Written && reload == Delivered ==> r.view.participants == r.table
    ensures write == Written && reload == DeliveredNull ==> r.view.participants == []
    ensures write == Written && reload == FetchFailed ==> r.view.participants == w.view.participants
    ensures write == WriteFailed ==> r.table == w.table && r.view == w.view.(updating := None)
  {
    var inFlight := UpdateInFlight(w.view, id);
    match write
    case Written =>
      var table := SetPayment(w.table, id, status);
      var reloaded := FetchParticipants(inFlight, table, reload);
      World(reloaded.(updating := None), table)
    case WriteFailed =>
      World(inFlight.(updating := None), w.table)
  }

  /** The table body (src/App.tsx:103-164). */
  datatype Body = LoadingRow | EmptyRow | Rows(rows: seq<Row>)

  function Render(v: View): (b: Body)
    ensures b.LoadingRow? <==> v.loading
    ensures b.EmptyRow? <==> !v.loading && |Filter(v.participants, v.searchTerm)| == 0
    ensures b.Rows? ==> |b.rows| == |Filter(v.participants, v.searchTerm)|
    ensures b.Rows? ==> forall k :: 0 <= k < |b.rows| ==> b.rows[k] == RenderRow(Filter(v.participants, v.searchTerm)[k], v.updating)
  {
    if v.loading then
      LoadingRow
    else
      var shown := Filter(v.participants, v.searchTerm);
      if |shown| == 0 then EmptyRow
      else Rows(seq(|shown|, k requires 0 <= k < |shown| => RenderRow(shown[k], v.updating)))
  }

  /** Once loaded, the rendered rows are those of the matching participants:
      every row comes from a loaded participant that matches the search, and
      every matching participant has a row. */
  lemma RenderShowsExactlyMatches(v: View)
    requires !v.loading
    ensures forall k :: 0 <= k < |RowsOf(v)| ==>
      exists p :: p in v.participants && Matches(p, v.searchTerm) && RowsOf(v)[k] == RenderRow(p, v.updating)
    ensures forall p :: p in v.participants && Matches(p, v.searchTerm) ==> RenderRow(p, v.updating) in RowsOf(v)
  {
    var shown := Filter(v.participants, v.searchTerm);
    forall k | 0 <= k < |RowsOf(v)|
      ensures exists p :: p in v.participants && Matches(p, v.searchTerm) && RowsOf(v)[k] == RenderRow(p, v.updating)
    {
      assert shown[k] in shown;
    }
    forall p | p in v.participants && Matches(p, v.searchTerm)
      ensures RenderRow(p, v.updating) in RowsOf(v)
    {
      var i :| 0 <= i < |v.participants| && v.participants[i] == p;
      var k :| 0 <= k < |shown| && shown[k] == p;
      assert RowsOf(v)[k] == RenderRow(p, v.updating);
    }
  }

  /** The rows on screen, empty while loading or when nothing matches. */
  function RowsOf(v: View): seq<Row> {
    match Render(v)
    case Rows(rows) => rows
    case _ => []
  }

  /** A user interaction: the Refresh button (src/App.tsx:68-74), typing in
      the search box (src/App.tsx:80-86), or a click on one of the two
      buttons of the row at position `row` on screen (src/App.tsx:145-156),
      together with the store outcomes of the calls it issues. */
  datatype Event =
    | Refresh(outcome: FetchOutcome)
    | Type(term: string)
    | Click(row: int, action: Action, write: WriteOutcome, reload: FetchOutcome)

  /** The effect of one interaction. A click that hits no button on screen
      does nothing. */
  function Step(w: World, e: Event): (r: World)
    ensures e.Refresh? ==> r == w.(view := FetchParticipants(w.view, w.table, e.outcome))
    ensures e.Type? ==> r == w.(view := w.view.(searchTerm := e.term))
    ensures e.Click? && !ButtonOnScreen(w.view, e.row, e.action) ==> r == w
    ensures e.Click? && ButtonOnScreen(w.view, e.row, e.action) ==>
      r == UpdatePaymentStatus(w, RowsOf(w.view)[e.row].key, Target(e.action), e.write, e.reload)
    ensures !(e.Click? && ButtonOnScreen(w.view, e.row, e.action)) ==> r.table == w.table
  {
    match e
    case Refresh(outcome) => w.(view := FetchParticipants(w.view, w.table, outcome))
    case Type(term) => w.(view := w.view.(searchTerm := term))
    case Click(k, a, write, reload) =>
      var rows := RowsOf(w.view);
      if ButtonOnScreen(w.view, k, a) then
        UpdatePaymentStatus(w, rows[k].key, Target(a), write, reload)
      else
        w
  }

  /** Row `row` on screen shows the button for `action`. */
  predicate ButtonOnScreen(v: View, row: int, action: Action) {
    0 <= row < |RowsOf(v)| && Offers(RowsOf(v)[row].actions, Target(action))
  }

  function Run(w: World, events: seq<Event>): World
    decreases |events|
  {
    if |events| == 0 then w else Run(Step(w, events[0]), events[1..])
  }

  /** The first load issued by the mount effect (src/App.tsx:31-33). */
  function Mount(table: seq<Participant>, outcome: FetchOutcome): (w: World)
    ensures Settled(w.view) && w.table == table
    ensures w.view.searchTerm == ""
    ensures outcome == Delivered ==> w.view.participants == table
    ensures outcome != Delivered ==> w.view.participants == []
  {
    World(FetchParticipants(Initial, table, outcome), table)
  }

  /** Every interaction leaves the dashboard settled: `loading` is false and
      `updating` is null after every load and every update, whatever the
      store answered. */
  lemma StepKeepsSettled(w: World, e: Event)
    requires Settled(w.view)
    ensures Settled(Step(w, e).view)
  {
  }

  lemma {:induction false} RunKeepsSettled(w: World, events: seq<Event>)
    requires Settled(w.view)
    ensures Settled(Run(w, events).view)
    decreases |events|
  {
    if |events| > 0 {
      StepKeepsSettled(w, events[0]);
      RunKeepsSettled(Step(w, events[0]), events[1..]);
    }
  }

  /** The table after a run differs from the table before only in payments:
      the dashboard never adds, removes or reorders rows and never writes
      another column. */
  ghost predicate OnlyPaymentsDiffer(before: seq<Participant>, after: seq<Participant>) {
    |after| == |before| && forall i :: 0 <= i < |before| ==> SameExceptPayment(after[i], before[i])
  }

  lemma {:induction false} RunOnlyWritesPayments(w: World, events: seq<Event>)
    ensures OnlyPaymentsDiffer(w.table, Run(w, events).table)
    decreases |events|
  {
    if |events| > 0 {
      var next := Step(w, events[0]);
      RunOnlyWritesPayments(next, events[1..]);
    }
  }

  /** Every displayed copy of a row whose stored payment is null also shows a
      null payment: the dashboard never displays a payment the store does not
      hold for a row the store holds as null. */
  ghost predicate NullsDisplayed(w: World) {
    forall p, j :: p in w.view.participants && 0 <= j < |w.table| && w.table[j].id == p.id && w.table[j].payment.None?
      ==> p.payment.None?
  }

  ghost predicate Coherent(w: World) {
    UniqueIds(w.table) && NullsDisplayed(w)
  }

  lemma MountCoherent(table: seq<Participant>, outcome: FetchOutcome)
    requires UniqueIds(table)
    ensures Coherent(Mount(table, outcome))
  {
  }

  /** A click writes only to a row whose displayed payment is not null. */
  lemma ClickedRowHasPayment(w: World, k: int, a: Action)
    requires 0 <= k < |RowsOf(w.view)|
    requires Offers(RowsOf(w.view)[k].actions, Target(a))
    ensures exists p :: p in w.view.participants && p.id == RowsOf(w.view)[k].key && p.payment.Some?
  {
    var shown := Filter(w.view.participants, w.view.searchTerm);
    var p := shown[k];
    assert p in shown;
    OffersExactly(p, w.view.updating, Target(a));
  }

  /** One interaction keeps the store and the display coherent and never
      gives a payment to a row whose stored payment is null. */
  lemma StepKeepsNulls(w: World, e: Event)
    requires Coherent(w)
    ensures Coherent(Step(w, e))
    ensures |Step(w, e).table| == |w.table|
    ensures forall j :: 0 <= j < |w.table| && w.table[j].payment.None? ==> Step(w, e).table[j].payment.None?
  {
    var next := Step(w, e);
    match e
    case Refresh(outcome) =>
    case Type(term) =>
    case Click(k, a, write, reload) =>
      var rows := RowsOf(w.view);
      if 0 <= k < |rows| && Offers(rows[k].actions, Target(a)) {
        var id := rows[k].key;
        ClickedRowHasPayment(w, k, a);
        assert forall j :: 0 <= j < |w.table| && w.table[j].payment.None? ==> w.table[j].id != id;
        assert UniqueIds(next.table);
      }
  }

  /** A row whose stored payment is null keeps a null payment through any
      sequence of interactions: the dashboard cannot set it. */
  lemma {:induction false} NullPaymentNeverChanged(w: World, events: seq<Event>, j: int)
    requires Coherent(w)
    requires 0 <= j < |w.table| && w.table[j].payment.None?
    ensures j < |Run(w, events).table| && Run(w, events).table[j].payment.None?
    decreases |events|
  {
    if |events| > 0 {
      StepKeepsNulls(w, events[0]);
      NullPaymentNeverChanged(Step(w, events[0]), events[1..], j);
    }
  }
}
