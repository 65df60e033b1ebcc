# Payment dashboard: a Dafny model

The payment dashboard is a single React component (`src/App.tsx`). It loads
the rows of a hosted `Participants` table and filters them by a search box.
Each row shows a payment badge. Two buttons let an administrator mark a
payment "payment successful" or "payment cancelled". This project models that
component as pure functions over immutable values:

- `text.dfy` (`Text`): `toLowerCase` as ASCII case folding, and `includes` as
  a left-to-right substring search. The search is proved equal to a
  declarative substring predicate.
- `participants.dfy` (`Participants`): the row record. It keeps the columns
  the component touches (`id`, `ID_no`, `Name`, `Email`, `Payment`), with the
  nullability given in `src/types/supabase.ts:5-29`. It also holds the two
  payment values the buttons write.
- `search.dfy` (`Search`): the row predicate and the filter behind
  `filteredParticipants`, with their properties.
- `row_view.dfy` (`RowView`): the status badge and the action cell of one row.
- `store.dfy` (`Store`): the remote table as a sequence of rows, and the one
  write the component issues: set `Payment` where `id` matches.
- `dashboard.dfy` (`Dashboard`): the component state (`participants`,
  `loading`, `searchTerm`, `updating`) and its transitions. These are
  `fetchParticipants`, `updatePaymentStatus`, the rendered table body, and
  user interactions (Refresh, typing, clicking a row button) with the store's
  answers as parameters. Runs of interactions are proved to keep the flags
  settled, to write only payments, and never to give a payment to a row
  whose stored payment is null.

`Wrappers` holds the `Option` type used for nullable values.

The component writes exactly two payment values, `'payment successful'` and
`'payment cancelled'` (src/App.tsx:146, 152). It has no pass-type, pagination
or ID-generation logic, so the model has none either.

## Model

| member | source | states |
|---|---|---|
| `Text.LowerChar` | src/App.tsx:56-58 | a folded character is never an upper-case ASCII letter; letters move by exactly 32 code points and everything else is kept |
| `Text.Includes` | src/App.tsx:56-58 | `hay.includes(needle)` holds exactly when `needle` occurs in `hay` at some position; this includes the empty needle, which occurs everywhere |
| `Text.Lower` | src/App.tsx:56-58 | `toLowerCase` on a whole string keeps its length and folds each character in place |
| `Text.LowerIdempotent` | src/App.tsx:56-58 | folding an already folded string changes nothing |
| `Search.Matches` | src/App.tsx:56-58 | a row matches exactly when the folded term occurs in its folded email, or in its folded name or external ID when those are not null |
| `Search.Filter` | src/App.tsx:55-59 | the filtered list has only loaded rows that match, and every loaded row that matches appears in it |
| `Search.KeptPositions` | src/App.tsx:55-59 | the positions of the matching rows, strictly ascending and in range; a position is listed exactly when its row matches |
| `Search.FilterIsOrderedSelection` | src/App.tsx:55 | the k-th displayed row is the row at the k-th matching position, so the filter keeps the original order and drops nothing that matches |
| `Search.FilterMembership` | src/App.tsx:55-59 | a loaded row is displayed if and only if the search term occurs, ignoring case, in its email, non-null name or non-null external ID |
| `Search.FilterEmptyTerm` | src/App.tsx:57 | with an empty search term every loaded row is displayed, because the email is never null and contains the empty string |
| `Search.FilterCaseInsensitive` | src/App.tsx:56-58 | two terms that differ only in letter case display the same rows |
| `Search.FilterFoldedTerm` | src/App.tsx:56-58 | typing the lower-case form of a term displays the same rows as the term itself |
| `Search.FilterAppend` | src/App.tsx:55-59 | the filter works row by row: filtering a concatenation is concatenating the filtered parts |
| `Search.MatchesWeaker` | src/App.tsx:56-58 | a row that matches a term also matches every term that occurs, ignoring case, inside it |
| `Search.RefineSearch` | src/App.tsx:55-59 | narrowing the search to a longer term that contains the old one, then filtering the displayed rows, gives the same rows as searching all loaded rows for the longer term |
| `Search.FilterIdempotent` | src/App.tsx:55-59 | filtering the displayed rows again with the same term changes nothing |
| `RowView.BadgeOf` | src/App.tsx:128-137 | exactly one of four outcomes: null payment gives the grey "null" text, 'payment successful' gives green, 'payment cancelled' gives red, and any other string gives yellow |
| `RowView.StatusText` | src/App.tsx:128-136 | the status cell's text is the literal "null" for a null payment, and the payment value itself otherwise |
| `RowView.StatusCellDistinguishes` | src/App.tsx:128-137 | the badge colour and text together identify the stored payment; the null payment and the string "null" differ in colour |
| `RowView.Target` | src/App.tsx:145-156 | Mark Successful writes exactly 'payment successful' and Mark Cancelled writes exactly 'payment cancelled'; no other status is ever written |
| `RowView.ActionCellOf` | src/App.tsx:141-160 | the row being updated shows only "Updating..."; any other row shows the two buttons (Mark Successful, Mark Cancelled) when its payment is not null, and no actions when it is null |
| `RowView.OffersExactly` | src/App.tsx:141-160 | a row offers to write a status exactly when it is not being updated, its payment is not null, and the status is one of the two button targets; a null-payment row offers nothing |
| `RowView.RenderRow` | src/App.tsx:117-161 | a rendered row is keyed by the participant's id; its ID, Name and Email cells show that participant's columns, and it carries that participant's badge, status text and action cell |
| `Store.SetPayment` | src/App.tsx:38-41 | `update({Payment}).eq('id', id)` keeps the table's length and every non-payment column; rows with that id get the new payment, and all other rows are unchanged |
| `Store.SetPaymentMissingId` | src/App.tsx:38-41 | an update for an id that no row has leaves the table unchanged |
| `Store.SetPaymentLastWriteWins` | src/App.tsx:38-41 | a second update of the same row completely replaces the first |
| `Store.SetPaymentIdempotent` | src/App.tsx:38-41 | repeating an update does nothing more |
| `Store.SetPaymentCommutes` | src/App.tsx:38-41 | updates of two different ids can be applied in either order |
| `Dashboard.FetchParticipants` | src/App.tsx:13-29 | after a load, `loading` is false on every path; the rows are replaced by the table on success, emptied when the payload is null, and kept on failure; the search term and `updating` are untouched |
| `Dashboard.UpdateInFlight` | src/App.tsx:37 | while an update is awaiting the store, `updating` holds its id and every row with that id shows "Updating..."; the rows, `loading` and the search term are unchanged |
| `Dashboard.UpdatePaymentStatus` | src/App.tsx:35-53 | after an update, `updating` is null whatever the store answered; a successful write patches the table and reloads it, after which the rows are the patched table, empty on a null payload, or the old (now stale) rows if the reload fails; a failed write leaves the table and the displayed rows as they were |
| `Dashboard.Render` | src/App.tsx:103-164 | the body shows the loading row exactly while loading; otherwise it shows the empty row exactly when no loaded row matches, else one rendered row per filtered participant, in order |
| `Dashboard.RenderShowsExactlyMatches` | src/App.tsx:109-116 | once loaded, every row on screen is a matching participant's row, and every matching participant has a row on screen |
| `Dashboard.Mount` | src/App.tsx:31-33 | the first load, run from the initial state, leaves the dashboard settled with an empty search; it displays the store's table when the load delivers, and no rows otherwise |
| `Dashboard.Step` | src/App.tsx:68-156 | Refresh runs a load; typing replaces only the search term; a click on a button shown on screen runs the payment update for that row's id with that button's status; any other click changes nothing; only such a click can change the table |
| `Dashboard.StepKeepsSettled` | src/App.tsx:13-53 | after any interaction, neither `loading` nor `updating` is set |
| `Dashboard.RunKeepsSettled` | src/App.tsx:13-53 | after any sequence of interactions, neither `loading` nor `updating` is set |
| `Dashboard.RunOnlyWritesPayments` | src/App.tsx:38-41 | after any sequence of interactions, the table has the same rows in the same order, and only their payments can differ |
| `Dashboard.MountCoherent` | src/App.tsx:13-33 | after the first load, every displayed copy of a row whose stored payment is null also shows null |
| `Dashboard.ClickedRowHasPayment` | src/App.tsx:141-156 | a button on screen belongs to a loaded participant whose payment is not null |
| `Dashboard.StepKeepsNulls` | src/App.tsx:141-160 | an interaction keeps displayed rows consistent with stored nulls and never sets a stored null payment |
| `Dashboard.NullPaymentNeverChanged` | src/App.tsx:141-160 | a row whose stored payment is null keeps a null payment through any sequence of interactions: the dashboard cannot change it |

## Left out

- `Text.LowerChar`: lower-casing covers only ASCII letters. `toLowerCase` applies the Unicode default case mapping, which is out of scope here.
- Asynchrony: every store call completes before the next interaction. In the source, the reload after a successful update (src/App.tsx:46) is not awaited. So `updating` is cleared before that reload ends, and overlapping requests can race. That interleaving is not modelled.
- The order of the loaded rows (`order('id', { ascending: true })`, src/App.tsx:19) is treated as a property of the store: the table is assumed to be in that order already.
- `Dashboard.NullPaymentNeverChanged` and `Dashboard.MountCoherent` assume that no two stored rows share an id, since `id` is the table's key. Writes from outside the dashboard are not modelled.
- The Supabase client, its error values and the network: each call is reduced to a success/failure outcome, supplied as a parameter.
- `toast` notifications, `console.error` logging, the `Toaster` element, CSS classes other than the badge colour, and the rest of the JSX markup are presentation only.
- The other columns of the Participants table (`src/types/supabase.ts:10-19` and `src/types/supabase.ts:21-28`) are fetched by `select('*')` but never used by the component, so the record leaves them out.
- `Participant` comes from `src/types/database`, which is not part of this model. The record shape follows `src/types/supabase.ts`.
- JavaScript numbers are modelled as unbounded integers. Ids are integral keys, so nothing depends on floating point.
