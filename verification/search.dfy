/** The search box: the list of displayed rows is the loaded list filtered by
    a case-insensitive substring match of the search term against the name,
    the email and the external ID (`ID_no`) of each row (src/App.tsx:55-59). */
module Search {
  import opened Wrappers
  import opened Text
  import opened Participants

  /** `term` occurs in `field`, both case-folded. */
  ghost predicate Mentions(field: string, term: string) {
    IsSubstring(Lower(term), Lower(field))
  }

  /** A nullable column mentions the term only when it is not null. */
  ghost predicate MentionsIfPresent(field: Option<string>, term: string) {
    field.Some? && Mentions(field.value, term)
  }

  /** The filter callback of one row. The optional chaining on `Name` and
      `ID_no` makes a null column contribute `undefined`, which is falsy. */
  function Matches(p: Participant, term: string): (b: bool)
    ensures b <==> MentionsIfPresent(p.name, term) || Mentions(p.email, term) || MentionsIfPresent(p.idNo, term)
  {
    var t := Lower(term);
    || (p.name.Some? && Includes(Lower(p.name.value), t))
    || Includes(Lower(p.email), t)
    || (p.idNo.Some? && Includes(Lower(p.idNo.value), t))
  }

  /** `participants.filter(...)`: keeps the matching rows. */
  function Filter(ps: seq<Participant>, term: string): (r: seq<Participant>)
    ensures |r| <= |ps|
    ensures forall p :: p in r ==> p in ps && Matches(p, term)
    ensures forall i :: 0 <= i < |ps| && Matches(ps[i], term) ==> ps[i] in r
    decreases |ps|
  {
    if |ps| == 0 then
      []
    else
      var kept := Filter(ps[..|ps| - 1], term);
      if Matches(ps[|ps| - 1], term) then kept + [ps[|ps| - 1]] else kept
  }

  ghost predicate StrictlyIncreasing(idx: seq<int>) {
    forall a, b :: 0 <= a < b < |idx| ==> idx[a] < idx[b]
  }

  /** The positions of the matching rows of `ps`, in ascending order: an
      independent description of what the filter must select. */
  function KeptPositions(ps: seq<Participant>, term: string): (idx: seq<int>)
    ensures StrictlyIncreasing(idx)
    ensures forall k :: 0 <= k < |idx| ==> 0 <= idx[k] < |ps|
    ensures forall i :: 0 <= i < |ps| ==> (i in idx <==> Matches(ps[i], term))
    decreases |ps|
  {
    if |ps| == 0 then
      []
    else
      var kept := KeptPositions(ps[..|ps| - 1], term);
      if Matches(ps[|ps| - 1], term) then kept + [|ps| - 1] else kept
  }

  /** The filtered list is exactly the matching rows taken in their original
      order: its k-th element is the row at the k-th matching position. */
  lemma {:induction false} FilterIsOrderedSelection(ps: seq<Participant>, term: string)
    ensures |Filter(ps, term)| == |KeptPositions(ps, term)|
    ensures forall k :: 0 <= k < |Filter(ps, term)| ==> Filter(ps, term)[k] == ps[KeptPositions(ps, term)[k]]
    decreases |ps|
  {
    if |ps| > 0 {
      var init := ps[..|ps| - 1];
      FilterIsOrderedSelection(init, term);
      assert forall i :: 0 <= i < |init| ==> init[i] == ps[i];
    }
  }

  /** The filter keeps a row exactly when the folded term occurs in its
      folded email, or in its folded name or external ID when those are not
      null; and it keeps nothing else. */
  lemma FilterMembership(ps: seq<Participant>, term: string, i: int)
    requires 0 <= i < |ps|
    ensures ps[i] in Filter(ps, term) <==>
      MentionsIfPresent(ps[i].name, term) || Mentions(ps[i].email, term) || MentionsIfPresent(ps[i].idNo, term)
  {
  }

  /** With an empty search box every loaded row is displayed, since the email
      column is never null and contains the empty string. */
  lemma {:induction false} FilterEmptyTerm(ps: seq<Participant>)
    ensures Filter(ps, "") == ps
    decreases |ps|
  {
    if |ps| > 0 {
      var last := ps[|ps| - 1];
      assert Lower("") == "";
      EmptyIsSubstring(Lower(last.email));
      FilterEmptyTerm(ps[..|ps| - 1]);
      assert ps[..|ps| - 1] + [last] == ps;
    }
  }

  /** Filtering a concatenation filters each part. */
  lemma {:induction false} FilterAppend(a: seq<Participant>, b: seq<Participant>, term: string)
    ensures Filter(a + b, term) == Filter(a, term) + Filter(b, term)
    decreases |b|
  {
    if |b| == 0 {
      assert a + b == a;
    } else {
      var ab := a + b;
      assert ab[..|ab| - 1] == a + b[..|b| - 1];
      assert ab[|ab| - 1] == b[|b| - 1];
      FilterAppend(a, b[..|b| - 1], term);
    }
  }

  /** Terms that differ only in letter case display the same rows. */
  lemma {:induction false} FilterCaseInsensitive(ps: seq<Participant>, t1: string, t2: string)
    requires Lower(t1) == Lower(t2)
    ensures Filter(ps, t1) == Filter(ps, t2)
    decreases |ps|
  {
    if |ps| > 0 {
      FilterCaseInsensitive(ps[..|ps| - 1], t1, t2);
    }
  }

  /** Typing the folded form of a term changes nothing. */
  lemma FilterFoldedTerm(ps: seq<Participant>, term: string)
    ensures Filter(ps, Lower(term)) == Filter(ps, term)
  {
    LowerIdempotent(term);
    FilterCaseInsensitive(ps, Lower(term), term);
  }

  /** A row that matches a longer term matches every term occurring in it. */
  lemma MatchesWeaker(p: Participant, t1: string, t2: string)
    requires IsSubstring(Lower(t1), Lower(t2))
    requires Matches(p, t2)
    ensures Matches(p, t1)
  {
    if MentionsIfPresent(p.name, t2) {
      SubstringTransitive(Lower(t1), Lower(t2), Lower(p.name.value));
    } else if Mentions(p.email, t2) {
      SubstringTransitive(Lower(t1), Lower(t2), Lower(p.email));
    } else {
      SubstringTransitive(Lower(t1), Lower(t2), Lower(p.idNo.value));
    }
  }

  /** Refining a search: filtering the rows displayed for `t1` by a term
      `t2` that contains `t1` gives what searching `t2` directly gives. */
  lemma {:induction false} RefineSearch(ps: seq<Participant>, t1: string, t2: string)
    requires IsSubstring(Lower(t1), Lower(t2))
    ensures Filter(Filter(ps, t1), t2) == Filter(ps, t2)
    decreases |ps|
  {
    if |ps| > 0 {
      var init := ps[..|ps| - 1];
      var last := ps[|ps| - 1];
      RefineSearch(init, t1, t2);
      if Matches(last, t1) {
        FilterAppend(Filter(init, t1), [last], t2);
      } else if Matches(last, t2) {
        MatchesWeaker(last, t1, t2);
      }
    }
  }

  /** Filtering twice with the same term is filtering once. */
  lemma FilterIdempotent(ps: seq<Participant>, term: string)
    ensures Filter(Filter(ps, term), term) == Filter(ps, term)
  {
    SubstringReflexive(Lower(term));
    RefineSearch(ps, term, term);
  }
}
