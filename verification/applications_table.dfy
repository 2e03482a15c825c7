/**
 The applications table of the dashboard (components/dashboard/applications-table.tsx):
 the search filter over the caller-owned collection, the collection update
 after a confirmed delete, and the status badge (style bucket and label).

 React state, rendering and the backend client are not modelled: the search
 query and the outcome of the backend delete call are inputs.
 */
module ApplicationsTable {

  import opened Ascii
  import opened Substrings
  import opened Seqs
  import opened Ids

  /** One tracked job application, as listed by the table. */
  datatype Application = Application(
    id: Id,
    created_at: string,
    company_name: string,
    location: string,
    link: string,
    role: string,
    status: string)

  // ---------------------------------------------------------------------------
  // Search
  // ---------------------------------------------------------------------------

  /** The search test: the lower-cased company name includes the lower-cased query. */
  predicate MatchesQuery(app: Application, query: string) {
    Includes(LowerStr(app.company_name), LowerStr(query))
  }

  function QueryMatcher(query: string): Application -> bool {
    (app: Application) => MatchesQuery(app, query)
  }

  /** The rows shown for `query` (`filteredApplications`). */
  function FilteredApplications(apps: seq<Application>, query: string): (r: seq<Application>)
    ensures forall a | a in r :: a in apps && Contains(LowerStr(a.company_name), LowerStr(query))
    ensures forall i | 0 <= i < |apps| ::
              Contains(LowerStr(apps[i].company_name), LowerStr(query)) ==> apps[i] in r
    ensures forall i {:trigger multiset(r)[apps[i]]} | 0 <= i < |apps| ::
              multiset(r)[apps[i]] ==
                if Contains(LowerStr(apps[i].company_name), LowerStr(query)) then multiset(apps)[apps[i]] else 0
  {
    Filter(apps, QueryMatcher(query))
  }

  /** The rows shown keep their relative order and add nothing: a subsequence. */
  lemma SearchKeepsOrder(apps: seq<Application>, query: string)
    ensures IsSubsequence(FilteredApplications(apps, query), apps)
  {
    FilterIsSubsequence(apps, QueryMatcher(query));
  }

  /** A row whose company name contains the query with matching case is always shown. */
  lemma ExactCaseMatchIsShown(apps: seq<Application>, query: string, i: int)
    requires 0 <= i < |apps|
    requires Contains(apps[i].company_name, query)
    ensures apps[i] in FilteredApplications(apps, query)
  {
    ContainsLower(apps[i].company_name, query);
  }

  /** The empty query shows every row, in order. */
  lemma EmptyQueryShowsAll(apps: seq<Application>)
    ensures FilteredApplications(apps, "") == apps
  {
    forall i | 0 <= i < |apps|
      ensures QueryMatcher("")(apps[i])
    {
      ContainsEmpty(LowerStr(apps[i].company_name));
    }
    FilterKeepsAll(apps, QueryMatcher(""));
  }

  /** Searching the search result again with the same query changes nothing. */
  lemma SearchIdempotent(apps: seq<Application>, query: string)
    ensures FilteredApplications(FilteredApplications(apps, query), query)
         == FilteredApplications(apps, query)
  {
    FilterIdempotent(apps, QueryMatcher(query));
  }

  /** Queries that agree up to ASCII case show the same rows. */
  lemma SearchIgnoresCase(apps: seq<Application>, q1: string, q2: string)
    requires LowerStr(q1) == LowerStr(q2)
    ensures FilteredApplications(apps, q1) == FilteredApplications(apps, q2)
  {
    FilterCongruent(apps, QueryMatcher(q1), QueryMatcher(q2));
  }

  /**
   A query whose lower-cased form contains the lower-cased old query can only
   narrow the result: it is the old result searched again.
   */
  lemma NarrowerQuery(apps: seq<Application>, q1: string, q2: string)
    requires Contains(LowerStr(q2), LowerStr(q1))
    ensures FilteredApplications(apps, q2)
         == FilteredApplications(FilteredApplications(apps, q1), q2)
    ensures IsSubsequence(FilteredApplications(apps, q2), FilteredApplications(apps, q1))
  {
    SearchKeepsOrder(FilteredApplications(apps, q1), q2);
    forall a | a in apps && QueryMatcher(q2)(a)
      ensures QueryMatcher(q1)(a)
    {
      ContainsTransitive(LowerStr(a.company_name), LowerStr(q2), LowerStr(q1));
    }
    FilterStronger(apps, QueryMatcher(q1), QueryMatcher(q2));
  }

  /** Typing more characters after the query narrows the result to a subsequence. */
  lemma ExtendedQueryNarrows(apps: seq<Application>, query: string, more: string)
    ensures FilteredApplications(apps, query + more)
         == FilteredApplications(FilteredApplications(apps, query), query + more)
    ensures IsSubsequence(FilteredApplications(apps, query + more), FilteredApplications(apps, query))
  {
    LowerStrAppend(query, more);
    ContainsPrefix(LowerStr(query), LowerStr(more));
    NarrowerQuery(apps, query, query + more);
  }

  // ---------------------------------------------------------------------------
  // Delete
  // ---------------------------------------------------------------------------

  /** What the backend delete call reported: no error, or an error. */
  datatype DeleteResult = Deleted | DeleteError(message: string)

  /** The confirmation prompt's resolution. */
  datatype Choice = Cancel | Confirm(result: DeleteResult)

  function KeepsOtherIds(id: string): Application -> bool {
    (app: Application) => Show(app.id) != id
  }

  /** Every row has a string id of its own. */
  ghost predicate UniqueIds(apps: seq<Application>) {
    forall i, j | 0 <= i < j < |apps| :: Show(apps[i].id) != Show(apps[j].id)
  }

  /** The collection after `handleDelete(id)`, given what the backend reported. */
  function HandleDelete(apps: seq<Application>, id: string, result: DeleteResult): (r: seq<Application>)
    ensures result.DeleteError? ==> r == apps
    ensures result.Deleted? ==> forall a | a in r :: a in apps && Show(a.id) != id
    ensures result.Deleted? ==> forall i | 0 <= i < |apps| :: Show(apps[i].id) != id ==> apps[i] in r
    ensures result.Deleted? ==> forall i {:trigger multiset(r)[apps[i]]} | 0 <= i < |apps| ::
              multiset(r)[apps[i]] == if Show(apps[i].id) != id then multiset(apps)[apps[i]] else 0
    ensures IsSubsequence(r, apps)
  {
    match result
    case DeleteError(_) =>
      SubsequenceReflexive(apps);
      apps
    case Deleted =>
      FilterIsSubsequence(apps, KeepsOtherIds(id));
      Filter(apps, KeepsOtherIds(id))
  }

  /** Deleting an id that no row carries leaves the collection as it was. */
  lemma DeleteAbsentIsNoop(apps: seq<Application>, id: string)
    requires forall a | a in apps :: Show(a.id) != id
    ensures HandleDelete(apps, id, Deleted) == apps
  {
    FilterKeepsAll(apps, KeepsOtherIds(id));
  }

  /** With unique ids, deleting the id of row `k` removes exactly that row. */
  lemma DeleteRemovesExactlyOne(apps: seq<Application>, k: int)
    requires UniqueIds(apps)
    requires 0 <= k < |apps|
    ensures HandleDelete(apps, Show(apps[k].id), Deleted) == apps[..k] + apps[k + 1..]
    ensures |HandleDelete(apps, Show(apps[k].id), Deleted)| == |apps| - 1
  {
    var id := Show(apps[k].id);
    forall i | 0 <= i < |apps| && i != k
      ensures KeepsOtherIds(id)(apps[i])
    {
      if i < k {
        assert Show(apps[i].id) != Show(apps[k].id);
      } else {
        assert Show(apps[k].id) != Show(apps[i].id);
      }
    }
    FilterDropsOne(apps, k, KeepsOtherIds(id));
  }

  /** Deleting the same id twice is the same as deleting it once. */
  lemma DeleteIdempotent(apps: seq<Application>, id: string)
    ensures HandleDelete(HandleDelete(apps, id, Deleted), id, Deleted) == HandleDelete(apps, id, Deleted)
  {
    FilterIdempotent(apps, KeepsOtherIds(id));
  }

  /**
   Two successful deletes, applied one after the other, give the same
   collection in either order. (Two deletes confirmed from one render both
   filter the same captured collection; that case is not covered here.)
   */
  lemma DeletesCommute(apps: seq<Application>, x: string, y: string)
    ensures HandleDelete(HandleDelete(apps, x, Deleted), y, Deleted)
         == HandleDelete(HandleDelete(apps, y, Deleted), x, Deleted)
  {
    FilterCommute(apps, KeepsOtherIds(x), KeepsOtherIds(y));
  }

  /** The table shown after a delete is the table shown before it, minus the deleted id. */
  lemma DeleteThenSearch(apps: seq<Application>, id: string, result: DeleteResult, query: string)
    ensures FilteredApplications(HandleDelete(apps, id, result), query)
         == HandleDelete(FilteredApplications(apps, query), id, result)
  {
    if result.Deleted? {
      FilterCommute(apps, KeepsOtherIds(id), QueryMatcher(query));
    }
  }

  /** The rows shown after a delete are still in the order of the original collection. */
  lemma SearchAfterDeleteKeepsOrder(apps: seq<Application>, id: string, result: DeleteResult, query: string)
    ensures IsSubsequence(FilteredApplications(HandleDelete(apps, id, result), query), apps)
  {
    var after := HandleDelete(apps, id, result);
    SearchKeepsOrder(after, query);
    SubsequenceTransitive(FilteredApplications(after, query), after, apps);
  }

  /** A delete keeps ids unique. */
  lemma DeleteKeepsIdsUnique(apps: seq<Application>, id: string, result: DeleteResult)
    requires UniqueIds(apps)
    ensures UniqueIds(HandleDelete(apps, id, result))
  {
    var key := (a: Application) => Show(a.id);
    assert DistinctKeys(apps, key) by {
      forall i, j | 0 <= i < j < |apps|
        ensures key(apps[i]) != key(apps[j])
      {
      }
    }
    FilterKeepsKeysDistinct(apps, KeepsOtherIds(id), key);
    var r := Filter(apps, KeepsOtherIds(id));
    forall i, j | 0 <= i < j < |r|
      ensures Show(r[i].id) != Show(r[j].id)
    {
      assert key(r[i]) != key(r[j]);
    }
  }

  /** Pairwise different numeric ids are unique in their string form too. */
  lemma NumericIdsAreUnique(apps: seq<Application>)
    requires forall i | 0 <= i < |apps| :: apps[i].id.Number?
    requires forall i, j | 0 <= i < j < |apps| :: apps[i].id != apps[j].id
    ensures UniqueIds(apps)
  {
    forall i, j | 0 <= i < j < |apps|
      ensures Show(apps[i].id) != Show(apps[j].id)
    {
      if Show(apps[i].id) == Show(apps[j].id) {
        ShowNumberInjective(apps[i].id.value, apps[j].id.value);
      }
    }
  }

  /**
   The delete prompt opened on `row`: cancelling changes nothing; confirming
   calls `handleDelete` with the row's string id.
   */
  function ResolveDeletePrompt(apps: seq<Application>, row: Application, choice: Choice): (r: seq<Application>)
    ensures choice.Cancel? ==> r == apps
    ensures choice.Confirm? && choice.result.DeleteError? ==> r == apps
    ensures choice == Confirm(Deleted) ==> row !in r
    ensures choice == Confirm(Deleted) ==> forall a | a in apps && Show(a.id) != Show(row.id) :: a in r
    ensures choice == Confirm(Deleted) ==> forall a | a in r :: Show(a.id) != Show(row.id)
    ensures choice == Confirm(Deleted) ==> forall i {:trigger multiset(r)[apps[i]]} | 0 <= i < |apps| ::
      multiset(r)[apps[i]] == if Show(apps[i].id) != Show(row.id) then multiset(apps)[apps[i]] else 0
    ensures IsSubsequence(r, apps)
  {
    match choice
    case Cancel => SubsequenceReflexive(apps); apps
    case Confirm(result) => HandleDelete(apps, Show(row.id), result)
  }

  /**
   Confirming the prompt of a listed row, with unique ids, removes exactly
   that row and keeps the others in order.
   */
  lemma ConfirmedDeleteRemovesRow(apps: seq<Application>, row: Application)
    requires row in apps
    requires UniqueIds(apps)
    ensures |ResolveDeletePrompt(apps, row, Confirm(Deleted))| == |apps| - 1
    ensures exists k | 0 <= k < |apps| && apps[k] == row ::
      ResolveDeletePrompt(apps, row, Confirm(Deleted)) == apps[..k] + apps[k + 1..]
  {
    var k :| 0 <= k < |apps| && apps[k] == row;
    DeleteRemovesExactlyOne(apps, k);
  }

  // ---------------------------------------------------------------------------
  // Status badge
  // ---------------------------------------------------------------------------

  /** The three colour schemes of the status badge. */
  datatype StatusStyle = AcceptedStyle | RejectedStyle | NeutralStyle

  /** The bucket of a status: decided by exact, case-sensitive equality. */
  function StyleOf(status: string): (r: StatusStyle)
    ensures r == AcceptedStyle <==> status == "Accepted"
    ensures r == RejectedStyle <==> status == "Rejected"
  {
    if status == "Accepted" then AcceptedStyle
    else if status == "Rejected" then RejectedStyle
    else NeutralStyle
  }

  const BadgeBase: string := "rounded-full px-3 py-1 text-sm "
  const AcceptedClasses: string := "bg-[#e8faf3] text-[#00ac4f]"
  const RejectedClasses: string := "bg-red-100 text-red-600"
  const NeutralClasses: string := "bg-yellow-100 text-yellow-600"

  function StyleClasses(style: StatusStyle): string {
    match style
    case AcceptedStyle => AcceptedClasses
    case RejectedStyle => RejectedClasses
    case NeutralStyle => NeutralClasses
  }

  /** The class attribute of the badge for `status`. */
  function StatusClassName(status: string): (r: string)
    ensures |BadgeBase| <= |r| && r[..|BadgeBase|] == BadgeBase
    ensures r in {BadgeBase + AcceptedClasses, BadgeBase + RejectedClasses, BadgeBase + NeutralClasses}
    ensures r == BadgeBase + AcceptedClasses <==> status == "Accepted"
    ensures r == BadgeBase + RejectedClasses <==> status == "Rejected"
  {
    BucketClassesDistinct();
    BadgeBase + StyleClasses(StyleOf(status))
  }

  /** The three badge class strings are pairwise different. */
  lemma BucketClassesDistinct()
    ensures BadgeBase + AcceptedClasses != BadgeBase + RejectedClasses
    ensures BadgeBase + AcceptedClasses != BadgeBase + NeutralClasses
    ensures BadgeBase + RejectedClasses != BadgeBase + NeutralClasses
  {
  }

  /** Two statuses get the same badge class exactly when they fall in the same bucket. */
  lemma ClassNameSeparatesBuckets(s: string, t: string)
    ensures StatusClassName(s) == StatusClassName(t) <==> StyleOf(s) == StyleOf(t)
  {
  }

  /** The badge text: the first character upper-cased, the rest as stored. */
  function StatusLabel(status: string): (r: string)
    ensures |r| == |status|
    ensures |status| > 0 ==> r[0] == Upper(status[0]) && !IsLower(r[0])
    ensures forall i | 1 <= i < |status| :: r[i] == status[i]
  {
    if |status| == 0 then "" else [Upper(status[0])] + status[1..]
  }

  /** The label differs from the stored status only in the case of its first letter. */
  lemma LabelIgnoringCase(status: string)
    ensures LowerStr(StatusLabel(status)) == LowerStr(status)
  {
    if |status| > 0 {
      LowerOfUpper(status[0]);
    }
  }

  /** A status that does not start with a lower-case letter is shown as stored. */
  lemma LabelOfCapitalised(status: string)
    requires |status| == 0 || !IsLower(status[0])
    ensures StatusLabel(status) == status
  {
  }

  /** Labelling a label changes nothing. */
  lemma LabelIdempotent(status: string)
    ensures StatusLabel(StatusLabel(status)) == StatusLabel(status)
  {
    LabelOfCapitalised(StatusLabel(status));
  }

  /**
   The label and the bucket can disagree: a status stored as "accepted" is
   shown as "Accepted" but with the neutral colours.
   */
  lemma LabelAndStyleCanDisagree()
    ensures StatusLabel("accepted") == "Accepted"
    ensures StyleOf("accepted") == NeutralStyle
    ensures StyleOf(StatusLabel("accepted")) == AcceptedStyle
  {
  }

  // ---------------------------------------------------------------------------
  // Worked scenario
  // ---------------------------------------------------------------------------

  /** Searching "ac" over Acme and Globex shows Acme; deleting "2" keeps only Acme. */
  lemma AcmeGlobexScenario(acme: Application, globex: Application)
    requires acme.id == Text("1") && acme.company_name == "Acme"
    requires globex.id == Text("2") && globex.company_name == "Globex"
    ensures FilteredApplications([acme, globex], "ac") == [acme]
    ensures HandleDelete([acme, globex], "2", Deleted) == [acme]
  {
    assert LowerStr("Acme")[..2] == "ac";
    assert MatchesQuery(acme, "ac");
    assert LowerStr("Globex") == "globex";
    assert !MatchesQuery(globex, "ac") by {
      forall i
        ensures !OccursAt("globex", "ac", i)
      {
        if 0 <= i && i + 2 <= 6 {
          assert "globex"[i..i + 2][0] == "globex"[i];
        }
      }
    }
    var rows := [acme, globex];
    assert rows[1..] == [globex] && [globex][1..] == [];
    assert Filter(rows, QueryMatcher("ac")) == [acme] + Filter([globex], QueryMatcher("ac"));
    assert Filter([globex], QueryMatcher("ac")) == Filter([], QueryMatcher("ac"));
    assert Show(acme.id) == "1" && Show(globex.id) == "2";
    assert Filter(rows, KeepsOtherIds("2")) == [acme] + Filter([globex], KeepsOtherIds("2"));
    assert Filter([globex], KeepsOtherIds("2")) == Filter([], KeepsOtherIds("2"));
  }
}
