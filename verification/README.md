# Applications table: search, delete and status badge

A Dafny model of the data handling inside the dashboard's applications table
(`components/dashboard/applications-table.tsx`). The table receives the
caller-owned collection of application records. It shows the rows whose
company name contains the search query, ignoring case. After the backend
confirms a delete, it publishes the collection without the deleted id. Each
row carries a status badge, whose colours and text are derived from `status`.

Modules, one concept each:

- `Ascii` (ascii.dfy): character case mapping, restricted to ASCII. This is
  the model of `toLowerCase` / `toUpperCase`.
- `Substrings` (substrings.dfy): contiguous substring containment. It has a
  reference definition (`Contains`) and an executable test (`Includes`), which models
  `String.prototype.includes`.
- `Seqs` (seqs.dfy): order-preserving `Filter`, which models
  `Array.prototype.filter`, and the subsequence relation it produces.
- `Ids` (ids.dfy): record ids and their string form `${id}`. An id is a
  string or an integer, and integers are written in decimal.
- `ApplicationsTable` (applications_table.dfy): the record type, the search
  filter, `handleDelete`, the delete prompt, and the status badge.

The backend's answer to the delete request is an input (`DeleteResult`). The
search query is an input too. The confirmation prompt is modelled as a
`Choice`: `Cancel`, or `Confirm` with the backend's answer.

## Model

| member | source | states |
|---|---|---|
| Ascii.Lower | components/dashboard/applications-table.tsx:44 | lower-casing maps each upper-case ASCII letter to its own lower-case letter (code point plus 32), yields no upper-case letter, and leaves every other character unchanged |
| Ascii.Upper | components/dashboard/applications-table.tsx:112 | upper-casing maps each lower-case ASCII letter to its own upper-case letter (code point minus 32), yields no lower-case letter, and leaves every other character unchanged |
| Ascii.LowerStr | components/dashboard/applications-table.tsx:44 | the lower-cased string has the same length as the input and holds the lower-cased input character at every position |
| Ascii.LowerOfUpper | components/dashboard/applications-table.tsx:112 | upper-casing a character does not change its lower-case form |
| Ascii.LowerStrSlice | components/dashboard/applications-table.tsx:44 | lower-casing a string commutes with taking a slice of it |
| Ascii.LowerStrAppend | components/dashboard/applications-table.tsx:44 | lower-casing a string commutes with concatenation |
| Substrings.ContainsStep | components/dashboard/applications-table.tsx:44 | an occurrence of the needle starts at the front or lies wholly in the tail |
| Substrings.Includes | components/dashboard/applications-table.tsx:44 | the executable `includes` test returns true exactly when the needle occurs as a contiguous block somewhere in the haystack |
| Substrings.ContainsEmpty | components/dashboard/applications-table.tsx:44 | every string contains the empty string |
| Substrings.ContainsPrefix | components/dashboard/applications-table.tsx:44 | a string contains each of its prefixes |
| Substrings.ContainsTransitive | components/dashboard/applications-table.tsx:44 | a substring of a substring is a substring |
| Substrings.ContainsLower | components/dashboard/applications-table.tsx:44 | an occurrence survives lower-casing both strings |
| Seqs.Filter | components/dashboard/applications-table.tsx:43-45 | the result is no longer than the input and holds only input elements that satisfy the predicate. Each element that satisfies it occurs as often as in the input, and each one that fails does not occur |
| Seqs.SubsequenceReflexive | components/dashboard/applications-table.tsx:51-54 | a sequence is a subsequence of itself |
| Seqs.SubsequenceMembers | components/dashboard/applications-table.tsx:43-45 | a subsequence is no longer than its source and adds no elements |
| Seqs.SubsequenceTransitive | components/dashboard/applications-table.tsx:43-45 | a subsequence of a subsequence is a subsequence |
| Seqs.FilterIsSubsequence | components/dashboard/applications-table.tsx:43-45 | a filter keeps relative order: its result is a subsequence of its input |
| Seqs.FilterKeepsAll | components/dashboard/applications-table.tsx:43-45 | a filter whose predicate holds of every element returns the input unchanged |
| Seqs.FilterIdempotent | components/dashboard/applications-table.tsx:43-45 | filtering twice with one predicate is filtering once |
| Seqs.FilterStronger | components/dashboard/applications-table.tsx:43-45 | a filter with a stronger predicate equals that filter applied to the result of the weaker one |
| Seqs.FilterCommute | components/dashboard/applications-table.tsx:57 | two filters applied in sequence may be swapped |
| Seqs.FilterDropsFirst | components/dashboard/applications-table.tsx:57 | when only the first element fails the predicate, the filter returns the tail |
| Seqs.FilterDropsOne | components/dashboard/applications-table.tsx:57 | when exactly one element fails the predicate, the filter returns the sequence with only that element removed |
| Seqs.FilterCongruent | components/dashboard/applications-table.tsx:43-45 | predicates that agree on every element give the same filter result |
| Seqs.FilterKeepsKeysDistinct | components/dashboard/applications-table.tsx:57 | a filter never makes two elements share a key |
| Ids.Digit | components/dashboard/applications-table.tsx:57 | a digit character stands for the digit value |
| Ids.NatToDecimal | components/dashboard/applications-table.tsx:57 | the decimal form of a number is a non-empty string of digits with no leading zero |
| Ids.DecimalRoundTrip | components/dashboard/applications-table.tsx:57 | reading back the decimal form of a number yields that number |
| Ids.Show | components/dashboard/applications-table.tsx:57 | the string form of a text id is the text itself. That of a numeric id is non-empty, starts with '-' exactly when the number is negative, and is digits after the first character; the first character is a digit too when the number is non-negative. The digits have no leading zero, so `${5}` is "5" and never "05" |
| Ids.ShowNumberRoundTrip | components/dashboard/applications-table.tsx:57 | reading back the string form of a numeric id yields the number |
| Ids.ShowNumberInjective | components/dashboard/applications-table.tsx:57 | two numeric ids with the same string form are equal |
| ApplicationsTable.FilteredApplications | components/dashboard/applications-table.tsx:43-45 | a record is shown iff it is in the collection and its lower-cased company name contains the lower-cased query as a contiguous substring. A shown record appears as often as in the collection |
| ApplicationsTable.ExactCaseMatchIsShown | components/dashboard/applications-table.tsx:43-45 | a record whose company name contains the query with the same case is always shown |
| ApplicationsTable.SearchKeepsOrder | components/dashboard/applications-table.tsx:43-45 | the rows shown are a subsequence of the collection: relative order is kept and no record is added |
| ApplicationsTable.EmptyQueryShowsAll | components/dashboard/applications-table.tsx:41-45 | the initial empty query shows the whole collection, unchanged and in order |
| ApplicationsTable.SearchIdempotent | components/dashboard/applications-table.tsx:43-45 | searching the shown rows again with the same query shows the same rows |
| ApplicationsTable.SearchIgnoresCase | components/dashboard/applications-table.tsx:44 | two queries that lower-case to the same string show the same rows |
| ApplicationsTable.NarrowerQuery | components/dashboard/applications-table.tsx:43-45 | a query that contains the old query, ignoring case, shows the old result searched again, which is a subsequence of it |
| ApplicationsTable.ExtendedQueryNarrows | components/dashboard/applications-table.tsx:43-45 | extending the query at its end can only shrink the rows shown, to a subsequence |
| ApplicationsTable.HandleDelete | components/dashboard/applications-table.tsx:47-58 | after a backend error the collection is unchanged. After success, no record with the target string id is left, and every other record is kept as often as before and in order |
| ApplicationsTable.DeleteAbsentIsNoop | components/dashboard/applications-table.tsx:57 | a successful delete of an id that no record carries leaves the collection unchanged |
| ApplicationsTable.DeleteRemovesExactlyOne | components/dashboard/applications-table.tsx:57 | with unique ids, deleting the id of record k leaves exactly the other records, in order, one fewer |
| ApplicationsTable.DeleteIdempotent | components/dashboard/applications-table.tsx:57 | deleting an id that was already deleted changes nothing |
| ApplicationsTable.DeletesCommute | components/dashboard/applications-table.tsx:57 | two successful deletes applied one after the other give the same collection in either order |
| ApplicationsTable.DeleteThenSearch | components/dashboard/applications-table.tsx:43-57 | the rows shown after a delete are the rows shown before it, less those with the deleted id |
| ApplicationsTable.SearchAfterDeleteKeepsOrder | components/dashboard/applications-table.tsx:43-57 | the rows shown after a delete are a subsequence of the collection before it |
| ApplicationsTable.DeleteKeepsIdsUnique | components/dashboard/applications-table.tsx:57 | a delete preserves uniqueness of string ids |
| ApplicationsTable.NumericIdsAreUnique | components/dashboard/applications-table.tsx:57 | pairwise different numeric ids have pairwise different string forms |
| ApplicationsTable.ResolveDeletePrompt | components/dashboard/applications-table.tsx:135-139 | cancelling changes nothing and so does a backend error; a confirmed, successful delete leaves no record with the row's string id, so the row itself is gone, and keeps every other record as often as before and in order |
| ApplicationsTable.ConfirmedDeleteRemovesRow | components/dashboard/applications-table.tsx:136-139 | with unique ids, confirming the prompt of a listed row removes exactly that row: the result is the collection with the row's position cut out, one record shorter |
| ApplicationsTable.StyleOf | components/dashboard/applications-table.tsx:104-110 | the accepted colours are used exactly for the status "Accepted" and the rejected colours exactly for "Rejected"; any other status gets the neutral colours |
| ApplicationsTable.StatusClassName | components/dashboard/applications-table.tsx:104-110 | the badge class starts with the fixed base classes and is one of three strings. It is the accepted string exactly for "Accepted" and the rejected string exactly for "Rejected" |
| ApplicationsTable.BucketClassesDistinct | components/dashboard/applications-table.tsx:105-109 | the three colour class strings are pairwise different |
| ApplicationsTable.ClassNameSeparatesBuckets | components/dashboard/applications-table.tsx:104-110 | two statuses get the same badge class iff they fall in the same bucket |
| ApplicationsTable.StatusLabel | components/dashboard/applications-table.tsx:112 | the label has the status's length; its first character is the upper-cased first character and all later characters are unchanged; an empty status gives an empty label |
| ApplicationsTable.LabelIgnoringCase | components/dashboard/applications-table.tsx:112 | the label and the stored status are equal ignoring case |
| ApplicationsTable.LabelOfCapitalised | components/dashboard/applications-table.tsx:112 | a status that does not start with a lower-case letter is shown exactly as stored |
| ApplicationsTable.LabelIdempotent | components/dashboard/applications-table.tsx:112 | labelling a label changes nothing |
| ApplicationsTable.LabelAndStyleCanDisagree | components/dashboard/applications-table.tsx:104-112 | a status stored as "accepted" is labelled "Accepted" but gets the neutral colours, because the bucket test is case-sensitive and the label is capitalised |
| ApplicationsTable.AcmeGlobexScenario | components/dashboard/applications-table.tsx:43-57 | over Acme (id "1") and Globex (id "2"), the query "ac" shows only Acme, and a successful delete of "2" leaves only Acme |

## Left out

- Rendering, React state and hooks, the table markup, and the unused per-row checkbox are left out. They are presentation only.
- The prompt's UI (`AlertDialog`) is reduced to the `Choice` value: cancel publishes nothing, and confirm calls `handleDelete`.
- Creating the backend client and sending the delete request (lines 48-49) are left out. They are a foreign network call. Their outcome is the `DeleteResult` input.
- `console.log` and `console.error` are I/O and are not modelled. The error message is carried in `DeleteError` and dropped.
- The `dayjs` date formatting of `created_at` (line 96) is left out. It is a library and locale formatter; the field is kept as an opaque string.
- `handleDelete` filters the collection captured at render time rather than the latest state (line 57). This is a React scheduling matter. The model filters the collection it is given.
- `components/navbar/NavBar.tsx` is not modelled: it holds static links and a boolean menu toggle (lines 9-13).
- Ascii.Lower: only 'A'..'Z' are lower-cased. JavaScript's `toLowerCase` uses the full Unicode tables, so the search is modelled as ASCII case-insensitive.
- ApplicationsTable.FilteredApplications: the search ignores ASCII case only, through Ascii.Lower; queries that differ only in non-ASCII case can show different rows here than in a browser.
- Ascii.Upper: only 'a'..'z' are upper-cased. JavaScript's `toUpperCase` can turn one character into several (for example 'ß' becomes "SS"), which would change the label's length.
- ApplicationsTable.StatusLabel: `charAt` and `slice` count UTF-16 code units, while Dafny strings are sequences of Unicode scalar values. The two agree for statuses without astral-plane characters.
- Ids.Show: numeric ids are unbounded integers in plain decimal, which matches JavaScript only for magnitudes up to 2^53. Above 2^53 JavaScript prints the shortest digit string that rounds back to the double, padded with zeros, so `${2**55}` is "36028797018963970" where the model gives "36028797018963968". The model also admits integers no JavaScript number can hold, such as 2^53+1. JavaScript's exponent notation from 10^21 on and its non-integral numbers are not modelled either. This changes which records match only when text ids and numeric ids above 2^53 are mixed in one collection.
- ApplicationsTable.DeleteRemovesExactlyOne: line 57 removes every record whose string id matches; exactly one record is removed only when string ids are unique (`UniqueIds`).
