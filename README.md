# MediCare core in Dafny

MediCare is a single-page front end for a personal medical history. The page
holds a list of medical records: operations, medications, rehabilitation
sessions and documents. A capture form creates new records for a type chosen
from quick-add buttons. A timeline shows the records grouped by calendar month.
All state lives in memory.

This project models the three pieces of that front end that hold logic:

- **The timeline presenter** (`Timeline`, in `timeline.dfy`). With no records
  it shows an empty-state message. Otherwise it folds the records into one
  bucket per (year, month): a bucket is created the first time its month is
  seen, and each record is pushed onto its month's bucket. The buckets are
  then sorted latest month first. This is imperative code: a loop over the
  input that updates a map and a key order, a loop that reads the buckets out
  in key insertion order (`Object.values`), and an insertion sort driven by
  the source's comparator. `IsGrouping` states what the buckets are. Each
  bucket holds exactly the input records of its month, in input order, and
  is never empty; the buckets run strictly from latest to earliest month;
  every record's month has a bucket. The lemmas prove the following from
  `IsGrouping`:
  - the grouping is lossless (same multiset of records, sizes add up);
  - each record is in exactly one bucket, the one of its own month;
  - a newest-first input gives newest-first buckets;
  - `IsGrouping` determines the buckets uniquely.
- **The page state** (`IndexPage.Index`, in `index_page.dfy`). It is a class
  with three fields updated in place: `records`, `isAddDialogOpen` and
  `selectedType`. Adding a record gives the candidate an id, appends it,
  re-sorts the list newest first by `getTime()`, closes the dialog and clears
  the type. The re-sort is the pure function `AddedRecords`, an insertion
  sort proved sorted and a permutation. `SubmitForm` models how the page
  wires the form to `handleAddRecord`.
- **The capture form** (`AddRecordDialog.Form`, in `add_record_dialog.dfy`).
  It is a class with the fields `title`, `date` and `description`. The
  submit handler emits at most one candidate and resets the fields.

The shared types are in `records.dfy` (`Records`). They follow the type
declarations of src/pages/Index.tsx:7-16:

- `Records.RecordType` is the closed union of four record kinds (src/pages/Index.tsx:7).
- `Records.MedicalRecord` is the record interface, with optional description and details (src/pages/Index.tsx:9-16).
- `Records.Candidate` is `Omit<MedicalRecord, "id">`, the form's output (src/components/records/AddRecordDialog.tsx:19).
- `Records.Date` is the abstract date described below.

The seed constants `IndexPage.Seed1`, `IndexPage.Seed2`, `IndexPage.Seed3` and
`IndexPage.SeedRecords` are the three example records of
src/pages/Index.tsx:19-44, in their listed order.

A JavaScript `Date` is
reduced to what the code reads from it: `getTime()` as an integer, and
`getFullYear()` and `getMonth()`, with the month zero-based in 0..11 by its
type. No relation between the timestamp and the calendar fields is assumed.
The record id comes from `Math.random()` in the source; here it is a parameter
of `HandleAddRecord`.

Behaviour of the code worth noting:

- The form does not trim the title. `BlankTitleIsKept` shows that a title of
  one blank is emitted as is.
- The submit handler also refuses when no type is selected. The submit
  button's enabled test does not look at the type (`EnabledButNoType`).
- Ids are not guaranteed unique. The source draws a random string, and the
  model claims nothing about collisions.
- "Newest first" is not an invariant of the page. The seed list is oldest
  first (`SeedIsOldestFirst`), and the list is sorted only after an add.

The seed timestamps are UTC midnight of the seed dates, because
`new Date("YYYY-MM-DD")` parses as UTC. Their calendar fields are those of a
time zone at or east of UTC, such as the application's Czech locale. West of
UTC, `getMonth()` of the April 1 record would give March, and
`SeedTimeline` would not apply.

## Model

| member | source | states |
|---|---|---|
| `Records.WithId` | src/pages/Index.tsx:50-53 | the new record carries the supplied id and, field for field, the candidate |
| `Records.WithIdInverse` | src/pages/Index.tsx:49-53 | attaching a record's own id to its id-less candidate gives back the record |
| `Timeline.TimelineView` | src/components/timeline/TimelineView.tsx:8-40 | the empty state exactly for no records; otherwise a non-empty bucket list meeting `IsGrouping`, every month a valid index into the month names |
| `Timeline.GroupByMonth` | src/components/timeline/TimelineView.tsx:20-40 | for any input order, the buckets meet `IsGrouping` and every bucket's month is in 0..11 |
| `Timeline.Bucket` | src/components/timeline/TimelineView.tsx:20-35 | after the fold, each created key holds exactly its month's records in input order, keys are created once each, and every record's month has a key |
| `Timeline.PushKeepsBuckets` | src/components/timeline/TimelineView.tsx:25-33 | creating the bucket when absent and pushing the record keeps every bucket equal to its month's records |
| `Timeline.InMonthSnoc` | src/components/timeline/TimelineView.tsx:33 | a pushed record joins the bucket of its own month and no other |
| `Timeline.BucketValues` | src/components/timeline/TimelineView.tsx:37 | `Object.values` lists the buckets in key insertion order |
| `Timeline.SortGroups` | src/components/timeline/TimelineView.tsx:37-40 | buckets with distinct keys come out strictly latest month first, with the same members |
| `Timeline.InsertGroup` | src/components/timeline/TimelineView.tsx:37-40 | inserting before the first bucket the comparator does not put ahead keeps the list strictly descending and adds exactly that bucket |
| `Timeline.Compare` | src/components/timeline/TimelineView.tsx:37-40 | the comparator is negative exactly when the first bucket's (year, month) is later, and zero exactly for equal keys |
| `Timeline.KeyOf` | src/components/timeline/TimelineView.tsx:21-23 | a record's bucket key is its date's (year, month), and the month is a valid index into the twelve month names |
| `Timeline.InMonthMember` | src/components/timeline/TimelineView.tsx:21-33 | a record is in the bucket of month k if and only if it is an input record whose date has month k |
| `Timeline.InMonthNewestFirst` | src/components/timeline/TimelineView.tsx:20-33 | pushing in fold order keeps a newest-first input newest first inside a bucket |
| `Timeline.GroupsNewestFirst` | src/components/timeline/TimelineView.tsx:20-35 | when the records are newest first, so is every bucket |
| `Timeline.ExactlyOneGroup` | src/components/timeline/TimelineView.tsx:21-33 | every input record is in some bucket; any bucket holding it is of its month and holds only input records; no two buckets hold it |
| `Timeline.Lossless` | src/components/timeline/TimelineView.tsx:20-35 | the buckets together hold the input records with their multiplicities, and the bucket sizes sum to the input length |
| `Timeline.GroupKeysAreRecordKeys` | src/components/timeline/TimelineView.tsx:25-31 | a bucket exists for a month exactly when some input record has that month |
| `Timeline.EmptyHasNoGroups` | src/components/timeline/TimelineView.tsx:9-17 | with no records the only valid bucket list is empty |
| `Timeline.GroupingUnique` | src/components/timeline/TimelineView.tsx:20-40 | two bucket lists meeting `IsGrouping` for the same records are equal |
| `IndexPage.InsertByTime` | src/pages/Index.tsx:54 | inserting into a newest-first list gives a newest-first list with exactly one more occurrence of the record |
| `IndexPage.SortByTime` | src/pages/Index.tsx:54 | the sort by `getTime()` descending gives a newest-first permutation of its input |
| `IndexPage.AddedRecords` | src/pages/Index.tsx:54 | the stored list is newest first and a permutation of the old records plus the new one, one longer |
| `IndexPage.SortByTimeOfSorted` | src/pages/Index.tsx:54 | re-sorting a newest-first list leaves it unchanged |
| `IndexPage.AddOldest` | src/pages/Index.tsx:54 | a record no newer than any stored one ends up last, after the unchanged old list |
| `IndexPage.SeedIsOldestFirst` | src/pages/Index.tsx:19-44 | the seed list is strictly oldest first, hence not newest first |
| `IndexPage.SeedBuckets` | src/pages/Index.tsx:19-44 | the March seed records, in listed order, fill the March 2024 bucket; the April one fills April |
| `IndexPage.SeedTimeline` | src/pages/Index.tsx:19-44 | the seed records form exactly two buckets, April 2024 then March 2024, the March bucket in listed order |
| `IndexPage.Index.constructor` | src/pages/Index.tsx:19-47 | three seed records, dialog closed, no type selected |
| `IndexPage.Index.HandleAddRecord` | src/pages/Index.tsx:49-57 | records become the re-sorted old list plus the candidate under the given id: newest first, a permutation, one longer; dialog closed, type cleared |
| `IndexPage.Index.OpenAddDialog` | src/pages/Index.tsx:59-62 | the type is selected, the dialog open, the records unchanged |
| `IndexPage.SubmitForm` | src/pages/Index.tsx:123-128 | a record is added exactly when the form accepts with the page's selected type; the page then holds the re-sorted old list plus the form's candidate under the given id, the dialog closes, the type is cleared and the form is reset; otherwise neither the page nor the form changes |
| `AddRecordDialog.SubmitEnabled` | src/components/records/AddRecordDialog.tsx:116 | the submit button is enabled exactly when the title is non-empty and a date is set |
| `AddRecordDialog.Accepts` | src/components/records/AddRecordDialog.tsx:30 | the handler goes on exactly when the title is non-empty, a date is set and a type is selected |
| `AddRecordDialog.OptionalText` | src/components/records/AddRecordDialog.tsx:36 | the empty description becomes absent, any other is kept unchanged |
| `AddRecordDialog.AcceptsIsEnabledWithType` | src/components/records/AddRecordDialog.tsx:116 | the handler's guard holds exactly when the button is enabled (title and date set) and a type is selected |
| `AddRecordDialog.EnabledButNoType` | src/components/records/AddRecordDialog.tsx:116 | the button can be enabled while the handler refuses for want of a type |
| `AddRecordDialog.Form.constructor` | src/components/records/AddRecordDialog.tsx:23-25 | the form starts with empty title, no date and empty description |
| `AddRecordDialog.Form.SetTitle` | src/components/records/AddRecordDialog.tsx:68 | typing sets the title only |
| `AddRecordDialog.Form.SetDate` | src/components/records/AddRecordDialog.tsx:93 | picking a date sets the date only |
| `AddRecordDialog.Form.SetDescription` | src/components/records/AddRecordDialog.tsx:106 | typing sets the description only |
| `AddRecordDialog.Form.HandleSubmit` | src/components/records/AddRecordDialog.tsx:27-44 | emits exactly when title, date and type are set, and then exactly one candidate with the selected type, the title verbatim, the date, the description or none, and empty details, resetting the fields; otherwise nothing is emitted and nothing changes |
| `AddRecordDialog.BlankTitleIsKept` | src/components/records/AddRecordDialog.tsx:30-34 | a title of one blank passes the guard and is emitted untrimmed |

## Left out

- src/components/timeline/TimelineItem.tsx is not part of this model. It is presentation only: an icon, label and colour table, localised date formatting and markup.
- All markup, styling, icons and the UI library components (dialog, popover, button, calendar) are left out; they compute nothing the core depends on.
- Opening and closing the dialog through `onOpenChange` is framework event plumbing and is not modelled.
- Id generation with `Math.random().toString(36)` is foreign and non-deterministic. The id is a parameter, and no uniqueness is claimed, since the source guarantees none.
- Real `Date` semantics are left out: parsing, time zones, and how `getFullYear` and `getMonth` follow from the timestamp. A date is an abstract (timestamp, year, month) triple, and an invalid date (`NaN` time) is not modelled.
- The contents of `details: Record<string, any>` are untyped display data. They are modelled as a map from names to text or integer values.
- React state batching, closures and `preventDefault` are not modelled. Each handler is one atomic sequential update, and the form's callback and reset count as one step.
- IndexPage.AddedRecords: the source's `Array.prototype.sort` is modelled by an insertion sort. It keeps records with equal timestamps in their incoming order, as ECMAScript 2019 and later require of `sort`. The page's list is therefore fully determined. The contracts state that it is newest first and a permutation, but no stability lemma is stated.
- Timeline.SortGroups: the source sorts the bucket array in place. The model inserts the buckets one by one into a new sequence. Bucket keys are distinct, so both give the same order.
- Timeline.Bucket: the source keys its dictionary by the string `${year}-${month}`. The model keys it by the pair (year, month). The string is injective on such pairs, because the month part holds no '-'.
- Timestamps and years are unbounded integers. Both comparators subtract in floating point. For timestamps far apart the difference can exceed 2^53 and be rounded, but its sign is always right, and both sorts use only the sign.
