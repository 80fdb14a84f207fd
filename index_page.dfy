/** The page that owns the records (src/pages/Index.tsx): the seed list,
    adding a record from the form, and opening the dialog for a type. */
module IndexPage {
  import opened Records
  import Timeline
  import AddRecordDialog

  // ---------------------------------------------------------------------
  // The re-sort `[...records, newRecord].sort((a, b) => b.date.getTime() - a.date.getTime())`

  /** Inserts `x` in front of the first record that is no newer than it. */
  function InsertByTime(x: MedicalRecord, s: seq<MedicalRecord>): (r: seq<MedicalRecord>)
    requires NewestFirst(s)
    ensures NewestFirst(r)
    ensures multiset(r) == multiset(s) + multiset{x}
    ensures |r| == |s| + 1
    ensures r[0] == x || (s != [] && r[0] == s[0])
  {
    if s == [] || s[0].date.time <= x.date.time then
      ConsNewestFirst(x, s);
      [x] + s
    else
      assert NewestFirst(s[1..]);
      var rest := InsertByTime(x, s[1..]);
      ConsNewestFirst(s[0], rest);
      MultisetCons(s);
      [s[0]] + rest
  }

  lemma MultisetCons(s: seq<MedicalRecord>)
    requires s != []
    ensures multiset(s) == multiset{s[0]} + multiset(s[1..])
  {
    assert s == [s[0]] + s[1..];
  }

  /** A record at least as new as the head of a newest-first list can go
      in front of it. */
  lemma ConsNewestFirst(h: MedicalRecord, t: seq<MedicalRecord>)
    requires NewestFirst(t)
    requires t == [] || t[0].date.time <= h.date.time
    ensures NewestFirst([h] + t)
  {
    var r := [h] + t;
    forall i, j | 0 <= i < j < |r|
      ensures r[i].date.time >= r[j].date.time
    {
      assert r[j] == t[j - 1];
      if i > 0 {
        assert r[i] == t[i - 1];
      }
    }
  }

  /** A sort by `getTime()`, newest first. */
  function SortByTime(s: seq<MedicalRecord>): (r: seq<MedicalRecord>)
    ensures NewestFirst(r)
    ensures multiset(r) == multiset(s)
    ensures |r| == |s|
  {
    if s == [] then []
    else
      assert s == [s[0]] + s[1..];
      InsertByTime(s[0], SortByTime(s[1..]))
  }

  /** The list `handleAddRecord` stores. */
  function AddedRecords(records: seq<MedicalRecord>, newRecord: MedicalRecord): (r: seq<MedicalRecord>)
    ensures NewestFirst(r)
    ensures multiset(r) == multiset(records) + multiset{newRecord}
    ensures |r| == |records| + 1
  {
    SortByTime(records + [newRecord])
  }

  /** Sorting a list that is already newest first changes nothing. */
  lemma {:induction false} SortByTimeOfSorted(s: seq<MedicalRecord>)
    requires NewestFirst(s)
    ensures SortByTime(s) == s
  {
    if s != [] {
      var t := s[1..];
      assert NewestFirst(t);
      SortByTimeOfSorted(t);
      assert SortByTime(s) == InsertByTime(s[0], t);
      InsertNewest(s[0], t);
      assert s == [s[0]] + t;
    }
  }

  /** A record at least as new as all others goes first. */
  lemma InsertNewest(x: MedicalRecord, s: seq<MedicalRecord>)
    requires NewestFirst(s)
    requires s == [] || s[0].date.time <= x.date.time
    ensures InsertByTime(x, s) == [x] + s
  {
  }

  /** A record no newer than all stored ones is appended at the end of a
      newest-first list. */
  lemma AddOldest(records: seq<MedicalRecord>, x: MedicalRecord)
    requires NewestFirst(records)
    requires forall i :: 0 <= i < |records| ==> x.date.time <= records[i].date.time
    ensures AddedRecords(records, x) == records + [x]
  {
    SortByTimeOfSorted(records + [x]);
  }

  // ---------------------------------------------------------------------
  // The seed state

  const Seed1 := MedicalRecord(
    "1", Operation, "Operace pravého kolene",
    Date(1710460800000, 2024, 2),
    Some("Artroskopická operace menisku"),
    Some(map["hospital" := Text("Nemocnice Na Homolce"), "doctor" := Text("MUDr. Novák")]))

  const Seed2 := MedicalRecord(
    "2", Medication, "Ibuprofen 400mg",
    Date(1710547200000, 2024, 2),
    Some("3x denně po jídle"),
    Some(map["duration" := Text("14 dní"), "prescribedBy" := Text("MUDr. Novák")]))

  const Seed3 := MedicalRecord(
    "3", Rehabilitation, "Rehabilitace kolene",
    Date(1711929600000, 2024, 3),
    Some("10 sezení - posilování a mobilizace"),
    Some(map["facility" := Text("FyzioKlinika Praha"), "sessions" := Number(10)]))

  /** The three example records, in the order the page lists them. */
  const SeedRecords: seq<MedicalRecord> := [Seed1, Seed2, Seed3]

  /** The seed list runs oldest first, so "newest first" is not an
      invariant of the page: it holds only once a record has been added. */
  lemma SeedIsOldestFirst()
    ensures !NewestFirst(SeedRecords)
    ensures forall i, j :: 0 <= i < j < |SeedRecords| ==> SeedRecords[i].date.time < SeedRecords[j].date.time
  {
    assert SeedRecords[0].date.time < SeedRecords[1].date.time;
  }

  /** The seed records make two buckets, April 2024 and March 2024, with
      the two March records in their listed order. */
  lemma SeedTimeline(groups: seq<Timeline.Group>)
    requires Timeline.IsGrouping(SeedRecords, groups)
    ensures groups == [Timeline.Group(2024, 3, [Seed3]), Timeline.Group(2024, 2, [Seed1, Seed2])]
  {
    var expected := [Timeline.Group(2024, 3, [Seed3]), Timeline.Group(2024, 2, [Seed1, Seed2])];
    SeedBuckets();
    assert Timeline.Keys(expected) == [Timeline.MonthKey(2024, 3), Timeline.MonthKey(2024, 2)];
    forall r | r in SeedRecords
      ensures Timeline.KeyOf(r) in Timeline.Keys(expected)
    {
    }
    assert Timeline.IsGrouping(SeedRecords, expected);
    Timeline.GroupingUnique(SeedRecords, groups, expected);
  }

  /** The seed records of each month, in listed order. */
  lemma SeedBuckets()
    ensures Timeline.InMonth(SeedRecords, Timeline.MonthKey(2024, 3)) == [Seed3]
    ensures Timeline.InMonth(SeedRecords, Timeline.MonthKey(2024, 2)) == [Seed1, Seed2]
  {
    var march := Timeline.MonthKey(2024, 2);
    var april := Timeline.MonthKey(2024, 3);
    assert [Seed1][..0] == [];
    assert Timeline.InMonth([Seed1], april) == [] && Timeline.InMonth([Seed1], march) == [Seed1];
    assert [Seed1, Seed2][..1] == [Seed1];
    assert Timeline.InMonth([Seed1, Seed2], april) == [];
    assert Timeline.InMonth([Seed1, Seed2], march) == [Seed1, Seed2];
    assert SeedRecords[..2] == [Seed1, Seed2];
  }

  // ---------------------------------------------------------------------
  // The page state

  class Index {
    var records: seq<MedicalRecord>
    var isAddDialogOpen: bool
    var selectedType: Option<RecordType>

    /** The seed list, the dialog closed, no type selected. */
    constructor ()
      ensures records == SeedRecords && |records| == 3
      ensures !isAddDialogOpen && selectedType == None
    {
      records := SeedRecords;
      isAddDialogOpen := false;
      selectedType := None;
    }

    /** `handleAddRecord`: the candidate gets the id `id` (drawn at random
        by the page), joins the list, the list is re-sorted newest first,
        the dialog closes and the selected type is cleared. */
    method HandleAddRecord(candidate: Candidate, id: string)
      modifies this
      ensures records == AddedRecords(old(records), WithId(candidate, id))
      ensures NewestFirst(records)
      ensures multiset(records) == multiset(old(records)) + multiset{WithId(candidate, id)}
      ensures |records| == |old(records)| + 1
      ensures !isAddDialogOpen && selectedType == None
    {
      var newRecord := WithId(candidate, id);
      records := SortByTime(records + [newRecord]);
      isAddDialogOpen := false;
      selectedType := None;
    }

    /** `openAddDialog`: select the type and open the dialog. */
    method OpenAddDialog(t: RecordType)
      modifies this
      ensures selectedType == Some(t) && isAddDialogOpen
      ensures records == old(records)
    {
      selectedType := Some(t);
      isAddDialogOpen := true;
    }
  }

  /** The wiring `selectedType={selectedType}` and `onAdd={handleAddRecord}`:
      submitting the form with the page's selected type adds the emitted
      candidate, under the id `id`, to the page. */
  method SubmitForm(page: Index, form: AddRecordDialog.Form, id: string) returns (added: bool)
    modifies page, form
    ensures added <==> AddRecordDialog.Accepts(old(form.title), old(form.date), old(page.selectedType))
    ensures added ==>
              page.records == AddedRecords(old(page.records), WithId(Candidate(
                old(page.selectedType).value, old(form.title), old(form.date).value,
                AddRecordDialog.OptionalText(old(form.description)), Some(map[])), id))
    ensures added ==> |page.records| == |old(page.records)| + 1 && NewestFirst(page.records)
    ensures added ==> !page.isAddDialogOpen && page.selectedType == None
    ensures added ==> form.title == "" && form.date == None && form.description == ""
    ensures !added ==> page.records == old(page.records) &&
                       page.isAddDialogOpen == old(page.isAddDialogOpen) &&
                       page.selectedType == old(page.selectedType)
    ensures !added ==> form.title == old(form.title) && form.date == old(form.date) &&
                       form.description == old(form.description)
  {
    var emitted := form.HandleSubmit(page.selectedType);
    added := emitted.Some?;
    if added {
      page.HandleAddRecord(emitted.value, id);
    }
  }
}
