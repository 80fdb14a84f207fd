/** The timeline presenter (src/components/timeline/TimelineView.tsx): the
    record list is folded into one bucket per (year, month), and the buckets
    are sorted newest month first. */
module Timeline {
  import opened Records

  /** The bucket key. The source uses the string `${year}-${month}`, which is
      injective on (year, month) because the month part holds no '-'. */
  datatype MonthKey = MonthKey(year: int, month: int)

  /** One bucket: `{ year, month, records }`. */
  datatype Group = Group(year: int, month: int, records: seq<MedicalRecord>)

  /** What the component renders: the empty-state message or the buckets. */
  datatype View = EmptyState | Buckets(groups: seq<Group>)

  /** The month headings, indexed by `group.month`. */
  const MonthNames: seq<string> := [
    "Leden", "Únor", "Březen", "Duben", "Květen", "Červen",
    "Červenec", "Srpen", "Září", "Říjen", "Listopad", "Prosinec"
  ]

  /** The bucket key of a record: its date's (year, month). The month is
      always a valid index into `MonthNames`. */
  function KeyOf(r: MedicalRecord): (k: MonthKey)
    ensures 0 <= k.month < |MonthNames|
  {
    MonthKey(r.date.year, r.date.month)
  }

  function GroupKey(g: Group): MonthKey
  {
    MonthKey(g.year, g.month)
  }

  /** `a` is a strictly later month than `b`. */
  predicate Later(a: MonthKey, b: MonthKey)
  {
    a.year > b.year || (a.year == b.year && a.month > b.month)
  }

  /** The sort comparator: it puts `a` first (a negative result) exactly
      when `a`'s month is later, and ties exactly on equal keys. */
  function Compare(a: Group, b: Group): (c: int)
    ensures c < 0 <==> Later(GroupKey(a), GroupKey(b))
    ensures c == 0 <==> GroupKey(a) == GroupKey(b)
  {
    if a.year != b.year then b.year - a.year else b.month - a.month
  }

  /** The records of `s` that fall in month `k`, in the order of `s`:
      the bucket a left-to-right fold builds for `k`. */
  function InMonth(s: seq<MedicalRecord>, k: MonthKey): seq<MedicalRecord>
  {
    if s == [] then []
    else InMonth(s[..|s| - 1], k) + (if KeyOf(s[|s| - 1]) == k then [s[|s| - 1]] else [])
  }

  /** The keys of a bucket list, in order. */
  function Keys(groups: seq<Group>): (ks: seq<MonthKey>)
    ensures |ks| == |groups|
    ensures forall i :: 0 <= i < |groups| ==> ks[i] == GroupKey(groups[i])
  {
    seq(|groups|, i requires 0 <= i < |groups| => GroupKey(groups[i]))
  }

  ghost predicate StrictlyDescending(ks: seq<MonthKey>)
  {
    forall i, j :: 0 <= i < j < |ks| ==> Later(ks[i], ks[j])
  }

  /** What the presenter promises of its buckets for `records`: each bucket
      holds exactly the records of its month in input order and is not
      empty, the buckets run strictly from the latest month to the
      earliest, and every record's month has a bucket. */
  ghost predicate IsGrouping(records: seq<MedicalRecord>, groups: seq<Group>)
  {
    && (forall i :: 0 <= i < |groups| ==>
          groups[i].records == InMonth(records, GroupKey(groups[i])) && groups[i].records != [])
    && StrictlyDescending(Keys(groups))
    && (forall r :: r in records ==> KeyOf(r) in Keys(groups))
  }

  /** All records of a bucket list, bucket after bucket. */
  function Flatten(groups: seq<Group>): seq<MedicalRecord>
  {
    if groups == [] then [] else groups[0].records + Flatten(groups[1..])
  }

  /** The sum of the bucket sizes. */
  function TotalSize(groups: seq<Group>): nat
  {
    if groups == [] then 0 else |groups[0].records| + TotalSize(groups[1..])
  }

  /** The records of `s` whose month is one of `ks`, in the order of `s`. */
  function Within(s: seq<MedicalRecord>, ks: seq<MonthKey>): seq<MedicalRecord>
  {
    if s == [] then []
    else Within(s[..|s| - 1], ks) + (if KeyOf(s[|s| - 1]) in ks then [s[|s| - 1]] else [])
  }

  // ---------------------------------------------------------------------
  // The component and its algorithm

  /** `TimelineView`: the empty state for no records, the sorted buckets
      otherwise. */
  method TimelineView(records: seq<MedicalRecord>) returns (view: View)
    ensures view == EmptyState <==> records == []
    ensures view.Buckets? ==> IsGrouping(records, view.groups) && view.groups != []
    ensures view.Buckets? ==> forall i :: 0 <= i < |view.groups| ==> 0 <= view.groups[i].month < |MonthNames|
  {
    if |records| == 0 {
      return EmptyState;
    }
    var groups := GroupByMonth(records);
    assert records[0] in records;
    view := Buckets(groups);
  }

  /** The `reduce` into a dictionary of buckets, `Object.values` in key
      insertion order, and the comparator sort. No order of the input is
      assumed. */
  method GroupByMonth(records: seq<MedicalRecord>) returns (groups: seq<Group>)
    ensures IsGrouping(records, groups)
    ensures forall i :: 0 <= i < |groups| ==> 0 <= groups[i].month < |MonthNames|
  {
    var acc, order := Bucket(records);
    var values := BucketValues(acc, order);
    groups := SortGroups(values);
    forall i | 0 <= i < |groups|
      ensures BucketOf(records, GroupKey(groups[i]), groups[i])
    {
      assert groups[i] in values;
      var t :| 0 <= t < |values| && values[t] == groups[i];
      assert order[t] in order;
    }
    forall r | r in records
      ensures KeyOf(r) in Keys(groups)
    {
      var t :| 0 <= t < |order| && order[t] == KeyOf(r);
      assert values[t] in groups;
    }
  }

  /** The `reduce`: a bucket is created the first time its month is seen,
      and each record is pushed onto the bucket of its month. `order`
      records the order in which the buckets were created. */
  method Bucket(records: seq<MedicalRecord>) returns (acc: map<MonthKey, Group>, order: seq<MonthKey>)
    ensures forall k :: k in order <==> k in acc
    ensures forall a, b :: 0 <= a < b < |order| ==> order[a] != order[b]
    ensures forall k :: k in acc ==> BucketOf(records, k, acc[k])
    ensures forall r :: r in records ==> KeyOf(r) in acc
  {
    acc, order := map[], [];
    for i := 0 to |records|
      invariant forall k :: k in order <==> k in acc
      invariant forall a, b :: 0 <= a < b < |order| ==> order[a] != order[b]
      invariant forall k :: k in acc ==> BucketOf(records[..i], k, acc[k])
      invariant forall j :: 0 <= j < i ==> KeyOf(records[j]) in acc
    {
      var r := records[i];
      var key := KeyOf(r);
      ghost var before := acc;
      if key !in acc {
        InMonthAbsent(records[..i], key);
        acc := acc[key := Group(key.year, key.month, [])];
        order := order + [key];
      }
      ghost var created := acc;
      acc := acc[key := acc[key].(records := acc[key].records + [r])];
      PushKeepsBuckets(records[..i], r, created, acc);
      assert records[..i + 1] == records[..i] + [r];
    }
    assert records[..|records|] == records;
  }

  /** Pushing a record onto the bucket of its month, whose other buckets
      are already right, makes every bucket right for the longer list. */
  lemma PushKeepsBuckets(s: seq<MedicalRecord>, r: MedicalRecord,
                         acc: map<MonthKey, Group>, acc': map<MonthKey, Group>)
    requires KeyOf(r) in acc
    requires GroupKey(acc[KeyOf(r)]) == KeyOf(r) && acc[KeyOf(r)].records == InMonth(s, KeyOf(r))
    requires forall k :: k in acc && k != KeyOf(r) ==> BucketOf(s, k, acc[k])
    requires acc' == acc[KeyOf(r) := acc[KeyOf(r)].(records := acc[KeyOf(r)].records + [r])]
    ensures forall k :: k in acc' ==> BucketOf(s + [r], k, acc'[k])
  {
    forall k | k in acc'
      ensures BucketOf(s + [r], k, acc'[k])
    {
      InMonthSnoc(s, r, k);
    }
  }

  /** The fold step: a record joins the bucket of its own month only. */
  lemma InMonthSnoc(s: seq<MedicalRecord>, x: MedicalRecord, k: MonthKey)
    ensures InMonth(s + [x], k) == InMonth(s, k) + (if KeyOf(x) == k then [x] else [])
  {
    assert (s + [x])[..|s|] == s;
  }

  /** `g` is the bucket of month `k` for `s`. */
  ghost predicate BucketOf(s: seq<MedicalRecord>, k: MonthKey, g: Group)
  {
    GroupKey(g) == k && 0 <= k.month < 12 && g.records == InMonth(s, k) && g.records != []
  }

  /** `Object.values`: the buckets in the order their keys were inserted. */
  method BucketValues(acc: map<MonthKey, Group>, order: seq<MonthKey>) returns (values: seq<Group>)
    requires forall k :: k in order ==> k in acc
    ensures |values| == |order|
    ensures forall t :: 0 <= t < |order| ==> values[t] == acc[order[t]]
  {
    values := [];
    for j := 0 to |order|
      invariant |values| == j
      invariant forall t :: 0 <= t < j ==> values[t] == acc[order[t]]
    {
      values := values + [acc[order[j]]];
    }
  }

  /** Sorts buckets with distinct keys latest month first, by inserting
      them one at a time. */
  method SortGroups(values: seq<Group>) returns (sorted: seq<Group>)
    requires forall a, b :: 0 <= a < b < |values| ==> GroupKey(values[a]) != GroupKey(values[b])
    ensures StrictlyDescending(Keys(sorted))
    ensures forall g :: g in sorted <==> g in values
  {
    sorted := [];
    for j := 0 to |values|
      invariant StrictlyDescending(Keys(sorted))
      invariant forall g :: g in sorted <==> g in values[..j]
    {
      sorted := InsertGroup(sorted, values[j]);
      assert values[..j + 1] == values[..j] + [values[j]];
    }
    assert values[..|values|] == values;
  }

  /** Inserts one bucket before the first bucket the comparator does not
      put ahead of it. */
  method InsertGroup(sorted: seq<Group>, g: Group) returns (r: seq<Group>)
    requires StrictlyDescending(Keys(sorted))
    requires forall h :: h in sorted ==> GroupKey(h) != GroupKey(g)
    ensures StrictlyDescending(Keys(r))
    ensures forall h :: h in r <==> h in sorted || h == g
  {
    var k := 0;
    while k < |sorted| && Compare(sorted[k], g) < 0
      invariant 0 <= k <= |sorted|
      invariant forall t :: 0 <= t < k ==> Later(GroupKey(sorted[t]), GroupKey(g))
    {
      k := k + 1;
    }
    if k < |sorted| {
      assert sorted[k] in sorted;
      assert Later(GroupKey(g), GroupKey(sorted[k]));
    }
    r := sorted[..k] + [g] + sorted[k..];
    KeysInsert(sorted, k, g);
    InsertDescending(Keys(sorted), k, GroupKey(g));
  }

  /** Inserting a bucket inserts its key, and nothing else changes. */
  lemma KeysInsert(sorted: seq<Group>, k: nat, g: Group)
    requires k <= |sorted|
    ensures Keys(sorted[..k] + [g] + sorted[k..]) == Keys(sorted)[..k] + [GroupKey(g)] + Keys(sorted)[k..]
    ensures forall h :: h in sorted[..k] + [g] + sorted[k..] <==> h in sorted || h == g
  {
    var r := sorted[..k] + [g] + sorted[k..];
    var ks := Keys(sorted);
    var want := ks[..k] + [GroupKey(g)] + ks[k..];
    assert |Keys(r)| == |want|;
    forall i | 0 <= i < |r|
      ensures Keys(r)[i] == want[i]
    {
      if i < k {
        assert r[i] == sorted[i] && want[i] == ks[i];
      } else if i == k {
        assert r[i] == g && want[i] == GroupKey(g);
      } else {
        assert r[i] == sorted[i - 1] && want[i] == ks[i - 1];
      }
    }
    assert sorted == sorted[..k] + sorted[k..];
  }

  /** Inserting a key between the later and the earlier keys of a
      strictly descending list keeps it strictly descending. */
  lemma InsertDescending(ks: seq<MonthKey>, pos: nat, k: MonthKey)
    requires StrictlyDescending(ks) && pos <= |ks|
    requires forall t :: 0 <= t < pos ==> Later(ks[t], k)
    requires pos < |ks| ==> Later(k, ks[pos])
    ensures StrictlyDescending(ks[..pos] + [k] + ks[pos..])
  {
    var r := ks[..pos] + [k] + ks[pos..];
    assert forall t :: 0 <= t < pos ==> r[t] == ks[t];
    assert forall t :: pos < t < |r| ==> r[t] == ks[t - 1];
    forall a, b | 0 <= a < b < |r|
      ensures Later(r[a], r[b])
    {
      if a == pos && b > pos + 1 {
        assert Later(ks[pos], ks[b - 1]);
      } else if a < pos && b > pos {
        assert Later(ks[a], ks[b - 1]);
      }
    }
  }

  // ---------------------------------------------------------------------
  // Properties of the buckets

  /** A record is in the bucket of month `k` exactly when it is an input
      record of that month. */
  lemma {:induction false} InMonthMember(s: seq<MedicalRecord>, k: MonthKey, x: MedicalRecord)
    ensures x in InMonth(s, k) <==> x in s && KeyOf(x) == k
  {
    if s != [] {
      var init := s[..|s| - 1];
      InMonthMember(init, k, x);
      assert s == init + [s[|s| - 1]];
    }
  }

  /** A month none of whose records has been seen has an empty bucket. */
  lemma {:induction false} InMonthAbsent(s: seq<MedicalRecord>, k: MonthKey)
    requires forall j :: 0 <= j < |s| ==> KeyOf(s[j]) != k
    ensures InMonth(s, k) == []
  {
    if s != [] {
      InMonthAbsent(s[..|s| - 1], k);
    }
  }

  /** A bucket keeps the input's newest-first order: grouping never
      re-sorts within a month. */
  lemma {:induction false} InMonthNewestFirst(s: seq<MedicalRecord>, k: MonthKey)
    requires NewestFirst(s)
    ensures NewestFirst(InMonth(s, k))
  {
    if s != [] {
      var init := s[..|s| - 1];
      var last := s[|s| - 1];
      assert NewestFirst(init);
      InMonthNewestFirst(init, k);
      var b := InMonth(init, k);
      if KeyOf(last) == k {
        forall i | 0 <= i < |b|
          ensures b[i].date.time >= last.date.time
        {
          InMonthMember(init, k, b[i]);
          var j :| 0 <= j < |init| && init[j] == b[i];
        }
      }
    }
  }

  /** Buckets of a newest-first record list are newest first themselves. */
  lemma GroupsNewestFirst(records: seq<MedicalRecord>, groups: seq<Group>)
    requires NewestFirst(records)
    requires IsGrouping(records, groups)
    ensures forall i :: 0 <= i < |groups| ==> NewestFirst(groups[i].records)
  {
    forall i | 0 <= i < |groups|
      ensures NewestFirst(groups[i].records)
    {
      InMonthNewestFirst(records, GroupKey(groups[i]));
    }
  }

  /** Every input record sits in exactly one bucket, the one of its own
      month, and every bucketed record is an input record. */
  lemma ExactlyOneGroup(records: seq<MedicalRecord>, groups: seq<Group>, r: MedicalRecord)
    requires IsGrouping(records, groups)
    ensures r in records ==> exists i :: 0 <= i < |groups| && r in groups[i].records
    ensures forall i :: 0 <= i < |groups| && r in groups[i].records ==>
              r in records && GroupKey(groups[i]) == KeyOf(r)
    ensures forall i, j ::
              0 <= i < |groups| && 0 <= j < |groups| && r in groups[i].records && r in groups[j].records
              ==> i == j
  {
    forall i | 0 <= i < |groups|
      ensures r in groups[i].records <==> r in records && GroupKey(groups[i]) == KeyOf(r)
    {
      InMonthMember(records, GroupKey(groups[i]), r);
    }
    if r in records {
      var ks := Keys(groups);
      var i :| 0 <= i < |ks| && ks[i] == KeyOf(r);
      assert r in groups[i].records;
    }
    forall i, j | 0 <= i < |groups| && 0 <= j < |groups| &&
                  r in groups[i].records && r in groups[j].records
      ensures i == j
    {
    }
  }

  /** Splitting off one month from a set of months splits the filtered
      records into that month's bucket and the rest. */
  lemma {:induction false} WithinCons(s: seq<MedicalRecord>, k: MonthKey, ks: seq<MonthKey>)
    requires k !in ks
    ensures multiset(Within(s, [k] + ks)) == multiset(InMonth(s, k)) + multiset(Within(s, ks))
  {
    if s != [] {
      WithinCons(s[..|s| - 1], k, ks);
    }
  }

  /** Keeping the records whose month is listed keeps them all when every
      month is listed. */
  lemma {:induction false} WithinAll(s: seq<MedicalRecord>, ks: seq<MonthKey>)
    requires forall x :: x in s ==> KeyOf(x) in ks
    ensures Within(s, ks) == s
  {
    if s != [] {
      var init := s[..|s| - 1];
      assert s == init + [s[|s| - 1]];
      WithinAll(init, ks);
    }
  }

  /** Buckets of distinct months, each filled from `records`, hold together
      exactly the records of those months. */
  lemma {:induction false} FlattenWithin(records: seq<MedicalRecord>, groups: seq<Group>)
    requires forall i :: 0 <= i < |groups| ==> groups[i].records == InMonth(records, GroupKey(groups[i]))
    requires StrictlyDescending(Keys(groups))
    ensures multiset(Flatten(groups)) == multiset(Within(records, Keys(groups)))
    ensures TotalSize(groups) == |Flatten(groups)|
  {
    if groups != [] {
      var rest := groups[1..];
      assert Keys(groups) == [GroupKey(groups[0])] + Keys(rest);
      forall i | 0 <= i < |rest|
        ensures rest[i].records == InMonth(records, GroupKey(rest[i]))
      {
        assert rest[i] == groups[i + 1];
      }
      forall i, j | 0 <= i < j < |Keys(rest)|
        ensures Later(Keys(rest)[i], Keys(rest)[j])
      {
        assert Keys(rest)[i] == Keys(groups)[i + 1] && Keys(rest)[j] == Keys(groups)[j + 1];
      }
      FlattenWithin(records, rest);
      assert GroupKey(groups[0]) !in Keys(rest);
      WithinCons(records, GroupKey(groups[0]), Keys(rest));
      assert Flatten(groups) == groups[0].records + Flatten(rest);
      assert multiset(Flatten(groups)) == multiset(groups[0].records) + multiset(Flatten(rest));
    } else {
      WithinNone(records);
    }
  }

  /** Keeping the records of no month keeps none. */
  lemma {:induction false} WithinNone(s: seq<MedicalRecord>)
    ensures Within(s, []) == []
  {
    if s != [] {
      WithinNone(s[..|s| - 1]);
    }
  }

  /** The grouping is lossless: the buckets hold the input records, each as
      often as in the input, and the bucket sizes add up to the input
      length. */
  lemma Lossless(records: seq<MedicalRecord>, groups: seq<Group>)
    requires IsGrouping(records, groups)
    ensures multiset(Flatten(groups)) == multiset(records)
    ensures TotalSize(groups) == |records|
  {
    FlattenWithin(records, groups);
    WithinAll(records, Keys(groups));
    assert |multiset(Flatten(groups))| == |multiset(records)|;
  }

  /** No records, no buckets. */
  lemma EmptyHasNoGroups(groups: seq<Group>)
    ensures IsGrouping([], groups) <==> groups == []
  {
    if groups != [] {
      assert InMonth([], GroupKey(groups[0])) == [];
    }
  }

  /** Two strictly descending key lists with the same members are equal. */
  lemma {:induction false} DescendingUnique(a: seq<MonthKey>, b: seq<MonthKey>)
    requires StrictlyDescending(a) && StrictlyDescending(b)
    requires forall k :: k in a <==> k in b
    ensures a == b
  {
    assert a != [] ==> a[0] in a;
    assert b != [] ==> b[0] in b;
    if a != [] && b != [] {
      assert a[0] in a && b[0] in b;
      var i :| 0 <= i < |a| && a[i] == b[0];
      var j :| 0 <= j < |b| && b[j] == a[0];
      assert i == 0 && j == 0;
      forall k
        ensures k in a[1..] <==> k in b[1..]
      {
        if k in a[1..] {
          var t :| 1 <= t < |a| && a[t] == k;
          assert Later(a[0], a[t]);
          assert k in b && k != b[0];
          assert b == [b[0]] + b[1..];
        }
        if k in b[1..] {
          var t :| 1 <= t < |b| && b[t] == k;
          assert Later(b[0], b[t]);
          assert k in a && k != a[0];
          assert a == [a[0]] + a[1..];
        }
      }
      DescendingUnique(a[1..], b[1..]);
      assert a == [a[0]] + a[1..] && b == [b[0]] + b[1..];
    }
  }

  /** A bucket's month is the month of some input record. */
  lemma GroupKeysAreRecordKeys(records: seq<MedicalRecord>, groups: seq<Group>, k: MonthKey)
    requires IsGrouping(records, groups)
    ensures k in Keys(groups) <==> exists r :: r in records && KeyOf(r) == k
  {
    if k in Keys(groups) {
      var i :| 0 <= i < |groups| && GroupKey(groups[i]) == k;
      var r := groups[i].records[0];
      InMonthMember(records, k, r);
    }
  }

  /** The promise `IsGrouping` determines the buckets completely, so every
      correct presenter produces the same buckets as `GroupByMonth`. */
  lemma GroupingUnique(records: seq<MedicalRecord>, g1: seq<Group>, g2: seq<Group>)
    requires IsGrouping(records, g1) && IsGrouping(records, g2)
    ensures g1 == g2
  {
    forall k
      ensures k in Keys(g1) <==> k in Keys(g2)
    {
      GroupKeysAreRecordKeys(records, g1, k);
      GroupKeysAreRecordKeys(records, g2, k);
    }
    DescendingUnique(Keys(g1), Keys(g2));
    assert |g1| == |g2|;
    forall i | 0 <= i < |g1|
      ensures g1[i] == g2[i]
    {
      assert Keys(g1)[i] == Keys(g2)[i];
    }
  }
}
