/**
 * The log of completed fasts and the listing `history` prints: the records sorted by
 * end time, latest first (a stable sort, as Python's `list.sort` with `reverse=True`),
 * cut to the requested number of entries.
 */
module History {
  import opened Options

  /** One stored fast: the ISO-8601 text of the moment it ended, and its duration text. */
  datatype CompletedFast = CompletedFast(endTime: string, duration: string)

  /** Python's `<=` on `str`: character by character, a proper prefix before its extensions. */
  predicate TextLe(a: string, b: string)
  {
    a == [] || (b != [] && (a[0] < b[0] || (a[0] == b[0] && TextLe(a[1..], b[1..]))))
  }

  lemma {:induction false} TextLeReflexive(a: string)
    ensures TextLe(a, a)
  {
    if a != [] {
      TextLeReflexive(a[1..]);
    }
  }

  lemma {:induction false} TextLeTotal(a: string, b: string)
    ensures TextLe(a, b) || TextLe(b, a)
  {
    if a != [] && b != [] && a[0] == b[0] {
      TextLeTotal(a[1..], b[1..]);
    }
  }

  lemma {:induction false} TextLeTransitive(a: string, b: string, c: string)
    requires TextLe(a, b) && TextLe(b, c)
    ensures TextLe(a, c)
  {
    if a != [] && a[0] == b[0] && b[0] == c[0] {
      TextLeTransitive(a[1..], b[1..], c[1..]);
    }
  }

  lemma {:induction false} TextLeAntisymmetric(a: string, b: string)
    requires TextLe(a, b) && TextLe(b, a)
    ensures a == b
  {
    if a != [] {
      TextLeAntisymmetric(a[1..], b[1..]);
      assert a == [a[0]] + a[1..] && b == [b[0]] + b[1..];
    }
  }

  /** Latest end time first: no record ends after one listed before it. */
  predicate Descending(s: seq<CompletedFast>)
  {
    forall i, j :: 0 <= i < j < |s| ==> TextLe(s[j].endTime, s[i].endTime)
  }

  /** The records of `s` that ended at `key`, in their order in `s`. */
  function WithEndTime(s: seq<CompletedFast>, key: string): seq<CompletedFast>
  {
    if s == [] then []
    else (if s[0].endTime == key then [s[0]] else []) + WithEndTime(s[1..], key)
  }

  /** Puts `x` before the first record that does not end later than it. */
  function Insert(x: CompletedFast, s: seq<CompletedFast>): seq<CompletedFast>
  {
    if s == [] || TextLe(s[0].endTime, x.endTime) then [x] + s
    else [s[0]] + Insert(x, s[1..])
  }

  /** `records.sort(key=lambda x: x['end_time'], reverse=True)`, as an insertion sort. */
  function SortByEndTime(s: seq<CompletedFast>): seq<CompletedFast>
  {
    if s == [] then [] else Insert(s[0], SortByEndTime(s[1..]))
  }

  lemma {:induction false} InsertPermutes(x: CompletedFast, s: seq<CompletedFast>)
    ensures multiset(Insert(x, s)) == multiset(s) + multiset{x}
  {
    if s != [] && !TextLe(s[0].endTime, x.endTime) {
      InsertPermutes(x, s[1..]);
      assert s == [s[0]] + s[1..];
    }
  }

  lemma {:induction false} InsertKeepsDescending(x: CompletedFast, s: seq<CompletedFast>)
    requires Descending(s)
    ensures Descending(Insert(x, s))
  {
    var r := Insert(x, s);
    if s == [] {
    } else if TextLe(s[0].endTime, x.endTime) {
      forall j | 1 <= j < |r|
        ensures TextLe(r[j].endTime, r[0].endTime)
      {
        if j > 1 {
          TextLeTransitive(r[j].endTime, s[0].endTime, x.endTime);
        }
      }
    } else {
      InsertKeepsDescending(x, s[1..]);
      InsertPermutes(x, s[1..]);
      TextLeTotal(s[0].endTime, x.endTime);
      forall j | 1 <= j < |r|
        ensures TextLe(r[j].endTime, s[0].endTime)
      {
        var y := r[j];
        assert y == Insert(x, s[1..])[j - 1];
        assert y in multiset(Insert(x, s[1..]));
        assert y == x || y in multiset(s[1..]);
        if y != x {
          var k :| 0 <= k < |s[1..]| && s[1..][k] == y;
          assert s[k + 1] == y;
        }
      }
    }
  }

  lemma {:induction false} InsertKeepsOrderOfEqualKeys(x: CompletedFast, s: seq<CompletedFast>, key: string)
    ensures WithEndTime(Insert(x, s), key) ==
      (if x.endTime == key then [x] else []) + WithEndTime(s, key)
  {
    if s == [] || TextLe(s[0].endTime, x.endTime) {
      assert Insert(x, s)[1..] == s;
    } else {
      var r := Insert(x, s);
      InsertKeepsOrderOfEqualKeys(x, s[1..], key);
      assert r[0] == s[0] && r[1..] == Insert(x, s[1..]);
      TextLeReflexive(x.endTime);
      assert s[0].endTime != x.endTime;
      var own := if x.endTime == key then [x] else [];
      var head := if s[0].endTime == key then [s[0]] else [];
      assert WithEndTime(r, key) == head + (own + WithEndTime(s[1..], key));
      assert WithEndTime(s, key) == head + WithEndTime(s[1..], key);
      assert head == [] || own == [];
    }
  }

  /** The sort keeps every record, puts the latest first, and keeps records with equal end times in stored order. */
  lemma {:induction false} SortByEndTimeSpec(s: seq<CompletedFast>)
    ensures multiset(SortByEndTime(s)) == multiset(s)
    ensures Descending(SortByEndTime(s))
    ensures forall key :: WithEndTime(SortByEndTime(s), key) == WithEndTime(s, key)
  {
    if s != [] {
      var rest := SortByEndTime(s[1..]);
      SortByEndTimeSpec(s[1..]);
      InsertPermutes(s[0], rest);
      assert s == [s[0]] + s[1..];
      InsertKeepsDescending(s[0], rest);
      forall key
        ensures WithEndTime(SortByEndTime(s), key) == WithEndTime(s, key)
      {
        InsertKeepsOrderOfEqualKeys(s[0], rest, key);
      }
    }
  }

  lemma {:induction false} WithEndTimeFound(s: seq<CompletedFast>, key: string)
    requires WithEndTime(s, key) != []
    ensures exists i :: 0 <= i < |s| && s[i].endTime == key
  {
    if s[0].endTime != key {
      WithEndTimeFound(s[1..], key);
      var i :| 0 <= i < |s[1..]| && s[1..][i].endTime == key;
      assert s[i + 1].endTime == key;
    }
  }

  /**
   * There is only one stable descending order: two descending sequences that agree on the
   * records of every end time are equal. So `SortByEndTime` is the order Python's stable
   * `sort(reverse=True)` produces, whatever algorithm computes it.
   */
  lemma {:induction false} DescendingOrderIsUnique(a: seq<CompletedFast>, b: seq<CompletedFast>)
    requires Descending(a) && Descending(b)
    requires forall key :: WithEndTime(a, key) == WithEndTime(b, key)
    ensures a == b
    decreases |a|
  {
    if a == [] || b == [] {
      assert a != [] ==> WithEndTime(a, a[0].endTime) != [];
      assert b != [] ==> WithEndTime(b, b[0].endTime) != [];
    } else {
      var ka := a[0].endTime;
      assert WithEndTime(a, ka) == [a[0]] + WithEndTime(a[1..], ka);
      var kb := b[0].endTime;
      assert WithEndTime(b, kb) == [b[0]] + WithEndTime(b[1..], kb);
      WithEndTimeFound(b, ka);
      var i :| 0 <= i < |b| && b[i].endTime == ka;
      WithEndTimeFound(a, kb);
      var j :| 0 <= j < |a| && a[j].endTime == kb;
      TextLeReflexive(ka);
      TextLeReflexive(kb);
      assert TextLe(ka, kb);
      assert TextLe(kb, ka);
      TextLeAntisymmetric(ka, kb);
      assert WithEndTime(b, ka) == [b[0]] + WithEndTime(b[1..], ka);
      assert WithEndTime(a, ka)[0] == a[0] && WithEndTime(b, ka)[0] == b[0];
      forall key
        ensures WithEndTime(a[1..], key) == WithEndTime(b[1..], key)
      {
        var lead := if ka == key then [a[0]] else [];
        assert WithEndTime(a, key) == lead + WithEndTime(a[1..], key);
        assert WithEndTime(b, key) == lead + WithEndTime(b[1..], key);
        assert WithEndTime(a[1..], key) == WithEndTime(a, key)[|lead|..];
        assert WithEndTime(b[1..], key) == WithEndTime(b, key)[|lead|..];
      }
      DescendingOrderIsUnique(a[1..], b[1..]);
      assert a == [a[0]] + a[1..] && b == [b[0]] + b[1..];
    }
  }

  /** `completed_fasts[:limit]` when `limit` is truthy; `None` and `0` list everything. */
  function Listing(records: seq<CompletedFast>, limit: Option<nat>): seq<CompletedFast>
  {
    var sorted := SortByEndTime(records);
    if limit.Some? && limit.value != 0 && limit.value < |sorted| then sorted[..limit.value] else sorted
  }

  /** Sorting neither adds nor drops records. */
  lemma SortedLength(records: seq<CompletedFast>)
    ensures |SortByEndTime(records)| == |records|
  {
    SortByEndTimeSpec(records);
    assert |multiset(SortByEndTime(records))| == |multiset(records)|;
  }

  /** The listing is a prefix of the sorted log: `min(limit, n)` long for a non-zero limit, all `n` otherwise. */
  lemma ListingPrefix(records: seq<CompletedFast>, limit: Option<nat>)
    ensures var listed := Listing(records, limit);
      |listed| == (if limit.Some? && limit.value != 0 && limit.value < |records| then limit.value else |records|) &&
      listed == SortByEndTime(records)[..|listed|]
  {
    SortedLength(records);
  }

  /** The listing is latest first and holds only stored records; without a limit it holds all of them. */
  lemma ListingContents(records: seq<CompletedFast>, limit: Option<nat>)
    ensures var listed := Listing(records, limit);
      Descending(listed) &&
      multiset(listed) <= multiset(records) &&
      ((limit.None? || limit.value == 0) ==> multiset(listed) == multiset(records))
  {
    var sorted := SortByEndTime(records);
    SortByEndTimeSpec(records);
    ListingPrefix(records, limit);
    var listed := Listing(records, limit);
    assert sorted == listed + sorted[|listed|..];
  }

  /** Every record the limit leaves out ended no later than any record listed. */
  lemma ListingLeavesOutOlder(records: seq<CompletedFast>, limit: Option<nat>)
    ensures var listed := Listing(records, limit);
      forall x, i :: x in multiset(records) - multiset(listed) && 0 <= i < |listed| ==>
        TextLe(x.endTime, listed[i].endTime)
  {
    var sorted := SortByEndTime(records);
    SortByEndTimeSpec(records);
    ListingPrefix(records, limit);
    var listed := Listing(records, limit);
    var n := |listed|;
    assert sorted == listed + sorted[n..];
    assert multiset(sorted) == multiset(listed) + multiset(sorted[n..]);
    forall x, i | x in multiset(records) - multiset(listed) && 0 <= i < n
      ensures TextLe(x.endTime, listed[i].endTime)
    {
      assert x in multiset(sorted[n..]);
      var k :| 0 <= k < |sorted[n..]| && sorted[n..][k] == x;
      assert sorted[n + k] == x;
    }
  }

  /**
   * Everything known about the listing in one statement: the conjunction of `ListingPrefix`,
   * `ListingContents` and `ListingLeavesOutOlder`, for callers that need all of it.
   */
  lemma ListingSpec(records: seq<CompletedFast>, limit: Option<nat>)
    ensures var listed := Listing(records, limit);
      |listed| == (if limit.Some? && limit.value != 0 && limit.value < |records| then limit.value else |records|) &&
      listed == SortByEndTime(records)[..|listed|] &&
      Descending(listed) &&
      multiset(listed) <= multiset(records) &&
      ((limit.None? || limit.value == 0) ==> multiset(listed) == multiset(records)) &&
      forall x, i :: x in multiset(records) - multiset(listed) && 0 <= i < |listed| ==>
        TextLe(x.endTime, listed[i].endTime)
  {
    ListingPrefix(records, limit);
    ListingContents(records, limit);
    ListingLeavesOutOlder(records, limit);
  }

  /** A fast that ends after every stored one is listed first, whatever the limit. */
  lemma NewestListedFirst(records: seq<CompletedFast>, x: CompletedFast, limit: Option<nat>)
    requires forall i :: 0 <= i < |records| ==> !TextLe(x.endTime, records[i].endTime)
    ensures Listing(records + [x], limit) != [] && Listing(records + [x], limit)[0] == x
  {
    var all := records + [x];
    var sorted := SortByEndTime(all);
    SortByEndTimeSpec(all);
    assert x in multiset(sorted) by {
      assert all[|records|] == x;
      assert x in multiset(all);
    }
    var j :| 0 <= j < |sorted| && sorted[j] == x;
    var first := sorted[0];
    TextLeReflexive(x.endTime);
    assert TextLe(x.endTime, first.endTime);
    assert first in multiset(all);
    var k :| 0 <= k < |all| && all[k] == first;
    assert k == |records|;
  }

  /** Two texts that agree up to position `n` and differ there are ordered by that character. */
  lemma {:induction false} TextLeFirstDifference(a: string, b: string, n: nat)
    requires n < |a| && n < |b| && a[..n] == b[..n] && a[n] < b[n]
    ensures TextLe(a, b) && !TextLe(b, a)
  {
    if n > 0 {
      assert a[1..][..n - 1] == a[..n][1..];
      assert b[1..][..n - 1] == b[..n][1..];
      TextLeFirstDifference(a[1..], b[1..], n - 1);
    }
  }

  /** Stored as earliest, latest, middle: a listing of two shows the latest, then the middle one. */
  lemma ListingOfThree(early: CompletedFast, late: CompletedFast, middle: CompletedFast)
    requires !TextLe(middle.endTime, early.endTime) && !TextLe(late.endTime, early.endTime)
    requires TextLe(middle.endTime, late.endTime) && !TextLe(late.endTime, middle.endTime)
    ensures Listing([early, late, middle], Some(2)) == [late, middle]
  {
    assert SortByEndTime([middle]) == [middle];
    assert SortByEndTime([late, middle]) == [late, middle];
    assert Insert(early, [middle]) == [middle, early];
    assert SortByEndTime([early, late, middle]) == [late, middle, early];
  }

  /** The three end times of the documented example, in the order `str` comparison puts them. */
  lemma ExampleEndTimesOrdered(jan1: string, jan2: string, jan3: string)
    requires jan1 == "2024-01-01T10:00:00" && jan2 == "2024-01-02T12:00:00" && jan3 == "2024-01-03T09:00:00"
    ensures !TextLe(jan2, jan1) && !TextLe(jan3, jan1) && TextLe(jan2, jan3) && !TextLe(jan3, jan2)
  {
    assert jan2[..9] == jan3[..9] && jan1[..9] == jan3[..9] && jan1[..9] == jan2[..9];
    TextLeFirstDifference(jan2, jan3, 9);
    TextLeFirstDifference(jan1, jan3, 9);
    TextLeFirstDifference(jan1, jan2, 9);
  }

  /** Records ending on January 1st, 3rd and 2nd, listed with a limit of 2: the 3rd, then the 2nd. */
  lemma ListingExample()
    ensures Listing([CompletedFast("2024-01-01T10:00:00", "16:00:00"),
                     CompletedFast("2024-01-03T09:00:00", "18:00:00"),
                     CompletedFast("2024-01-02T12:00:00", "14:30:00")], Some(2)) ==
            [CompletedFast("2024-01-03T09:00:00", "18:00:00"),
             CompletedFast("2024-01-02T12:00:00", "14:30:00")]
  {
    var jan1 := "2024-01-01T10:00:00";
    var jan3 := "2024-01-03T09:00:00";
    var jan2 := "2024-01-02T12:00:00";
    ExampleEndTimesOrdered(jan1, jan2, jan3);
    ListingOfThree(CompletedFast(jan1, "16:00:00"), CompletedFast(jan3, "18:00:00"), CompletedFast(jan2, "14:30:00"));
  }
}
