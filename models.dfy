/**
  The tables of models.py and the statistics computed from them. The attendance table is a
  map keyed by (user, subject, date), which is the table's unique constraint: there is at most
  one record per key. `get_user_attendance` and `get_attendance_stats` COUNT records and those
  whose `is_present` flag is set; they do not add up the lecture counts.
 */
module Models {
  import opened Wrappers
  import opened Dates

  /** A row of `subjects`: the target number of lectures for the term is `totalLectures`. */
  datatype Subject = Subject(id: int, name: string, totalLectures: int)

  /** A row of `users`, without the password hash and the creation time. */
  datatype User = User(name: string, username: string, email: string)

  /** The unique key of an attendance record. */
  datatype Key = Key(user: int, subject: int, date: Date)

  /** An attendance record. `isPresent` defaults to true and is what the statistics read;
      `lecturesTotal` and `lecturesPresent` are what the marking form writes. */
  datatype Attendance = Attendance(isPresent: bool, lecturesTotal: int, lecturesPresent: int)

  type Ledger = map<Key, Attendance>

  // ---------------------------------------------------------------- percentages

  /** `n / d` rounded to the nearest integer, ties to even, as `round` does. */
  function RoundHalfEven(n: nat, d: nat): (r: nat)
    requires d > 0
  {
    var q, rem := n / d, n % d;
    if 2 * rem > d || (2 * rem == d && q % 2 == 1) then q + 1 else q
  }

  /** The rounded quotient is within one half of the exact one: `|r - n/d| <= 1/2`. */
  lemma RoundHalfEvenIsNearest(n: nat, d: nat)
    requires d > 0
    ensures var r := RoundHalfEven(n, d); 2 * n <= d * (2 * r + 1) && d * (2 * r - 1) <= 2 * n
    ensures var r := RoundHalfEven(n, d); 2 * n == d * (2 * r + 1) || 2 * n == d * (2 * r - 1) ==> r % 2 == 0
  {
    var q, rem := n / d, n % d;
    assert n == d * q + rem;
    assert d * (2 * q + 1) == 2 * (d * q) + d;
    assert d * (2 * q - 1) == 2 * (d * q) - d;
    assert d * (2 * (q + 1) + 1) == 2 * (d * q) + 3 * d;
    assert d * (2 * (q + 1) - 1) == 2 * (d * q) + d;
  }

  /** `round(part / whole * 100, 1)` in tenths of a percent, on exact rationals; 0 when
      `whole` is 0. */
  function PercentTenths(part: nat, whole: nat): (r: nat)
    ensures whole == 0 ==> r == 0
    ensures whole > 0 ==> 2 * (1000 * part) <= whole * (2 * r + 1) && whole * (2 * r - 1) <= 2 * (1000 * part)
    ensures whole > 0 && (2 * (1000 * part) == whole * (2 * r + 1) || 2 * (1000 * part) == whole * (2 * r - 1)) ==> r % 2 == 0
    ensures part <= whole ==> r <= 1000
    ensures part == 0 ==> r == 0
    ensures 0 < whole == part ==> r == 1000
  {
    if whole == 0 then 0
    else
      RoundedBounds(part, whole);
      RoundHalfEvenIsNearest(1000 * part, whole);
      RoundHalfEven(1000 * part, whole)
  }

  /** The rounded percentage of a part of a whole lies between 0 and 100, and is exact at
      both ends. */
  lemma RoundedBounds(part: nat, whole: nat)
    requires whole > 0
    ensures part <= whole ==> RoundHalfEven(1000 * part, whole) <= 1000
    ensures part == 0 ==> RoundHalfEven(1000 * part, whole) == 0
    ensures part == whole ==> RoundHalfEven(1000 * part, whole) == 1000
  {
    if part <= whole {
      RoundedAtMostAll(part, whole);
    }
    if part == whole {
      Quotient(1000 * whole, whole, 1000, 0);
    }
  }

  lemma RoundedAtMostAll(part: nat, whole: nat)
    requires 0 < whole && part <= whole
    ensures RoundHalfEven(1000 * part, whole) <= 1000
  {
    var n := 1000 * part;
    var q, rem := n / whole, n % whole;
    assert whole * q <= n <= whole * 1000;
    DivideBound(whole, q, 1000);
    if q == 1000 {
      assert whole * 1000 + rem == n <= whole * 1000;
    }
  }

  /** Division is determined by quotient and remainder. */
  lemma Quotient(n: nat, d: nat, k: nat, rest: nat)
    requires d > 0 && rest < d && n == d * k + rest
    ensures n / d == k && n % d == rest
  {
    var q, r := n / d, n % d;
    assert d * q + r == d * k + rest;
    MultipleStep(d, q, k);
    MultipleStep(d, k, q);
  }

  /** Distinct multiples of `d` are at least `d` apart. */
  lemma MultipleStep(d: nat, a: int, b: int)
    ensures a < b ==> d * a + d <= d * b
  {
    if a < b {
      var e: nat := b - a - 1;
      assert d * b == d * a + d * e + d;
      assert d * e >= 0;
    }
  }

  /** Cancelling a positive factor. */
  lemma DivideBound(d: nat, a: int, b: int)
    requires d > 0 && d * a <= d * b
    ensures a <= b
  {
    MultipleStep(d, b, a);
  }

  // ---------------------------------------------------------------- per-subject statistics

  /** The records of `user` in `subject`. */
  function MarkedKeys(m: Ledger, user: int, subject: int): set<Key>
  {
    set k | k in m && k.user == user && k.subject == subject
  }

  /** The records of `user` in `subject` whose `is_present` flag is set. */
  function PresentKeys(m: Ledger, user: int, subject: int): (r: set<Key>)
    ensures r <= MarkedKeys(m, user, subject)
  {
    set k | k in m && k.user == user && k.subject == subject && m[k].isPresent
  }

  lemma SubsetCard<T>(a: set<T>, b: set<T>)
    requires a <= b
    ensures |a| <= |b|
  {
    assert b == a + (b - a);
  }

  /** What `Subject.get_user_attendance` returns. */
  datatype SubjectStats =
    SubjectStats(attended: nat, totalMarked: nat, totalLectures: int, remaining: nat, percentTenths: nat)

  /** `Subject.get_user_attendance(user)`: a count of records, a count of present records,
      the lectures still to come against the subject's target, and the rounded percentage. */
  function SubjectAttendance(m: Ledger, s: Subject, user: int): (r: SubjectStats)
    ensures r.totalMarked == |MarkedKeys(m, user, s.id)|
    ensures r.attended == |PresentKeys(m, user, s.id)|
    ensures r.attended <= r.totalMarked
    ensures r.totalLectures == s.totalLectures
    ensures r.remaining >= s.totalLectures - r.totalMarked
    ensures r.remaining == 0 || r.remaining == s.totalLectures - r.totalMarked
    ensures r.percentTenths == PercentTenths(r.attended, r.totalMarked) <= 1000
    ensures r.totalMarked == 0 ==> r.attended == 0 && r.percentTenths == 0
  {
    var total := |MarkedKeys(m, user, s.id)|;
    var present := |PresentKeys(m, user, s.id)|;
    SubsetCard(PresentKeys(m, user, s.id), MarkedKeys(m, user, s.id));
    var remaining := if s.totalLectures - total > 0 then s.totalLectures - total else 0;
    SubjectStats(present, total, s.totalLectures, remaining, PercentTenths(present, total))
  }

  // ---------------------------------------------------------------- per-user statistics

  /** What `User.get_attendance_stats` returns. */
  datatype UserStats = UserStats(total: nat, present: nat, percentTenths: nat)

  /** Python's truthiness test `if subject_id:` on an optional id: 0 counts as absent. */
  predicate FiltersBySubject(subjectId: Option<int>)
  {
    subjectId.Some? && subjectId.value != 0
  }

  /** The records `get_attendance_stats` counts. */
  function UserKeys(m: Ledger, user: int, subjectId: Option<int>): set<Key>
  {
    if FiltersBySubject(subjectId) then MarkedKeys(m, user, subjectId.value)
    else set k | k in m && k.user == user
  }

  function UserPresentKeys(m: Ledger, user: int, subjectId: Option<int>): (r: set<Key>)
    ensures r <= UserKeys(m, user, subjectId)
  {
    if FiltersBySubject(subjectId) then PresentKeys(m, user, subjectId.value)
    else set k | k in m && k.user == user && m[k].isPresent
  }

  /** `User.get_attendance_stats(subject_id)`. */
  function AttendanceStats(m: Ledger, user: int, subjectId: Option<int>): (r: UserStats)
    ensures r.total == |UserKeys(m, user, subjectId)|
    ensures r.present == |UserPresentKeys(m, user, subjectId)|
    ensures r.present <= r.total
    ensures r.percentTenths == PercentTenths(r.present, r.total) <= 1000
    ensures r.total == 0 ==> r.percentTenths == 0
  {
    var total := |UserKeys(m, user, subjectId)|;
    var present := |UserPresentKeys(m, user, subjectId)|;
    SubsetCard(UserPresentKeys(m, user, subjectId), UserKeys(m, user, subjectId));
    UserStats(total, present, PercentTenths(present, total))
  }

  // ---------------------------------------------------------------- properties

  /** A subject id of 0 is falsy, so it selects every subject, as no id does. */
  lemma ZeroSubjectIdMeansAll(m: Ledger, user: int)
    ensures AttendanceStats(m, user, Some(0)) == AttendanceStats(m, user, None)
  {
  }

  /** Adding a record adds ONE to the subject's `total_marked` however many lectures it holds,
      and one to `attended` exactly when its `is_present` flag is set. */
  lemma NewRecordCountsOnce(m: Ledger, k: Key, e: Attendance, s: Subject)
    requires k !in m && s.id == k.subject
    ensures SubjectAttendance(m[k := e], s, k.user).totalMarked == SubjectAttendance(m, s, k.user).totalMarked + 1
    ensures SubjectAttendance(m[k := e], s, k.user).attended
         == SubjectAttendance(m, s, k.user).attended + (if e.isPresent then 1 else 0)
  {
    AddedKeyMarked(m, k, e);
    AddedKeyPresent(m, k, e);
  }

  lemma AddedKeyMarked(m: Ledger, k: Key, e: Attendance)
    requires k !in m
    ensures MarkedKeys(m[k := e], k.user, k.subject) == MarkedKeys(m, k.user, k.subject) + {k}
  {
  }

  lemma AddedKeyPresent(m: Ledger, k: Key, e: Attendance)
    requires k !in m
    ensures PresentKeys(m[k := e], k.user, k.subject)
         == PresentKeys(m, k.user, k.subject) + (if e.isPresent then {k} else {})
  {
  }

  /** Records whose flag is set everywhere make `attended` equal `total_marked`, whatever the
      lecture counts say; a subject with any record then shows 100.0 per cent. */
  lemma AllFlaggedMeansFullAttendance(m: Ledger, s: Subject, user: int)
    requires forall k :: k in m ==> m[k].isPresent
    ensures SubjectAttendance(m, s, user).attended == SubjectAttendance(m, s, user).totalMarked
    ensures SubjectAttendance(m, s, user).totalMarked > 0 ==> SubjectAttendance(m, s, user).percentTenths == 1000
  {
    assert PresentKeys(m, user, s.id) == MarkedKeys(m, user, s.id);
  }

  /** Sum of `total_marked` over a list of subject ids. */
  function MarkedAcross(m: Ledger, user: int, ids: seq<int>): nat
  {
    if ids == [] then 0 else MarkedAcross(m, user, ids[..|ids| - 1]) + |MarkedKeys(m, user, ids[|ids| - 1])|
  }

  /** Sum of `attended` over a list of subject ids. */
  function PresentAcross(m: Ledger, user: int, ids: seq<int>): nat
  {
    if ids == [] then 0 else PresentAcross(m, user, ids[..|ids| - 1]) + |PresentKeys(m, user, ids[|ids| - 1])|
  }

  /** The sums grow by one subject's counts at a time. */
  lemma AcrossPrefix(m: Ledger, user: int, ids: seq<int>, i: nat)
    requires i < |ids|
    ensures MarkedAcross(m, user, ids[..i + 1]) == MarkedAcross(m, user, ids[..i]) + |MarkedKeys(m, user, ids[i])|
    ensures PresentAcross(m, user, ids[..i + 1]) == PresentAcross(m, user, ids[..i]) + |PresentKeys(m, user, ids[i])|
  {
    assert ids[..i + 1][..i] == ids[..i];
  }

  /** The records of `user` in any of the subjects `ids`. */
  function KeysIn(m: Ledger, user: int, ids: seq<int>): (r: set<Key>)
    ensures forall k :: k in r <==> k in m && k.user == user && k.subject in ids
  {
    set k | k in m && k.user == user && k.subject in ids
  }

  /** The records of `user` in any of the subjects `ids` whose flag is set. */
  function PresentKeysIn(m: Ledger, user: int, ids: seq<int>): (r: set<Key>)
    ensures forall k :: k in r <==> k in m && k.user == user && k.subject in ids && m[k].isPresent
  {
    set k | k in m && k.user == user && k.subject in ids && m[k].isPresent
  }

  /** No subject id occurs twice. */
  predicate Distinct(ids: seq<int>)
  {
    forall i, j :: 0 <= i < j < |ids| ==> ids[i] != ids[j]
  }

  lemma KeysInSnoc(m: Ledger, user: int, init: seq<int>, last: int)
    requires last !in init
    ensures KeysIn(m, user, init + [last]) == KeysIn(m, user, init) + MarkedKeys(m, user, last)
    ensures KeysIn(m, user, init) !! MarkedKeys(m, user, last)
  {
  }

  lemma PresentKeysInSnoc(m: Ledger, user: int, init: seq<int>, last: int)
    requires last !in init
    ensures PresentKeysIn(m, user, init + [last]) == PresentKeysIn(m, user, init) + PresentKeys(m, user, last)
    ensures PresentKeysIn(m, user, init) !! PresentKeys(m, user, last)
  {
  }

  lemma DistinctSnoc(ids: seq<int>)
    requires Distinct(ids) && ids != []
    ensures Distinct(ids[..|ids| - 1]) && ids[|ids| - 1] !in ids[..|ids| - 1]
    ensures ids == ids[..|ids| - 1] + [ids[|ids| - 1]]
  {
  }

  /** Per-subject `total_marked` over distinct subjects adds up to the count over their union. */
  lemma {:induction false} MarkedAcrossIsUnion(m: Ledger, user: int, ids: seq<int>)
    requires Distinct(ids)
    ensures MarkedAcross(m, user, ids) == |KeysIn(m, user, ids)|
  {
    if ids == [] {
      assert KeysIn(m, user, ids) == {};
    } else {
      var init, last := ids[..|ids| - 1], ids[|ids| - 1];
      DistinctSnoc(ids);
      MarkedAcrossIsUnion(m, user, init);
      KeysInSnoc(m, user, init, last);
    }
  }

  /** Per-subject `attended` over distinct subjects adds up to the count over their union. */
  lemma {:induction false} PresentAcrossIsUnion(m: Ledger, user: int, ids: seq<int>)
    requires Distinct(ids)
    ensures PresentAcross(m, user, ids) == |PresentKeysIn(m, user, ids)|
  {
    if ids == [] {
      assert PresentKeysIn(m, user, ids) == {};
    } else {
      var init, last := ids[..|ids| - 1], ids[|ids| - 1];
      DistinctSnoc(ids);
      PresentAcrossIsUnion(m, user, init);
      PresentKeysInSnoc(m, user, init, last);
    }
  }

  /** Summed over the same subjects, `attended` never exceeds `total_marked`. */
  lemma {:induction false} PresentAcrossAtMost(m: Ledger, user: int, ids: seq<int>)
    ensures PresentAcross(m, user, ids) <= MarkedAcross(m, user, ids)
  {
    if ids != [] {
      PresentAcrossAtMost(m, user, ids[..|ids| - 1]);
      SubsetCard(PresentKeys(m, user, ids[|ids| - 1]), MarkedKeys(m, user, ids[|ids| - 1]));
    }
  }

  /** When every record of `user` belongs to one of the distinct subjects `ids`, summing the
      per-subject counts gives the user-wide counts of `get_attendance_stats()`. */
  lemma SubjectTotalsMatchUserTotals(m: Ledger, user: int, ids: seq<int>)
    requires Distinct(ids)
    requires forall k :: k in m && k.user == user ==> k.subject in ids
    ensures MarkedAcross(m, user, ids) == AttendanceStats(m, user, None).total
    ensures PresentAcross(m, user, ids) == AttendanceStats(m, user, None).present
  {
    MarkedAcrossIsUnion(m, user, ids);
    PresentAcrossIsUnion(m, user, ids);
    assert KeysIn(m, user, ids) == UserKeys(m, user, None);
    assert PresentKeysIn(m, user, ids) == UserPresentKeys(m, user, None);
  }
}
