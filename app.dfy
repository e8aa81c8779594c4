/**
  The request handlers of app.py that write or summarise the database: marking attendance,
  the dashboard totals, the settings form and the registration checks. A submitted form is a
  map from field names to strings; the database is a class whose fields the handlers update.
 */
module App {
  import opened Wrappers
  import opened PyText
  import opened Dates
  import opened Models

  /** A submitted form: field name to value. */
  type Form = map<string, string>

  /** `request.form.get(key)`. */
  function Lookup(form: Form, key: string): Option<string>
  {
    if key in form then Some(form[key]) else None
  }

  /** `request.form.get(key, default)`. */
  function Get(form: Form, key: string, default: string): string
  {
    if key in form then form[key] else default
  }

  function LecturesField(id: int): string
  {
    "lectures_" + IntToString(id)
  }

  function StatusField(id: int): string
  {
    "status_" + IntToString(id)
  }

  // ---------------------------------------------------------------- reading the marking form

  /** The lecture count submitted for a subject: `int()` of the field, which defaults to "0",
      and 0 when `int()` raises. Any other value, negative ones included, is kept. */
  function ParsedLectures(form: Form, id: int): (n: int)
    ensures LecturesField(id) !in form ==> n == 0
    ensures LecturesField(id) in form && ParseInt(form[LecturesField(id)]).Some? ==> n == ParseInt(form[LecturesField(id)]).value
    ensures LecturesField(id) in form && ParseInt(form[LecturesField(id)]).None? ==> n == 0
    ensures n != 0 ==> ParseInt(form[LecturesField(id)]) == Some(n)
  {
    assert IntToString(0) == "0";
    ParseIntToString(0);
    match ParseInt(Get(form, LecturesField(id), "0"))
    case Some(v) => v
    case None => 0
  }

  /** The attendance status of a subject, "present" when the field is missing. */
  function StatusOf(form: Form, id: int): string
  {
    Get(form, StatusField(id), "present")
  }

  /** Lectures attended: all of them when the status is exactly "present", none otherwise. */
  function PresentCount(status: string, total: int): (p: int)
    ensures p == total || p == 0
    ensures status == "present" ==> p == total
    ensures status != "present" ==> p == 0
  {
    if status == "present" then total else 0
  }

  /** The marked date: the "date" field (today's ISO date when missing) read with
      `strptime('%Y-%m-%d')`, and today when that raises. */
  function SubmittedDate(form: Form, today: Date): (d: Date)
    requires IsValid(today)
    ensures IsValid(d)
    ensures "date" !in form ==> d == today
    ensures "date" in form && ParseIsoDate(form["date"]).Some? ==> d == ParseIsoDate(form["date"]).value
    ensures "date" in form && ParseIsoDate(form["date"]).None? ==> d == today
  {
    ParseIsoFormat(today);
    match ParseIsoDate(Get(form, "date", IsoFormat(today)))
    case Some(v) => v
    case None => today
  }

  /** A lecture field that holds no decimal digit reads as 0 lectures. */
  lemma NonNumericLecturesAreZero(form: Form, id: int)
    requires LecturesField(id) in form
    requires forall i :: 0 <= i < |form[LecturesField(id)]| ==> !IsDigit(form[LecturesField(id)][i])
    ensures ParsedLectures(form, id) == 0
  {
    ParseIntNeedsDigit(form[LecturesField(id)]);
  }

  /** A lecture field of plain digits reads as their value. */
  lemma DigitLecturesAreRead(form: Form, id: int)
    requires LecturesField(id) in form
    requires |form[LecturesField(id)]| > 0 && AllDigits(form[LecturesField(id)])
    ensures ParsedLectures(form, id) == DigitsValue(form[LecturesField(id)])
  {
    ParseDigits(form[LecturesField(id)]);
  }

  /** `int()` accepts a minus sign, so a negative count is stored as it is. */
  lemma NegativeLecturesAreKept(form: Form, id: int, d: string)
    requires |d| > 0 && AllDigits(d) && DigitsValue(d) > 0
    requires LecturesField(id) in form && form[LecturesField(id)] == "-" + d
    ensures ParsedLectures(form, id) == -(DigitsValue(d) as int) < 0
  {
    ParseNegativeDigits(d);
  }

  // ---------------------------------------------------------------- writing the ledger

  /** `m[k]` when there is a record at `k`. */
  function Entry(m: Ledger, k: Key): Option<Attendance>
  {
    if k in m then Some(m[k]) else None
  }

  /** Two ledgers with the same entry at every key are equal. */
  lemma LedgerExtensionality(a: Ledger, b: Ledger)
    requires forall k :: Entry(a, k) == Entry(b, k)
    ensures a == b
  {
    assert forall k :: k in a <==> k in b by {
      forall k ensures k in a <==> k in b {
        assert Entry(a, k).Some? == Entry(b, k).Some?;
      }
    }
    forall k | k in a ensures a[k] == b[k] {
      assert Entry(a, k) == Entry(b, k);
    }
  }

  /** The write for one subject: a count of 0 deletes the record, an existing record has its
      lecture counts overwritten (its `is_present` flag is left alone), and otherwise a new
      record is added whose flag takes the column default, true. */
  function MarkOne(m: Ledger, k: Key, total: int, present: int): (r: Ledger)
    ensures total == 0 ==> k !in r
    ensures total != 0 ==> k in r && r[k].lecturesTotal == total && r[k].lecturesPresent == present
    ensures total != 0 ==> r[k].isPresent == (k !in m || m[k].isPresent)
    ensures forall k' :: k' != k ==> Entry(r, k') == Entry(m, k')
  {
    if total == 0 then m - {k}
    else if k in m then m[k := m[k].(lecturesTotal := total, lecturesPresent := present)]
    else m[k := Attendance(true, total, present)]
  }

  /** What the form asks to write for one subject: the subject id, the lecture count and the
      lectures attended. */
  datatype SubjectMark = SubjectMark(subject: int, total: int, present: int)

  /** The marking form read for subject `s`. */
  function MarkOf(form: Form, s: Subject): (mk: SubjectMark)
    ensures mk.subject == s.id && mk.total == ParsedLectures(form, s.id)
    ensures mk.present == PresentCount(StatusOf(form, s.id), mk.total)
    ensures mk.present == 0 || mk.present == mk.total
    ensures mk.total == 0 ==> mk.present == 0
  {
    var total := ParsedLectures(form, s.id);
    SubjectMark(s.id, total, PresentCount(StatusOf(form, s.id), total))
  }

  /** A subject whose status field is missing counts as present: every lecture attended.
      Any status other than exactly "present" counts as absent. */
  lemma MissingStatusIsPresent(form: Form, s: Subject)
    ensures StatusField(s.id) !in form ==> MarkOf(form, s).present == MarkOf(form, s).total
    ensures StatusField(s.id) in form && form[StatusField(s.id)] != "present" ==> MarkOf(form, s).present == 0
    ensures MarkOf(form, s).present == MarkOf(form, s).total <==>
      StatusOf(form, s.id) == "present" || MarkOf(form, s).total == 0
  {
  }

  /** The marking form read for every subject, in order. */
  function FormMarks(form: Form, subjects: seq<Subject>): (ms: seq<SubjectMark>)
    ensures |ms| == |subjects|
    ensures forall i :: 0 <= i < |subjects| ==> ms[i] == MarkOf(form, subjects[i])
  {
    seq(|subjects|, i requires 0 <= i < |subjects| => MarkOf(form, subjects[i]))
  }

  /** One subject's write at `date` for `user`. */
  function MarkSubject(m: Ledger, user: int, date: Date, mk: SubjectMark): Ledger
  {
    MarkOne(m, Key(user, mk.subject, date), mk.total, mk.present)
  }

  /** The writes applied in order. */
  function ApplyMarks(m: Ledger, user: int, date: Date, ms: seq<SubjectMark>): Ledger
  {
    if ms == [] then m
    else MarkSubject(ApplyMarks(m, user, date, ms[..|ms| - 1]), user, date, ms[|ms| - 1])
  }

  /** Applying one more write of a list. */
  lemma ApplyMarksPrefix(m: Ledger, user: int, date: Date, ms: seq<SubjectMark>, i: nat)
    requires i < |ms|
    ensures ApplyMarks(m, user, date, ms[..i + 1])
         == MarkSubject(ApplyMarks(m, user, date, ms[..i]), user, date, ms[i])
  {
    assert ms[..i + 1][..i] == ms[..i];
  }

  /** The subject ids, in order. */
  function Ids(subjects: seq<Subject>): (ids: seq<int>)
    ensures |ids| == |subjects|
    ensures forall i :: 0 <= i < |subjects| ==> ids[i] == subjects[i].id
  {
    if subjects == [] then [] else Ids(subjects[..|subjects| - 1]) + [subjects[|subjects| - 1].id]
  }

  /** The subject ids of a list of writes, in order. */
  function MarkIds(ms: seq<SubjectMark>): (ids: seq<int>)
    ensures |ids| == |ms|
    ensures forall i :: 0 <= i < |ms| ==> ids[i] == ms[i].subject
  {
    if ms == [] then [] else MarkIds(ms[..|ms| - 1]) + [ms[|ms| - 1].subject]
  }

  /** No two subjects share an id. */
  predicate UniqueIds(subjects: seq<Subject>)
  {
    forall i, j :: 0 <= i < j < |subjects| ==> subjects[i].id != subjects[j].id
  }

  lemma UniqueIdsDistinct(subjects: seq<Subject>)
    requires UniqueIds(subjects)
    ensures Distinct(Ids(subjects))
  {
  }

  /** The form writes one entry per subject under that subject's id. */
  lemma FormMarksIds(form: Form, subjects: seq<Subject>)
    ensures MarkIds(FormMarks(form, subjects)) == Ids(subjects)
  {
  }

  /** A count of 0 deletes the record and nothing else. */
  lemma ZeroDeletes(m: Ledger, k: Key, present: int)
    requires k in m
    ensures MarkOne(m, k, 0, present) == m - {k}
    ensures |MarkOne(m, k, 0, present)| == |m| - 1
  {
  }

  /** A first mark adds exactly one record. */
  lemma FirstMarkAddsOne(m: Ledger, k: Key, total: int, present: int)
    requires k !in m && total != 0
    ensures |MarkOne(m, k, total, present)| == |m| + 1
  {
    assert MarkOne(m, k, total, present).Keys == m.Keys + {k};
  }

  /** Marking the same key again overwrites the counts: they are not added up. */
  lemma RemarkOverwrites(m: Ledger, k: Key, t1: int, p1: int, t2: int, p2: int)
    requires t1 != 0 && t2 != 0
    ensures var r := MarkOne(MarkOne(m, k, t1, p1), k, t2, p2);
      |r| == |MarkOne(m, k, t1, p1)| && r == MarkOne(m, k, t2, p2)
  {
    var a := MarkOne(m, k, t1, p1);
    assert a.Keys == MarkOne(a, k, t2, p2).Keys;
    LedgerExtensionality(MarkOne(a, k, t2, p2), MarkOne(m, k, t2, p2));
  }

  /** Outside `user`'s records on `date` in the written subjects, marking changes nothing. */
  lemma {:induction false} ApplyMarksElsewhere(m: Ledger, user: int, date: Date, ms: seq<SubjectMark>, k: Key)
    requires k.user != user || k.date != date || k.subject !in MarkIds(ms)
    ensures Entry(ApplyMarks(m, user, date, ms), k) == Entry(m, k)
  {
    if ms != [] {
      var init := ms[..|ms| - 1];
      assert MarkIds(ms) == MarkIds(init) + [ms[|ms| - 1].subject];
      ApplyMarksElsewhere(m, user, date, init, k);
    }
  }

  /** With distinct subject ids, the record written for entry `i` is what that write alone
      leaves. */
  lemma {:induction false} ApplyMarksAt(m: Ledger, user: int, date: Date, ms: seq<SubjectMark>, i: nat)
    requires Distinct(MarkIds(ms)) && i < |ms|
    ensures var k := Key(user, ms[i].subject, date);
      Entry(ApplyMarks(m, user, date, ms), k) == Entry(MarkSubject(m, user, date, ms[i]), k)
  {
    var n := |ms| - 1;
    var init := ms[..n];
    assert MarkIds(init) == MarkIds(ms)[..n];
    var k := Key(user, ms[i].subject, date);
    if i == n {
      assert k.subject !in MarkIds(init);
      ApplyMarksElsewhere(m, user, date, init, k);
    } else {
      assert ms[n].subject != ms[i].subject by {
        assert MarkIds(ms)[i] != MarkIds(ms)[n];
      }
      ApplyMarksAt(m, user, date, init, i);
    }
  }

  /** What a one-subject write leaves at its key depends only on the entry there before, and
      writing it twice leaves it as one write does. */
  lemma MarkSubjectTwice(m1: Ledger, m2: Ledger, user: int, date: Date, mk: SubjectMark)
    requires Entry(m1, Key(user, mk.subject, date)) == Entry(MarkSubject(m2, user, date, mk), Key(user, mk.subject, date))
    ensures var k := Key(user, mk.subject, date);
      Entry(MarkSubject(m1, user, date, mk), k) == Entry(MarkSubject(m2, user, date, mk), k)
  {
    var k := Key(user, mk.subject, date);
    var one := MarkSubject(m2, user, date, mk);
    assert k in m1 <==> k in one by {
      assert Entry(m1, k).Some? == Entry(one, k).Some?;
    }
  }

  /** The record written for entry `i` is the same after one submission and after two. */
  lemma ApplyMarksTwiceAt(m: Ledger, user: int, date: Date, ms: seq<SubjectMark>, i: nat)
    requires Distinct(MarkIds(ms)) && i < |ms|
    ensures var once := ApplyMarks(m, user, date, ms);
      var k := Key(user, ms[i].subject, date);
      Entry(ApplyMarks(once, user, date, ms), k) == Entry(once, k)
  {
    var once := ApplyMarks(m, user, date, ms);
    ApplyMarksAt(once, user, date, ms, i);
    ApplyMarksAt(m, user, date, ms, i);
    MarkSubjectTwice(once, m, user, date, ms[i]);
  }

  /** Submitting the same marking form twice leaves the ledger as one submission does. */
  lemma ApplyMarksIdempotent(m: Ledger, user: int, date: Date, ms: seq<SubjectMark>)
    requires Distinct(MarkIds(ms))
    ensures ApplyMarks(ApplyMarks(m, user, date, ms), user, date, ms) == ApplyMarks(m, user, date, ms)
  {
    var once := ApplyMarks(m, user, date, ms);
    var twice := ApplyMarks(once, user, date, ms);
    forall k ensures Entry(twice, k) == Entry(once, k) {
      if k.user == user && k.date == date && k.subject in MarkIds(ms) {
        var i :| 0 <= i < |ms| && MarkIds(ms)[i] == k.subject;
        ApplyMarksTwiceAt(m, user, date, ms, i);
      } else {
        ApplyMarksElsewhere(once, user, date, ms, k);
      }
    }
    LedgerExtensionality(twice, once);
  }

  /** Every record has its `is_present` flag set. */
  predicate AllFlagged(m: Ledger)
  {
    forall k :: k in m ==> m[k].isPresent
  }

  lemma MarkOneKeepsFlags(m: Ledger, k: Key, total: int, present: int)
    requires AllFlagged(m)
    ensures AllFlagged(MarkOne(m, k, total, present))
  {
    var r := MarkOne(m, k, total, present);
    forall k' | k' in r ensures r[k'].isPresent {
      if k' != k {
        assert Entry(r, k') == Entry(m, k');
      }
    }
  }

  /** Marking never clears an `is_present` flag: a ledger whose flags are all set keeps them so. */
  lemma {:induction false} ApplyMarksKeepsFlags(m: Ledger, user: int, date: Date, ms: seq<SubjectMark>)
    requires AllFlagged(m)
    ensures AllFlagged(ApplyMarks(m, user, date, ms))
  {
    if ms != [] {
      var init := ms[..|ms| - 1];
      var mk := ms[|ms| - 1];
      ApplyMarksKeepsFlags(m, user, date, init);
      MarkOneKeepsFlags(ApplyMarks(m, user, date, init), Key(user, mk.subject, date), mk.total, mk.present);
    }
  }

  /** Every record that exists was written by the marking form, so every subject shows all its
      marked days as attended, "absent" ones included. */
  lemma MarkedLedgerShowsFullAttendance(m: Ledger, user: int, date: Date, ms: seq<SubjectMark>, s: Subject, u: int)
    requires AllFlagged(m)
    ensures var st := SubjectAttendance(ApplyMarks(m, user, date, ms), s, u);
      st.attended == st.totalMarked && (st.totalMarked > 0 ==> st.percentTenths == 1000)
  {
    ApplyMarksKeepsFlags(m, user, date, ms);
    AllFlaggedMeansFullAttendance(ApplyMarks(m, user, date, ms), s, u);
  }

  /** One subject marked absent for 3 lectures on an empty ledger still counts as one day
      attended out of one. */
  lemma AbsentMarkCountsAsAttended(s: Subject, user: int, date: Date)
    requires s.id == 1
    ensures var form := map["lectures_1" := "3", "status_1" := "absent"];
      var m := ApplyMarks(map[], user, date, FormMarks(form, [s]));
      Entry(m, Key(user, 1, date)) == Some(Attendance(true, 3, 0))
      && SubjectAttendance(m, s, user).attended == 1
      && SubjectAttendance(m, s, user).totalMarked == 1
  {
    var form := map["lectures_1" := "3", "status_1" := "absent"];
    assert IntToString(1) == "1";
    assert LecturesField(1) == "lectures_1" && StatusField(1) == "status_1";
    DigitLecturesAreRead(form, 1);
    assert DigitsValue("3") == 3;
    var ms := FormMarks(form, [s]);
    assert ms == [SubjectMark(1, 3, 0)];
    assert ms[..0] == [];
    var k := Key(user, 1, date);
    var m := MarkOne(map[], k, 3, 0);
    assert ApplyMarks(map[], user, date, ms) == m;
    assert m == map[k := Attendance(true, 3, 0)];
    assert MarkedKeys(m, user, 1) == {k};
    assert PresentKeys(m, user, 1) == {k};
  }

  // ---------------------------------------------------------------- settings

  /** The new target for a subject: `int()` of the field (the current value when missing),
      replaced by 40 when it raises or is below 1. */
  function NormalisedTotal(field: Option<string>, current: int): (n: int)
    ensures n >= 1
    ensures field.None? ==> n == (if current >= 1 then current else 40)
    ensures field.Some? && ParseInt(field.value).Some? && ParseInt(field.value).value >= 1 ==> n == ParseInt(field.value).value
    ensures field.Some? && (ParseInt(field.value).None? || ParseInt(field.value).value < 1) ==> n == 40
  {
    var parsed := if field.Some? then ParseInt(field.value) else Some(current);
    match parsed
    case Some(v) => if v < 1 then 40 else v
    case None => 40
  }

  /** Submitting a stored target unchanged keeps it. */
  lemma ResubmittedTotalKept(n: int, current: int)
    requires n >= 1
    ensures NormalisedTotal(Some(IntToString(n)), current) == n
  {
    ParseIntToString(n);
  }

  /** Submitting the settings form again with what it stored changes nothing. */
  lemma NormalisedTotalIdempotent(field: Option<string>, current: int, later: int)
    ensures var n := NormalisedTotal(field, current); NormalisedTotal(Some(IntToString(n)), later) == n
  {
    ResubmittedTotalKept(NormalisedTotal(field, current), later);
  }

  /** The new target of every subject, as the settings form gives it. */
  function FormTotals(form: Form, subjects: seq<Subject>): (ts: seq<int>)
    ensures |ts| == |subjects|
    ensures forall i :: 0 <= i < |subjects| ==>
      ts[i] == NormalisedTotal(Lookup(form, LecturesField(subjects[i].id)), subjects[i].totalLectures)
    ensures forall i :: 0 <= i < |ts| ==> ts[i] >= 1
  {
    seq(|subjects|, i requires 0 <= i < |subjects| =>
      NormalisedTotal(Lookup(form, LecturesField(subjects[i].id)), subjects[i].totalLectures))
  }

  /** The subjects with their targets replaced, ids and names kept. */
  function Retargeted(subjects: seq<Subject>, ts: seq<int>): (r: seq<Subject>)
    requires |ts| == |subjects|
    ensures |r| == |subjects|
    ensures forall i :: 0 <= i < |r| ==> r[i].id == subjects[i].id && r[i].name == subjects[i].name
    ensures forall i :: 0 <= i < |r| ==> r[i].totalLectures == ts[i]
  {
    seq(|subjects|, i requires 0 <= i < |subjects| => subjects[i].(totalLectures := ts[i]))
  }

  /** The loop of `settings`: each subject's total is replaced by the normalised value of its
      form field, in list order. */
  method RetargetAll(form: Form, subjects: seq<Subject>) returns (r: seq<Subject>)
    ensures r == Retargeted(subjects, FormTotals(form, subjects))
  {
    ghost var ts := FormTotals(form, subjects);
    ghost var target := Retargeted(subjects, ts);
    r := subjects;
    var i := 0;
    while i < |r|
      invariant 0 <= i <= |r| == |subjects|
      invariant forall j :: 0 <= j < i ==> r[j] == target[j]
      invariant forall j :: i <= j < |r| ==> r[j] == subjects[j]
    {
      var s := r[i];
      var n := NormalisedTotal(Lookup(form, LecturesField(s.id)), s.totalLectures);
      assert n == ts[i];
      assert s.(totalLectures := n) == target[i];
      r := r[i := s.(totalLectures := n)];
      i := i + 1;
    }
    assert r == target;
  }

  /** Changing totals keeps the subject ids, so they stay unique. */
  lemma RetargetedKeepsIds(subjects: seq<Subject>, ts: seq<int>)
    requires |ts| == |subjects| && UniqueIds(subjects)
    ensures UniqueIds(Retargeted(subjects, ts))
  {
  }

  // ---------------------------------------------------------------- registration

  /** Python's `lower()` on ASCII letters. */
  function AsciiLower(s: string): (r: string)
    ensures |r| == |s|
    ensures forall i :: 0 <= i < |s| ==> r[i] == (if 'A' <= s[i] <= 'Z' then (s[i] as int + 32) as char else s[i])
    ensures forall i :: 0 <= i < |r| ==> !('A' <= r[i] <= 'Z')
  {
    seq(|s|, i requires 0 <= i < |s| => if 'A' <= s[i] <= 'Z' then (s[i] as int + 32) as char else s[i])
  }

  /** Lower-casing twice is lower-casing once, so a stored address is already in the form a
      later registration compares against. */
  lemma AsciiLowerIdempotent(s: string)
    ensures AsciiLower(AsciiLower(s)) == AsciiLower(s)
  {
  }

  /** Addresses that differ only in the case of ASCII letters are taken to be the same. */
  lemma AsciiLowerIgnoresCase(s: string, t: string)
    requires |s| == |t|
    requires forall i :: 0 <= i < |s| ==> s[i] == t[i] || AsciiLower([s[i]]) == AsciiLower([t[i]])
    ensures AsciiLower(s) == AsciiLower(t)
  {
    forall i | 0 <= i < |s| ensures AsciiLower(s)[i] == AsciiLower(t)[i] {
      assert AsciiLower([s[i]])[0] == AsciiLower(s)[i];
      assert AsciiLower([t[i]])[0] == AsciiLower(t)[i];
    }
  }

  /** Why a registration is refused, in the order the handler checks. */
  datatype RegistrationError = MissingField | PasswordMismatch | PasswordTooShort | ErpTaken | EmailTaken

  function FormName(form: Form): string { Strip(Get(form, "name", "")) }
  function FormUsername(form: Form): string { Strip(Get(form, "username", "")) }
  function FormEmail(form: Form): string { AsciiLower(Strip(Get(form, "email", ""))) }
  function FormPassword(form: Form): string { Get(form, "password", "") }

  predicate UsernameTaken(users: seq<User>, username: string)
  {
    exists i :: 0 <= i < |users| && users[i].username == username
  }

  predicate EmailTakenBy(users: seq<User>, email: string)
  {
    exists i :: 0 <= i < |users| && users[i].email == email
  }

  /** The checks of the registration handler: the account it would create, or the first check
      that fails. */
  function CheckRegistration(form: Form, users: seq<User>): (r: Result<User, RegistrationError>)
    ensures r.Ok? ==> r.value == User(FormName(form), FormUsername(form), FormEmail(form))
    ensures r.Ok? ==> !UsernameTaken(users, r.value.username) && !EmailTakenBy(users, r.value.email)
  {
    CheckFields(FormName(form), FormUsername(form), FormEmail(form), FormPassword(form), Get(form, "confirm_password", ""), users)
  }

  /** The registration checks on the cleaned field values, in the handler's order. */
  function CheckFields(name: string, username: string, email: string, password: string, confirm: string, users: seq<User>): (r: Result<User, RegistrationError>)
    ensures r.Ok? ==> r.value == User(name, username, email)
    ensures r.Ok? ==> !UsernameTaken(users, username) && !EmailTakenBy(users, email)
  {
    if name == [] || username == [] || email == [] || password == [] then Err(MissingField)
    else if password != confirm then Err(PasswordMismatch)
    else if |password| < 6 then Err(PasswordTooShort)
    else if UsernameTaken(users, username) then Err(ErpTaken)
    else if EmailTakenBy(users, email) then Err(EmailTaken)
    else Ok(User(name, username, email))
  }

  /** A registration is accepted exactly when every field is filled in, the two passwords
      agree, the password has at least 6 characters and neither the ERP number nor the e-mail
      address is registered yet. */
  lemma RegistrationAccepted(form: Form, users: seq<User>)
    ensures CheckRegistration(form, users).Ok? <==>
      && FormName(form) != [] && FormUsername(form) != [] && FormEmail(form) != [] && FormPassword(form) != []
      && FormPassword(form) == Get(form, "confirm_password", "")
      && |FormPassword(form)| >= 6
      && !UsernameTaken(users, FormUsername(form))
      && !EmailTakenBy(users, FormEmail(form))
  {
  }

  /** Every field of the registration form is filled in (after stripping). */
  predicate Filled(form: Form)
  {
    FormName(form) != [] && FormUsername(form) != [] && FormEmail(form) != [] && FormPassword(form) != []
  }

  /** The checks come in the handler's order: each refusal is given exactly when its own check
      fails and every earlier one passes (missing field, password mismatch, short password,
      ERP number taken, e-mail address taken). */
  lemma RegistrationErrorOrder(form: Form, users: seq<User>)
    ensures CheckRegistration(form, users) == Err(MissingField) <==> !Filled(form)
    ensures CheckRegistration(form, users) == Err(PasswordMismatch) <==>
      Filled(form) && FormPassword(form) != Get(form, "confirm_password", "")
    ensures CheckRegistration(form, users) == Err(PasswordTooShort) <==>
      Filled(form) && FormPassword(form) == Get(form, "confirm_password", "") && |FormPassword(form)| < 6
    ensures CheckRegistration(form, users) == Err(ErpTaken) <==>
      Filled(form) && FormPassword(form) == Get(form, "confirm_password", "") && |FormPassword(form)| >= 6
      && UsernameTaken(users, FormUsername(form))
    ensures CheckRegistration(form, users) == Err(EmailTaken) <==>
      Filled(form) && FormPassword(form) == Get(form, "confirm_password", "") && |FormPassword(form)| >= 6
      && !UsernameTaken(users, FormUsername(form)) && EmailTakenBy(users, FormEmail(form))
  {
  }

  /** No two accounts share an ERP number or an e-mail address. */
  predicate UniqueAccounts(users: seq<User>)
  {
    forall i, j :: 0 <= i < j < |users| ==> users[i].username != users[j].username && users[i].email != users[j].email
  }

  /** An account whose ERP number and e-mail address are both new keeps accounts unique. */
  lemma AppendKeepsUnique(users: seq<User>, u: User)
    requires UniqueAccounts(users) && !UsernameTaken(users, u.username) && !EmailTakenBy(users, u.email)
    ensures UniqueAccounts(users + [u])
  {
    var all := users + [u];
    forall i, j | 0 <= i < j < |all| ensures all[i].username != all[j].username && all[i].email != all[j].email {
      assert all[i] == users[i];
      if j < |users| {
        assert all[j] == users[j];
      }
    }
  }

  /** An accepted registration keeps accounts unique. */
  lemma RegistrationKeepsUnique(form: Form, users: seq<User>)
    requires UniqueAccounts(users) && CheckRegistration(form, users).Ok?
    ensures UniqueAccounts(users + [CheckRegistration(form, users).value])
  {
    AppendKeepsUnique(users, CheckRegistration(form, users).value);
  }

  /** Registering twice with the same form is refused the second time. */
  lemma SecondRegistrationRefused(form: Form, users: seq<User>)
    requires CheckRegistration(form, users).Ok?
    ensures CheckRegistration(form, users + [CheckRegistration(form, users).value]) == Err(ErpTaken)
  {
    RegistrationAccepted(form, users);
    var u := CheckRegistration(form, users).value;
    var all := users + [u];
    assert all[|users|].username == FormUsername(form);
    assert UsernameTaken(all, FormUsername(form));
  }

  // ---------------------------------------------------------------- the database

  /** A row of the dashboard's subject list. */
  datatype SubjectRow = SubjectRow(id: int, name: string, stats: SubjectStats, markedToday: bool, todayPresent: int, todayTotal: int)

  /** The dashboard row of `s` for `user` on `today`. */
  function RowFor(m: Ledger, s: Subject, user: int, today: Date): (row: SubjectRow)
    ensures row.id == s.id && row.name == s.name && row.stats == SubjectAttendance(m, s, user)
    ensures row.markedToday <==> Key(user, s.id, today) in m
    ensures !row.markedToday ==> row.todayPresent == 0 && row.todayTotal == 0
    ensures row.markedToday ==>
      row.todayPresent == m[Key(user, s.id, today)].lecturesPresent && row.todayTotal == m[Key(user, s.id, today)].lecturesTotal
  {
    var k := Key(user, s.id, today);
    SubjectRow(s.id, s.name, SubjectAttendance(m, s, user), k in m,
               if k in m then m[k].lecturesPresent else 0,
               if k in m then m[k].lecturesTotal else 0)
  }

  class Database {
    var subjects: seq<Subject>
    var users: seq<User>
    var attendance: Ledger

    /** Subject ids are primary keys and accounts are unique. */
    predicate Valid()
      reads this
    {
      UniqueIds(subjects) && UniqueAccounts(users)
    }

    constructor(initial: seq<Subject>)
      requires UniqueIds(initial)
      ensures Valid()
      ensures subjects == initial && users == [] && attendance == map[]
    {
      subjects := initial;
      users := [];
      attendance := map[];
    }

    /** `mark_attendance` on POST: every subject's field is applied to the ledger at the
        submitted date, in the order of the subjects. */
    method MarkAttendance(user: int, form: Form, today: Date) returns (day: Date)
      requires Valid() && IsValid(today)
      modifies this`attendance
      ensures Valid()
      ensures day == SubmittedDate(form, today)
      ensures attendance == ApplyMarks(old(attendance), user, day, FormMarks(form, subjects))
    {
      day := SubmittedDate(form, today);
      ghost var ms := FormMarks(form, subjects);
      var i := 0;
      while i < |subjects|
        invariant 0 <= i <= |subjects|
        invariant attendance == ApplyMarks(old(attendance), user, day, ms[..i])
      {
        var s := subjects[i];
        var total := ParsedLectures(form, s.id);
        var present := PresentCount(StatusOf(form, s.id), total);
        WriteMark(Key(user, s.id, day), total, present);
        ApplyMarksPrefix(old(attendance), user, day, ms, i);
        i := i + 1;
      }
      assert ms[..i] == ms;
    }

    /** The write for one subject: the record at `k` is deleted, updated in place or added. */
    method WriteMark(k: Key, total: int, present: int)
      modifies this`attendance
      ensures attendance == MarkOne(old(attendance), k, total, present)
    {
      if total == 0 {
        if k in attendance {
          attendance := attendance - {k};
        }
      } else if k in attendance {
        attendance := attendance[k := attendance[k].(lecturesTotal := total, lecturesPresent := present)];
      } else {
        attendance := attendance[k := Attendance(true, total, present)];
      }
    }

    /** `dashboard`: a row per subject and the totals over them, with the overall percentage
        rounded to one decimal. */
    method Dashboard(user: int, today: Date) returns (rows: seq<SubjectRow>, totalAttended: nat, totalClasses: nat, overallTenths: nat)
      requires Valid()
      ensures |rows| == |subjects|
      ensures forall i :: 0 <= i < |rows| ==> rows[i] == RowFor(attendance, subjects[i], user, today)
      ensures totalAttended == PresentAcross(attendance, user, Ids(subjects))
      ensures totalClasses == MarkedAcross(attendance, user, Ids(subjects))
      ensures totalAttended <= totalClasses && overallTenths <= 1000
      ensures overallTenths == PercentTenths(totalAttended, totalClasses)
      ensures (forall k :: k in attendance && k.user == user ==> k.subject in Ids(subjects)) ==>
        totalClasses == AttendanceStats(attendance, user, None).total
        && totalAttended == AttendanceStats(attendance, user, None).present
    {
      var m, subs := attendance, subjects;
      var ids := Ids(subs);
      rows := [];
      totalAttended, totalClasses := 0, 0;
      var i := 0;
      while i < |subs|
        invariant 0 <= i <= |subs|
        invariant |rows| == i
        invariant forall j :: 0 <= j < i ==> rows[j] == RowFor(m, subs[j], user, today)
        invariant totalAttended == PresentAcross(m, user, ids[..i])
        invariant totalClasses == MarkedAcross(m, user, ids[..i])
      {
        var row := RowFor(m, subs[i], user, today);
        rows := rows + [row];
        AcrossPrefix(m, user, ids, i);
        totalAttended := totalAttended + row.stats.attended;
        totalClasses := totalClasses + row.stats.totalMarked;
        i := i + 1;
      }
      assert ids[..i] == ids;
      UniqueIdsDistinct(subs);
      PresentAcrossAtMost(m, user, ids);
      overallTenths := PercentTenths(totalAttended, totalClasses);
      if forall k :: k in m && k.user == user ==> k.subject in ids {
        SubjectTotalsMatchUserTotals(m, user, ids);
      }
    }

    /** `settings` on POST: a form with a "current_password" field changes the password, which
        is not modelled, and leaves the subjects alone; any other form retargets every subject. */
    method UpdateSettings(form: Form)
      requires Valid()
      modifies this`subjects
      ensures Valid()
      ensures "current_password" in form ==> subjects == old(subjects)
      ensures "current_password" !in form ==> subjects == Retargeted(old(subjects), FormTotals(form, old(subjects)))
    {
      if "current_password" in form {
        return;
      }
      var r := RetargetAll(form, subjects);
      RetargetedKeepsIds(subjects, FormTotals(form, subjects));
      subjects := r;
    }

    /** `register` on POST: the account is added when every check passes. */
    method Register(form: Form) returns (r: Result<User, RegistrationError>)
      requires Valid()
      modifies this`users
      ensures Valid()
      ensures r == CheckRegistration(form, old(users))
      ensures r.Ok? ==> users == old(users) + [r.value]
      ensures r.Err? ==> users == old(users)
    {
      var name, username, email := FormName(form), FormUsername(form), FormEmail(form);
      var password, confirm := FormPassword(form), Get(form, "confirm_password", "");
      r := CheckFields(name, username, email, password, confirm, users);
      if r.Ok? {
        var u := r.value;
        AppendKeepsUnique(users, u);
        users := users + [u];
        assert UniqueIds(subjects) && UniqueAccounts(users);
      }
    }
  }
}
