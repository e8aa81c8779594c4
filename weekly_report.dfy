/**
  The weekly attendance report e-mail: the per-subject badge and percentage, the subject rows
  of the report table, the header mood chosen from the weekly percentage, the subject lines
  handed to the summary generator, and the rule that the summary box appears only when a
  non-empty summary came back.
 */
module WeeklyReport {
  import opened Wrappers
  import opened PyText

  /** One entry of the report's subject list: a name with attended and total lecture counts. */
  datatype SubjectData = SubjectData(name: string, attended: int, total: int)

  // ---------------------------------------------------------------- badge and percentage

  datatype Badge = Green | Amber | Red

  /** Green when every lecture was attended (and there was one), otherwise amber when at least
      one was, otherwise red. */
  function BadgeFor(attended: int, total: int): (b: Badge)
  {
    if attended == total && total > 0 then Green
    else if attended > 0 then Amber
    else Red
  }

  predicate IsHexDigit(ch: char)
  {
    '0' <= ch <= '9' || 'a' <= ch <= 'f'
  }

  /** A CSS colour written `#rrggbb` in lower-case hexadecimal. */
  predicate IsHexColour(c: string)
  {
    |c| == 7 && c[0] == '#' && forall i :: 1 <= i < 7 ==> IsHexDigit(c[i])
  }

  /** The badge's `status_color`. */
  function BadgeColour(b: Badge): (c: string)
    ensures IsHexColour(c)
  {
    match b
    case Green => "#10b981"
    case Amber => "#f59e0b"
    case Red => "#ef4444"
  }

  /** The row's colour as the report's conditional expression picks it: green #10b981 exactly
      when everything was attended and there was a lecture, amber #f59e0b otherwise when
      something was attended, red #ef4444 otherwise; the three badges have different colours. */
  lemma StatusColour(attended: int, total: int)
    ensures BadgeColour(BadgeFor(attended, total)) == "#10b981" <==> attended == total && total > 0
    ensures BadgeColour(BadgeFor(attended, total)) == "#f59e0b" <==> !(attended == total && total > 0) && attended > 0
    ensures BadgeColour(BadgeFor(attended, total)) == "#ef4444" <==> !(attended == total && total > 0) && attended <= 0
    ensures forall b1: Badge, b2: Badge :: b1 != b2 ==> BadgeColour(b1) != BadgeColour(b2)
  {
    assert "#10b981"[1] != "#f59e0b"[1] && "#10b981"[1] != "#ef4444"[1] && "#f59e0b"[1] != "#ef4444"[1];
  }

  /** `int(attended / total * 100) if total > 0 else 0`, computed exactly: the quotient
      truncated toward zero, as `int()` truncates a float. */
  function IntPercent(attended: int, total: int): (p: int)
    ensures total <= 0 ==> p == 0
    ensures total > 0 && attended >= 0 ==> 0 <= p && p * total <= 100 * attended < (p + 1) * total
    ensures total > 0 && attended < 0 ==> p <= 0 && -p * total <= -100 * attended < (-p + 1) * total
  {
    if total <= 0 then 0
    else if attended >= 0 then
      QuotientBounds(100 * attended, total);
      (100 * attended) / total
    else
      QuotientBounds(-100 * attended, total);
      -((-100 * attended) / total)
  }

  /** The floor quotient of a natural number lies between the two neighbouring multiples. */
  lemma QuotientBounds(n: nat, d: int)
    requires d > 0
    ensures 0 <= n / d && (n / d) * d <= n < (n / d + 1) * d
  {
    assert n == d * (n / d) + n % d;
    assert (n / d + 1) * d == (n / d) * d + d;
  }

  /** With no more attended than held lectures the percentage is between 0 and 100, and it is
      100 exactly when all of at least one lecture were attended. */
  lemma PercentInRange(attended: int, total: int)
    requires 0 <= attended <= total
    ensures 0 <= IntPercent(attended, total) <= 100
    ensures IntPercent(attended, total) == 100 <==> attended == total && total > 0
  {
    if total > 0 {
      PercentBounds(IntPercent(attended, total), attended, total);
    }
  }

  /** A truncated percentage of at most the whole is at most 100, and 100 only for the whole. */
  lemma PercentBounds(p: int, part: int, whole: int)
    requires 0 <= part <= whole && 0 <= p
    requires p * whole <= 100 * part < (p + 1) * whole
    ensures p <= 100 && (p == 100 <==> part == whole)
  {
    MultiplesOrdered(p, 101, whole);
    if part < whole {
      MultiplesOrdered(p, 100, whole);
    } else {
      MultiplesOrdered(100, p + 1, whole);
    }
  }

  /** Multiplying by a positive number keeps the order of two numbers. */
  lemma MultiplesOrdered(a: int, b: int, d: int)
    requires d > 0
    ensures a >= b ==> a * d >= b * d
  {
    if a >= b {
      assert a * d == b * d + (a - b) * d;
    }
  }

  /** The badge agrees with the percentage shown beside it: green exactly at 100%, red exactly
      when nothing was attended (so 0%), amber otherwise and then below 100%. */
  lemma BadgeMatchesPercent(attended: int, total: int)
    requires 0 <= attended <= total
    ensures BadgeFor(attended, total) == Green <==> IntPercent(attended, total) == 100
    ensures BadgeFor(attended, total) == Red <==> attended == 0
    ensures BadgeFor(attended, total) == Red ==> IntPercent(attended, total) == 0
    ensures BadgeFor(attended, total) == Amber ==> 0 <= IntPercent(attended, total) < 100
  {
    PercentInRange(attended, total);
  }

  // ---------------------------------------------------------------- subject rows

  /** One table row of the report, exactly as the template lays it out. */
  function RowHtml(d: SubjectData): (r: string)
  {
    var colour := BadgeColour(BadgeFor(d.attended, d.total));
    "\n            <tr class=\"subject-row\">\n                <td class=\"subject-name\">" + d.name
    + "</td>\n                <td align=\"right\">\n                    <div class=\"subject-stats\">\n"
    + "                        <span class=\"fraction\">" + IntToString(d.attended) + "/" + IntToString(d.total)
    + "</span>\n                        <span class=\"badge\" style=\"background-color: " + colour
    + "22; color: " + colour + ";\">\n                            " + IntToString(IntPercent(d.attended, d.total))
    + "%\n                        </span>\n                    </div>\n                </td>\n            </tr>\n            "
  }

  /** The rendered rows of the subjects, one per subject in list order. */
  function Rows(render: SubjectData -> string, data: seq<SubjectData>): (r: string)
  {
    if data == [] then "" else Rows(render, data[..|data| - 1]) + render(data[|data| - 1])
  }

  /** The rows of two lists are the rows of the first followed by those of the second. */
  lemma {:induction false} RowsAppend(render: SubjectData -> string, a: seq<SubjectData>, b: seq<SubjectData>)
    ensures Rows(render, a + b) == Rows(render, a) + Rows(render, b)
    decreases |b|
  {
    if b != [] {
      var c := a + b;
      assert c[..|c| - 1] == a + b[..|b| - 1];
      assert c[|c| - 1] == b[|b| - 1];
      RowsAppend(render, a, b[..|b| - 1]);
    } else {
      assert a + b == a;
    }
  }

  /** `subject_rows`, built by appending the row of each subject in turn. */
  method SubjectRows(data: seq<SubjectData>) returns (html: string)
    ensures html == Rows(RowHtml, data)
  {
    html := AppendRows(RowHtml, data);
  }

  /** The loop of `subject_rows`, for any way of rendering one row. */
  method AppendRows(render: SubjectData -> string, data: seq<SubjectData>) returns (html: string)
    ensures html == Rows(render, data)
  {
    html := "";
    var i := 0;
    while i < |data|
      invariant i <= |data|
      invariant html == Rows(render, data[..i])
    {
      assert data[..i + 1][..i] == data[..i];
      html := html + render(data[i]);
      i := i + 1;
    }
    assert data[..i] == data;
  }

  // ---------------------------------------------------------------- mood

  datatype Mood = Amazing | Good | Watch | Critical

  /** The header tier for the weekly percentage: 90 and above, 75 and above, 60 and above,
      and the rest. */
  function MoodFor(weekly: int): (m: Mood)
  {
    if weekly >= 90 then Amazing
    else if weekly >= 75 then Good
    else if weekly >= 60 then Watch
    else Critical
  }

  /** The header's `header_color` for a tier. */
  function HeaderColour(m: Mood): (c: string)
    ensures IsHexColour(c)
  {
    match m
    case Amazing => "#10b981"
    case Good => "#3b82f6"
    case Watch => "#f59e0b"
    case Critical => "#ef4444"
  }

  function Message(m: Mood): string
  {
    match m
    case Amazing => "\U{1F31F} Amazing work! You're crushing it this week!"
    case Good => "\U{1F44D} Good job! Keep confident and consistent."
    case Watch => "\U{26A0}\U{FE0F} Keep an eye on your attendance. Every lecture counts!"
    case Critical => "\U{1F6A8} Critical: Your attendance was low this week. Please catch up!"
  }

  /** The header colour for a weekly percentage: green #10b981 from 90, blue #3b82f6 from 75,
      orange #f59e0b from 60, red #ef4444 below; the four tiers have different colours. */
  lemma HeaderColourBands(weekly: int)
    ensures HeaderColour(MoodFor(weekly)) == "#10b981" <==> 90 <= weekly
    ensures HeaderColour(MoodFor(weekly)) == "#3b82f6" <==> 75 <= weekly < 90
    ensures HeaderColour(MoodFor(weekly)) == "#f59e0b" <==> 60 <= weekly < 75
    ensures HeaderColour(MoodFor(weekly)) == "#ef4444" <==> weekly < 60
    ensures forall m1: Mood, m2: Mood :: m1 != m2 ==> HeaderColour(m1) != HeaderColour(m2)
  {
    assert "#10b981"[1] != "#3b82f6"[1] && "#10b981"[1] != "#f59e0b"[1] && "#10b981"[1] != "#ef4444"[1];
    assert "#3b82f6"[1] != "#f59e0b"[1] && "#3b82f6"[1] != "#ef4444"[1] && "#f59e0b"[1] != "#ef4444"[1];
  }

  /** The tiers from worst to best. */
  function Rank(m: Mood): (n: nat)
    ensures n <= 3
  {
    match m
    case Critical => 0
    case Watch => 1
    case Good => 2
    case Amazing => 3
  }

  /** Each tier covers one band of percentages. */
  lemma MoodBands(weekly: int)
    ensures MoodFor(weekly) == Amazing <==> 90 <= weekly
    ensures MoodFor(weekly) == Good <==> 75 <= weekly < 90
    ensures MoodFor(weekly) == Watch <==> 60 <= weekly < 75
    ensures MoodFor(weekly) == Critical <==> weekly < 60
  {
  }

  /** A higher weekly percentage never gives a worse tier. */
  lemma MoodMonotone(w1: int, w2: int)
    requires w1 <= w2
    ensures Rank(MoodFor(w1)) <= Rank(MoodFor(w2))
  {
  }

  // ---------------------------------------------------------------- summary

  /** The line describing one subject to the summary generator. */
  function DetailLine(d: SubjectData): (r: string)
    ensures '\n' !in d.name ==> '\n' !in r
  {
    IntToStringHasNoLineFeed(d.attended);
    IntToStringHasNoLineFeed(d.total);
    IntToStringHasNoLineFeed(IntPercent(d.attended, d.total));
    "- " + d.name + ": " + IntToString(d.attended) + "/" + IntToString(d.total) + " lectures ("
    + IntToString(IntPercent(d.attended, d.total)) + "%)"
  }

  lemma IntToStringHasNoLineFeed(n: int)
    ensures '\n' !in IntToString(n)
  {
    var m := if n < 0 then -n else n;
    var digits := NatToString(m);
    forall k | 0 <= k < |digits| ensures digits[k] != '\n' {
      assert IsDigit(digits[k]);
    }
    if n < 0 {
      assert IntToString(n) == "-" + digits;
    }
  }

  function DetailLines(data: seq<SubjectData>): (r: seq<string>)
    ensures |r| == |data|
    ensures forall i :: 0 <= i < |data| ==> r[i] == DetailLine(data[i])
  {
    seq(|data|, i requires 0 <= i < |data| => DetailLine(data[i]))
  }

  /** `subject_details`: the subject lines joined by line feeds. */
  function SubjectDetails(data: seq<SubjectData>): (r: string)
    ensures data == [] ==> r == ""
  {
    Join(DetailLines(data), "\n")
  }

  /** When no subject name holds a line feed, the details read back line by line as one line
      per subject, in list order. */
  lemma DetailsOnePerLine(data: seq<SubjectData>)
    requires |data| >= 1
    requires forall i :: 0 <= i < |data| ==> '\n' !in data[i].name
    ensures Split(SubjectDetails(data), "\n") == DetailLines(data)
  {
    var lines := DetailLines(data);
    forall k | 0 <= k < |lines| ensures '\n' !in lines[k] {
      assert lines[k] == DetailLine(data[k]);
    }
    SplitJoinChar(lines, '\n');
  }

  /** `generate_ai_summary` with its outside dependencies as parameters: whether the client
      library is installed, the `GEMINI_API_KEY` setting, and the model's reply (`None` when the
      call raised). The reply is stripped; any missing piece gives `None`. */
  function AiSummary(available: bool, apiKey: Option<string>, reply: Option<string>): (r: Option<string>)
    ensures !available || apiKey == None || apiKey == Some("") || reply == None ==> r == None
    ensures available && apiKey.Some? && apiKey.value != "" && reply.Some? ==> r == Some(Strip(reply.value))
    ensures r.Some? ==> r.value == Strip(reply.value)
  {
    if !available then None
    else if apiKey.None? || apiKey.value == "" then None
    else if reply.None? then None
    else Some(Strip(reply.value))
  }

  const AiOpen: string :=
    "\n                    <div class=\"ai-summary-box\">\n                        <div class=\"ai-header\">\n"
    + "                            <span class=\"ai-icon\">\U{2728}</span>\n"
    + "                            <span class=\"ai-title\">AI Insights</span>\n"
    + "                        </div>\n                        <p class=\"ai-text\">"
  const AiClose: string := "</p>\n                    </div>\n            "

  /** `ai_summary_html`: the summary box when the summary is truthy, i.e. present and not
      empty; otherwise nothing. */
  function AiBlock(summary: Option<string>): (html: string)
    ensures html != "" <==> summary.Some? && summary.value != ""
    ensures html != "" ==> Contains(html, summary.value)
  {
    if summary.Some? && summary.value != "" then
      var s := summary.value;
      assert OccursAt(s, s, 0);
      OccursInRight(AiOpen, s, s, 0);
      OccursInLeft(AiOpen + s, AiClose, s, |AiOpen|);
      ContainsAt(AiOpen + s + AiClose, s, |AiOpen|);
      AiOpen + s + AiClose
    else ""
  }

  /** The summary box is shown exactly when the library is there, a key is set, the call
      returned, and its reply is not blank. */
  lemma AiBlockShown(available: bool, apiKey: Option<string>, reply: Option<string>)
    ensures AiBlock(AiSummary(available, apiKey, reply)) != "" <==>
      available && apiKey.Some? && apiKey.value != "" && reply.Some? && Strip(reply.value) != ""
  {
  }
}
