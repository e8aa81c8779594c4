/**
  The announcement script: reading the subject and body out of the content file, and turning
  the plain-text body into the HTML paragraphs of the message.
 */
module ManualEmail {
  import opened Wrappers
  import opened PyText

  // ---------------------------------------------------------------- subject and body

  datatype EmailContent = EmailContent(subject: string, body: string)

  /** The content file's text is split at its first line feed (after stripping the whole text):
      the first line, stripped, is the subject; the rest, stripped, is the body, or "" when
      there is a single line. A missing file (`None`) or one holding only whitespace gives
      nothing to send. */
  function ReadEmailContent(file: Option<string>): (r: Option<EmailContent>)
    ensures r.None? <==> file.None? || forall i :: 0 <= i < |file.value| ==> IsPyWhitespace(file.value[i])
    ensures r.Some? ==> r.value.subject != [] && '\n' !in r.value.subject
    ensures r.Some? ==> Strip(r.value.subject) == r.value.subject && Strip(r.value.body) == r.value.body
  {
    if file.None? then None
    else
      var content := Strip(file.value);
      if content == [] then None else Some(SplitFirstLine(content))
  }

  /** `content.split('\n', 1)` followed by the stripping of each part. */
  function SplitFirstLine(content: string): (r: EmailContent)
    requires content != [] && !IsPyWhitespace(content[0])
    ensures r.subject != [] && '\n' !in r.subject
    ensures Strip(r.subject) == r.subject && Strip(r.body) == r.body
  {
    match FindFirst(content, "\n")
    case None =>
      StripKeepsFirst(content);
      StripIdempotent(content);
      NoLineFeedBefore(content, |content|);
      StripHasNo(content, '\n');
      EmailContent(Strip(content), "")
    case Some(i) =>
      assert i > 0 by { OccursChar(content, '\n', i); }
      var line := content[..i];
      StripKeepsFirst(line);
      StripIdempotent(line);
      StripIdempotent(content[i + 1..]);
      NoLineFeedBefore(content, i);
      StripHasNo(line, '\n');
      EmailContent(Strip(line), Strip(content[i + 1..]))
  }

  /** Before the first line feed found by `FindFirst` (or anywhere, when there is none) the
      text holds no line feed. */
  lemma NoLineFeedBefore(s: string, n: nat)
    requires n <= |s|
    requires FindFirst(s, "\n") == None || FindFirst(s, "\n") == Some(n)
    ensures '\n' !in s[..n]
  {
    forall j | 0 <= j < n ensures s[j] != '\n' {
      OccursChar(s, '\n', j);
    }
  }

  /** Stripping never brings in a character. */
  lemma StripHasNo(s: string, c: char)
    requires c !in s
    ensures c !in Strip(s)
  {
    var a, b := StripStart(s, IsPyWhitespace), StripStop(s, IsPyWhitespace);
    assert Strip(s) == s[a..b];
    forall k | 0 <= k < b - a ensures Strip(s)[k] != c {
      assert Strip(s)[k] == s[a + k];
    }
  }

  /** A stripped non-empty line with no line feed, then a line feed, then a stripped body, is
      read back as exactly that subject and body; with an empty body the text is the subject
      and its line feed alone. */
  lemma ReadWrittenContent(subject: string, body: string)
    requires subject != [] && '\n' !in subject && Strip(subject) == subject
    requires Strip(body) == body
    ensures ReadEmailContent(Some(subject + "\n" + body)) == Some(EmailContent(subject, body))
  {
    assert !IsPyWhitespace(subject[0]) && !IsPyWhitespace(subject[|subject| - 1]);
    if body == [] {
      ReadSubjectOnly(subject);
      assert subject + "\n" + body == subject + "\n";
    } else {
      assert !IsPyWhitespace(body[|body| - 1]);
      ReadSubjectAndBody(subject, body);
    }
  }

  lemma ReadSubjectOnly(subject: string)
    requires subject != [] && '\n' !in subject && Strip(subject) == subject
    requires !IsPyWhitespace(subject[0]) && !IsPyWhitespace(subject[|subject| - 1])
    ensures ReadEmailContent(Some(subject + "\n")) == Some(EmailContent(subject, ""))
  {
    StripDropsLineFeed(subject);
    NoLineFeedFound(subject);
  }

  lemma ReadSubjectAndBody(subject: string, body: string)
    requires subject != [] && '\n' !in subject && body != [] && Strip(body) == body
    requires !IsPyWhitespace(subject[0]) && !IsPyWhitespace(body[|body| - 1])
    ensures ReadEmailContent(Some(subject + "\n" + body)) == Some(EmailContent(Strip(subject), body))
  {
    var text := subject + "\n" + body;
    assert text[0] == subject[0];
    assert Strip(text) == text by {
      assert text[|text| - 1] == body[|body| - 1];
      StripSetUnchanged(text, IsPyWhitespace);
    }
    assert SplitFirstLine(text) == EmailContent(Strip(subject), body) by {
      FirstLineFeed(subject, body);
      SplitFirstLineAt(text, |subject|);
      CutAtLineFeed(subject, body);
    }
    ReadNonBlank(text);
  }

  /** The line before a line feed and the text after it. */
  lemma CutAtLineFeed(line: string, rest: string)
    ensures (line + "\n" + rest)[..|line|] == line
    ensures (line + "\n" + rest)[|line| + 1..] == rest
  {
    var tail := "\n" + rest;
    assert line + "\n" + rest == line + tail;
    assert (line + tail)[|line|..] == tail;
  }

  /** A text that is not blank is read by splitting its stripped form. */
  lemma ReadNonBlank(text: string)
    requires Strip(text) != []
    ensures ReadEmailContent(Some(text)) == Some(SplitFirstLine(Strip(text)))
  {
  }

  /** Where the first line feed stands, the subject and body are cut. */
  lemma SplitFirstLineAt(content: string, n: nat)
    requires content != [] && !IsPyWhitespace(content[0])
    requires FindFirst(content, "\n") == Some(n)
    ensures SplitFirstLine(content) == EmailContent(Strip(content[..n]), Strip(content[n + 1..]))
  {
  }

  /** Text without a line feed has none to find. */
  lemma NoLineFeedFound(s: string)
    requires '\n' !in s
    ensures FindFirst(s, "\n") == None
  {
    forall j: nat ensures !OccursAt(s, "\n", j) {
      OccursChar(s, '\n', j);
    }
  }

  /** The first line feed after a line without one is the one that ends it. */
  lemma FirstLineFeed(line: string, rest: string)
    requires '\n' !in line
    ensures FindFirst(line + "\n" + rest, "\n") == Some(|line|)
  {
    var s := line + "\n" + rest;
    OccursChar(s, '\n', |line|);
    forall j: nat | j < |line| ensures !OccursAt(s, "\n", j) {
      OccursChar(s, '\n', j);
      assert s[j] == line[j];
    }
  }

  /** Stripping a stripped line followed by a line feed removes just the line feed. */
  lemma StripDropsLineFeed(s: string)
    requires s != [] && !IsPyWhitespace(s[0]) && !IsPyWhitespace(s[|s| - 1])
    ensures Strip(s + "\n") == s
  {
    var t := s + "\n";
    var a, b := StripStart(t, IsPyWhitespace), StripStop(t, IsPyWhitespace);
    assert t[0] == s[0];
    assert a == 0;
    assert t[|s|] == '\n';
    assert t[|s| - 1] == s[|s| - 1];
    assert b == |s|;
    assert t[a..b] == s;
  }

  // ---------------------------------------------------------------- bold text

  const StrongOpen: string := "<strong style=\"color: #f1f5f9; font-weight: 600;\">"
  const StrongClose: string := "</strong>"

  /** Where the lazy `.*?` of `\*\*(.*?)\*\*` ends when the match starts before `j`: the first
      `**` at or after `j`, provided no line feed comes before it (`.` does not match one). */
  function CloseAt(s: string, j: nat): (r: Option<nat>)
    requires j <= |s|
    ensures r.Some? ==> j <= r.value && r.value + 2 <= |s| && s[r.value] == '*' && s[r.value + 1] == '*'
    ensures r.Some? ==> forall k :: j <= k < r.value ==> s[k] != '\n' && !(s[k] == '*' && s[k + 1] == '*')
    ensures r.None? ==> forall k :: j <= k < |s| - 1 && s[k] == '*' && s[k + 1] == '*' ==> '\n' in s[j..k]
    decreases |s| - j
  {
    if j + 2 > |s| then None
    else if s[j] == '*' && s[j + 1] == '*' then Some(j)
    else if s[j] == '\n' then None
    else CloseAt(s, j + 1)
  }

  /** `re.sub(r'\*\*(.*?)\*\*', STRONG, body)`: scanning from the left, every `**` that has a
      closing `**` later on the same line is replaced, together with the text up to the nearest
      such closing pair, by that text inside a `<strong>` element; everything else is kept. */
  function BoldSub(s: string): (r: string)
    decreases |s|
  {
    if |s| < 2 then s
    else if s[0] == '*' && s[1] == '*' && CloseAt(s, 2).Some? then
      var j := CloseAt(s, 2).value;
      StrongOpen + s[2..j] + StrongClose + BoldSub(s[j + 2..])
    else [s[0]] + BoldSub(s[1..])
  }

  /** Text without an asterisk is left alone. */
  lemma {:induction false} BoldSubPlain(s: string)
    requires '*' !in s
    ensures BoldSub(s) == s
    decreases |s|
  {
    if |s| >= 2 {
      assert s[0] != '*';
      BoldSubPlain(s[1..]);
    }
  }

  /** Text without an asterisk passes through in front of whatever follows it. */
  lemma {:induction false} BoldSubPlainPrefix(a: string, rest: string)
    requires '*' !in a
    ensures BoldSub(a + rest) == a + BoldSub(rest)
    decreases |a|
  {
    if a != [] {
      var s := a + rest;
      assert s[0] == a[0] && a[0] != '*';
      if |s| >= 2 {
        assert s[1..] == a[1..] + rest;
        BoldSubPlainPrefix(a[1..], rest);
        assert BoldSub(s) == [a[0]] + BoldSub(a[1..] + rest);
        assert a == [a[0]] + a[1..];
      } else {
        assert rest == [] && a == s;
      }
    } else {
      assert a + rest == rest;
    }
  }

  /** A `**x**` whose text has no line feed, no `**` and does not end in `*` becomes one
      `<strong>` element around `x`: the lazy group closes at the first `**` after the opening. */
  lemma BoldSubStrong(x: string, rest: string)
    requires '\n' !in x && !Contains(x, "**") && (x == [] || x[|x| - 1] != '*')
    ensures BoldSub("**" + x + "**" + rest) == StrongOpen + x + StrongClose + BoldSub(rest)
  {
    var s := "**" + x + "**" + rest;
    var j := 2 + |x|;
    assert s[j] == '*' && s[j + 1] == '*';
    forall l | 2 <= l < j ensures s[l] != '\n' && !(s[l] == '*' && s[l + 1] == '*') {
      assert s[l] == x[l - 2];
      if l + 1 < j && s[l] == '*' && s[l + 1] == '*' {
        assert s[l + 1] == x[l - 1];
        assert x[l - 2..l] == "**";
        ContainsAt(x, "**", l - 2);
        assert false;
      }
    }
    CloseAtFinds(s, 2, j);
    assert s[2..j] == x;
    assert s[j + 2..] == rest;
  }

  /** A lone inner asterisk stays inside the group. */
  lemma BoldSubInnerStar()
    ensures BoldSub("**a*b**") == StrongOpen + "a*b" + StrongClose
  {
    assert !Contains("a*b", "**") by {
      forall j: nat ensures !OccursAt("a*b", "**", j) {
        if j == 0 { assert "a*b"[0] == 'a'; }
        if j == 1 { assert "a*b"[2] == 'b'; }
      }
    }
    BoldSubStrong("a*b", "");
    assert "**" + "a*b" + "**" + "" == "**a*b**";
  }

  /** The search for the closing pair stops at the first `**` when no line feed or `**`
      comes before it. */
  lemma {:induction false} CloseAtFinds(s: string, j: nat, k: nat)
    requires j <= k && k + 2 <= |s| && s[k] == '*' && s[k + 1] == '*'
    requires forall l :: j <= l < k ==> s[l] != '\n' && !(s[l] == '*' && s[l + 1] == '*')
    ensures CloseAt(s, j) == Some(k)
    decreases k - j
  {
    if j < k {
      CloseAtFinds(s, j + 1, k);
    }
  }

  /** An opening `**` with no closing pair is kept as it is. */
  lemma BoldSubUnclosed(x: string)
    requires '*' !in x
    ensures BoldSub("**" + x) == "**" + x
  {
    var s := "**" + x;
    assert CloseAt(s, 2) == None by {
      CloseAtNone(s, 2);
    }
    var t := s[1..];
    assert t == "*" + x;
    if |t| >= 2 {
      assert t[1] == x[0];
      assert t[1..] == x;
    }
    BoldSubPlain(x);
  }

  /** No closing pair is found in text without a `**` from `j` on. */
  lemma {:induction false} CloseAtNone(s: string, j: nat)
    requires j <= |s|
    requires forall l :: j <= l < |s| ==> s[l] != '*'
    ensures CloseAt(s, j) == None
    decreases |s| - j
  {
    if j + 2 <= |s| && s[j] != '\n' {
      CloseAtNone(s, j + 1);
    }
  }

  // ---------------------------------------------------------------- paragraphs

  const ParagraphOpen: string :=
    "<p style=\"" + "color: " + "#cbd5e1; " + "margin: " + "12px 0; " + "line-" + "height: " + "1.5; "
    + "font-" + "size: " + "14px;" + "\">"
  const ParagraphClose: string := "</p>"

  /** The paragraph tags and the line break hold no line feed. */
  lemma TagsHaveNoLineFeed()
    ensures '\n' !in ParagraphOpen && '\n' !in ParagraphClose && '\n' !in "<br>"
  {
    assert '\n' !in "<p style=\"" && '\n' !in "color: " && '\n' !in "#cbd5e1; ";
    assert '\n' !in "margin: " && '\n' !in "12px 0; " && '\n' !in "line-" && '\n' !in "height: ";
    assert '\n' !in "1.5; " && '\n' !in "font-" && '\n' !in "size: " && '\n' !in "14px;";
  }

  /** One piece of the body as a paragraph, its single line feeds turned into `<br>`. */
  function Paragraph(p: string): (r: string)
    ensures '\n' !in r
    ensures '\n' !in p ==> r == ParagraphOpen + p + ParagraphClose
  {
    TagsHaveNoLineFeed();
    ParagraphOpen + ReplaceChar(p, '\n', "<br>") + ParagraphClose
  }

  /** Inside a paragraph every line feed becomes `<br>`: the text up to the first one is kept,
      that one is replaced, and the rest is rendered the same way. */
  lemma ParagraphLineBreak(a: string, b: string)
    requires '\n' !in a
    ensures Paragraph(a + "\n" + b) == ParagraphOpen + a + "<br>" + ReplaceChar(b, '\n', "<br>") + ParagraphClose
  {
    var r := ReplaceChar(b, '\n', "<br>");
    ReplaceCharAt(a, b, '\n', "<br>");
    Wrapped(a + "\n" + b, a + ['\n'] + b, a + "<br>" + r);
    Regroup(ParagraphOpen, a, "<br>", r, ParagraphClose);
  }

  /** Concatenation regrouped around the paragraph tags. */
  lemma Regroup(o: string, a: string, br: string, r: string, c: string)
    ensures o + (a + br + r) + c == o + a + br + r + c
  {
  }

  /** `Paragraph` of a text, given what replacing its line feeds gives. */
  lemma Wrapped(t: string, u: string, m: string)
    requires t == u && ReplaceChar(u, '\n', "<br>") == m
    ensures Paragraph(t) == ParagraphOpen + m + ParagraphClose
  {
  }

  /** Two lines of one paragraph are joined by a `<br>`. */
  lemma TwoLines(a: string, b: string)
    requires '\n' !in a && '\n' !in b
    ensures Paragraph(a + "\n" + b) == ParagraphOpen + a + "<br>" + b + ParagraphClose
  {
    ParagraphLineBreak(a, b);
  }

  /** The paragraphs of the pieces, one after the other in the order of the pieces. */
  function Paragraphs(ps: seq<string>): (r: string)
    ensures '\n' !in r
  {
    if ps == [] then "" else Paragraphs(ps[..|ps| - 1]) + Paragraph(ps[|ps| - 1])
  }

  /** The body's HTML as `generate_email_html` builds it: bold markup first, then one paragraph
      per `\n\n`-separated piece, appended in a loop. */
  method BodyHtml(body: string) returns (html: string)
    ensures html == Paragraphs(Split(BoldSub(body), "\n\n"))
    ensures '\n' !in html
  {
    var pieces := Split(BoldSub(body), "\n\n");
    html := "";
    var i := 0;
    while i < |pieces|
      invariant i <= |pieces|
      invariant html == Paragraphs(pieces[..i])
    {
      assert pieces[..i + 1][..i] == pieces[..i];
      html := html + Paragraph(pieces[i]);
      i := i + 1;
    }
    assert pieces[..i] == pieces;
  }

  /** A body with no blank line and no asterisk is a single paragraph. */
  lemma OneParagraph(body: string)
    requires '*' !in body && !Contains(body, "\n\n")
    ensures Paragraphs(Split(BoldSub(body), "\n\n")) == Paragraph(body)
  {
    BoldSubPlain(body);
    assert FindFirst(body, "\n\n") == None;
    assert Split(body, "\n\n") == [body];
    assert [body][..0] == [];
  }

  /** Two pieces separated by a blank line become two paragraphs, in order. */
  lemma TwoParagraphs(p: string, q: string)
    requires '*' !in p && '*' !in q && '\n' !in p && !Contains(q, "\n\n")
    ensures Paragraphs(Split(BoldSub(p + "\n\n" + q), "\n\n")) == Paragraph(p) + Paragraph(q)
  {
    var a := p + "\n\n";
    assert '*' !in a by {
      forall k | 0 <= k < |a| ensures a[k] != '*' {
        if k < |p| { assert a[k] == p[k]; }
      }
    }
    BoldSubPlainPrefix(a, q);
    BoldSubPlain(q);
    assert BoldSub(p + "\n\n" + q) == p + "\n\n" + q;
    SplitAtBlankLine(p, q);
    TwoPieces(p, q);
  }

  /** The paragraphs of two pieces. */
  lemma TwoPieces(p: string, q: string)
    ensures Paragraphs([p, q]) == Paragraph(p) + Paragraph(q)
  {
    assert [p, q][..1] == [p];
    assert [p][..0] == [];
    assert Paragraphs([p]) == Paragraph(p);
  }

  /** A line without a line feed, a blank line and a piece without one split into the two. */
  lemma SplitAtBlankLine(p: string, q: string)
    requires '\n' !in p && !Contains(q, "\n\n")
    ensures Split(p + "\n\n" + q, "\n\n") == [p, q]
  {
    var s := p + "\n\n" + q;
    assert OccursAt(s, "\n\n", |p|);
    forall j: nat | j < |p| ensures !OccursAt(s, "\n\n", j) {
      assert s[j] == p[j];
    }
    assert FindFirst(s, "\n\n") == Some(|p|);
    assert s[..|p|] == p;
    assert s[|p| + 2..] == q;
    assert FindFirst(q, "\n\n") == None;
  }
}
