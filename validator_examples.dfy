/** The messages of test_validator.py, and a few more, with the verdict the
    validator gives them. A message of several lines is written as its lines
    joined by their newlines. The facts about each literal line are proved in
    small lemmas of their own and combined by the general lemmas at the top. */
module ValidatorExamples {
  import opened NewlineSplit
  import opened Validator

  // ---------------------------------------------------------------------------
  // General shapes

  /** A line without the marker that begins with a well-formed subject head
      passes the subject rule and is not a trailer. */
  lemma SubjectAccepted(line: string, h: SubjectHead)
    requires WellFormedHead(h) && Spelling(h) <= line && !Contains(line, BreakingChanges)
    ensures ValidateFirstLine(line) && !(BreakingChanges <= line)
  {
    assert line[0..] == line;
    BaseFormatComplete(line, h);
  }

  /** The same line on its own is an accepted message. */
  lemma SubjectMessageAccepted(line: string, h: SubjectHead)
    requires WellFormedHead(h) && Spelling(h) <= line && !Contains(line, BreakingChanges)
    requires NewlineFree(line)
    ensures ValidateMessage(line) == Returned(true)
  {
    SubjectAccepted(line, h);
    SingleLineMessage(line);
  }

  /** A one-line message that does not start with the marker and that the subject
      rule refuses is rejected. */
  lemma SubjectMessageRejected(line: string)
    requires NewlineFree(line) && !(BreakingChanges <= line) && !ValidateFirstLine(line)
    ensures ValidateMessage(line) == Returned(false)
  {
    SingleLineMessage(line);
  }

  /** A line that starts with none of the tags fails the subject rule. */
  lemma UntaggedLineRejected(line: string)
    requires forall t | t in Tags :: !(t <= line)
    ensures !ValidateFirstLine(line)
  {
    assert MatchTag(line) == None;
  }

  /** Subject, blank line, trailer: accepted when the subject rule accepts the
      subject. */
  lemma SubjectTrailerAccepted(subject: string, trailer: string)
    requires NewlineFree(subject) && ValidateFirstLine(subject)
    requires NewlineFree(trailer) && BreakingChanges + ":" <= trailer
    ensures ValidateMessage(subject + "\n\n" + trailer) == Returned(true)
  {
    var msg := subject + "\n\n" + trailer;
    var lines, runs := [subject, trailer], ["\n\n"];
    assert Weave(lines, runs) == msg;
    SplitComplete(msg, lines, runs);
    assert subject[0..] == subject;
    BreakingChangeLineIff(trailer);
    assert BreakingChanges <= trailer by { assert trailer[..|BreakingChanges|] == BreakingChanges; }
    assert LineAccepted(0, subject) && LineAccepted(1, trailer);
    ValidateAcceptsIff(msg);
  }

  /** Subject, body line, blank line, trailer: accepted when the subject rule
      accepts the subject and the body rule the (non-empty) body line. */
  lemma SubjectBodyTrailerAccepted(subject: string, body: string, trailer: string)
    requires NewlineFree(subject) && ValidateFirstLine(subject)
    requires NewlineFree(body) && ValidateDescription(body) && body != []
    requires NewlineFree(trailer) && BreakingChanges + ":" <= trailer
    ensures ValidateMessage(subject + "\n" + body + "\n\n" + trailer) == Returned(true)
  {
    var msg := subject + "\n" + body + "\n\n" + trailer;
    var lines, runs := [subject, body, trailer], ["\n", "\n\n"];
    assert Weave(lines, runs) == msg;
    SplitComplete(msg, lines, runs);
    assert subject[0..] == subject && body[0..] == body;
    BreakingChangeLineIff(trailer);
    assert BreakingChanges <= trailer by { assert trailer[..|BreakingChanges|] == BreakingChanges; }
    assert LineAccepted(0, subject) && LineAccepted(1, body) && LineAccepted(2, trailer);
    ValidateAcceptsIff(msg);
  }

  /** A line that does not start with the marker but holds it further on is a
      rejected message. */
  lemma MarkerAfterTextRejected(head: string, tail: string)
    requires NewlineFree(head) && NewlineFree(tail)
    requires BreakingChanges <= tail && !(BreakingChanges <= head + tail)
    ensures ValidateMessage(head + tail) == Returned(false)
  {
    var line := head + tail;
    assert NewlineFree(line) by {
      assert forall c | c in line :: c in head || c in tail;
    }
    assert line[|head|..] == tail;
    assert Contains(line, BreakingChanges);
    MarkerInsideSubjectRejected(line);
  }

  // ---------------------------------------------------------------------------
  // Literal lines

  /** Text with neither a newline nor the marker's first letter. For a literal
      line this is cheaper to check than the absence of the marker itself. */
  predicate PlainText(s: string) {
    NewlineFree(s) && 'B' !in s
  }

  /** A line that lacks one of the characters of t does not contain t. */
  lemma AbsentCharNotContained(s: string, t: string, c: char)
    requires c in t && c !in s
    ensures !Contains(s, t)
  {
  }

  lemma PlainTextHasNoMarker(s: string)
    requires PlainText(s)
    ensures !Contains(s, BreakingChanges)
  {
    AbsentCharNotContained(s, BreakingChanges, 'B');
  }

  const FeatureSubject: string := "feature(app.py): Add changes to the file"
  const DocsSubject: string := "docs(app_2.js): Remove documentation"
  const FixSubject: string := "fix(app.py): Fixed issue #250"
  const FixSubjectSpaced: string := "fix(app.py): Fixed issue #250 "
  const FixBody: string := "Provided a fix for the issue that fixes it. "
  const ChangedTrailer: string := "BREAKING CHANGES: Changed x method"

  const FeatureHead: SubjectHead := SubjectHead("feature", "app.py", 1, 'A')
  const DocsHead: SubjectHead := SubjectHead("docs", "app_2.js", 1, 'R')
  const FixHead: SubjectHead := SubjectHead("fix", "app.py", 1, 'F')

  lemma FeatureSubjectPlain() ensures PlainText(FeatureSubject) {
    assert 'B' !in FeatureSubject;
    assert NewlineFree(FeatureSubject);
  }

  lemma DocsSubjectPlain() ensures PlainText(DocsSubject) {
    assert 'B' !in DocsSubject;
    assert NewlineFree(DocsSubject);
  }

  lemma FixSubjectPlain() ensures PlainText(FixSubject) && PlainText(FixSubjectSpaced) {
    assert 'B' !in FixSubject;
    assert NewlineFree(FixSubject);
    assert FixSubjectSpaced == FixSubject + " ";
  }

  lemma FixBodyPlain() ensures PlainText(FixBody) {
    assert 'B' !in FixBody;
    assert NewlineFree(FixBody);
  }

  lemma ChangedTrailerIsTrailer()
    ensures NewlineFree(ChangedTrailer) && BreakingChanges + ":" <= ChangedTrailer
  {
    assert NewlineFree(ChangedTrailer);
  }

  lemma FeatureHeadSpelled()
    ensures WellFormedHead(FeatureHead) && Spelling(FeatureHead) <= FeatureSubject
  {
    assert Spelling(FeatureHead) == "feature(app.py): A";
    assert FeatureSubject[..18] == "feature(app.py): A";
  }

  lemma DocsHeadSpelled()
    ensures WellFormedHead(DocsHead) && Spelling(DocsHead) <= DocsSubject
  {
    assert Spelling(DocsHead) == "docs(app_2.js): R";
    assert DocsSubject[..17] == "docs(app_2.js): R";
  }

  lemma FixHeadSpelled()
    ensures WellFormedHead(FixHead) && Spelling(FixHead) <= FixSubject
    ensures Spelling(FixHead) <= FixSubjectSpaced
  {
    assert Spelling(FixHead) == "fix(app.py): F";
    assert FixSubject[..14] == "fix(app.py): F";
    assert FixSubjectSpaced[..14] == "fix(app.py): F";
  }

  // ---------------------------------------------------------------------------
  // The messages of test_validator.py

  lemma FeatureSubjectAccepted()
    ensures ValidateMessage(FeatureSubject) == Returned(true)
  {
    FeatureSubjectPlain();
    PlainTextHasNoMarker(FeatureSubject);
    FeatureHeadSpelled();
    SubjectMessageAccepted(FeatureSubject, FeatureHead);
  }

  lemma DocsSubjectAccepted()
    ensures ValidateMessage(DocsSubject) == Returned(true)
  {
    DocsSubjectPlain();
    PlainTextHasNoMarker(DocsSubject);
    DocsHeadSpelled();
    SubjectMessageAccepted(DocsSubject, DocsHead);
  }

  /** Subject, blank line, trailer. */
  lemma FixWithTrailerAccepted()
    ensures ValidateMessage(FixSubjectSpaced + "\n\n" + ChangedTrailer) == Returned(true)
  {
    FixSubjectPlain();
    PlainTextHasNoMarker(FixSubjectSpaced);
    FixHeadSpelled();
    SubjectAccepted(FixSubjectSpaced, FixHead);
    ChangedTrailerIsTrailer();
    SubjectTrailerAccepted(FixSubjectSpaced, ChangedTrailer);
  }

  /** Subject, body, blank line, trailer. */
  lemma FixWithBodyAndTrailerAccepted()
    ensures ValidateMessage(FixSubject + "\n" + FixBody + "\n\n" + ChangedTrailer) == Returned(true)
  {
    FixSubjectPlain();
    PlainTextHasNoMarker(FixSubject);
    FixHeadSpelled();
    SubjectAccepted(FixSubject, FixHead);
    FixBodyPlain();
    PlainTextHasNoMarker(FixBody);
    DescriptionIff(FixBody);
    ChangedTrailerIsTrailer();
    SubjectBodyTrailerAccepted(FixSubject, FixBody, ChangedTrailer);
  }

  /** The scope group has no `?` in the pattern, so a subject without a scope is
      rejected, although test_validator.py lists it among the valid messages. */
  lemma ScopelessSubjectRejected()
    ensures ValidateMessage("feature: add changes to file") == Returned(false)
  {
    var line := "feature: add changes to file";
    assert line[..7] == "feature" && line[7] == ':';
    assert line[0] != BreakingChanges[0];
    ScopeIsMandatory(line, "feature");
    assert NewlineFree(line);
    SubjectMessageRejected(line);
  }

  lemma UntaggedSubjectRejected()
    ensures ValidateMessage("Add change to app.py") == Returned(false)
  {
    var line := "Add change to app.py";
    assert line[0] == 'A' && line[0] != BreakingChanges[0];
    UntaggedLineRejected(line);
    assert NewlineFree(line);
    SubjectMessageRejected(line);
  }

  /** The marker in the middle of the only line is not a trailer. */
  lemma InlineMarkerRejected()
    ensures ValidateMessage(FixSubjectSpaced + ChangedTrailer) == Returned(false)
  {
    FixSubjectPlain();
    ChangedTrailerIsTrailer();
    assert BreakingChanges <= ChangedTrailer by {
      assert ChangedTrailer[..|BreakingChanges|] == BreakingChanges;
    }
    assert (FixSubjectSpaced + ChangedTrailer)[0] == 'f';
    MarkerAfterTextRejected(FixSubjectSpaced, ChangedTrailer);
  }

  // ---------------------------------------------------------------------------
  // Further messages

  /** The pattern's tag is `text`; `test`, which the help text shows, is rejected. */
  lemma TestTagRejected()
    ensures ValidateMessage("test(a): x") == Returned(false)
  {
    var line := "test(a): x";
    assert line[0] == 't' && line[2] == 's' && line[0] != BreakingChanges[0];
    UntaggedLineRejected(line);
    assert NewlineFree(line);
    SubjectMessageRejected(line);
  }

  lemma TextTagAccepted()
    ensures ValidateMessage("text(a): x") == Returned(true)
  {
    var line := "text(a): x";
    assert PlainText(line) by { assert 'B' !in line; assert NewlineFree(line); }
    var h := SubjectHead("text", "a", 1, 'x');
    assert WellFormedHead(h) && Spelling(h) <= line;
    PlainTextHasNoMarker(line);
    SubjectMessageAccepted(line, h);
  }

  /** An empty scope and no space before the description are both allowed. */
  lemma EmptyScopeAccepted()
    ensures ValidateMessage("fix():x") == Returned(true)
  {
    var line := "fix():x";
    assert PlainText(line) by { assert 'B' !in line; assert NewlineFree(line); }
    var h := SubjectHead("fix", "", 0, 'x');
    assert WellFormedHead(h) && Spelling(h) <= line;
    PlainTextHasNoMarker(line);
    SubjectMessageAccepted(line, h);
  }

  lemma TrailerOnlyAccepted()
    ensures ValidateMessage("BREAKING CHANGES: x") == Returned(true)
  {
    assert NewlineFree(" x");
    TrailerOnlyMessageAccepted(" x");
    assert BreakingChanges + ":" + " x" == "BREAKING CHANGES: x";
  }

  lemma TrailerWithoutColonExample()
    ensures ValidateMessage("BREAKING CHANGES Changed x") == Returned(false)
  {
    assert NewlineFree(" Changed x");
    TrailerWithoutColonRejected(" Changed x");
    assert BreakingChanges + " Changed x" == "BREAKING CHANGES Changed x";
  }

  /** A newline after the body raises. */
  lemma TrailingNewlineExample()
    ensures ValidateMessage("fix(a): x" + "\n" + "body" + "\n") == IndexError(2)
  {
    var subject := "fix(a): x";
    assert PlainText(subject) by { assert 'B' !in subject; assert NewlineFree(subject); }
    assert PlainText("body") by { assert 'B' !in "body"; assert NewlineFree("body"); }
    var h := SubjectHead("fix", "a", 1, 'x');
    assert WellFormedHead(h) && Spelling(h) <= subject;
    PlainTextHasNoMarker(subject);
    SubjectAccepted(subject, h);
    AbsentCharNotContained("body", BreakingChanges, 'B');
    TrailingNewlineRaises(subject, "body");
  }
}
