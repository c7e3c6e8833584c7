/** The commit-message validator of validator.py.

    A message is split into logical lines (module NewlineSplit). Each line gets a
    role: a line that starts with the marker "BREAKING CHANGES" is a trailer,
    wherever it stands; otherwise line 0 is the subject and line 1 the body, looked
    up by index in the two-entry table `Validators`. A non-trailer line at index 2
    or later indexes past that table, which raises `IndexError` in the source; the
    model returns that as the outcome `IndexError(index)`.

    The two regular expressions of the source are written out by hand as matchers
    (`BaseFormatMatch`, `ChangeFormatMatch`); `\w` is taken as ASCII
    `[A-Za-z0-9_]`. Each matcher is proved equal to a declarative description of
    the text it accepts. */
module Validator {
  import opened NewlineSplit

  datatype Option<T> = None | Some(value: T)

  /** What `validate` does: return a verdict, or raise `IndexError` at a line index. */
  datatype Outcome = Returned(isValid: bool) | IndexError(index: nat)

  const BreakingChanges: string := "BREAKING CHANGES"

  /** The alternatives of the tag group, in the order the pattern lists them.
      The last one is `text`, not the `test` of the help text. */
  const Tags: seq<string> := ["feature", "fix", "style", "docs", "text"]

  /** Python's `t in s` on strings. */
  predicate Contains(s: string, t: string) {
    exists i | 0 <= i <= |s| :: t <= s[i..]
  }

  // ---------------------------------------------------------------------------
  // Character classes of the two patterns

  /** `[a-zA-Z0-9._-]` */
  predicate IsScopeChar(c: char) {
    ('a' <= c <= 'z') || ('A' <= c <= 'Z') || ('0' <= c <= '9') || c == '.' || c == '_' || c == '-'
  }

  /** `\w`, restricted to ASCII */
  predicate IsWordChar(c: char) {
    ('a' <= c <= 'z') || ('A' <= c <= 'Z') || ('0' <= c <= '9') || c == '_'
  }

  predicate IsSpace(c: char) {
    c == ' '
  }

  /** `.`: any character but a newline */
  predicate IsNotNewline(c: char) {
    c != Newline
  }

  /** Greedy `[...]*` from position i: the end of the longest run of accepted characters. */
  function Span(s: string, i: nat, accepts: char -> bool): (j: nat)
    requires i <= |s|
    ensures i <= j <= |s|
    ensures forall k | i <= k < j :: accepts(s[k])
    ensures j < |s| ==> !accepts(s[j])
    decreases |s| - i
  {
    if i < |s| && accepts(s[i]) then Span(s, i + 1, accepts) else i
  }

  // ---------------------------------------------------------------------------
  // BASE_FORMAT: (feature|fix|style|docs|text)(\([a-zA-Z0-9._-]*\)): *\w+

  /** The alternation `(feature|fix|style|docs|text)` at the start of s, trying the
      alternatives from index k on: the length of the first one that matches. */
  function MatchTagFrom(s: string, k: nat): (r: Option<nat>)
    requires k <= |Tags|
    ensures r.Some? ==> r.value <= |s| && s[..r.value] in Tags
    ensures r.None? ==> forall j | k <= j < |Tags| :: !(Tags[j] <= s)
    decreases |Tags| - k
  {
    if k == |Tags| then None
    else if Tags[k] <= s then
      assert s[..|Tags[k]|] == Tags[k];
      Some(|Tags[k]|)
    else MatchTagFrom(s, k + 1)
  }

  function MatchTag(s: string): (r: Option<nat>)
    ensures r.Some? ==> r.value <= |s| && s[..r.value] in Tags
    ensures r.None? ==> forall t | t in Tags :: !(t <= s)
  {
    MatchTagFrom(s, 0)
  }

  /** `re.match(BASE_FORMAT, s)`: the end of the match, if there is one. The
      pattern is only anchored at the start, so whatever follows the match is free. */
  function BaseFormatMatch(s: string): (r: Option<nat>)
    ensures r.Some? ==> r.value <= |s|
  {
    match MatchTag(s)
    case None => None
    case Some(k) =>
      if k < |s| && s[k] == '(' then
        var j := Span(s, k + 1, IsScopeChar);
        if j + 1 < |s| && s[j] == ')' && s[j + 1] == ':' then
          var m := Span(s, j + 2, IsSpace);
          if m < |s| && IsWordChar(s[m]) then Some(Span(s, m, IsWordChar)) else None
        else None
      else None
  }

  /** The shortest text BASE_FORMAT accepts, piece by piece:
      tag "(" scope "):" spaces word-character. */
  datatype SubjectHead = SubjectHead(tag: string, scope: string, spaces: nat, word: char)

  function Spaces(n: nat): string {
    seq(n, _ => ' ')
  }

  function Spelling(h: SubjectHead): string {
    h.tag + "(" + h.scope + "):" + Spaces(h.spaces) + [h.word]
  }

  predicate WellFormedHead(h: SubjectHead) {
    && h.tag in Tags
    && (forall i | 0 <= i < |h.scope| :: IsScopeChar(h.scope[i]))
    && IsWordChar(h.word)
  }

  /** s begins with a well-formed subject head. */
  ghost predicate StartsWithSubjectHead(s: string) {
    exists h :: WellFormedHead(h) && Spelling(h) <= s
  }

  /** Where each part of a subject head sits in its spelling. */
  lemma SpellingAt(h: SubjectHead)
    ensures var n, sc := |h.tag|, |h.scope|;
      && |Spelling(h)| == n + sc + h.spaces + 4
      && Spelling(h)[..n] == h.tag
      && Spelling(h)[n] == '('
      && (forall i | n + 1 <= i < n + 1 + sc :: Spelling(h)[i] == h.scope[i - n - 1])
      && Spelling(h)[n + 1 + sc] == ')'
      && Spelling(h)[n + 2 + sc] == ':'
      && (forall i | n + 3 + sc <= i < n + 3 + sc + h.spaces :: Spelling(h)[i] == ' ')
      && Spelling(h)[n + 3 + sc + h.spaces] == h.word
  {
  }

  /** No tag is a prefix of another tag. */
  lemma TagPrefixOfTag(a: string, b: string)
    requires a in Tags && b in Tags && a <= b
    ensures a == b
  {
    // the tags already differ in their first two characters
    assert a[0] == b[0] && a[1] == b[1];
  }

  /** Hence at most one tag begins a line. */
  lemma TagsPrefixFree(s: string, a: string, b: string)
    requires a in Tags && b in Tags && a <= s && b <= s
    ensures a == b
  {
    if |a| <= |b| {
      assert a == b[..|a|] by { assert a == s[..|a|] && b == s[..|b|]; }
      TagPrefixOfTag(a, b);
    } else {
      assert b == a[..|b|] by { assert a == s[..|a|] && b == s[..|b|]; }
      TagPrefixOfTag(b, a);
    }
  }

  /** Span stops exactly at the first rejected character. */
  lemma SpanStopsAt(s: string, i: nat, accepts: char -> bool, j: nat)
    requires i <= j <= |s|
    requires forall k | i <= k < j :: accepts(s[k])
    requires j < |s| ==> !accepts(s[j])
    ensures Span(s, i, accepts) == j
  {
  }

  /** The text up to a matched word character spells the subject head read off it. */
  lemma SpellingOfMatch(s: string, k: nat, j: nat, m: nat)
    requires k < j && j + 2 <= m < |s|
    requires s[k] == '(' && s[j] == ')' && s[j + 1] == ':'
    requires forall i | j + 2 <= i < m :: s[i] == ' '
    ensures Spelling(SubjectHead(s[..k], s[k + 1..j], m - (j + 2), s[m])) == s[..m + 1]
  {
    assert s[j + 2..m] == Spaces(m - (j + 2));
    assert s[..k + 1] == s[..k] + "(";
    assert s[..j] == s[..k + 1] + s[k + 1..j];
    assert s[..j + 2] == s[..j] + "):";
    assert s[..m] == s[..j + 2] + s[j + 2..m];
    assert s[..m + 1] == s[..m] + [s[m]];
  }

  /** What BASE_FORMAT matches is a well-formed subject head: the head read off the match. */
  lemma BaseFormatMatchedHead(s: string) returns (h: SubjectHead)
    requires BaseFormatMatch(s).Some?
    ensures WellFormedHead(h) && Spelling(h) <= s
  {
    var k := MatchTag(s).value;
    var j := Span(s, k + 1, IsScopeChar);
    var m := Span(s, j + 2, IsSpace);
    h := SubjectHead(s[..k], s[k + 1..j], m - (j + 2), s[m]);
    SpellingOfMatch(s, k, j, m);
  }

  /** A line that begins with a well-formed subject head has each part of the
      head at its place. */
  lemma HeadInLine(s: string, h: SubjectHead)
    requires WellFormedHead(h) && Spelling(h) <= s
    ensures var n, sc, sp := |h.tag|, |h.scope|, h.spaces;
      && n + sc + sp + 4 <= |s|
      && h.tag <= s
      && s[n] == '('
      && (forall i | n + 1 <= i < n + 1 + sc :: IsScopeChar(s[i]))
      && s[n + 1 + sc] == ')'
      && s[n + 2 + sc] == ':'
      && (forall i | n + 3 + sc <= i < n + 3 + sc + sp :: IsSpace(s[i]))
      && IsWordChar(s[n + 3 + sc + sp])
  {
    SpellingAt(h);
    var n := |h.tag|;
    assert forall i | 0 <= i < |Spelling(h)| :: s[i] == Spelling(h)[i];
    assert s[..n] == Spelling(h)[..n];
  }

  /** BASE_FORMAT matches every line that begins with a well-formed subject head. */
  lemma BaseFormatComplete(s: string, h: SubjectHead)
    requires WellFormedHead(h) && Spelling(h) <= s
    ensures BaseFormatMatch(s).Some?
  {
    HeadInLine(s, h);
    var n, sc, sp := |h.tag|, |h.scope|, h.spaces;
    var k := MatchTag(s).value;
    TagsPrefixFree(s, s[..k], h.tag);
    assert k == n;
    SpanStopsAt(s, n + 1, IsScopeChar, n + 1 + sc);
    SpanStopsAt(s, n + 3 + sc, IsSpace, n + 3 + sc + sp);
  }

  /** BASE_FORMAT matches s exactly when s begins with a well-formed subject head. */
  lemma BaseFormatIff(s: string)
    ensures BaseFormatMatch(s).Some? <==> StartsWithSubjectHead(s)
  {
    if BaseFormatMatch(s).Some? {
      var h := BaseFormatMatchedHead(s);
    }
    if StartsWithSubjectHead(s) {
      var h :| WellFormedHead(h) && Spelling(h) <= s;
      BaseFormatComplete(s, h);
    }
  }

  // ---------------------------------------------------------------------------
  // CHANGE_FORMAT: (BREAKING CHANGES): *.*

  /** `re.match(CHANGE_FORMAT, s)`: the marker and a colon, then ` *.*`, which
      match at least the empty string. */
  function ChangeFormatMatch(s: string): (r: Option<nat>)
    ensures r.Some? ==> r.value <= |s|
  {
    var n := |BreakingChanges|;
    if BreakingChanges <= s && n < |s| && s[n] == ':' then
      var m := Span(s, n + 1, IsSpace);
      Some(Span(s, m, IsNotNewline))
    else None
  }

  /** `re.match(r'.*', s)`: always a match, possibly an empty one. */
  function DotStarMatch(s: string): (r: Option<nat>)
    ensures r.Some? ==> r.value <= |s|
  {
    Some(Span(s, 0, IsNotNewline))
  }

  // ---------------------------------------------------------------------------
  // The three line rules

  /** `_validate_first_line` */
  predicate ValidateFirstLine(line: string) {
    if Contains(line, BreakingChanges) then false
    else BaseFormatMatch(line).Some?
  }

  /** `_validate_description` */
  predicate ValidateDescription(line: string) {
    if Contains(line, BreakingChanges) then false
    else DotStarMatch(line).Some?
  }

  /** `_validate_breaking_change_line` */
  predicate ValidateBreakingChangeLine(line: string) {
    ChangeFormatMatch(line).Some?
  }

  /** The subject rule: no marker anywhere, and a well-formed subject head at the start. */
  lemma FirstLineIff(line: string)
    ensures ValidateFirstLine(line) <==> !Contains(line, BreakingChanges) && StartsWithSubjectHead(line)
  {
    BaseFormatIff(line);
  }

  /** The scope group is not optional: a tag followed by anything but `(` fails
      the subject rule. */
  lemma ScopeIsMandatory(line: string, t: string)
    requires t in Tags && t <= line && (|line| == |t| || line[|t|] != '(')
    ensures !ValidateFirstLine(line)
  {
    var r := MatchTag(line);
    if r.Some? {
      TagsPrefixFree(line, line[..r.value], t);
    }
  }

  /** The body rule accepts every line without the marker, the empty line included. */
  lemma DescriptionIff(line: string)
    ensures ValidateDescription(line) <==> !Contains(line, BreakingChanges)
  {
  }

  /** The trailer rule: the line starts with "BREAKING CHANGES:". */
  lemma BreakingChangeLineIff(line: string)
    ensures ValidateBreakingChangeLine(line) <==> BreakingChanges + ":" <= line
  {
    var n := |BreakingChanges|;
    if BreakingChanges + ":" <= line {
      assert line[..n] == (BreakingChanges + ":")[..n] == BreakingChanges;
      assert line[n] == (BreakingChanges + ":")[n];
    }
    if ValidateBreakingChangeLine(line) {
      assert line[..n + 1] == line[..n] + [line[n]];
    }
  }

  // ---------------------------------------------------------------------------
  // Roles and the dispatch table

  /** `VALIDATORS`: the rule for line 0 and the rule for line 1. */
  const Validators: seq<string -> bool> := [ValidateFirstLine, ValidateDescription]

  datatype Role = Subject | Body | Trailer

  /** The role of the line at index i, or None when no rule covers it. */
  function RoleOf(i: nat, line: string): Option<Role> {
    if BreakingChanges <= line then Some(Trailer)
    else if i == 0 then Some(Subject)
    else if i == 1 then Some(Body)
    else None
  }

  predicate Obeys(role: Role, line: string) {
    match role
    case Subject => ValidateFirstLine(line)
    case Body => ValidateDescription(line)
    case Trailer => ValidateBreakingChangeLine(line)
  }

  /** The line at index i has a role and satisfies that role's rule. */
  predicate LineAccepted(i: nat, line: string) {
    match RoleOf(i, line)
    case None => false
    case Some(role) => Obeys(role, line)
  }

  /** Every line from index i0 on is accepted. */
  ghost predicate AcceptedFrom(lines: seq<string>, i0: nat) {
    forall j | i0 <= j < |lines| :: LineAccepted(j, lines[j])
  }

  /** Every line of the message is accepted. */
  ghost predicate AllAccepted(lines: seq<string>) {
    AcceptedFrom(lines, 0)
  }

  /** Line k is the first line from index i0 on that is not accepted. */
  ghost predicate FirstFailureAt(lines: seq<string>, i0: nat, k: nat) {
    && i0 <= k < |lines|
    && !LineAccepted(k, lines[k])
    && forall j | i0 <= j < k :: LineAccepted(j, lines[j])
  }

  // ---------------------------------------------------------------------------
  // The loop of `validate`

  /** What the loop of `validate` returns when it reaches line i with
      `is_valid == acc`. `is_valid and VALIDATORS[idx](message)` short-circuits:
      once `is_valid` is false the table is not indexed, so the index error can
      only happen while every earlier line was accepted. */
  function Fold(lines: seq<string>, i: nat, acc: bool): Outcome
    requires i <= |lines|
    decreases |lines| - i
  {
    if i == |lines| then Returned(acc)
    else if BreakingChanges <= lines[i] then
      Fold(lines, i + 1, acc && ValidateBreakingChangeLine(lines[i]))
    else if !acc then Fold(lines, i + 1, false)
    else if i < |Validators| then Fold(lines, i + 1, Validators[i](lines[i]))
    else IndexError(i)
  }

  /** `validate(msg)` */
  function ValidateMessage(msg: string): Outcome {
    Fold(Split(msg), 0, true)
  }

  /** Line i goes on with the verdict of its own rule. */
  lemma FoldStep(lines: seq<string>, i: nat)
    requires i < |lines| && RoleOf(i, lines[i]).Some?
    ensures Fold(lines, i, true) == Fold(lines, i + 1, LineAccepted(i, lines[i]))
  {
    if !(BreakingChanges <= lines[i]) {
      assert Validators[i] == if i == 0 then ValidateFirstLine else ValidateDescription;
    }
  }

  /** Once `is_valid` is false it stays false, and no error is raised. */
  lemma {:induction false} FoldStaysFalse(lines: seq<string>, i: nat)
    requires i <= |lines|
    ensures Fold(lines, i, false) == Returned(false)
    decreases |lines| - i
  {
    if i < |lines| {
      FoldStaysFalse(lines, i + 1);
    }
  }

  /** From line i on, the loop ends in True exactly when every line is accepted. */
  lemma {:induction false} FoldAcceptsIff(lines: seq<string>, i: nat)
    requires i <= |lines|
    ensures Fold(lines, i, true) == Returned(true) <==> AcceptedFrom(lines, i)
    decreases |lines| - i
  {
    if i < |lines| {
      if RoleOf(i, lines[i]).Some? {
        FoldStep(lines, i);
        if LineAccepted(i, lines[i]) {
          FoldAcceptsIff(lines, i + 1);
        } else {
          FoldStaysFalse(lines, i + 1);
        }
      }
    }
  }

  /** From line i on, the loop raises at line k exactly when k is the first line
      not accepted and no rule covers it. */
  lemma {:induction false} FoldRaisesIff(lines: seq<string>, i: nat, k: nat)
    requires i <= |lines|
    ensures Fold(lines, i, true) == IndexError(k) <==> FirstFailureAt(lines, i, k) && RoleOf(k, lines[k]).None?
    decreases |lines| - i
  {
    if i < |lines| {
      if RoleOf(i, lines[i]).Some? {
        FoldStep(lines, i);
        if LineAccepted(i, lines[i]) {
          FoldRaisesIff(lines, i + 1, k);
          if FirstFailureAt(lines, i + 1, k) {
            assert FirstFailureAt(lines, i, k);
          }
        } else {
          FoldStaysFalse(lines, i + 1);
        }
      }
    }
  }

  /** From line i on, the loop ends in False exactly when the first line not
      accepted has a role, so its rule rejected it. */
  lemma {:induction false} FoldRejectsIff(lines: seq<string>, i: nat)
    requires i <= |lines|
    ensures Fold(lines, i, true) == Returned(false) <==>
      exists k | i <= k < |lines| :: FirstFailureAt(lines, i, k) && RoleOf(k, lines[k]).Some?
    decreases |lines| - i
  {
    if i < |lines| {
      if RoleOf(i, lines[i]).Some? {
        FoldStep(lines, i);
        if LineAccepted(i, lines[i]) {
          FoldRejectsIff(lines, i + 1);
          if Fold(lines, i, true) == Returned(false) {
            var k :| i + 1 <= k < |lines| && FirstFailureAt(lines, i + 1, k) && RoleOf(k, lines[k]).Some?;
            assert FirstFailureAt(lines, i, k);
          }
          if exists k | i <= k < |lines| :: FirstFailureAt(lines, i, k) && RoleOf(k, lines[k]).Some? {
            var k :| i <= k < |lines| && FirstFailureAt(lines, i, k) && RoleOf(k, lines[k]).Some?;
            assert FirstFailureAt(lines, i + 1, k);
          }
        } else {
          FoldStaysFalse(lines, i + 1);
          assert FirstFailureAt(lines, i, i);
        }
      } else {
        assert !LineAccepted(i, lines[i]);
      }
    }
  }

  /** The message is accepted exactly when every logical line has a role and
      obeys that role's rule. */
  lemma ValidateAcceptsIff(msg: string)
    ensures ValidateMessage(msg) == Returned(true) <==> AllAccepted(Split(msg))
  {
    FoldAcceptsIff(Split(msg), 0);
  }

  /** `validate` raises at index k exactly when line k is the first line not
      accepted, and it is a non-trailer line past the table (k >= 2). */
  lemma ValidateRaisesIff(msg: string, k: nat)
    ensures ValidateMessage(msg) == IndexError(k) <==>
      && FirstFailureAt(Split(msg), 0, k)
      && k >= |Validators|
      && !(BreakingChanges <= Split(msg)[k])
  {
    FoldRaisesIff(Split(msg), 0, k);
    assert |Validators| == 2;
  }

  /** `validate` returns False exactly when the first line not accepted has a
      role, so that role's rule rejected it. */
  lemma ValidateRejectsIff(msg: string)
    ensures ValidateMessage(msg) == Returned(false) <==>
      exists k: nat :: FirstFailureAt(Split(msg), 0, k) && RoleOf(k, Split(msg)[k]).Some?
  {
    FoldRejectsIff(Split(msg), 0);
  }

  // ---------------------------------------------------------------------------
  // Consequences for particular shapes of message

  /** A message without newlines is one line, judged by the trailer rule if it
      starts with the marker and by the subject rule otherwise. */
  lemma SingleLineMessage(line: string)
    requires NewlineFree(line)
    ensures ValidateMessage(line) ==
      Returned(if BreakingChanges <= line then ValidateBreakingChangeLine(line) else ValidateFirstLine(line))
  {
    SplitNewlineFree(line);
    assert ValidateMessage(line) == Fold([line], 0, true);
    assert Validators[0] == ValidateFirstLine;
    if BreakingChanges <= line {
      assert Fold([line], 0, true) == Fold([line], 1, ValidateBreakingChangeLine(line));
    } else {
      assert Fold([line], 0, true) == Fold([line], 1, ValidateFirstLine(line));
    }
  }

  /** The empty message is one empty line, which the subject rule rejects. */
  lemma EmptyMessageRejected()
    ensures ValidateMessage("") == Returned(false)
  {
    SingleLineMessage("");
    assert MatchTag("") == None;
  }

  /** A message that is only a trailer is accepted: the marker overrides the
      subject role of line 0. */
  lemma TrailerOnlyMessageAccepted(text: string)
    requires NewlineFree(text)
    ensures ValidateMessage(BreakingChanges + ":" + text) == Returned(true)
  {
    var line := BreakingChanges + ":" + text;
    assert BreakingChanges + ":" <= line;
    assert BreakingChanges <= line by { assert line[..|BreakingChanges|] == BreakingChanges; }
    assert NewlineFree(line) by {
      assert forall c | c in line :: c in BreakingChanges + ":" || c in text;
    }
    BreakingChangeLineIff(line);
    SingleLineMessage(line);
  }

  /** A trailer without its colon is rejected. */
  lemma TrailerWithoutColonRejected(text: string)
    requires NewlineFree(text) && !(text != [] && text[0] == ':')
    ensures ValidateMessage(BreakingChanges + text) == Returned(false)
  {
    var line := BreakingChanges + text;
    assert BreakingChanges <= line by { assert line[..|BreakingChanges|] == BreakingChanges; }
    assert NewlineFree(line) by {
      assert forall c | c in line :: c in BreakingChanges || c in text;
    }
    BreakingChangeLineIff(line);
    SingleLineMessage(line);
  }

  /** A one-line message with the marker anywhere but at its start is rejected:
      the subject rule refuses the marker. */
  lemma MarkerInsideSubjectRejected(line: string)
    requires NewlineFree(line) && Contains(line, BreakingChanges) && !(BreakingChanges <= line)
    ensures ValidateMessage(line) == Returned(false)
  {
    SingleLineMessage(line);
  }

  /** A newline after an accepted body line leaves an empty third line, and
      looking up its rule raises. */
  lemma TrailingNewlineRaises(subject: string, body: string)
    requires NewlineFree(subject) && NewlineFree(body) && body != []
    requires ValidateFirstLine(subject) && ValidateDescription(body)
    ensures ValidateMessage(subject + "\n" + body + "\n") == IndexError(2)
  {
    var msg := subject + "\n" + body + "\n";
    var lines, runs := [subject, body, ""], ["\n", "\n"];
    assert Weave(lines, runs) == msg;
    assert Decomposes(msg, lines, runs);
    SplitComplete(msg, lines, runs);
    assert subject[0..] == subject && body[0..] == body;
    assert !(BreakingChanges <= subject) && !(BreakingChanges <= body);
    assert FirstFailureAt(lines, 0, 2);
    ValidateRaisesIff(msg, 2);
  }

  /** A newline after an accepted subject only adds an empty body line, which
      the body rule accepts. */
  lemma SubjectTrailingNewlineAccepted(subject: string)
    requires NewlineFree(subject) && ValidateFirstLine(subject)
    ensures ValidateMessage(subject + "\n") == Returned(true)
  {
    var msg := subject + "\n";
    var lines, runs := [subject, ""], ["\n"];
    assert Weave(lines, runs) == msg;
    SplitComplete(msg, lines, runs);
    assert subject[0..] == subject;
    assert !Contains("", BreakingChanges);
    assert LineAccepted(0, subject) && LineAccepted(1, "");
    ValidateAcceptsIff(msg);
  }

  /** After a refused subject the `and` short-circuits, so a trailing newline
      after the body no longer raises: the message is rejected. */
  lemma RejectedSubjectTrailingNewline(subject: string, body: string)
    requires NewlineFree(subject) && NewlineFree(body) && body != []
    requires !(BreakingChanges <= subject) && !ValidateFirstLine(subject)
    ensures ValidateMessage(subject + "\n" + body + "\n") == Returned(false)
  {
    var msg := subject + "\n" + body + "\n";
    var lines, runs := [subject, body, ""], ["\n", "\n"];
    assert Weave(lines, runs) == msg;
    SplitComplete(msg, lines, runs);
    assert FirstFailureAt(lines, 0, 0);
    ValidateRejectsIff(msg);
  }

  /** `validate`: walk the logical lines with the accumulator `is_valid`. */
  method Validate(msg: string) returns (outcome: Outcome)
    ensures outcome == ValidateMessage(msg)
    ensures outcome == Returned(true) <==> AllAccepted(Split(msg))
  {
    var messages := Split(msg);
    var isValid := true;
    for idx := 0 to |messages|
      invariant Fold(messages, idx, isValid) == Fold(messages, 0, true)
    {
      var message := messages[idx];
      if !(BreakingChanges <= message) {
        if isValid && idx >= |Validators| {
          ValidateAcceptsIff(msg);
          return IndexError(idx);
        }
        isValid := isValid && Validators[idx](message);
      } else {
        isValid := isValid && ValidateBreakingChangeLine(message);
      }
    }
    outcome := Returned(isValid);
    ValidateAcceptsIff(msg);
  }
}
