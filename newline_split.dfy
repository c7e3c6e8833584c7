/** Splitting a commit message into its logical lines.

    The validator splits the message with `re.split(r'\n+', msg)`: every maximal
    run of newline characters is one separator, so a blank line between two
    paragraphs produces no piece of its own, while a newline at the very start or
    the very end of the message produces an empty first or last piece.

    `Split` computes the pieces; `Decomposes` says independently what a splitting
    is (pieces without newlines, glued together by non-empty runs of newlines),
    and the lemmas `SplitSound` and `SplitComplete` prove that `Split` returns the
    one and only decomposition of its input. */
module NewlineSplit {

  const Newline: char := '\n'

  predicate NewlineFree(s: string) {
    Newline !in s
  }

  /** A non-empty run of newlines: what one match of `\n+` consumes. */
  ghost predicate IsRun(r: string) {
    |r| > 0 && forall i | 0 <= i < |r| :: r[i] == Newline
  }

  /** The logical lines of s, in order. */
  function Split(s: string): (pieces: seq<string>)
    ensures |pieces| >= 1
    decreases |s|
  {
    if s == [] then [""]
    else if s[0] != Newline then
      var rest := Split(s[1..]);
      [[s[0]] + rest[0]] + rest[1..]
    else if |s| > 1 && s[1] == Newline then
      // not the last newline of its run: the run goes on
      Split(s[1..])
    else
      // the last newline of a run ends the current piece
      [""] + Split(s[1..])
  }

  /** The separators that Split drops: the maximal runs of newlines of s, in order. */
  ghost function Separators(s: string): (runs: seq<string>)
    ensures s != [] && s[0] == Newline ==> |runs| >= 1
    decreases |s|
  {
    if s == [] then []
    else if s[0] != Newline then Separators(s[1..])
    else if |s| > 1 && s[1] == Newline then
      var rest := Separators(s[1..]);
      [[Newline] + rest[0]] + rest[1..]
    else
      [[Newline]] + Separators(s[1..])
  }

  /** pieces[0] + runs[0] + pieces[1] + ... + runs[k-1] + pieces[k]. */
  function Weave(pieces: seq<string>, runs: seq<string>): string
    requires |pieces| == |runs| + 1
    decreases |runs|
  {
    if runs == [] then pieces[0]
    else pieces[0] + runs[0] + Weave(pieces[1..], runs[1..])
  }

  /** s is pieces glued together by the separator runs: no piece holds a newline,
      every separator is a non-empty run of newlines, and no piece strictly
      between two separators is empty (the runs are maximal). */
  ghost predicate Decomposes(s: string, pieces: seq<string>, runs: seq<string>) {
    && |pieces| == |runs| + 1
    && (forall i | 0 <= i < |pieces| :: NewlineFree(pieces[i]))
    && (forall i | 0 <= i < |runs| :: IsRun(runs[i]))
    && (forall i | 0 < i < |pieces| - 1 :: pieces[i] != "")
    && Weave(pieces, runs) == s
  }

  lemma WeavePrepend(c: char, pieces: seq<string>, runs: seq<string>)
    requires |pieces| == |runs| + 1
    ensures Weave([[c] + pieces[0]] + pieces[1..], runs) == [c] + Weave(pieces, runs)
  {
    var moved := [[c] + pieces[0]] + pieces[1..];
    assert moved[1..] == pieces[1..];
  }

  /** A piece that is not the last one starts the woven text, followed by a newline. */
  lemma {:induction false} WeaveHead(pieces: seq<string>, runs: seq<string>)
    requires |pieces| == |runs| + 1 && runs != [] && IsRun(runs[0])
    ensures |Weave(pieces, runs)| > |pieces[0]|
    ensures Weave(pieces, runs)[..|pieces[0]|] == pieces[0]
    ensures Weave(pieces, runs)[|pieces[0]|] == Newline
  {
  }

  /** How a decomposed text starts: with a newline exactly when its first piece
      is empty and a separator follows it. */
  lemma WeaveStart(t: string, pieces: seq<string>, runs: seq<string>)
    requires Decomposes(t, pieces, runs)
    ensures t == [] ==> runs == [] && pieces[0] == ""
    ensures t != [] ==> (t[0] == Newline <==> pieces[0] == "" && runs != [])
  {
    if runs == [] {
      assert t == pieces[0];
      if t != [] { assert t[0] in pieces[0]; }
    } else {
      assert t == pieces[0] + runs[0] + Weave(pieces[1..], runs[1..]);
      assert IsRun(runs[0]);
      if pieces[0] != "" {
        assert t[0] == pieces[0][0] && pieces[0][0] in pieces[0];
      } else {
        assert t[0] == runs[0][0];
      }
    }
  }

  /** Split returns a decomposition of its input. */
  lemma {:induction false} SplitSound(s: string)
    ensures Decomposes(s, Split(s), Separators(s))
    decreases |s|
  {
    if s != [] {
      SplitSound(s[1..]);
      if s[0] != Newline {
        SplitSoundPiece(s);
      } else if |s| > 1 && s[1] == Newline {
        SplitSoundRun(s);
      } else {
        SplitSoundRunEnd(s);
      }
    }
  }

  /** SplitSound, first character not a newline. */
  lemma SplitSoundPiece(s: string)
    requires s != [] && s[0] != Newline
    requires Decomposes(s[1..], Split(s[1..]), Separators(s[1..]))
    ensures Decomposes(s, Split(s), Separators(s))
  {
    var rest, runs := Split(s[1..]), Separators(s[1..]);
    var pieces := [[s[0]] + rest[0]] + rest[1..];
    assert Split(s) == pieces;
    assert Separators(s) == runs;
    WeavePrepend(s[0], rest, runs);
    assert s == [s[0]] + s[1..];
    forall i | 0 <= i < |pieces| ensures NewlineFree(pieces[i]) {
      if i > 0 { assert pieces[i] == rest[i]; }
    }
    forall i | 0 < i < |pieces| - 1 ensures pieces[i] != "" {
      assert pieces[i] == rest[i];
    }
  }

  /** Lengthening the first separator by a newline, when the first piece is empty. */
  lemma WeaveLongerRun(pieces: seq<string>, runs: seq<string>)
    requires |pieces| == |runs| + 1 && runs != [] && pieces[0] == ""
    requires forall i | 0 <= i < |runs| :: IsRun(runs[i])
    ensures var longer := [[Newline] + runs[0]] + runs[1..];
      && Weave(pieces, longer) == [Newline] + Weave(pieces, runs)
      && forall i | 0 <= i < |longer| :: IsRun(longer[i])
  {
    var longer := [[Newline] + runs[0]] + runs[1..];
    assert longer[1..] == runs[1..];
    forall i | 0 <= i < |longer| ensures IsRun(longer[i]) {
      if i > 0 { assert longer[i] == runs[i]; }
    }
  }

  /** SplitSound, a newline that is followed by another one. */
  lemma SplitSoundRun(s: string)
    requires |s| > 1 && s[0] == Newline && s[1] == Newline
    requires Decomposes(s[1..], Split(s[1..]), Separators(s[1..]))
    ensures Decomposes(s, Split(s), Separators(s))
  {
    var pieces, rest := Split(s[1..]), Separators(s[1..]);
    // s[1..] starts with a newline, so its first piece is empty
    WeaveStart(s[1..], pieces, rest);
    WeaveLongerRun(pieces, rest);
    assert Split(s) == pieces;
    assert Separators(s) == [[Newline] + rest[0]] + rest[1..];
    assert s == [Newline] + s[1..];
  }

  /** SplitSound, the last newline of a run. */
  lemma SplitSoundRunEnd(s: string)
    requires s != [] && s[0] == Newline && !(|s| > 1 && s[1] == Newline)
    requires Decomposes(s[1..], Split(s[1..]), Separators(s[1..]))
    ensures Decomposes(s, Split(s), Separators(s))
  {
    var pieces, runs := Split(s[1..]), Separators(s[1..]);
    // s[1..] does not start with a newline, so its first piece is empty only if it is the last
    WeaveStart(s[1..], pieces, runs);
    var pieces', runs' := [""] + pieces, [[Newline]] + runs;
    assert Split(s) == pieces';
    assert Separators(s) == runs';
    assert Weave(pieces', runs') == s by {
      assert pieces'[1..] == pieces && runs'[1..] == runs;
      assert s == [Newline] + s[1..];
    }
    assert forall i | 0 < i < |pieces'| - 1 :: pieces'[i] != "" by {
      forall i | 0 < i < |pieces'| - 1 ensures pieces'[i] != "" {
        assert pieces'[i] == pieces[i - 1];
      }
    }
    assert forall i | 0 <= i < |pieces'| :: NewlineFree(pieces'[i]) by {
      forall i | 0 <= i < |pieces'| ensures NewlineFree(pieces'[i]) {
        if i > 0 { assert pieces'[i] == pieces[i - 1]; }
      }
    }
    assert forall i | 0 <= i < |runs'| :: IsRun(runs'[i]) by {
      forall i | 0 <= i < |runs'| ensures IsRun(runs'[i]) {
        if i > 0 { assert runs'[i] == runs[i - 1]; }
      }
    }
  }

  /** Text without newlines is one piece. */
  lemma {:induction false} SplitNewlineFree(s: string)
    requires NewlineFree(s)
    ensures Split(s) == [s]
    decreases |s|
  {
    if s != [] {
      assert s[0] in s;
      assert forall c | c in s[1..] :: c in s;
      SplitNewlineFree(s[1..]);
      assert s == [s[0]] + s[1..];
    }
  }

  /** Newline-free text in front of x extends the first piece of x. */
  lemma {:induction false} SplitPrefix(p: string, x: string)
    requires NewlineFree(p)
    ensures Split(p + x) == [p + Split(x)[0]] + Split(x)[1..]
    decreases |p|
  {
    if p != [] {
      assert p[0] in p;
      assert forall c | c in p[1..] :: c in p;
      SplitPrefix(p[1..], x);
      var rest := Split(p[1..] + x);
      assert (p + x)[0] == p[0] != Newline;
      assert (p + x)[1..] == p[1..] + x;
      assert Split(p + x) == [[p[0]] + rest[0]] + rest[1..];
      assert rest[1..] == Split(x)[1..];
      assert [p[0]] + (p[1..] + Split(x)[0]) == p + Split(x)[0];
    } else {
      assert p + x == x;
      assert p + Split(x)[0] == Split(x)[0];
      assert Split(x) == [Split(x)[0]] + Split(x)[1..];
    }
  }

  /** A run of newlines in front of text that does not start with a newline
      closes an empty piece. */
  lemma {:induction false} SplitRun(r: string, t: string)
    requires IsRun(r)
    requires t == [] || t[0] != Newline
    ensures Split(r + t) == [""] + Split(t)
    decreases |r|
  {
    assert (r + t)[1..] == r[1..] + t;
    if |r| > 1 {
      SplitRun(r[1..], t);
    } else {
      assert r + t == [Newline] + t;
      assert ([Newline] + t)[1..] == t;
    }
  }

  /** Split returns the only decomposition there is: any pieces that decompose s
      are the pieces Split returns. */
  lemma {:induction false} SplitComplete(s: string, pieces: seq<string>, runs: seq<string>)
    requires Decomposes(s, pieces, runs)
    ensures Split(s) == pieces
    decreases |runs|
  {
    if runs == [] {
      SplitNewlineFree(s);
    } else {
      var t := Weave(pieces[1..], runs[1..]);
      assert Decomposes(t, pieces[1..], runs[1..]) by {
        forall i | 0 < i < |pieces[1..]| - 1 ensures pieces[1..][i] != "" {
          assert pieces[1..][i] == pieces[i + 1];
        }
      }
      SplitComplete(t, pieces[1..], runs[1..]);
      // t does not start with a newline: its first piece is non-empty unless it is the last
      assert t == [] || t[0] != Newline by {
        if runs[1..] == [] {
          assert t == pieces[1];
          if t != [] { assert t[0] in pieces[1]; }
        } else {
          assert pieces[1] != "";
          assert t == pieces[1] + runs[1..][0] + Weave(pieces[2..], runs[2..]);
          assert t[0] == pieces[1][0];
          assert pieces[1][0] in pieces[1];
        }
      }
      SplitRun(runs[0], t);
      assert s == pieces[0] + (runs[0] + t);
      SplitPrefix(pieces[0], runs[0] + t);
      assert Split(runs[0] + t)[1..] == Split(t);
      assert pieces[0] + Split(runs[0] + t)[0] == pieces[0];
      assert pieces == [pieces[0]] + pieces[1..];
    }
  }

  /** The characterisation in one statement: pieces are the logical lines of s
      exactly when they decompose s with some separator runs. */
  lemma SplitIff(s: string, pieces: seq<string>)
    ensures Split(s) == pieces <==> exists runs :: Decomposes(s, pieces, runs)
  {
    SplitSound(s);
    if exists runs :: Decomposes(s, pieces, runs) {
      var runs :| Decomposes(s, pieces, runs);
      SplitComplete(s, pieces, runs);
    }
  }
}
