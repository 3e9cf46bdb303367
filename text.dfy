/** Plain text operations the envelope parser relies on: prefix tests and
    splitting on the newline character. */
module Text {

  /** `s` starts with `prefix`, as Python's `str.startswith`. */
  predicate StartsWith(s: string, prefix: string)
  {
    |prefix| <= |s| && s[..|prefix|] == prefix
  }

  /** The pieces of `s` between newline characters, as Python's
      `str.split('\n')`: there is always at least one piece, and a text that
      ends with a newline has an empty last piece. */
  function Lines(s: string): (r: seq<string>)
    ensures |r| >= 1
    decreases |s|
  {
    if s == [] then [""]
    else
      var rest := Lines(s[1..]);
      if s[0] == '\n' then [""] + rest
      else [[s[0]] + rest[0]] + rest[1..]
  }

  /** No piece of a split holds a newline. */
  lemma {:induction false} LinesHaveNoNewline(s: string)
    ensures forall i :: 0 <= i < |Lines(s)| ==> '\n' !in Lines(s)[i]
    decreases |s|
  {
    if s != [] {
      LinesHaveNoNewline(s[1..]);
      var rest := Lines(s[1..]);
      if s[0] != '\n' {
        assert '\n' !in [s[0]] + rest[0];
      }
    }
  }

  /** The pieces joined with a newline between each two, as Python's
      `'\n'.join`. */
  function JoinLines(lines: seq<string>): string
    requires |lines| >= 1
  {
    if |lines| == 1 then lines[0] else lines[0] + "\n" + JoinLines(lines[1..])
  }

  /** Each line followed by a newline, concatenated: what the parser
      accumulates from the lines of one segment. */
  function Terminated(lines: seq<string>): string
  {
    if lines == [] then "" else lines[0] + "\n" + Terminated(lines[1..])
  }

  /** Joining the pieces of a split gives back the text. */
  lemma {:induction false} JoinLinesOfLines(s: string)
    ensures JoinLines(Lines(s)) == s
    decreases |s|
  {
    if s != [] {
      JoinLinesOfLines(s[1..]);
      var rest := Lines(s[1..]);
      if s[0] == '\n' {
        assert Lines(s) == [""] + rest;
        assert ([""] + rest)[1..] == rest;
        assert JoinLines(Lines(s)) == "\n" + JoinLines(rest);
        assert s == [s[0]] + s[1..];
      } else {
        var first := [s[0]] + rest[0];
        assert Lines(s) == [first] + rest[1..];
        if |rest| == 1 {
          assert JoinLines(rest) == rest[0];
          assert s == [s[0]] + s[1..];
        } else {
          assert ([first] + rest[1..])[1..] == rest[1..];
          assert JoinLines(rest) == rest[0] + "\n" + JoinLines(rest[1..]);
          assert s == [s[0]] + s[1..];
        }
      }
    }
  }

  /** A text without a newline is a single piece. */
  lemma {:induction false} LinesOfSingleLine(s: string)
    requires '\n' !in s
    ensures Lines(s) == [s]
    decreases |s|
  {
    if s != [] {
      assert '\n' !in s[1..] by {
        forall k | 0 <= k < |s[1..]| ensures s[1..][k] != '\n' {
          assert s[1..][k] == s[k + 1];
        }
      }
      LinesOfSingleLine(s[1..]);
      assert s == [s[0]] + s[1..];
    }
  }

  /** A split of a text that starts with a newline begins with an empty piece. */
  lemma LinesOfNewlineCons(t: string)
    ensures Lines(['\n'] + t) == [""] + Lines(t)
  {
    assert (['\n'] + t)[1..] == t;
  }

  /** Any other first character is prepended to the first piece. */
  lemma LinesOfCharCons(c: char, t: string)
    requires c != '\n'
    ensures Lines([c] + t) == [[c] + Lines(t)[0]] + Lines(t)[1..]
  {
    assert ([c] + t)[1..] == t;
  }

  /** One step of LinesOfConcat: prepending a newline to the left text. */
  lemma LinesOfConcatNewlineStep(a: string, b: string)
    requires Lines(a + "\n" + b) == Lines(a) + Lines(b)
    ensures Lines(['\n'] + (a + "\n" + b)) == Lines(['\n'] + a) + Lines(b)
  {
    LinesOfNewlineCons(a + "\n" + b);
    LinesOfNewlineCons(a);
  }

  /** One step of LinesOfConcat: prepending another character to the left text. */
  lemma LinesOfConcatCharStep(c: char, a: string, b: string)
    requires c != '\n'
    requires Lines(a + "\n" + b) == Lines(a) + Lines(b)
    ensures Lines([c] + (a + "\n" + b)) == Lines([c] + a) + Lines(b)
  {
    var x := a + "\n" + b;
    var ra := Lines(a);
    var rb := Lines(b);
    LinesOfCharCons(c, x);
    LinesOfCharCons(c, a);
    PrependToFirst([c], ra, rb);
  }

  /** Extending the first piece of `ra + rb` is extending the first piece of `ra`. */
  lemma PrependToFirst(p: string, ra: seq<string>, rb: seq<string>)
    requires |ra| >= 1
    ensures [p + (ra + rb)[0]] + (ra + rb)[1..] == ([p + ra[0]] + ra[1..]) + rb
  {
    assert (ra + rb)[0] == ra[0];
    assert (ra + rb)[1..] == ra[1..] + rb;
  }

  /** Splitting distributes over a newline: the pieces of `a + "\n" + b` are
      the pieces of `a` followed by the pieces of `b`. */
  lemma {:induction false} LinesOfConcat(a: string, b: string)
    ensures Lines(a + "\n" + b) == Lines(a) + Lines(b)
    decreases |a|
  {
    if a == [] {
      assert a + "\n" + b == ['\n'] + b;
      LinesOfNewlineCons(b);
    } else {
      LinesOfConcat(a[1..], b);
      if a[0] == '\n' {
        LinesOfConcatNewlineStep(a[1..], b);
      } else {
        LinesOfConcatCharStep(a[0], a[1..], b);
      }
      assert a + "\n" + b == [a[0]] + (a[1..] + "\n" + b);
      assert a == [a[0]] + a[1..];
    }
  }

  /** Splitting undoes joining when no piece holds a newline. */
  lemma {:induction false} LinesOfJoinLines(lines: seq<string>)
    requires |lines| >= 1
    requires forall i :: 0 <= i < |lines| ==> '\n' !in lines[i]
    ensures Lines(JoinLines(lines)) == lines
    decreases |lines|
  {
    LinesOfSingleLine(lines[0]);
    if |lines| > 1 {
      LinesOfJoinLines(lines[1..]);
      LinesOfConcat(lines[0], JoinLines(lines[1..]));
      assert lines == [lines[0]] + lines[1..];
    }
  }

  /** Terminating every line adds exactly one newline to the joined text. */
  lemma {:induction false} TerminatedIsJoinedPlusNewline(lines: seq<string>)
    requires |lines| >= 1
    ensures Terminated(lines) == JoinLines(lines) + "\n"
    decreases |lines|
  {
    if |lines| > 1 {
      TerminatedIsJoinedPlusNewline(lines[1..]);
    } else {
      assert lines[1..] == [];
    }
  }

  /** Re-terminating the pieces of a split gives the text plus one newline. */
  lemma TerminatedLines(s: string)
    ensures Terminated(Lines(s)) == s + "\n"
  {
    TerminatedIsJoinedPlusNewline(Lines(s));
    JoinLinesOfLines(s);
  }

  /** A newline-free prefix of a text is a prefix of its first piece. */
  lemma {:induction false} FirstLineStartsWith(s: string, prefix: string)
    requires StartsWith(s, prefix)
    requires '\n' !in prefix
    ensures StartsWith(Lines(s)[0], prefix)
    decreases |s|
  {
    if prefix != [] {
      assert s[0] == prefix[0];
      assert StartsWith(s[1..], prefix[1..]) by {
        assert s[1..][..|prefix| - 1] == s[..|prefix|][1..];
      }
      assert '\n' !in prefix[1..] by {
        forall k | 0 <= k < |prefix[1..]| ensures prefix[1..][k] != '\n' {
          assert prefix[1..][k] == prefix[k + 1];
        }
      }
      FirstLineStartsWith(s[1..], prefix[1..]);
      var first := Lines(s)[0];
      var rest := Lines(s[1..]);
      assert first == [s[0]] + rest[0];
      assert first[..|prefix|] == [s[0]] + rest[0][..|prefix| - 1];
      assert prefix == [prefix[0]] + prefix[1..];
    }
  }
}
