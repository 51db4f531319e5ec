/** `s.split()` without arguments, and lines. */
module Blanks {
  import opened Text

  predicate OneWord(s: string)
  {
    s != "" && forall i :: 0 <= i < |s| ==> !IsSpace(s[i])
  }

  /** Up to the first blank. */
  function FirstWord(s: string): (w: string)
    ensures w <= s && (s != "" && !IsSpace(s[0]) ==> w != "")
  {
    if s == "" || IsSpace(s[0]) then "" else [s[0]] + FirstWord(s[1..])
  }

  /** `s.split()` */
  function Words(s: string): seq<string>
    decreases |s|
  {
    if s == "" then []
    else if IsSpace(s[0]) then Words(s[1..])
    else
      var w := FirstWord(s);
      [w] + Words(s[|w|..])
  }

  lemma {:induction false} FirstWordBefore(a: string, c: char, b: string)
    requires IsSpace(c)
    ensures FirstWord(a + [c] + b) == FirstWord(a)
  {
    if a != "" && !IsSpace(a[0]) {
      assert (a + [c] + b)[1..] == a[1..] + [c] + b;
      FirstWordBefore(a[1..], c, b);
    }
  }

  /** A blank keeps what is before it apart from what is behind it. */
  lemma {:induction false} WordsApart(a: string, c: char, b: string)
    requires IsSpace(c)
    ensures Words(a + [c] + b) == Words(a) + Words(b)
    decreases |a|
  {
    var s := a + [c] + b;
    if a == "" {
      assert s[1..] == b;
    } else if IsSpace(a[0]) {
      assert s[1..] == a[1..] + [c] + b;
      WordsApart(a[1..], c, b);
    } else {
      var w := FirstWord(a);
      FirstWordBefore(a, c, b);
      assert s[|w|..] == a[|w|..] + [c] + b;
      WordsApart(a[|w|..], c, b);
      assert [w] + (Words(a[|w|..]) + Words(b)) == [w] + Words(a[|w|..]) + Words(b);
    }
  }

  lemma {:induction false} FirstWordOfWord(s: string)
    requires forall i :: 0 <= i < |s| ==> !IsSpace(s[i])
    ensures FirstWord(s) == s
  {
    if s != "" {
      FirstWordOfWord(s[1..]);
    }
  }

  lemma WordsOfWord(s: string)
    requires OneWord(s)
    ensures Words(s) == [s]
  {
    FirstWordOfWord(s);
    assert s[|s|..] == "";
  }

  lemma WordThen(w: string, rest: string)
    requires OneWord(w)
    ensures Words(w + " " + rest) == [w] + Words(rest)
  {
    WordsApart(w, ' ', rest);
    WordsOfWord(w);
  }

  lemma ThenWord(rest: string, w: string)
    requires OneWord(w)
    ensures Words(rest + " " + w) == Words(rest) + [w]
  {
    WordsApart(rest, ' ', w);
    WordsOfWord(w);
  }

  // ---------------------------------------------------------------- text that survives split and join

  /** Any blank is a single space between two other characters. */
  predicate SingleSpaced(s: string)
  {
    forall i :: 0 <= i < |s| && IsSpace(s[i]) ==> s[i] == ' ' && BlankBetween(s, i)
  }

  predicate BlankBetween(s: string, i: nat)
    requires i < |s|
  {
    0 < i < |s| - 1 && !IsSpace(s[i - 1]) && !IsSpace(s[i + 1])
  }

  lemma {:induction false} FirstWordIsWord(s: string)
    ensures var w := FirstWord(s);
            && (forall i :: 0 <= i < |w| ==> !IsSpace(w[i]))
            && (|w| < |s| ==> IsSpace(s[|w|]))
  {
    if s != "" && !IsSpace(s[0]) {
      FirstWordIsWord(s[1..]);
    }
  }

  lemma {:induction false} WordsAreWords(s: string)
    ensures forall i :: 0 <= i < |Words(s)| ==> OneWord(Words(s)[i])
    decreases |s|
  {
    if s != "" {
      if IsSpace(s[0]) {
        WordsAreWords(s[1..]);
      } else {
        FirstWordIsWord(s);
        WordsAreWords(s[|FirstWord(s)|..]);
      }
    }
  }

  lemma {:induction false} JoinedIsSingleSpaced(words: seq<string>)
    requires forall i :: 0 <= i < |words| ==> OneWord(words[i])
    ensures SingleSpaced(Join(words, ' '))
    ensures words != [] ==> Join(words, ' ') != "" && !IsSpace(Join(words, ' ')[0])
  {
    if |words| > 1 {
      var w, rest := words[0], Join(words[1..], ' ');
      assert OneWord(words[0]) && forall i :: 0 <= i < |words[1..]| ==> words[1..][i] == words[i + 1];
      JoinedIsSingleSpaced(words[1..]);
      var s := w + [' '] + rest;
      forall i | 0 <= i < |s| && IsSpace(s[i])
        ensures s[i] == ' ' && BlankBetween(s, i)
      {
        if i > |w| {
          assert s[i] == rest[i - |w| - 1] && BlankBetween(rest, i - |w| - 1);
        }
      }
    } else if |words| == 1 {
      assert OneWord(words[0]);
    }
  }

  lemma RestSingleSpaced(s: string, k: nat)
    requires SingleSpaced(s) && k < |s| && IsSpace(s[k])
    ensures s[k] == ' ' && k + 1 < |s| && !IsSpace(s[k + 1]) && SingleSpaced(s[k + 1..])
  {
    assert BlankBetween(s, k);
    var rest := s[k + 1..];
    forall i | 0 <= i < |rest| && IsSpace(rest[i])
      ensures rest[i] == ' ' && BlankBetween(rest, i)
    {
      assert rest[i] == s[k + 1 + i] && BlankBetween(s, k + 1 + i);
    }
  }

  lemma {:induction false} SingleSpacedIsJoined(s: string)
    requires SingleSpaced(s)
    ensures Join(Words(s), ' ') == s
    decreases |s|
  {
    if s != "" {
      assert !IsSpace(s[0]);
      var w := FirstWord(s);
      FirstWordIsWord(s);
      if |w| < |s| {
        RestSingleSpaced(s, |w|);
        var rest := s[|w| + 1..];
        assert s[|w|..][1..] == rest;
        SingleSpacedIsJoined(rest);
        assert Words(s) == [w] + Words(rest);
        assert s == w + [' '] + rest;
        assert Words(rest) != [];
      } else {
        assert s[|w|..] == "";
      }
    }
  }

  /** Splitting and joining keeps exactly the text without other blanks than single spaces inside. */
  lemma JoinUndoesWords(s: string)
    ensures Join(Words(s), ' ') == s <==> SingleSpaced(s)
  {
    if SingleSpaced(s) {
      SingleSpacedIsJoined(s);
    }
    WordsAreWords(s);
    JoinedIsSingleSpaced(Words(s));
  }

  lemma {:induction false} JoinedIsNoLonger(s: string)
    ensures |Join(Words(s), ' ')| <= |s|
    decreases |s|
  {
    if s != "" {
      if IsSpace(s[0]) {
        JoinedIsNoLonger(s[1..]);
      } else {
        var w := FirstWord(s);
        FirstWordIsWord(s);
        if |w| < |s| {
          assert Words(s[|w|..]) == Words(s[|w|..][1..]);
          JoinedIsNoLonger(s[|w|..][1..]);
        } else {
          assert s[|w|..] == "";
        }
      }
    }
  }

  // ---------------------------------------------------------------- lines

  /** `f.readlines()`: lines keep their line feeds. */
  function ReadLines(text: string): seq<string>
  {
    if text == "" then []
    else if text[0] == '\n' then ["\n"] + ReadLines(text[1..])
    else
      var rest := ReadLines(text[1..]);
      if rest == [] then [[text[0]]] else [[text[0]] + rest[0]] + rest[1..]
  }

  /** One line, with its line feed and no other. */
  predicate IsLine(line: string)
  {
    line != "" && line[|line| - 1] == '\n' && Free(line[..|line| - 1], '\n')
  }

  predicate AllLines(lines: seq<string>)
  {
    forall i :: 0 <= i < |lines| ==> IsLine(lines[i])
  }

  lemma {:induction false} ReadFirstLine(line: string, rest: string)
    requires IsLine(line)
    ensures ReadLines(line + rest) == [line] + ReadLines(rest)
  {
    assert (line + rest)[1..] == line[1..] + rest;
    if |line| == 1 {
      assert line == "\n";
    } else {
      var tail := line[1..];
      assert IsLine(tail) by {
        assert tail[..|tail| - 1] == line[..|line| - 1][1..];
      }
      ReadFirstLine(tail, rest);
      assert line[0] != '\n' by {
        assert line[..|line| - 1][0] == line[0];
      }
      assert [line[0]] + tail == line;
    }
  }

  /** Reading loses nothing. */
  lemma {:induction false} LinesKeepText(text: string)
    ensures Concat(ReadLines(text)) == text
  {
    if text != "" {
      LinesKeepText(text[1..]);
      var rest, lines := ReadLines(text[1..]), ReadLines(text);
      if text[0] == '\n' || rest == [] {
        assert lines == [[text[0]]] + rest && lines[1..] == rest;
      } else {
        assert lines[1..] == rest[1..];
        assert [text[0]] + rest[0] + Concat(rest[1..]) == [text[0]] + (rest[0] + Concat(rest[1..]));
      }
      assert text == [text[0]] + text[1..];
    }
  }

  lemma {:induction false} ReadLinesBack(lines: seq<string>)
    requires AllLines(lines)
    ensures ReadLines(Concat(lines)) == lines
  {
    if lines != [] {
      assert IsLine(lines[0]);
      ReadFirstLine(lines[0], Concat(lines[1..]));
      ReadLinesBack(lines[1..]);
      assert lines == [lines[0]] + lines[1..];
    }
  }
}
