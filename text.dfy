/** Python's string helpers used by the notebook patchers: `''.join`,
    `sep.join`, `str.split(sep)`, `str.count`, the substring test `in`, and
    the notebook line convention `[line + '\n' for line in body.split('\n')]`. */
module Text {

  const Newline: char := '\n'

  /** `''.join(lines)`: the lines concatenated with nothing in between. */
  function Join(lines: seq<string>): string
  {
    if |lines| == 0 then "" else lines[0] + Join(lines[1..])
  }

  /** `sep.join(lines)` for a one-character separator. */
  function JoinWith(lines: seq<string>, sep: char): string
  {
    if |lines| == 0 then ""
    else if |lines| == 1 then lines[0]
    else lines[0] + [sep] + JoinWith(lines[1..], sep)
  }

  /** `s.count(c)`: the number of occurrences of the character `c` in `s`. */
  function Count(s: string, c: char): nat
  {
    if |s| == 0 then 0 else (if s[0] == c then 1 else 0) + Count(s[1..], c)
  }

  /** `s.split(sep)`: the maximal separator-free pieces of `s`, in order.
      As in Python, the empty string splits into `[""]`, and a separator at
      either end yields an empty first or last piece. */
  function Split(s: string, sep: char): (pieces: seq<string>)
    ensures |pieces| == Count(s, sep) + 1
    ensures forall k :: 0 <= k < |pieces| ==> sep !in pieces[k]
    decreases |s|
  {
    if |s| == 0 then [""]
    else
      var rest := Split(s[1..], sep);
      if s[0] == sep then [""] + rest
      else [[s[0]] + rest[0]] + rest[1..]
  }

  /** `sub` occurs in `s` starting at index `i`. */
  predicate OccursAt(s: string, sub: string, i: int)
  {
    0 <= i && i + |sub| <= |s| && s[i..i + |sub|] == sub
  }

  /** Python's `sub in s`: substring containment. */
  predicate Contains(s: string, sub: string)
  {
    exists i | 0 <= i <= |s| - |sub| :: OccursAt(s, sub, i)
  }

  /** `[line + '\n' for line in lines]`. */
  function Terminate(lines: seq<string>): seq<string>
  {
    seq(|lines|, k requires 0 <= k < |lines| => lines[k] + [Newline])
  }

  /** The notebook representation of a multi-line text:
      `[line + '\n' for line in body.split('\n')]`. */
  function SourceLines(body: string): seq<string>
  {
    Terminate(Split(body, Newline))
  }

  // ---------------------------------------------------------------------
  // Split and JoinWith are inverse to each other.

  lemma JoinWithCons(head: string, tail: seq<string>, sep: char)
    requires |tail| > 0
    ensures JoinWith([head] + tail, sep) == head + [sep] + JoinWith(tail, sep)
  {
    assert ([head] + tail)[1..] == tail;
  }

  /** Prepending a character to the first piece prepends it to the joined text. */
  lemma JoinWithPrependChar(c: char, pieces: seq<string>, sep: char)
    requires |pieces| > 0
    ensures JoinWith([[c] + pieces[0]] + pieces[1..], sep) == [c] + JoinWith(pieces, sep)
  {
    if |pieces| > 1 {
      JoinWithCons([c] + pieces[0], pieces[1..], sep);
      JoinWithCons(pieces[0], pieces[1..], sep);
      assert [pieces[0]] + pieces[1..] == pieces;
    }
  }

  /** `sep.join(s.split(sep)) == s`. */
  lemma {:induction false} JoinWithSplit(s: string, sep: char)
    ensures JoinWith(Split(s, sep), sep) == s
    decreases |s|
  {
    if |s| > 0 {
      var rest := Split(s[1..], sep);
      JoinWithSplit(s[1..], sep);
      if s[0] == sep {
        JoinWithCons("", rest, sep);
      } else {
        JoinWithPrependChar(s[0], rest, sep);
      }
      assert [s[0]] + s[1..] == s;
    }
  }

  /** `sep.join(pieces).split(sep) == pieces` whenever no piece holds the
      separator (and there is at least one piece: `"".split(sep)` is `[""]`,
      never `[]`). Together with JoinWithSplit this pins Split down. */
  lemma {:induction false} SplitJoinWith(pieces: seq<string>, sep: char)
    requires |pieces| > 0
    requires forall k :: 0 <= k < |pieces| ==> sep !in pieces[k]
    ensures Split(JoinWith(pieces, sep), sep) == pieces
    decreases |pieces|, |pieces[0]|
  {
    var head := pieces[0];
    if |head| == 0 {
      if |pieces| > 1 {
        var tail := pieces[1..];
        JoinWithCons(head, tail, sep);
        var joined := JoinWith(pieces, sep);
        assert joined == [sep] + JoinWith(tail, sep);
        assert joined[1..] == JoinWith(tail, sep);
        SplitJoinWith(tail, sep);
        assert [""] + tail == pieces;
      }
    } else {
      var shorter := [head[1..]] + pieces[1..];
      assert shorter[0] == head[1..];
      assert shorter[1..] == pieces[1..];
      assert forall k :: 0 <= k < |shorter| ==> sep !in shorter[k] by {
        forall k | 0 <= k < |shorter| ensures sep !in shorter[k] {
          if k == 0 {
            assert forall x :: x in head[1..] ==> x in head;
          } else {
            assert shorter[k] == pieces[k];
          }
        }
      }
      SplitJoinWith(shorter, sep);
      JoinWithPrependChar(head[0], shorter, sep);
      assert [head[0]] + head[1..] == head;
      assert [[head[0]] + shorter[0]] + shorter[1..] == pieces;
      var joined := JoinWith(pieces, sep);
      assert joined == [head[0]] + JoinWith(shorter, sep);
      assert joined[0] == head[0] && head[0] != sep;
      assert joined[1..] == JoinWith(shorter, sep);
    }
  }

  // ---------------------------------------------------------------------
  // The notebook line convention.

  /** `''.join(line + '\n' for line in lines) == '\n'.join(lines) + '\n'`. */
  lemma {:induction false} JoinTerminate(lines: seq<string>)
    requires |lines| > 0
    ensures Join(Terminate(lines)) == JoinWith(lines, Newline) + [Newline]
    decreases |lines|
  {
    var t := Terminate(lines);
    assert t[0] == lines[0] + [Newline];
    if |lines| > 1 {
      assert t[1..] == Terminate(lines[1..]);
      JoinTerminate(lines[1..]);
      JoinWithCons(lines[0], lines[1..], Newline);
      assert [lines[0]] + lines[1..] == lines;
    } else {
      assert t[1..] == [];
    }
  }

  /** Joining the stored lines gives back the body followed by exactly one
      newline: the final line is terminated too. */
  lemma JoinSourceLines(body: string)
    ensures Join(SourceLines(body)) == body + [Newline]
  {
    JoinTerminate(Split(body, Newline));
    JoinWithSplit(body, Newline);
  }

  /** The stored lines: one per newline of the body plus one; each ends in a
      newline and holds no other newline. */
  lemma SourceLinesShape(body: string)
    ensures |SourceLines(body)| == Count(body, Newline) + 1
    ensures forall k :: 0 <= k < |SourceLines(body)| ==>
      var line := SourceLines(body)[k];
      |line| > 0 && line[|line| - 1] == Newline && Newline !in line[..|line| - 1]
  {
    var pieces := Split(body, Newline);
    forall k | 0 <= k < |pieces|
      ensures var line := SourceLines(body)[k];
        |line| > 0 && line[|line| - 1] == Newline && Newline !in line[..|line| - 1]
    {
      var line := SourceLines(body)[k];
      assert line == pieces[k] + [Newline];
      assert line[..|line| - 1] == pieces[k];
    }
  }

  /** Splitting the normalized single string back on newlines recovers the
      pieces of the body followed by one empty piece: the trailing newline is
      the only thing the convention adds. */
  lemma SplitJoinedSourceLines(body: string)
    ensures Split(Join(SourceLines(body)), Newline) == Split(body, Newline) + [""]
  {
    var pieces := Split(body, Newline);
    JoinSourceLines(body);
    JoinWithSplit(body, Newline);
    var extended := pieces + [""];
    assert extended[..|pieces|] == pieces;
    JoinWithAppendEmpty(pieces, Newline);
    forall k | 0 <= k < |extended| ensures Newline !in extended[k] {
      if k < |pieces| { assert extended[k] == pieces[k]; }
    }
    SplitJoinWith(extended, Newline);
  }

  lemma {:induction false} JoinWithAppendEmpty(pieces: seq<string>, sep: char)
    requires |pieces| > 0
    ensures JoinWith(pieces + [""], sep) == JoinWith(pieces, sep) + [sep]
    decreases |pieces|
  {
    var extended := pieces + [""];
    if |pieces| == 1 {
      assert extended[1..] == [""];
    } else {
      assert extended[1..] == pieces[1..] + [""];
      JoinWithAppendEmpty(pieces[1..], sep);
    }
  }

  // ---------------------------------------------------------------------
  // Substring containment.

  /** A substring holding a character that does not appear in `s` cannot
      occur in it. */
  lemma MissingCharNotContained(s: string, sub: string, c: char)
    requires c in sub && c !in s
    ensures !Contains(s, sub)
  {
    forall i | 0 <= i <= |s| - |sub| ensures !OccursAt(s, sub, i) {
      var window := s[i..i + |sub|];
      assert forall x :: x in window ==> x in s;
      assert c !in window;
    }
  }

  /** An occurrence in `s` is still an occurrence once more text follows. */
  lemma OccursAtExtended(s: string, more: string, sub: string, i: int)
    requires OccursAt(s, sub, i)
    ensures OccursAt(s + more, sub, i)
  {
    assert (s + more)[i..i + |sub|] == s[i..i + |sub|];
  }

  /** An occurrence of a newline-free substring in `s + "\n"` lies inside `s`. */
  lemma OccursAtBeforeNewline(s: string, sub: string, i: int)
    requires Newline !in sub && |sub| > 0
    requires OccursAt(s + [Newline], sub, i)
    ensures OccursAt(s, sub, i)
  {
    var t := s + [Newline];
    var last := |sub| - 1;
    assert t[i..i + |sub|][last] == t[i + last];
    assert sub[last] in sub;
    assert i + |sub| <= |s|;
    assert t[i..i + |sub|] == s[i..i + |sub|];
  }

  /** Appending a newline cannot create an occurrence of a newline-free
      substring, nor destroy one. */
  lemma ContainsAppendNewline(s: string, sub: string)
    requires Newline !in sub
    ensures Contains(s + [Newline], sub) <==> Contains(s, sub)
  {
    var t := s + [Newline];
    if Contains(t, sub) {
      if |sub| == 0 {
        assert OccursAt(s, sub, 0);
      } else {
        var i :| 0 <= i <= |t| - |sub| && OccursAt(t, sub, i);
        OccursAtBeforeNewline(s, sub, i);
      }
    }
    if Contains(s, sub) {
      var i :| 0 <= i <= |s| - |sub| && OccursAt(s, sub, i);
      OccursAtExtended(s, [Newline], sub, i);
    }
  }
}
