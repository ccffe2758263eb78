/** Text as a sequence of characters: splitting on a separator, joining with
    one, and the line splitting performed by Rust's `str::lines`. */
module Text {

  /** Number of occurrences of `c` in `s`. */
  function CountOf(s: string, c: char): nat
  {
    if s == [] then 0 else (if s[0] == c then 1 else 0) + CountOf(s[1..], c)
  }

  /** Rust's `str::split(c)`: the pieces between the occurrences of `c`.
      There is always one piece more than there are separators, and no piece
      holds the separator. */
  function Split(s: string, c: char): (parts: seq<string>)
    ensures |parts| == CountOf(s, c) + 1
    ensures forall i :: 0 <= i < |parts| ==> c !in parts[i]
  {
    if s == [] then [[]]
    else
      var rest := Split(s[1..], c);
      if s[0] == c then [[]] + rest else [[s[0]] + rest[0]] + rest[1..]
  }

  /** Rust's `[&str]::join(sep)` for a one-character separator. */
  function Join(parts: seq<string>, c: char): string
  {
    if parts == [] then []
    else if |parts| == 1 then parts[0]
    else parts[0] + [c] + Join(parts[1..], c)
  }

  /** Removes one carriage return at the end of a line. */
  function StripCR(l: string): string
  {
    if |l| > 0 && l[|l| - 1] == '\r' then l[..|l| - 1] else l
  }

  predicate EndsWithCR(l: string)
  {
    |l| > 0 && l[|l| - 1] == '\r'
  }

  /** Rust's `str::lines`: the text is cut at every '\n'; the empty piece after
      a final '\n' (or of the empty text) is not a line; a line that was ended
      by '\n' loses one '\r' before it, while the unterminated last line keeps
      its characters as they are. */
  function Lines(s: string): (ls: seq<string>)
    ensures forall i :: 0 <= i < |ls| ==> '\n' !in ls[i]
    ensures |ls| == CountOf(s, '\n') + (if s == [] || s[|s| - 1] == '\n' then 0 else 1)
  {
    var parts := Split(s, '\n');
    var last := parts[|parts| - 1];
    SplitLastPiece(s, '\n');
    var ended := seq(|parts| - 1, i requires 0 <= i < |parts| - 1 => StripCR(parts[i]));
    assert forall i :: 0 <= i < |ended| ==> '\n' !in ended[i] by {
      forall i | 0 <= i < |ended| ensures '\n' !in ended[i] {
        assert '\n' !in parts[i];
      }
    }
    ended + (if last == [] then [] else [last])
  }

  /** The last piece of a split is empty exactly when the text is empty or
      ends with the separator. */
  lemma {:induction false} SplitLastPiece(s: string, c: char)
    ensures var parts := Split(s, c);
      parts[|parts| - 1] == [] <==> s == [] || s[|s| - 1] == c
  {
    if s != [] {
      var rest := Split(s[1..], c);
      SplitLastPiece(s[1..], c);
      if s[0] != c && |rest| == 1 {
        // the last piece is s[0] followed by the first piece of the tail
        if s[1..] != [] {
          assert s[|s| - 1] == s[1..][|s[1..]| - 1];
          assert s[|s| - 1] != c by {
            if s[|s| - 1] == c {
              CountOfLast(s[1..], c);
            }
          }
        }
      } else if s[1..] != [] {
        assert s[|s| - 1] == s[1..][|s[1..]| - 1];
      }
    }
  }

  /** A text ending with `c` holds at least one `c`. */
  lemma {:induction false} CountOfLast(s: string, c: char)
    requires s != [] && s[|s| - 1] == c
    ensures CountOf(s, c) > 0
  {
    if s[0] != c {
      assert s[1..][|s[1..]| - 1] == c;
      CountOfLast(s[1..], c);
    }
  }

  /** Splitting a text and joining the pieces again gives the text back. */
  lemma {:induction false} JoinSplit(s: string, c: char)
    ensures Join(Split(s, c), c) == s
  {
    if s != [] {
      var rest := Split(s[1..], c);
      JoinSplit(s[1..], c);
      if s[0] == c {
        assert Split(s, c) == [[]] + rest;
        assert Join([[]] + rest, c) == [] + [c] + Join(rest, c);
      } else if |rest| == 1 {
        assert Split(s, c) == [[s[0]] + rest[0]];
      } else {
        var parts := Split(s, c);
        assert parts == [[s[0]] + rest[0]] + rest[1..];
        assert parts[1..] == rest[1..];
        assert Join(rest, c) == rest[0] + [c] + Join(rest[1..], c);
      }
    }
  }

  /** A separator-free prefix just extends the first piece. */
  lemma {:induction false} SplitPrefix(x: string, tail: string, c: char)
    requires c !in x
    ensures Split(x + tail, c) == [x + Split(tail, c)[0]] + Split(tail, c)[1..]
  {
    if x != [] {
      SplitPrefix(x[1..], tail, c);
      assert (x + tail)[1..] == x[1..] + tail;
      assert [x[0]] + (x[1..] + Split(tail, c)[0]) == x + Split(tail, c)[0];
    } else {
      var parts := Split(tail, c);
      assert x + tail == tail;
      assert x + parts[0] == parts[0];
      assert parts == [parts[0]] + parts[1..];
    }
  }

  /** Joining separator-free pieces and splitting again gives the pieces back. */
  lemma {:induction false} SplitJoin(parts: seq<string>, c: char)
    requires |parts| >= 1
    requires forall i :: 0 <= i < |parts| ==> c !in parts[i]
    ensures Split(Join(parts, c), c) == parts
  {
    if |parts| == 1 {
      SplitPrefix(parts[0], [], c);
      assert parts[0] + [] == parts[0];
    } else {
      var rest := parts[1..];
      SplitJoin(rest, c);
      var tail := [c] + Join(rest, c);
      assert Join(parts, c) == parts[0] + tail;
      SplitPrefix(parts[0], tail, c);
      assert tail[1..] == Join(rest, c);
      assert Split(tail, c) == [[]] + rest;
      assert parts[0] + [] == parts[0];
    }
  }

  /** A text without '\n' is one piece. */
  lemma SplitNone(x: string, c: char)
    requires c !in x
    ensures Split(x, c) == [x]
  {
    SplitPrefix(x, [], c);
    assert x + [] == x;
  }

  /** A text without '\n' is a single, unterminated line, kept as it is: a
      '\r' at its end stays. The empty text has no lines. */
  lemma LinesLast(x: string)
    requires '\n' !in x
    ensures Lines(x) == if x == [] then [] else [x]
  {
    SplitNone(x, '\n');
  }

  /** A separator-free first piece followed by the separator. */
  lemma SplitCons(x: string, c: char, y: string)
    requires c !in x
    ensures Split(x + [c] + y, c) == [x] + Split(y, c)
  {
    var rest := Split(y, c);
    var t := [c] + y;
    assert t[0] == c && t[1..] == y;
    assert Split(t, c) == [[]] + rest;
    assert x + [c] + y == x + t;
    SplitPrefix(x, t, c);
    assert Split(t, c)[0] == [] && Split(t, c)[1..] == rest;
    assert x + [] == x;
  }

  /** The first line of a text is everything before its first '\n', minus one
      '\r' right before that '\n' (so "\r\n" ends a line like "\n"); the
      remaining lines are those of the rest of the text. */
  lemma {:induction false} LinesCons(x: string, y: string)
    requires '\n' !in x
    ensures Lines(x + "\n" + y) == [StripCR(x)] + Lines(y)
  {
    var s := x + "\n" + y;
    var rest := Split(y, '\n');
    SplitCons(x, '\n', y);
    var parts := Split(s, '\n');
    assert parts == [x] + rest;
    var ended := seq(|parts| - 1, i requires 0 <= i < |parts| - 1 => StripCR(parts[i]));
    var endedY := seq(|rest| - 1, i requires 0 <= i < |rest| - 1 => StripCR(rest[i]));
    assert ended == [StripCR(x)] + endedY;
    assert parts[|parts| - 1] == rest[|rest| - 1];
  }

  /** "\r\n" ends a line exactly as "\n" does: the line does not keep the
      '\r'. */
  lemma LinesCRLF(x: string, y: string)
    requires '\n' !in x
    ensures Lines(x + "\r\n" + y) == [x] + Lines(y)
  {
    var xr := x + "\r";
    assert '\n' !in xr;
    assert x + "\r\n" + y == xr + "\n" + y;
    LinesCons(xr, y);
    assert StripCR(xr) == x;
  }

  /** Lines that `Lines` gives back unchanged once joined with '\n': none holds
      '\n', none but the last ends in '\r', and the last one is not empty. */
  predicate RejoinableLines(ls: seq<string>)
  {
    (forall i :: 0 <= i < |ls| ==> '\n' !in ls[i]) &&
    (forall i :: 0 <= i < |ls| - 1 ==> !EndsWithCR(ls[i])) &&
    (|ls| > 0 ==> ls[|ls| - 1] != [])
  }

  /** Joining rejoinable lines with '\n' and splitting them into lines again is
      the identity. */
  lemma LinesOfJoin(ls: seq<string>)
    requires RejoinableLines(ls)
    ensures Lines(Join(ls, '\n')) == ls
  {
    if ls != [] {
      SplitJoin(ls, '\n');
      var parts := Split(Join(ls, '\n'), '\n');
      assert parts == ls;
      NoCRToStrip(ls);
      assert ls == ls[..|ls| - 1] + [ls[|ls| - 1]];
    }
  }

  /** Stripping '\r' from lines that do not end in one leaves them as they are. */
  lemma NoCRToStrip(ls: seq<string>)
    requires |ls| > 0
    requires forall i :: 0 <= i < |ls| - 1 ==> !EndsWithCR(ls[i])
    ensures seq(|ls| - 1, i requires 0 <= i < |ls| - 1 => StripCR(ls[i])) == ls[..|ls| - 1]
  {
  }
}
