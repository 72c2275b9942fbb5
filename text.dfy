/**
  Splitting a string on a separator character, with the semantics of Python's
  `str.split(sep)`: every occurrence of the separator ends a segment, so the
  result always holds one more segment than the string holds separators, and
  empty segments are kept ("a..b" gives ["a", "", "b"], "" gives [""]).
 */
module Text {

  /** The segments of `s` between occurrences of `sep`, in order. */
  function Split(s: string, sep: char): (parts: seq<string>)
    ensures |parts| >= 1
    decreases |s|
  {
    if s == [] then [[]]
    else
      var rest := Split(s[1..], sep);
      if s[0] == sep then [[]] + rest
      else [[s[0]] + rest[0]] + rest[1..]
  }

  /** The inverse of Split: the segments glued back with `sep` between them. */
  function Join(parts: seq<string>, sep: char): string
    requires |parts| >= 1
    decreases |parts|
  {
    if |parts| == 1 then parts[0]
    else parts[0] + [sep] + Join(parts[1..], sep)
  }

  /** Joining the segments of a split gives back the original string. */
  lemma {:induction false} JoinSplit(s: string, sep: char)
    ensures Join(Split(s, sep), sep) == s
    decreases |s|
  {
    if s != [] {
      var rest := Split(s[1..], sep);
      JoinSplit(s[1..], sep);
      if s[0] == sep {
        calc {
          Join([[]] + rest, sep);
          [] + [sep] + Join(rest, sep);
          [sep] + s[1..];
          s;
        }
      } else if |rest| == 1 {
        assert Join(Split(s, sep), sep) == [s[0]] + rest[0];
        assert Join(rest, sep) == rest[0];
        assert s == [s[0]] + s[1..];
      } else {
        var parts := [[s[0]] + rest[0]] + rest[1..];
        assert parts[1..] == rest[1..];
        assert Join(rest, sep) == rest[0] + [sep] + Join(rest[1..], sep);
        calc {
          Join(parts, sep);
          [s[0]] + rest[0] + [sep] + Join(rest[1..], sep);
          [s[0]] + Join(rest, sep);
          s;
        }
      }
    }
  }

  /** No segment of a split contains the separator. */
  lemma {:induction false} SplitSegmentsFree(s: string, sep: char)
    ensures forall k :: 0 <= k < |Split(s, sep)| ==> sep !in Split(s, sep)[k]
    decreases |s|
  {
    if s != [] {
      SplitSegmentsFree(s[1..], sep);
      var rest := Split(s[1..], sep);
      if s[0] != sep {
        assert forall k :: 1 <= k < |Split(s, sep)| ==> Split(s, sep)[k] == rest[k];
      }
    }
  }

  /** Splitting the join of separator-free segments gives back those segments. */
  lemma {:induction false} SplitJoin(parts: seq<string>, sep: char)
    requires |parts| >= 1
    requires forall k :: 0 <= k < |parts| ==> sep !in parts[k]
    ensures Split(Join(parts, sep), sep) == parts
    decreases |parts|, |parts[0]|
  {
    var p := parts[0];
    if p == [] {
      if |parts| > 1 {
        SplitJoin(parts[1..], sep);
        assert Join(parts, sep) == [sep] + Join(parts[1..], sep);
        assert ([sep] + Join(parts[1..], sep))[1..] == Join(parts[1..], sep);
        assert [[]] + parts[1..] == parts;
      }
    } else {
      var shorter := [p[1..]] + parts[1..];
      ShorterFree(parts, sep);
      SplitJoin(shorter, sep);
      JoinShorter(parts, sep);
      assert p[0] != sep by { assert p[0] in p; }
      SplitCons(p[0], Join(shorter, sep), sep);
      assert [p[0]] + p[1..] == p;
      assert [p] + parts[1..] == parts;
    }
  }

  /** Dropping the first character of the first segment keeps every segment separator-free. */
  lemma ShorterFree(parts: seq<string>, sep: char)
    requires |parts| >= 1 && parts[0] != []
    requires forall k :: 0 <= k < |parts| ==> sep !in parts[k]
    ensures var shorter := [parts[0][1..]] + parts[1..];
      forall k :: 0 <= k < |shorter| ==> sep !in shorter[k]
  {
    var shorter := [parts[0][1..]] + parts[1..];
    forall k | 0 <= k < |shorter|
      ensures sep !in shorter[k]
    {
      if k == 0 {
        assert forall c :: c in parts[0][1..] ==> c in parts[0];
      } else {
        assert shorter[k] == parts[k];
      }
    }
  }

  /** The join starts with the first character of the first segment, then joins the rest. */
  lemma JoinShorter(parts: seq<string>, sep: char)
    requires |parts| >= 1 && parts[0] != []
    ensures Join(parts, sep) == [parts[0][0]] + Join([parts[0][1..]] + parts[1..], sep)
  {
    var p := parts[0];
    var shorter := [p[1..]] + parts[1..];
    assert shorter[0] == p[1..] && shorter[1..] == parts[1..];
    assert p == [p[0]] + p[1..];
    if |parts| > 1 {
      assert Join(shorter, sep) == p[1..] + [sep] + Join(parts[1..], sep);
    }
  }

  /** A string starting with a character other than the separator: it joins the first segment. */
  lemma SplitCons(c: char, s: string, sep: char)
    requires c != sep
    ensures Split([c] + s, sep) == [[c] + Split(s, sep)[0]] + Split(s, sep)[1..]
  {
    assert ([c] + s)[0] == c && ([c] + s)[1..] == s;
  }

  /** A string splits into at least two segments exactly when it contains the separator. */
  lemma {:induction false} SplitHasSecond(s: string, sep: char)
    ensures |Split(s, sep)| >= 2 <==> sep in s
    decreases |s|
  {
    if s != [] {
      SplitHasSecond(s[1..], sep);
      assert s == [s[0]] + s[1..];
      assert sep in s <==> s[0] == sep || sep in s[1..];
    }
  }

  /**
    The first two segments of a split are the text before the first separator
    and the text between the first and the second (or the end of the string).
   */
  lemma FirstTwoSegments(s: string, sep: char)
    requires sep in s
    ensures var parts := Split(s, sep);
      && |parts| >= 2
      && sep !in parts[0] && sep !in parts[1]
      && var head := parts[0] + [sep] + parts[1];
      && |head| <= |s| && s[..|head|] == head
      && (|head| < |s| ==> s[|head|] == sep)
  {
    var parts := Split(s, sep);
    SplitHasSecond(s, sep);
    SplitSegmentsFree(s, sep);
    JoinSplit(s, sep);
    var head := parts[0] + [sep] + parts[1];
    if |parts| == 2 {
      assert Join(parts[1..], sep) == parts[1];
      assert s == head;
    } else {
      assert Join(parts[1..], sep) == parts[1] + [sep] + Join(parts[2..], sep);
      assert s == head + [sep] + Join(parts[2..], sep);
      assert s[..|head|] == head;
    }
  }

  /** Python's "7.31.0".split('.') gives ['7', '31', '0']. */
  lemma SplitExample()
    ensures Split("7.31.0", '.') == ["7", "31", "0"]
  {
    var parts := ["7", "31", "0"];
    assert parts[1..] == ["31", "0"] && parts[1..][1..] == ["0"];
    assert Join(parts, '.') == "7.31.0";
    SplitJoin(parts, '.');
  }
}
