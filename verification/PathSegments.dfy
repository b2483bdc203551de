/** Splitting a path at its slashes and joining segments back. */
module PathSegments {

  /** The pieces between occurrences of `c`; there is always at least one. */
  function Split(s: string, c: char): (parts: seq<string>)
    ensures parts != []
  {
    if s == "" then [""] else
    var parts := Split(s[1..], c);
    if s[0] == c then [""] + parts else [[s[0]] + parts[0]] + parts[1..]
  }

  lemma {:induction false} SplitKeepsOut(s: string, c: char)
    ensures forall i :: 0 <= i < |Split(s, c)| ==> c !in Split(s, c)[i]
  {
    if s != "" {
      SplitKeepsOut(s[1..], c);
    }
  }

  function Unsplit(parts: seq<string>, c: char): (s: string)
  {
    if parts == [] then "" else if |parts| == 1 then parts[0] else parts[0] + [c] + Unsplit(parts[1..], c)
  }

  lemma {:induction false} UnsplitHead(head: char, first: string, rest: seq<string>, c: char)
    ensures Unsplit([[head] + first] + rest, c) == [head] + Unsplit([first] + rest, c)
  {
    assert ([[head] + first] + rest)[1..] == rest && ([first] + rest)[1..] == rest;
  }

  /** Joining the pieces gives the text back. */
  lemma {:induction false} UnsplitSplit(s: string, c: char)
    ensures Unsplit(Split(s, c), c) == s
  {
    if s != "" {
      var parts := Split(s[1..], c);
      UnsplitSplit(s[1..], c);
      assert s == [s[0]] + s[1..];
      if s[0] == c {
        assert ([""] + parts)[1..] == parts;
      } else {
        assert [parts[0]] + parts[1..] == parts;
        UnsplitHead(s[0], parts[0], parts[1..], c);
      }
    }
  }

  function TrimStart(s: string, c: char): (t: string)
  {
    if s != "" && s[0] == c then TrimStart(s[1..], c) else s
  }

  function NonEmpty(parts: seq<string>): (kept: seq<string>)
  {
    if parts == [] then []
    else (if parts[0] == "" then [] else [parts[0]]) + NonEmpty(parts[1..])
  }

  /** The segments both the pattern compiler and the matcher see. */
  function Segments(path: string): (segments: seq<string>)
  {
    NonEmpty(Split(TrimStart(path, '/'), '/'))
  }

  /** A text that can stand between two slashes. */
  predicate IsSegment(s: string)
  {
    s != "" && '/' !in s
  }

  ghost predicate AreSegments(parts: seq<string>)
  {
    forall i :: 0 <= i < |parts| ==> IsSegment(parts[i])
  }

  /** Every segment preceded by a slash. */
  function SlashJoin(parts: seq<string>): (s: string)
  {
    if parts == [] then "" else "/" + parts[0] + SlashJoin(parts[1..])
  }

  /** A whole path; the empty list is the root. */
  function PathOf(parts: seq<string>): (path: string)
  {
    if parts == [] then "/" else SlashJoin(parts)
  }

  lemma {:induction false} NonEmptyAreSegments(parts: seq<string>)
    requires forall i :: 0 <= i < |parts| ==> '/' !in parts[i]
    ensures AreSegments(NonEmpty(parts))
  {
    if parts != [] {
      NonEmptyAreSegments(parts[1..]);
    }
  }

  lemma SegmentsAreSegments(path: string)
    ensures AreSegments(Segments(path))
  {
    SplitKeepsOut(TrimStart(path, '/'), '/');
    NonEmptyAreSegments(Split(TrimStart(path, '/'), '/'));
  }

  lemma {:induction false} SplitPlain(s: string, rest: string, c: char)
    requires c !in s
    ensures var parts := Split(rest, c); Split(s + rest, c) == [s + parts[0]] + parts[1..]
  {
    if s == "" {
      var parts := Split(rest, c);
      assert s + rest == rest && s + parts[0] == parts[0];
      assert [parts[0]] + parts[1..] == parts;
    } else {
      assert (s + rest)[1..] == s[1..] + rest;
      SplitPlain(s[1..], rest, c);
      assert [s[0]] + (s[1..] + Split(rest, c)[0]) == s + Split(rest, c)[0];
    }
  }

  lemma {:induction false} SplitJoined(parts: seq<string>)
    requires AreSegments(parts)
    ensures Split(SlashJoin(parts), '/') == [""] + parts
  {
    if parts != [] {
      var rest := SlashJoin(parts[1..]);
      SplitJoined(parts[1..]);
      SplitPlain(parts[0], rest, '/');
      assert ("/" + parts[0] + rest)[1..] == parts[0] + rest;
      assert parts[0] + "" == parts[0] && [parts[0]] + parts[1..] == parts;
      assert ([""] + parts[1..])[1..] == parts[1..];
    }
  }

  lemma {:induction false} NonEmptyKeeps(parts: seq<string>)
    requires AreSegments(parts)
    ensures NonEmpty(parts) == parts
  {
    if parts != [] {
      NonEmptyKeeps(parts[1..]);
    }
  }

  /** Empty pieces are dropped wherever they are, and no other. */
  lemma {:induction false} NonEmptyAppend(parts: seq<string>, more: seq<string>)
    ensures NonEmpty(parts + more) == NonEmpty(parts) + NonEmpty(more)
  {
    if parts == [] {
      assert parts + more == more;
    } else {
      assert (parts + more)[1..] == parts[1..] + more;
      NonEmptyAppend(parts[1..], more);
    }
  }

  /** The segments are the pieces between slashes that are not empty: leading slashes make no difference. */
  lemma {:induction false} LeadingSlashesDoNotCount(path: string)
    ensures Segments(path) == NonEmpty(Split(path, '/'))
  {
    if path != "" && path[0] == '/' {
      LeadingSlashesDoNotCount(path[1..]);
      var parts := Split(path[1..], '/');
      assert ([""] + parts)[1..] == parts;
    }
  }

  /** A path built from segments has exactly those segments. */
  lemma SegmentsOfPath(parts: seq<string>)
    requires AreSegments(parts)
    ensures Segments(PathOf(parts)) == parts
  {
    if parts == [] {
      assert TrimStart("/", '/') == TrimStart("", '/') == "";
    } else {
      var body := parts[0] + SlashJoin(parts[1..]);
      assert SlashJoin(parts)[1..] == body;
      assert body[0] == parts[0][0];
      assert TrimStart(SlashJoin(parts), '/') == TrimStart(body, '/') == body;
      SplitJoined(parts);
      assert Split(SlashJoin(parts), '/')[1..] == parts;
      assert Split(body, '/') == parts;
      NonEmptyKeeps(parts);
    }
  }

  /** A path starts with a slash, and ends with one only when it is the root. */
  lemma {:induction false} PathHasNoSlashAtEnd(parts: seq<string>)
    requires AreSegments(parts)
    ensures var path := PathOf(parts);
            && path != "" && path[0] == '/' && (parts == [] <==> path == "/")
            && (path != "/" ==> path[|path| - 1] != '/')
    decreases |parts|
  {
    if parts != [] {
      assert IsSegment(parts[0]);
      PathHasNoSlashAtEnd(parts[1..]);
      if |parts| == 1 {
        assert SlashJoin(parts) == "/" + parts[0] + "";
        assert parts[0][|parts[0]| - 1] in parts[0];
      }
    }
  }
}
