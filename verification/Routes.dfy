/** Route directories compiled to URL patterns, and the router that matches request paths against them. */
module Routes {
  import opened Options
  import opened PathSegments

  // ---- compiling a route directory ----

  predicate StartsWith(s: string, c: char)
  {
    s != "" && s[0] == c
  }

  predicate EndsWith(s: string, c: char)
  {
    s != "" && s[|s| - 1] == c
  }

  /** `_name_` is a parameter; `_` and `__` are not. */
  predicate IsParam(segment: string)
  {
    StartsWith(segment, '_') && EndsWith(segment, '_') && |segment| > 2
  }

  function ParamName(segment: string): (name: string)
    requires IsParam(segment)
  {
    segment[1..|segment| - 1]
  }

  /** `index` and groups such as `(marketing)` leave no trace in the URL. */
  predicate IsVisible(segment: string)
  {
    segment != "" && segment != "index" && !(StartsWith(segment, '(') && EndsWith(segment, ')'))
  }

  function UrlSegment(segment: string): (s: string)
  {
    if IsParam(segment) then ":" + ParamName(segment) else segment
  }

  function UrlSegments(directories: seq<string>): (parts: seq<string>)
  {
    if directories == [] then []
    else (if IsVisible(directories[0]) then [UrlSegment(directories[0])] else []) + UrlSegments(directories[1..])
  }

  function ParamNames(directories: seq<string>): (names: seq<string>)
  {
    if directories == [] then []
    else (if IsParam(directories[0]) then [ParamName(directories[0])] else []) + ParamNames(directories[1..])
  }

  function Directories(route: string): (directories: seq<string>)
  {
    Split(route, '/')
  }

  method ExtractRouteParams(route: string) returns (params: seq<string>)
    ensures params == ParamNames(Directories(route)) && AreParams(Directories(route), params)
  {
    params := ListParams(route);
    ParamsExactly(Directories(route));
  }

  method ListParams(route: string) returns (params: seq<string>)
    ensures params == ParamNames(Directories(route))
  {
    params := [];
    var directories := Directories(route);
    for i := 0 to |directories|
      invariant params + ParamNames(directories[i..]) == ParamNames(directories)
    {
      var segment := directories[i];
      assert directories[i..][1..] == directories[i + 1..];
      if IsParam(segment) {
        params := params + [ParamName(segment)];
      }
    }
  }

  lemma {:induction false} SlashJoinAppend(parts: seq<string>, part: string)
    ensures SlashJoin(parts + [part]) == SlashJoin(parts) + "/" + part
  {
    if parts == [] {
      assert parts + [part] == [part] && [part][1..] == [];
    } else {
      assert (parts + [part])[1..] == parts[1..] + [part];
      SlashJoinAppend(parts[1..], part);
    }
  }

  lemma {:induction false} UrlSegmentsAppend(directories: seq<string>, more: seq<string>)
    ensures UrlSegments(directories + more) == UrlSegments(directories) + UrlSegments(more)
  {
    if directories == [] {
      assert directories + more == more;
    } else {
      assert (directories + more)[1..] == directories[1..] + more;
      UrlSegmentsAppend(directories[1..], more);
    }
  }

  /** Pushes each visible segment and a slash, then drops the last slash unless only the root is left. */
  method ConvertToUrlPath(route: string) returns (url: string)
    ensures url == PathOf(UrlSegments(Directories(route))) && Corresponds(Directories(route), FromPath(url))
    ensures url != "" && url[0] == '/' && (FromPath(url) == [] <==> url == "/")
    ensures url != "/" ==> url[|url| - 1] != '/'
  {
    url := JoinVisible(route);
    PatternExactly(route);
    SplitKeepsOut(route, '/');
    UrlSegmentsAreSegments(Directories(route));
    PathHasNoSlashAtEnd(UrlSegments(Directories(route)));
    SegmentsOfPath(UrlSegments(Directories(route)));
  }

  method JoinVisible(route: string) returns (url: string)
    ensures url == PathOf(UrlSegments(Directories(route)))
  {
    url := "/";
    var directories := Directories(route);
    for i := 0 to |directories|
      invariant url == SlashJoin(UrlSegments(directories[..i])) + "/"
    {
      var segment := directories[i];
      assert directories[..i + 1] == directories[..i] + [segment];
      UrlSegmentsAppend(directories[..i], [segment]);
      assert UrlSegments([segment]) == if IsVisible(segment) then [UrlSegment(segment)] else [];
      if segment == "" || segment == "index" || (StartsWith(segment, '(') && EndsWith(segment, ')')) {
        assert UrlSegments(directories[..i]) + [] == UrlSegments(directories[..i]);
        continue;
      }
      ghost var before := url;
      SlashJoinAppend(UrlSegments(directories[..i]), UrlSegment(segment));
      if IsParam(segment) {
        url := url + ":" + ParamName(segment);
      } else {
        url := url + segment;
      }
      assert url == before + UrlSegment(segment);
      url := url + "/";
    }
    assert directories[..|directories|] == directories;
    if |url| > 1 && EndsWith(url, '/') {
      url := url[..|url| - 1];
    }
  }

  // ---- patterns ----

  datatype Segment = Static(text: string) | Param(name: string)

  function ToSegment(part: string): (segment: Segment)
  {
    if StartsWith(part, ':') then Param(part[1..]) else Static(part)
  }

  function ToSegments(parts: seq<string>): (segments: seq<Segment>)
    ensures |segments| == |parts|
    ensures forall i :: 0 <= i < |parts| ==> segments[i] == ToSegment(parts[i])
  {
    if parts == [] then [] else [ToSegment(parts[0])] + ToSegments(parts[1..])
  }

  function FromPath(path: string): (pattern: seq<Segment>)
  {
    ToSegments(Segments(path))
  }

  function PatternParams(pattern: seq<Segment>): (names: seq<string>)
  {
    if pattern == [] then []
    else (if pattern[0].Param? then [pattern[0].name] else []) + PatternParams(pattern[1..])
  }

  /** The pattern the router compiles for a route directory. */
  function CompiledPattern(route: string): (pattern: seq<Segment>)
  {
    FromPath(PathOf(UrlSegments(Directories(route))))
  }

  lemma {:induction false} UrlSegmentsAreSegments(directories: seq<string>)
    requires forall i :: 0 <= i < |directories| ==> '/' !in directories[i]
    ensures AreSegments(UrlSegments(directories))
  {
    if directories != [] {
      UrlSegmentsAreSegments(directories[1..]);
    }
  }

  lemma PatternOfRoute(route: string)
    ensures CompiledPattern(route) == ToSegments(UrlSegments(Directories(route)))
  {
    SplitKeepsOut(route, '/');
    UrlSegmentsAreSegments(Directories(route));
    SegmentsOfPath(UrlSegments(Directories(route)));
  }

  ghost predicate NoColons(directories: seq<string>)
  {
    forall i :: 0 <= i < |directories| ==> !StartsWith(directories[i], ':')
  }

  lemma NoColonsOfNext(directories: seq<string>)
    requires directories != []
    ensures NoColons(directories) <==> !StartsWith(directories[0], ':') && NoColons(directories[1..])
  {
    if !NoColons(directories[1..]) {
      var i :| 0 <= i < |directories[1..]| && StartsWith(directories[1..][i], ':');
      assert StartsWith(directories[i + 1], ':');
    }
  }

  /** The parameters one URL segment contributes to the pattern. */
  function PatternParam(part: string): (names: seq<string>)
  {
    if StartsWith(part, ':') then [part[1..]] else []
  }

  lemma {:induction false} ParamsOfNextPart(part: string, rest: seq<string>)
    ensures PatternParams(ToSegments([part] + rest)) == PatternParam(part) + PatternParams(ToSegments(rest))
  {
    assert ([part] + rest)[1..] == rest;
  }

  /** A parameter contributes its name to both; a segment that starts with a colon only to the pattern. */
  lemma ParamsOfOneSegment(segment: string)
    ensures IsParam(segment) ==> IsVisible(segment) && PatternParam(UrlSegment(segment)) == [ParamName(segment)]
    ensures StartsWith(segment, ':') ==>
              IsVisible(segment) && !IsParam(segment) && |PatternParam(UrlSegment(segment))| == 1
    ensures !IsParam(segment) && !StartsWith(segment, ':') ==> PatternParam(UrlSegment(segment)) == []
  {
    if IsParam(segment) {
      assert (":" + ParamName(segment))[1..] == ParamName(segment);
    }
  }

  lemma {:induction false} ParamsOfSegments(directories: seq<string>)
    ensures var names, found := ParamNames(directories), PatternParams(ToSegments(UrlSegments(directories)));
            if NoColons(directories) then names == found else |names| < |found|
  {
    if directories != [] {
      var segment, rest := directories[0], directories[1..];
      ParamsOfSegments(rest);
      NoColonsOfNext(directories);
      ParamsOfOneSegment(segment);
      ParamsOfNextPart(UrlSegment(segment), UrlSegments(rest));
      assert !IsVisible(segment) ==> UrlSegments(directories) == UrlSegments(rest);
      assert !IsParam(segment) ==> ParamNames(directories) == ParamNames(rest);
    }
  }

  /**
   The compiled pattern has exactly the parameters, in order, that the wrapper generator looks up, if and only
   if no segment of the route starts with a colon.
   */
  lemma CompiledParams(route: string)
    ensures PatternParams(CompiledPattern(route)) == ParamNames(Directories(route)) <==>
            NoColons(Directories(route))
  {
    PatternOfRoute(route);
    ParamsOfSegments(Directories(route));
  }

  // ---- what a route compiles to, directory by directory ----

  /** Nothing, `index`, or something in parentheses: it does not show in the URL. */
  ghost predicate IsHidden(directory: string)
  {
    directory == "" || directory == "index" || (directory[0] == '(' && directory[|directory| - 1] == ')')
  }

  /** `_name_` becomes a parameter, what starts with a colon too, and anything else stays as it is written. */
  ghost predicate Compiles(directory: string, segment: Segment)
  {
    var n := |directory|;
    if n > 2 && directory[0] == '_' && directory[n - 1] == '_' then segment == Param(directory[1..n - 1])
    else if n > 0 && directory[0] == ':' then segment == Param(directory[1..])
    else segment == Static(directory)
  }

  /** One segment for each directory that shows, in order, and no other. */
  ghost predicate Corresponds(directories: seq<string>, pattern: seq<Segment>)
    decreases |directories|
  {
    if directories == [] then pattern == []
    else if IsHidden(directories[0]) then Corresponds(directories[1..], pattern)
    else pattern != [] && Compiles(directories[0], pattern[0]) && Corresponds(directories[1..], pattern[1..])
  }

  lemma SegmentCompiles(directory: string)
    ensures Compiles(directory, ToSegment(UrlSegment(directory)))
    ensures IsHidden(directory) <==> !IsVisible(directory)
  {
    if IsParam(directory) {
      assert (":" + ParamName(directory))[1..] == ParamName(directory);
    }
  }

  lemma {:induction false} SegmentsNext(part: string, rest: seq<string>)
    ensures ToSegments([part] + rest) == [ToSegment(part)] + ToSegments(rest)
  {
    assert ([part] + rest)[1..] == rest;
  }

  lemma {:induction false} UrlCorresponds(directories: seq<string>)
    ensures Corresponds(directories, ToSegments(UrlSegments(directories)))
    decreases |directories|
  {
    if directories != [] {
      var first, rest := directories[0], directories[1..];
      UrlCorresponds(rest);
      SegmentCompiles(first);
      if IsVisible(first) {
        SegmentsNext(UrlSegment(first), UrlSegments(rest));
        assert ([ToSegment(UrlSegment(first))] + ToSegments(UrlSegments(rest)))[1..] == ToSegments(UrlSegments(rest));
      } else {
        assert UrlSegments(directories) == UrlSegments(rest);
      }
    }
  }

  /** The pattern of a route is its directories that show, in order, compiled one by one. */
  lemma PatternExactly(route: string)
    ensures Corresponds(Directories(route), CompiledPattern(route))
  {
    PatternOfRoute(route);
    UrlCorresponds(Directories(route));
  }

  /** The inner part of each `_name_`, in order, and nothing else. */
  ghost predicate AreParams(directories: seq<string>, names: seq<string>)
    decreases |directories|
  {
    if directories == [] then names == [] else
    var d := directories[0];
    if |d| > 2 && d[0] == '_' && d[|d| - 1] == '_' then
      names != [] && names[0] == d[1..|d| - 1] && AreParams(directories[1..], names[1..])
    else AreParams(directories[1..], names)
  }

  lemma {:induction false} ParamsExactly(directories: seq<string>)
    ensures AreParams(directories, ParamNames(directories))
    decreases |directories|
  {
    if directories != [] {
      var first, rest := directories[0], directories[1..];
      ParamsExactly(rest);
      if IsParam(first) {
        assert ([ParamName(first)] + ParamNames(rest))[1..] == ParamNames(rest);
      } else {
        assert ParamNames(directories) == ParamNames(rest);
      }
    }
  }

  // ---- matching ----

  type Binding = map<string, string>

  predicate Agrees(segment: Segment, part: string)
  {
    segment.Static? ==> segment.text == part
  }

  predicate Fits(pattern: seq<Segment>, parts: seq<string>)
  {
    |pattern| == |parts| && forall i :: 0 <= i < |pattern| ==> Agrees(pattern[i], parts[i])
  }

  /** What the first `n` segments bind: a later parameter of the same name overwrites an earlier one. */
  function BindFirst(pattern: seq<Segment>, parts: seq<string>, n: nat): (b: Binding)
    requires n <= |pattern| == |parts|
    decreases n
  {
    if n == 0 then map[] else
    var b := BindFirst(pattern, parts, n - 1);
    if pattern[n - 1].Param? then b[pattern[n - 1].name := parts[n - 1]] else b
  }

  function Bind(pattern: seq<Segment>, parts: seq<string>): (b: Binding)
    requires |pattern| == |parts|
  {
    BindFirst(pattern, parts, |pattern|)
  }

  function Match(pattern: seq<Segment>, parts: seq<string>): (r: Option<Binding>)
  {
    if Fits(pattern, parts) then Some(Bind(pattern, parts)) else None
  }

  /** Two empty lists have equal lengths, so the test for them inside the length check can never succeed. */
  method MatchParts(pattern: seq<Segment>, parts: seq<string>) returns (r: Option<Binding>)
    ensures r == Match(pattern, parts)
  {
    if |parts| != |pattern| {
      return None;
    }
    var params: Binding := map[];
    for i := 0 to |pattern|
      invariant forall k :: 0 <= k < i ==> Agrees(pattern[k], parts[k])
      invariant params == BindFirst(pattern, parts, i)
    {
      match pattern[i] {
        case Static(expected) =>
          if expected != parts[i] {
            assert !Agrees(pattern[i], parts[i]);
            return None;
          }
        case Param(name) =>
          params := params[name := parts[i]];
      }
    }
    r := Some(params);
  }

  method Matches(pattern: seq<Segment>, path: string) returns (r: Option<Binding>)
    ensures r == Match(pattern, Segments(path))
  {
    r := MatchParts(pattern, Segments(path));
  }

  function NamesOfFirst(pattern: seq<Segment>, n: nat): (names: set<string>)
    requires n <= |pattern|
  {
    set i | 0 <= i < n && pattern[i].Param? :: pattern[i].name
  }

  function Names(pattern: seq<Segment>): (names: set<string>)
  {
    NamesOfFirst(pattern, |pattern|)
  }

  /** The segments obtained by writing the bound values into the pattern. */
  function Substitute(pattern: seq<Segment>, b: Binding): (parts: seq<string>)
    requires Names(pattern) <= b.Keys
    ensures |parts| == |pattern|
    ensures forall i :: 0 <= i < |pattern| ==>
              parts[i] == match pattern[i] { case Static(text) => text case Param(name) => b[name] }
  {
    seq(|pattern|, i requires 0 <= i < |pattern| =>
      match pattern[i] case Static(text) => text case Param(name) => b[name])
  }

  ghost predicate DistinctNames(pattern: seq<Segment>)
  {
    forall i, j :: 0 <= i < j < |pattern| && pattern[i].Param? && pattern[j].Param? ==>
      pattern[i].name != pattern[j].name
  }

  /** Position `i` holds the last parameter of its name among the first `n` segments. */
  ghost predicate IsLast(pattern: seq<Segment>, n: nat, i: nat)
    requires i < n <= |pattern|
  {
    pattern[i].Param? && forall j :: i < j < n && pattern[j].Param? ==> pattern[j].name != pattern[i].name
  }

  /** Each name is bound to the part at its last occurrence. */
  lemma {:induction false} BindFirstExact(pattern: seq<Segment>, parts: seq<string>, n: nat)
    requires n <= |pattern| == |parts|
    ensures BindFirst(pattern, parts, n).Keys == NamesOfFirst(pattern, n)
    ensures forall i: nat :: i < n && IsLast(pattern, n, i) ==>
                               BindFirst(pattern, parts, n)[pattern[i].name] == parts[i]
    decreases n
  {
    if n != 0 {
      BindFirstExact(pattern, parts, n - 1);
      assert forall i: nat :: i < n - 1 && IsLast(pattern, n, i) ==> IsLast(pattern, n - 1, i);
    }
  }

  lemma BindExact(pattern: seq<Segment>, parts: seq<string>)
    requires |pattern| == |parts|
    ensures Bind(pattern, parts).Keys == Names(pattern)
    ensures forall i: nat :: i < |pattern| && IsLast(pattern, |pattern|, i) ==>
                               Bind(pattern, parts)[pattern[i].name] == parts[i]
  {
    BindFirstExact(pattern, parts, |pattern|);
  }

  /** With distinct names, a match is exactly a binding of the names whose substitution gives the path's segments. */
  lemma MatchIsInverseOfSubstitute(pattern: seq<Segment>, parts: seq<string>, b: Binding)
    requires DistinctNames(pattern)
    ensures Match(pattern, parts) == Some(b) <==> b.Keys == Names(pattern) && Substitute(pattern, b) == parts
  {
    if |pattern| == |parts| {
      var bound := Bind(pattern, parts);
      BindExact(pattern, parts);
      assert forall i: nat :: i < |pattern| && pattern[i].Param? ==> IsLast(pattern, |pattern|, i);
      if Fits(pattern, parts) {
        assert Substitute(pattern, bound) == parts;
      }
      if b.Keys == Names(pattern) && Substitute(pattern, b) == parts {
        forall name | name in b
          ensures b[name] == bound[name]
        {
          var i :| 0 <= i < |pattern| && pattern[i].Param? && pattern[i].name == name;
          assert parts[i] == b[name];
        }
        assert b == bound;
      }
    }
  }

  function Filler(pattern: seq<Segment>, odd: nat): (parts: seq<string>)
    ensures |parts| == |pattern|
    ensures forall i :: 0 <= i < |pattern| ==>
              parts[i] == match pattern[i] { case Static(text) => text case Param(_) => if i == odd then "b" else "a" }
  {
    seq(|pattern|, i requires 0 <= i < |pattern| =>
      match pattern[i] case Static(text) => text case Param(_) => if i == odd then "b" else "a")
  }

  lemma FillerIsSegments(url: string, odd: nat)
    ensures AreSegments(Filler(FromPath(url), odd))
  {
    SegmentsAreSegments(url);
    var pattern, parts := FromPath(url), Segments(url);
    forall i | 0 <= i < |pattern|
      ensures IsSegment(Filler(pattern, odd)[i])
    {
      assert IsSegment(parts[i]);
    }
  }

  lemma RepeatedNameAt(pattern: seq<Segment>, i: nat, j: nat, b: Binding)
    requires i < j < |pattern| && pattern[i].Param? && pattern[j].Param? && pattern[i].name == pattern[j].name
    requires Names(pattern) <= b.Keys
    ensures Substitute(pattern, b) != Filler(pattern, j)
  {
    assert Filler(pattern, j)[i] != Filler(pattern, j)[j];
    assert Substitute(pattern, b)[i] == Substitute(pattern, b)[j];
  }

  /** With a repeated name there is a path that matches although no binding substitutes to it. */
  lemma RepeatedNameLosesASegment(url: string) returns (path: string)
    requires !DistinctNames(FromPath(url))
    ensures Match(FromPath(url), Segments(path)).Some?
    ensures forall b: Binding :: Names(FromPath(url)) <= b.Keys ==> Substitute(FromPath(url), b) != Segments(path)
  {
    var pattern := FromPath(url);
    var i: nat, j: nat :| i < j < |pattern| && pattern[i].Param? && pattern[j].Param?
                          && pattern[i].name == pattern[j].name;
    var parts := Filler(pattern, j);
    FillerIsSegments(url, j);
    path := PathOf(parts);
    SegmentsOfPath(parts);
    assert Fits(pattern, parts);
    forall b: Binding | Names(pattern) <= b.Keys
      ensures Substitute(pattern, b) != parts
    {
      RepeatedNameAt(pattern, i, j, b);
    }
  }

  lemma {:induction false} PatternParamsAreNames(pattern: seq<Segment>)
    ensures forall name :: name in PatternParams(pattern) <==> name in Names(pattern)
  {
    if pattern != [] {
      PatternParamsAreNames(pattern[1..]);
      assert Names(pattern) == Names(pattern[1..]) + if pattern[0].Param? then {pattern[0].name} else {} by {
        forall name | name in Names(pattern)
          ensures name in Names(pattern[1..]) || (pattern[0].Param? && name == pattern[0].name)
        {
          var i :| 0 <= i < |pattern| && pattern[i].Param? && pattern[i].name == name;
          assert i == 0 || pattern[1..][i - 1] == pattern[i];
        }
        forall name | name in Names(pattern[1..])
          ensures name in Names(pattern)
        {
          var i :| 0 <= i < |pattern[1..]| && pattern[1..][i].Param? && pattern[1..][i].name == name;
          assert pattern[i + 1].name == name;
        }
      }
    }
  }

  lemma {:induction false} ParamsAreInPattern(directories: seq<string>, name: string)
    requires name in ParamNames(directories)
    ensures name in PatternParams(ToSegments(UrlSegments(directories)))
    decreases directories
  {
    var segment, rest := directories[0], directories[1..];
    ParamsOfOneSegment(segment);
    ParamsOfNextPart(UrlSegment(segment), UrlSegments(rest));
    assert !IsVisible(segment) ==> UrlSegments(directories) == UrlSegments(rest);
    if name in ParamNames(rest) {
      ParamsAreInPattern(rest, name);
    }
  }

  /** Whatever path a route's pattern matches, every parameter the generated wrapper looks up is bound. */
  lemma EveryLookupIsBound(route: string, path: string)
    requires Match(CompiledPattern(route), Segments(path)).Some?
    ensures forall name :: name in ParamNames(Directories(route)) ==>
                             name in Match(CompiledPattern(route), Segments(path)).value
  {
    PatternOfRoute(route);
    BindExact(CompiledPattern(route), Segments(path));
    PatternParamsAreNames(CompiledPattern(route));
    forall name | name in ParamNames(Directories(route))
      ensures name in PatternParams(CompiledPattern(route))
    {
      ParamsAreInPattern(Directories(route), name);
    }
  }

  // ---- routes and their parameters ----

  predicate NoRepeats(names: seq<string>)
  {
    names == [] || (names[0] !in names[1..] && NoRepeats(names[1..]))
  }

  lemma {:induction false} NoRepeatsCons(name: string, names: seq<string>)
    ensures NoRepeats([name] + names) <==> name !in names && NoRepeats(names)
  {
    assert ([name] + names)[1..] == names;
  }

  lemma DistinctNamesCons(segment: Segment, rest: seq<Segment>)
    ensures DistinctNames([segment] + rest) <==>
            DistinctNames(rest) && (segment.Param? ==> segment.name !in Names(rest))
  {
    var all := [segment] + rest;
    assert forall j :: 1 <= j < |all| ==> all[j] == rest[j - 1];
    if DistinctNames(all) {
      assert forall i, j :: 0 <= i < j < |rest| && rest[i].Param? && rest[j].Param? ==>
                              all[i + 1].name != all[j + 1].name;
      assert segment.Param? ==> forall j :: 0 <= j < |rest| && rest[j].Param? ==> all[0].name != all[j + 1].name;
    }
  }

  /** A pattern's names are distinct exactly when its list of parameters has no repeats. */
  lemma {:induction false} DistinctExactly(pattern: seq<Segment>)
    ensures DistinctNames(pattern) <==> NoRepeats(PatternParams(pattern))
  {
    if pattern != [] {
      var segment, rest := pattern[0], pattern[1..];
      assert pattern == [segment] + rest;
      DistinctExactly(rest);
      DistinctNamesCons(segment, rest);
      PatternParamsAreNames(rest);
      if segment.Param? {
        NoRepeatsCons(segment.name, PatternParams(rest));
      } else {
        assert PatternParams(pattern) == PatternParams(rest);
      }
    }
  }

  /**
   A route without colon segments whose parameter names do not repeat: a request path is matched with a binding
   if and only if the binding is of exactly the names and writing it into the pattern gives the path's segments.
   */
  lemma RouteMatchesExactly(route: string, path: string, b: Binding)
    requires NoColons(Directories(route)) && NoRepeats(ParamNames(Directories(route)))
    ensures Match(CompiledPattern(route), Segments(path)) == Some(b) <==>
            b.Keys == Names(CompiledPattern(route)) && Substitute(CompiledPattern(route), b) == Segments(path)
    ensures forall name :: name in Names(CompiledPattern(route)) <==> name in ParamNames(Directories(route))
  {
    CompiledParams(route);
    DistinctExactly(CompiledPattern(route));
    PatternParamsAreNames(CompiledPattern(route));
    MatchIsInverseOfSubstitute(CompiledPattern(route), Segments(path), b);
  }

  /** Matching this path and writing this binding into the pattern are inverse. */
  ghost predicate IsInverse(pattern: seq<Segment>, path: string, b: Binding)
  {
    Match(pattern, Segments(path)) == Some(b) <==> b.Keys == Names(pattern) && Substitute(pattern, b) == Segments(path)
  }

  /** For any route, matching is the inverse of substitution on all paths if and only if no parameter repeats. */
  lemma InverseExactly(route: string)
    ensures (forall path: string, b: Binding :: IsInverse(CompiledPattern(route), path, b)) <==>
            NoRepeats(PatternParams(CompiledPattern(route)))
  {
    var pattern := CompiledPattern(route);
    DistinctExactly(pattern);
    if DistinctNames(pattern) {
      forall path: string, b: Binding
        ensures IsInverse(pattern, path, b)
      {
        MatchIsInverseOfSubstitute(pattern, Segments(path), b);
      }
    } else {
      var path := RepeatedNameLosesASegment(PathOf(UrlSegments(Directories(route))));
      var b := Match(pattern, Segments(path)).value;
      BindExact(pattern, Segments(path));
      assert !IsInverse(pattern, path, b);
    }
  }

  lemma DirectoriesOfTwo(first: string, second: string)
    requires '/' !in first && '/' !in second
    ensures Directories(first + ("/" + second)) == [first] + [second]
  {
    var tail := "/" + second;
    SplitPlain(second, "", '/');
    assert second + "" == second && tail[1..] == second;
    assert Split(tail, '/') == [""] + [second];
    SplitPlain(first, tail, '/');
    assert first + "" == first;
  }

  /** A colon segment: the pattern has a parameter that the wrapper generator does not know. */
  lemma ColonSegmentIsUnknown(name: string) returns (route: string)
    requires '/' !in name
    ensures NoRepeats(ParamNames(Directories(route))) && ParamNames(Directories(route)) == []
    ensures PatternParams(CompiledPattern(route)) == [name]
  {
    route := ":" + name;
    SplitPlain(route, "", '/');
    assert route + "" == route && Directories(route) == [route];
    PatternOfRoute(route);
    assert UrlSegments(Directories(route)) == [route] + [];
    ParamsOfNextPart(route, []);
    assert route[1..] == name;
  }

  /** A repeated parameter: the route itself, and a path of it that matches but cannot be rebuilt from any binding. */
  lemma RepeatedParam(name: string) returns (route: string, path: string)
    requires name != "" && '/' !in name
    ensures ParamNames(Directories(route)) == [name] + [name]
    ensures Match(CompiledPattern(route), Segments(path)).Some?
    ensures forall b: Binding :: Names(CompiledPattern(route)) <= b.Keys ==>
                                   Substitute(CompiledPattern(route), b) != Segments(path)
  {
    var segment := "_" + name + "_";
    route := segment + ("/" + segment);
    DirectoriesOfTwo(segment, segment);
    ParamNamesOfTwo(segment, name);
    ParamsAreRepeated(route, name);
    path := RepeatedNameLosesASegment(PathOf(UrlSegments(Directories(route))));
  }

  lemma ParamNamesOfTwo(segment: string, name: string)
    requires name != "" && segment == "_" + name + "_"
    ensures ParamNames([segment] + [segment]) == [name] + [name]
    ensures NoColons([segment] + [segment])
  {
    assert IsParam(segment) && ParamName(segment) == name;
    assert ([segment] + [segment])[1..] == [segment] && [segment][1..] == [];
    assert ParamNames([segment]) == [name] + ParamNames([]);
  }

  lemma ParamsAreRepeated(route: string, name: string)
    requires ParamNames(Directories(route)) == [name] + [name] && NoColons(Directories(route))
    ensures !DistinctNames(CompiledPattern(route))
  {
    CompiledParams(route);
    DistinctExactly(CompiledPattern(route));
    NoRepeatsCons(name, [name]);
  }

  /** What stands in the URL as it is written: neither `_name_` nor something that starts with a colon. */
  ghost predicate IsLiteral(directory: string)
  {
    var n := |directory|;
    n > 0 && directory[0] != ':' && !(n > 2 && directory[0] == '_' && directory[n - 1] == '_')
  }

  /** The parts repeat the literal directories that show, in place, with any values for the others. */
  ghost predicate Follows(directories: seq<string>, parts: seq<string>)
    decreases |directories|
  {
    if directories == [] then parts == []
    else if IsHidden(directories[0]) then Follows(directories[1..], parts)
    else && parts != [] && (IsLiteral(directories[0]) ==> parts[0] == directories[0])
         && Follows(directories[1..], parts[1..])
  }

  lemma FitsNext(pattern: seq<Segment>, parts: seq<string>)
    requires pattern != [] && parts != []
    ensures Fits(pattern, parts) <==> Agrees(pattern[0], parts[0]) && Fits(pattern[1..], parts[1..])
  {
    if Agrees(pattern[0], parts[0]) && Fits(pattern[1..], parts[1..]) {
      forall i | 0 <= i < |pattern|
        ensures Agrees(pattern[i], parts[i])
      {
        if i > 0 {
          assert Agrees(pattern[1..][i - 1], parts[1..][i - 1]);
        }
      }
    }
  }

  lemma {:induction false} CorrespondsFits(directories: seq<string>, pattern: seq<Segment>, parts: seq<string>)
    requires Corresponds(directories, pattern)
    ensures Fits(pattern, parts) <==> Follows(directories, parts)
    decreases |directories|
  {
    if directories != [] {
      if IsHidden(directories[0]) {
        CorrespondsFits(directories[1..], pattern, parts);
      } else if parts != [] {
        CorrespondsFits(directories[1..], pattern[1..], parts[1..]);
        FitsNext(pattern, parts);
      }
    }
  }

  /** A route matches exactly the paths that repeat its literal directories in place, with any values elsewhere. */
  lemma RouteServesExactly(route: string, path: string)
    ensures Match(CompiledPattern(route), Segments(path)).Some? <==> Follows(Directories(route), Segments(path))
  {
    PatternExactly(route);
    CorrespondsFits(Directories(route), CompiledPattern(route), Segments(path));
  }

  /** The URL of a literal directory followed by a parameter. */
  lemma LiteralAndParam(literal: string, name: string)
    requires IsLiteral(literal) && '/' !in literal && '/' !in name && name != ""
    requires literal != "index" && !(literal[0] == '(' && literal[|literal| - 1] == ')')
    ensures PathOf(UrlSegments(Directories(literal + ("/" + ("_" + name + "_"))))) == "/" + literal + "/:" + name
  {
    var param := "_" + name + "_";
    DirectoriesOfTwo(literal, param);
    UrlOfTwo(literal, param, name);
    PathOfTwo(literal, ":" + name);
    assert "/" + literal + ("/" + (":" + name)) == "/" + literal + "/:" + name;
  }

  lemma UrlOfTwo(literal: string, param: string, name: string)
    requires IsLiteral(literal) && IsVisible(literal) && name != "" && param == "_" + name + "_"
    ensures UrlSegments([literal] + [param]) == [literal] + [":" + name]
  {
    var one, none: seq<string> := [param], [];
    assert ([literal] + one)[1..] == one && one[1..] == none;
    assert IsParam(param) && ParamName(param) == name;
    assert UrlSegments(one) == [":" + name] + UrlSegments(none);
  }

  lemma PathOfTwo(first: string, second: string)
    ensures PathOf([first] + [second]) == "/" + first + ("/" + second)
  {
    var one, none: seq<string> := [second], [];
    assert ([first] + one)[1..] == one && one[1..] == none;
    assert SlashJoin(one) == "/" + second + SlashJoin(none);
  }

  /** Building a path from parameter values and matching it against the route gives the values back. */
  lemma BuildThenMatch(route: string, b: Binding)
    requires DistinctNames(CompiledPattern(route))
    requires b.Keys == Names(CompiledPattern(route))
    requires forall name :: name in b ==> IsSegment(b[name])
    ensures Match(CompiledPattern(route), Segments(PathOf(Substitute(CompiledPattern(route), b)))) == Some(b)
  {
    var pattern := CompiledPattern(route);
    var parts := Substitute(pattern, b);
    SegmentsAreSegments(PathOf(UrlSegments(Directories(route))));
    forall i | 0 <= i < |parts|
      ensures IsSegment(parts[i])
    {
      assert pattern[i].Param? ==> pattern[i].name in Names(pattern);
    }
    SegmentsOfPath(parts);
    MatchIsInverseOfSubstitute(pattern, parts, b);
  }

  // ---- the router ----

  datatype Route = Route(verb: string, pattern: seq<Segment>)

  /** The first route, in order of registration, whose method and pattern match; none gives 404. */
  method Handle(routes: seq<Route>, verb: string, path: string) returns (r: Option<(nat, Binding)>)
    ensures r.None? ==> forall k :: 0 <= k < |routes| ==>
                          routes[k].verb != verb || Match(routes[k].pattern, Segments(path)).None?
    ensures r.Some? ==> var (i, b) := r.value;
                        && i < |routes| && routes[i].verb == verb && Match(routes[i].pattern, Segments(path)) == Some(b)
                        && forall k :: 0 <= k < i ==>
                             routes[k].verb != verb || Match(routes[k].pattern, Segments(path)).None?
  {
    for i := 0 to |routes|
      invariant forall k :: 0 <= k < i ==> routes[k].verb != verb || Match(routes[k].pattern, Segments(path)).None?
    {
      if routes[i].verb != verb {
        continue;
      }
      var m := Matches(routes[i].pattern, path);
      if m.Some? {
        return Some((i, m.value));
      }
    }
    r := None;
  }
}
